/** The bit-banging I2C master on an open-drain bus, and a decoder that listens to
    the two lines (I2C-bus specification UM10204, sections 3.1.3 to 3.1.6). */
module I2cMaster {
  import opened Arithmetic
  import opened Sequences

  // ----- the lines and the decoder -----

  datatype Wire = Wire(sda: bool, scl: bool)

  datatype Event = Start | Stop | Frame(byte: nat, ack: bool)

  function Bit(b: bool): nat {
    if b then 1 else 0
  }

  /** What a listener knows: the levels it saw last, the bit of a clock pulse that
      is not over yet, the bits of the current frame, and the events so far.
      `calm` says that no step changed both lines. */
  datatype Decoder = Decoder(last: Wire, pulse: Option<bool>, count: nat, bits: nat, events: seq<Event>, calm: bool)
  {
    /** SDA falling or rising under high SCL is a START or a STOP; any other
        clock pulse is a bit, and nine bits are a byte and its acknowledgement. */
    function Observe(w: Wire): Decoder {
      var d := this.(last := w, calm := calm && (last.sda == w.sda || last.scl == w.scl));
      if last.scl && w.scl then
        if last.sda == w.sda then d
        else d.(pulse := None, count := 0, bits := 0, events := events + [if w.sda then Stop else Start])
      else if w.scl then d.(pulse := Some(w.sda))
      else if last.scl && pulse.Some? then d.(pulse := None).TakeBit(pulse.value)
      else d
    }

    function TakeBit(b: bool): Decoder {
      if count < 8 then this.(count := count + 1, bits := 2 * bits + Bit(b))
      else this.(count := 0, bits := 0, events := events + [Frame(bits, b)])
    }
  }

  /** A listener that was there from the first levels on. */
  function Decode(trace: seq<Wire>): (d: Decoder)
    requires trace != []
    ensures d.last == trace[|trace| - 1]
  {
    if |trace| == 1 then Decoder(trace[0], None, 0, 0, [], true)
    else Decode(trace[..|trace| - 1]).Observe(trace[|trace| - 1])
  }

  /** What the bus specification says of two levels in a row: SDA falling while SCL
      is high is a START, rising a STOP. */
  lemma EventsAre(sda: bool)
    ensures Decode([Wire(!sda, true), Wire(sda, true)]).events == [if sda then Stop else Start]
  {
    var trace := [Wire(!sda, true), Wire(sda, true)];
    assert trace[..1] == [Wire(!sda, true)];
  }

  /** A clock pulse is a bit, and the ninth one the acknowledgement. */
  lemma PulseIs(d: Decoder, sda: bool)
    requires !d.last.scl
    ensures var r := d.Observe(Wire(sda, false)).Observe(Wire(sda, true)).Observe(Wire(sda, false));
            if d.count < 8
            then r.count == d.count + 1 && r.bits == 2 * d.bits + (if sda then 1 else 0) && r.events == d.events
            else r.count == 0 && r.events == d.events + [Frame(d.bits, sda)]
  {
  }

  /** The number with the given bits, first bit first. */
  function Value(level: nat -> bool, start: nat, n: nat): nat {
    if n == 0 then 0 else 2 * Value(level, start, n - 1) + Bit(level(start + n - 1))
  }

  // ----- transactions -----

  /** A byte sent is followed by receiving its acknowledgement, and a byte
      received by sending one. */
  datatype Op = Begin | Put(data: nat) | Take(ack: bool) | End

  /** How far a transaction is: the falling edges so far, whether SCL is low, and
      whether there was a START without a STOP. */
  datatype Point = Point(falls: nat, low: bool, open: bool)
  {
    function NextBit(): nat {
      if low then falls else falls + 1
    }
  }

  /** What the next operation needs: the slave leaves SDA alone where the master
      is to drive it, and the operations come in a proper order. */
  predicate Allowed(slave: nat -> bool, p: Point, op: Op) {
    match op
    case Begin => slave(p.falls) && (p.open ==> p.low)
    case Put(data) => p.open && data < 256 && forall q :: p.NextBit() <= q < p.NextBit() + 8 ==> slave(q)
    case Take(_) => p.open && slave(p.NextBit() + 8)
    case End => p.open && slave(p.falls)
  }

  function After(p: Point, op: Op): Point {
    match op
    case Begin => Point(p.falls, false, true)
    case Put(_) => Point(p.NextBit() + 9, true, true)
    case Take(_) => Point(p.NextBit() + 9, true, true)
    case End => Point(p.falls, false, false)
  }

  /** What a listener hears of an operation. */
  function Effect(slave: nat -> bool, p: Point, op: Op): Event {
    match op
    case Begin => Start
    case Put(data) => Frame(data, slave(p.NextBit() + 8))
    case Take(ack) => Frame(Value(slave, p.NextBit(), 8), ack)
    case End => Stop
  }

  /** What the master gets from the slave: an acknowledgement level or a byte. */
  function Result(slave: nat -> bool, p: Point, op: Op): nat {
    match op
    case Put(_) => Bit(slave(p.NextBit() + 8))
    case Take(_) => Value(slave, p.NextBit(), 8)
    case _ => 0
  }

  predicate Legal(slave: nat -> bool, p: Point, ops: seq<Op>)
    decreases |ops|
  {
    ops == [] || (Allowed(slave, p, ops[0]) && Legal(slave, After(p, ops[0]), ops[1..]))
  }

  function Effects(slave: nat -> bool, p: Point, ops: seq<Op>): seq<Event>
    decreases |ops|
  {
    if ops == [] then [] else [Effect(slave, p, ops[0])] + Effects(slave, After(p, ops[0]), ops[1..])
  }

  function Results(slave: nat -> bool, p: Point, ops: seq<Op>): seq<nat>
    decreases |ops|
  {
    if ops == [] then [] else [Result(slave, p, ops[0])] + Results(slave, After(p, ops[0]), ops[1..])
  }

  function Reached(p: Point, ops: seq<Op>): Point
    decreases |ops|
  {
    if ops == [] then p else Reached(After(p, ops[0]), ops[1..])
  }

  // ----- bits of a byte -----

  /** The bitwise or. */
  function BitOr(a: nat, b: nat): nat {
    if a == 0 then b
    else if b == 0 then a
    else (if a % 2 == 1 || b % 2 == 1 then 1 else 0) + 2 * BitOr(a / 2, b / 2)
  }

  function ShiftLeft(n: nat, k: nat): nat {
    if k == 0 then n else 2 * ShiftLeft(n, k - 1)
  }

  /** A bit that is clear so far, with all bits below it, is added by the or. */
  lemma {:induction false} OrAdds(v: nat, k: nat, j: nat)
    requires k < 2
    ensures BitOr(ShiftLeft(v, j + 1), ShiftLeft(k, j)) == ShiftLeft(v, j + 1) + ShiftLeft(k, j)
    ensures ShiftLeft(v, j + 1) + ShiftLeft(k, j) == ShiftLeft(2 * v + k, j)
  {
    if j == 0 {
      assert ShiftLeft(v, 1) == 2 * ShiftLeft(v, 0);
    } else {
      OrAdds(v, k, j - 1);
      OrDoubles(ShiftLeft(v, j), ShiftLeft(k, j - 1));
    }
  }

  lemma OrDoubles(a: nat, b: nat)
    ensures BitOr(2 * a, 2 * b) == 2 * BitOr(a, b)
  {
  }

  /** The value holds the first `i` of eight levels in its highest bits. */
  predicate SoFar(level: nat -> bool, start: nat, i: nat, value: nat)
    requires i <= 8
  {
    value == ShiftLeft(Value(level, start, i), 8 - i)
  }

  lemma NoLevels(level: nat -> bool, start: nat)
    ensures SoFar(level, start, 0, 0)
  {
    assert ShiftLeft(0, 8) == 2 * (2 * (2 * (2 * ShiftLeft(0, 4))));
  }

  /** Setting bit `7 - i` brings in the next level. */
  lemma ShiftIn(level: nat -> bool, start: nat, i: nat, value: nat)
    requires i < 8 && SoFar(level, start, i, value)
    ensures SoFar(level, start, i + 1, BitOr(value, ShiftLeft(Bit(level(start + i)), 7 - i)))
  {
    OrAdds(Value(level, start, i), Bit(level(start + i)), 7 - i);
  }

  /** The bits of a byte, most significant first, read as that byte. */
  lemma {:induction false} ReadsAs(level: nat -> bool, start: nat, n: nat, data: nat)
    requires n <= 8 && data < 256
    requires forall j {:trigger ShiftRight(data, j)} :: 0 <= j < 8 ==>
               (level(start + 7 - j) <==> ShiftRight(data, j) % 2 == 1)
    ensures Value(level, start, n) == ShiftRight(data, 8 - n)
  {
    if n == 0 {
      NothingLeft(data);
    } else {
      ReadsAs(level, start, n - 1, data);
      assert level(start + 7 - (8 - n)) <==> ShiftRight(data, 8 - n) % 2 == 1;
    }
  }

  function ShiftRight(n: nat, k: nat): nat {
    if k == 0 then n else ShiftRight(n, k - 1) / 2
  }

  lemma NothingLeft(n: nat)
    requires n < 256
    ensures ShiftRight(n, 8) == 0
  {
    assert Pow2(8) == 256;
    ShiftBound(n, 8, 0);
  }

  lemma {:induction false} ShiftBound(n: nat, k: nat, m: nat)
    requires n < Pow2(k + m)
    ensures ShiftRight(n, k) < Pow2(m)
  {
    if k == 0 {
    } else {
      ShiftBound(n, k - 1, m + 1);
    }
  }

  // ----- the master -----

  /** The slave drives SDA with level `slave(p)` from the `p`-th falling edge of
      SCL to the next one; SDA is low when either side pulls it low. */
  class Master {
    const slave: nat -> bool
    var sda: bool
    var scl: bool
    var falls: nat
    var trace: seq<Wire>

    predicate Valid()
      reads this
    {
      trace != [] && trace[|trace| - 1] == Level()
    }

    function Level(): Wire
      reads this
    {
      Wire(sda && slave(falls), scl)
    }

    function Heard(): Decoder
      requires Valid()
      reads this
    {
      Decode(trace)
    }

    constructor (slave: nat -> bool)
      ensures Valid() && this.slave == slave && falls == 0 && sda && scl
      ensures Heard() == Decoder(Wire(slave(0), true), None, 0, 0, [], true)
    {
      this.slave := slave;
      sda, scl, falls := true, true, 0;
      trace := [Wire(slave(0), true)];
    }

    method Sample()
      requires trace != []
      modifies this`trace
      ensures Valid() && Heard() == Decode(old(trace)).Observe(Level())
    {
      trace := trace + [Level()];
      assert trace[..|trace| - 1] == old(trace);
    }

    /** Drives both lines. When SCL falls, the slave may change its level. */
    method SetDc(sda: nat, scl: nat)
      requires Valid()
      modifies this
      ensures Valid() && this.sda == (sda % 2 == 1) && this.scl == (scl % 2 == 1)
      ensures falls == old(falls) + if old(this.scl) && !this.scl then 1 else 0
      ensures var seen := old(Heard()).Observe(Wire(this.sda && slave(old(falls)), this.scl));
              Heard() == if old(this.scl) && !this.scl then seen.Observe(Level()) else seen
    {
      var falling := this.scl && scl % 2 == 0;
      this.sda := sda % 2 == 1;
      this.scl := scl % 2 == 1;
      Sample();
      if falling {
        falls := falls + 1;
        Sample();
      }
    }

    method GetDc() returns (level: nat)
      requires Valid()
      ensures level == Bit(Heard().last.sda)
    {
      level := Bit(sda && slave(falls));
    }

    /** The number of falling edges before the next bit. */
    function NextBit(): nat
      reads this
    {
      if scl then falls + 1 else falls
    }

    /** Between frames: SCL is low, or it is high after a START and SDA low. */
    predicate Between()
      requires Valid()
      reads this
    {
      var d := Heard();
      d.pulse == None && d.count == 0 && d.bits == 0 && d.calm && (scl ==> !sda)
    }

    method Start()
      requires Valid() && Heard().calm && slave(falls)
      requires Heard().pulse == None && (scl ==> sda)
      modifies this
      ensures Valid() && Between() && scl && falls == old(falls)
      ensures Heard().events == old(Heard().events) + [Event.Start]
    {
      SetDc(1, Bit(scl));
      SetDc(1, 1);
      SetDc(0, 1);
    }

    method Stop()
      requires Valid() && Between() && slave(falls)
      modifies this
      ensures Valid() && sda && scl && falls == old(falls)
      ensures Heard().events == old(Heard().events) + [Event.Stop] && Heard().pulse == None && Heard().calm
    {
      SetDc(0, Bit(scl));
      SetDc(0, 1);
      SetDc(1, 1);
    }

    /** Sends an acknowledgement level. */
    method SetAck(level: nat)
      requires Valid() && !scl && Heard().calm && Heard().pulse == None && Heard().count == 8
      requires slave(falls)
      modifies this
      ensures Valid() && Between() && !scl && sda && falls == old(falls) + 1
      ensures Heard().events == old(Heard().events) + [Frame(old(Heard().bits), level % 2 == 1)]
    {
      SetDc(Bit(sda), 0);
      SetDc(level, 0);
      SetDc(level, 1);
      SetDc(level, 0);
      SetDc(1, 0);
    }

    /** Receives the acknowledgement level. */
    method GetAck() returns (level: nat)
      requires Valid() && !scl && Heard().calm && Heard().pulse == None && Heard().count == 8
      modifies this
      ensures Valid() && Between() && !scl && sda && falls == old(falls) + 1
      ensures level == Bit(slave(old(falls)))
      ensures Heard().events == old(Heard().events) + [Frame(old(Heard().bits), slave(old(falls)))]
    {
      SetDc(Bit(sda), 0);
      SetDc(1, 0);
      SetDc(1, 1);
      level := GetDc();
      SetDc(1, 0);
    }

    /** The first `i` bits have been clocked in; the last of these pulses is
        still high. */
    predicate Reading(start: nat, i: nat, events: seq<Event>)
      requires Valid()
      reads this
    {
      if i == 0 then
        !scl && falls == start && Heard() == Decoder(Level(), None, 0, 0, events, true)
      else
        && sda && scl && falls == start + i - 1
        && Heard() == Decoder(Level(), Some(slave(falls)), i - 1, Value(slave, start, i - 1), events, true)
    }

    /** The line before a byte: SCL falls after a START and is low otherwise. */
    method GoLow()
      requires Valid() && Between()
      modifies this
      ensures Valid() && sda == old(sda) && !scl && falls == old(NextBit())
      ensures Heard() == Decoder(Level(), None, 0, 0, old(Heard().events), true)
    {
      SetDc(Bit(sda), 0);
    }

    method ReadBit(ghost start: nat, ghost i: nat, ghost events: seq<Event>) returns (k: nat)
      requires Valid() && i < 8 && Reading(start, i, events)
      modifies this
      ensures Valid() && Reading(start, i + 1, events) && k == Bit(slave(start + i))
    {
      SetDc(1, 0);
      assert Heard() == Decoder(Level(), None, i, Value(slave, start, i), events, true);
      SetDc(1, 1);
      k := GetDc();
    }

    /** Receives a byte, most significant bit first. */
    method ReadByte() returns (value: nat)
      requires Valid() && Between()
      modifies this
      ensures Valid() && !scl && sda && falls == old(NextBit()) + 8
      ensures value == Value(slave, old(NextBit()), 8)
      ensures Heard() == Decoder(Level(), None, 8, value, old(Heard().events), true)
    {
      ghost var start, events := NextBit(), Heard().events;
      value := 0;
      GoLow();
      NoLevels(slave, start);
      var i := 0;
      while i < 8
        invariant 0 <= i <= 8 && Valid() && Reading(start, i, events)
        invariant SoFar(slave, start, i, value)
      {
        var k := ReadBit(start, i, events);
        ShiftIn(slave, start, i, value);
        value := BitOr(value, ShiftLeft(k, 7 - i));
        i := i + 1;
      }
      SetDc(1, 0);
    }

    /** Sends a byte, most significant bit first. */
    method WriteByte(data: nat)
      requires Valid() && Between() && data < 256
      requires forall p :: NextBit() <= p < NextBit() + 8 ==> slave(p)
      modifies this
      ensures Valid() && !scl && falls == old(NextBit()) + 8
      ensures Heard() == Decoder(Level(), None, 8, data, old(Heard().events), true)
    {
      ghost var start, events := NextBit(), Heard().events;
      GoLow();
      var i: int := 7;
      NothingLeft(data);
      while i >= 0
        invariant -1 <= i <= 7 && Valid() && !scl && falls == start + 7 - i
        invariant Heard() == Decoder(Level(), None, 7 - i, ShiftRight(data, i + 1), events, true)
      {
        var dat := ShiftRight(data, i);
        WriteBit(dat, ShiftRight(data, i + 1));
        i := i - 1;
      }
    }

    predicate IsAt(p: Point)
      reads this
    {
      && Valid() && falls == p.falls && scl == !p.low && Heard().calm && Heard().pulse == None
      && if p.open then Between() else sda && scl
    }

    method Perform(op: Op, ghost p: Point) returns (result: nat)
      requires IsAt(p) && Allowed(slave, p, op)
      modifies this
      ensures IsAt(After(p, op)) && result == Result(slave, p, op)
      ensures Heard().events == old(Heard().events) + [Effect(slave, p, op)]
    {
      result := 0;
      match op {
        case Begin => Start();
        case End => Stop();
        case Put(data) =>
          WriteByte(data);
          result := GetAck();
        case Take(ack) =>
          result := ReadByte();
          SetAck(Bit(ack));
      }
    }

    /** A whole transaction, with what the listener hears of it and what the master
        gets from it. */
    method Transfer(ops: seq<Op>, ghost p: Point) returns (results: seq<nat>)
      requires IsAt(p) && Legal(slave, p, ops)
      modifies this
      ensures IsAt(Reached(p, ops)) && results == Results(slave, p, ops)
      ensures Heard().events == old(Heard().events) + Effects(slave, p, ops)
      decreases |ops|
    {
      results := [];
      if ops != [] {
        var result := Perform(ops[0], p);
        results := Transfer(ops[1..], After(p, ops[0]));
        results := [result] + results;
      }
    }

    method WriteBit(dat: nat, ghost bits: nat)
      requires Valid() && !scl && slave(falls) && Heard().count < 8
      requires Heard().pulse == None && Heard().calm && Heard().bits == bits
      modifies this
      ensures Valid() && !scl && falls == old(falls) + 1
      ensures Heard() == Decoder(Level(), None, old(Heard().count) + 1, 2 * bits + dat % 2, old(Heard().events), true)
    {
      SetDc(dat, 0);
      SetDc(dat, 1);
      SetDc(dat, 0);
    }
  }
}
