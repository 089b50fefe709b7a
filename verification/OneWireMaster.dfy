/** The bus master: the wired-AND bus as it answers a ROM search, and the search
    routine over an 8-byte ROM buffer. */
module OneWireMaster {
  import opened OneWireRoms
  import opened OneWireSearch

  const SEARCH_COMMAND: bv8 := 0xF0

  // ----- bits of a byte buffer -----

  const MASKS: seq<bv8> := [0x01, 0x02, 0x04, 0x08, 0x10, 0x20, 0x40, 0x80]

  function Mask(k: nat): bv8
    requires k < 8
  {
    MASKS[k]
  }

  predicate BitAt(b: bv8, k: nat)
    requires k < 8
  {
    Has(b, Mask(k))
  }

  /** Bit `i` of a byte buffer, least significant bit of byte 0 first. */
  predicate BitOf(bytes: seq<bv8>, i: nat)
    requires |bytes| == 8 && i < ROM_BITS
  {
    BitAt(bytes[i / 8], i % 8)
  }

  function BitsOfByte(b: bv8): seq<bool> {
    seq(8, k requires 0 <= k < 8 => BitAt(b, k))
  }

  /** The bits of an 8-byte ROM code. */
  function RomOf(bytes: seq<bv8>): Rom
    requires |bytes| == 8
  {
    seq(ROM_BITS, i requires 0 <= i < ROM_BITS => BitOf(bytes, i))
  }

  /** Bit `i` of the ROM is bit `i % 8` of byte `i / 8`, counted from the lowest. */
  lemma RomBitIs(bytes: seq<bv8>, i: nat)
    requires |bytes| == 8 && i < 64
    ensures RomOf(bytes)[i] <==> (bytes[i / 8] >> (i % 8)) & 1 == 1
  {
    ShiftedBit(bytes[i / 8], i % 8);
  }

  lemma ShiftedBit(b: bv8, k: nat)
    requires k < 8
    ensures BitAt(b, k) <==> (b >> k) & 1 == 1
  {
    if k == 0 {
      assert b & 0x01 != 0 <==> (b >> 0) & 1 == 1;
    } else if k == 1 {
      assert b & 0x02 != 0 <==> (b >> 1) & 1 == 1;
    } else if k == 2 {
      assert b & 0x04 != 0 <==> (b >> 2) & 1 == 1;
    } else if k == 3 {
      assert b & 0x08 != 0 <==> (b >> 3) & 1 == 1;
    } else if k == 4 {
      assert b & 0x10 != 0 <==> (b >> 4) & 1 == 1;
    } else if k == 5 {
      assert b & 0x20 != 0 <==> (b >> 5) & 1 == 1;
    } else if k == 6 {
      assert b & 0x40 != 0 <==> (b >> 6) & 1 == 1;
    } else {
      assert b & 0x80 != 0 <==> (b >> 7) & 1 == 1;
    }
  }

  lemma Masks(j: nat, k: nat)
    requires j < 8 && k < 8
    ensures Mask(j) != 0
    ensures j != k ==> Mask(j) & Mask(k) == 0 && Mask(j) != Mask(k)
  {
  }

  predicate Has(b: bv8, m: bv8) {
    b & m != 0
  }

  function Set(b: bv8, m: bv8): bv8 {
    b | m
  }

  function Clear(b: bv8, m: bv8): bv8 {
    b & !m
  }

  lemma SetMask(b: bv8, m: bv8, n: bv8)
    requires m != 0 && (m == n || m & n == 0)
    ensures Has(Set(b, m), n) == (m == n || Has(b, n))
    ensures Has(Clear(b, m), n) == (m != n && Has(b, n))
  {
  }

  lemma SetBit(b: bv8, k: nat, j: nat)
    requires k < 8 && j < 8
    ensures BitAt(Set(b, Mask(k)), j) == (j == k || BitAt(b, j))
    ensures BitAt(Clear(b, Mask(k)), j) == (j != k && BitAt(b, j))
  {
    Masks(k, j);
    SetMask(b, Mask(k), Mask(j));
  }

  lemma MaskShift(k: nat)
    requires k < 8
    ensures Mask(k) << 1 == if k == 7 then 0 else Mask(k + 1)
  {
  }

  lemma ZeroByte(b: bv8)
    ensures b == 0 <==> forall k :: 0 <= k < 8 ==> !BitAt(b, k)
  {
    if b != 0 {
      assert BitAt(b, 0) || BitAt(b, 1) || BitAt(b, 2) || BitAt(b, 3)
          || BitAt(b, 4) || BitAt(b, 5) || BitAt(b, 6) || BitAt(b, 7);
    }
  }

  function WithBit(b: bv8, mask: bv8, bit: bool): bv8 {
    if bit then Set(b, mask) else Clear(b, mask)
  }

  lemma WriteBitAt(bytes: seq<bv8>, p: nat, k: nat, bit: bool, q: nat, l: nat)
    requires |bytes| == 8 && p < 8 && k < 8 && q < 8 && l < 8
    ensures BitAt(bytes[p := WithBit(bytes[p], Mask(k), bit)][q], l)
         == if p == q && k == l then bit else BitAt(bytes[q], l)
  {
    if p == q {
      SetBit(bytes[p], k, l);
    }
  }

  /** Writing one bit of the buffer through its byte and mask. */
  lemma WriteBit(bytes: seq<bv8>, i: nat, bit: bool)
    requires |bytes| == 8 && i < ROM_BITS
    ensures RomOf(bytes[i / 8 := WithBit(bytes[i / 8], Mask(i % 8), bit)]) == RomOf(bytes)[i := bit]
  {
    var bytes' := bytes[i / 8 := WithBit(bytes[i / 8], Mask(i % 8), bit)];
    forall j | 0 <= j < ROM_BITS
      ensures RomOf(bytes')[j] == RomOf(bytes)[i := bit][j]
    {
      WriteBitAt(bytes, i / 8, i % 8, bit, j / 8, j % 8);
    }
  }

  // ----- the bus -----

  /** The slaves on the bus. During a search each slave that still takes part
      answers its next bit, then the complement, and drops out if the master
      then writes the other value; the line is low if anyone pulls it low. */
  class Bus {
    const devices: set<Rom>
    var active: set<Rom>
    var position: nat
    var phase: nat
    ghost var path: seq<bool>     // the bits written since the search began

    ghost predicate Searching()
      reads this
    {
      && |path| == position <= ROM_BITS && phase < 3
      && active == Matching(devices, path)
    }

    constructor (devices: set<Rom>)
      ensures this.devices == devices
    {
      this.devices := devices;
      active, position, phase, path := {}, 0, 0, [];
    }

    /** Returns 0 if a device answers the reset, 1 if none does. */
    method Reset() returns (r: nat)
      modifies this
      ensures r == if devices == {} then 1 else 0
    {
      active := {};
      r := if devices == {} then 1 else 0;
    }

    method Write(v: bv8)
      modifies this
      ensures v == SEARCH_COMMAND ==> Searching() && path == [] && phase == 0
    {
      if v == SEARCH_COMMAND {
        active, position, phase, path := devices, 0, 0, [];
        AllMatchNothing(devices);
      }
    }

    method ReadBit() returns (bit: bool)
      requires Searching() && position < ROM_BITS
      modifies this`phase
      ensures Searching() && phase == if old(phase) < 2 then old(phase) + 1 else 2
      ensures old(phase) == 0 ==> (bit <==> forall r :: r in active ==> r[position])
      ensures old(phase) == 1 ==> (bit <==> forall r :: r in active ==> !r[position])
    {
      bit := if phase == 0 then forall r | r in active :: r[position]
             else if phase == 1 then forall r | r in active :: !r[position]
             else true;
      if phase < 2 {
        phase := phase + 1;
      }
    }

    method WriteBit(bit: bool)
      requires Searching() && position < ROM_BITS && phase == 2
      modifies this
      ensures Searching() && phase == 0 && path == old(path) + [bit]
    {
      MatchingStep(devices, path, bit);
      active := set r | r in active && r[position] == bit;
      position, phase, path := position + 1, 0, path + [bit];
    }
  }

  // ----- the search routine -----

  class Master {
    const bus: Bus
    const romNo: array<bv8>
    var lastDiscrepancy: nat
    var lastDeviceFlag: bool

    ghost predicate Valid()
      reads this
    {
      romNo.Length == 8
    }

    ghost function State(): Search
      requires Valid()
      reads this, romNo
    {
      Search(RomOf(romNo[..]), lastDiscrepancy, lastDeviceFlag)
    }

    constructor (bus: Bus)
      ensures Valid() && this.bus == bus && fresh(romNo)
      ensures State().Fresh()
    {
      this.bus := bus;
      this.romNo := new bv8[8];
      this.lastDiscrepancy := 0;
      this.lastDeviceFlag := false;
    }

    method ResetSearch()
      requires Valid()
      modifies this, romNo
      ensures State() == Search(ZERO_ROM, 0, false)
    {
      lastDiscrepancy := 0;
      lastDeviceFlag := false;
      for i := 0 to 8
        invariant lastDiscrepancy == 0 && !lastDeviceFlag
        invariant forall j :: 0 <= j < i ==> romNo[j] == 0
      {
        romNo[i] := 0;
      }
      forall i | 0 <= i < ROM_BITS
        ensures RomOf(romNo[..])[i] == ZERO_ROM[i]
      {
        ZeroByte(romNo[i / 8]);
      }
    }

    method TargetSearch(familyCode: bv8)
      requires Valid()
      modifies this, romNo
      ensures State() == Target(BitsOfByte(familyCode))
    {
      ResetSearch();
      ghost var zeros := romNo[..];
      romNo[0] := familyCode;
      lastDiscrepancy := 64;
      forall i | 0 <= i < ROM_BITS
        ensures RomOf(romNo[..])[i] == Target(BitsOfByte(familyCode)).rom[i]
      {
        if i >= FAMILY_BITS {
          assert RomOf(romNo[..])[i] == RomOf(zeros)[i];
        }
      }
    }

    /** Sets or clears the bit with the given mask in one byte of the buffer. */
    method SetRomBit(byteNumber: nat, mask: bv8, i: nat, bit: bool)
      requires Valid() && i < ROM_BITS && byteNumber == i / 8 && mask == Mask(i % 8)
      modifies romNo
      ensures RomOf(romNo[..]) == RomOf(old(romNo[..]))[i := bit]
    {
      WriteBit(romNo[..], i, bit);
      romNo[byteNumber] := WithBit(romNo[byteNumber], mask, bit);
      assert romNo[..] == old(romNo[..])[byteNumber := romNo[byteNumber]];
    }

    /** The bit the search takes next, from the two bits read off the bus. */
    method Decide(idBit: bool, cmpIdBit: bool, id: nat, known: bool, lastZero0: nat)
      returns (direction: bool, lastZero: nat)
      requires Valid() && bus.Searching() && id == bus.position + 1 <= ROM_BITS && bus.active != {}
      requires idBit <==> forall r :: r in bus.active ==> r[bus.position]
      requires cmpIdBit <==> forall r :: r in bus.active ==> !r[bus.position]
      requires lastZero0 == LastZero(bus.devices, bus.path)
      ensures forall rom: Rom :: rom[id - 1] == known ==>
                direction == Direction(bus.devices, rom, lastDiscrepancy, bus.path)
      ensures lastZero == LastZero(bus.devices, bus.path + [direction])
    {
      lastZero := lastZero0;
      if idBit != cmpIdBit {
        direction := idBit;
      } else {
        if id < lastDiscrepancy {
          direction := known;
        } else {
          direction := id == lastDiscrepancy;
        }
        if !direction {
          lastZero := id;
        }
      }
      var r :| r in bus.active;
      assert idBit ==> r[bus.position];
      assert (bus.path + [direction])[..id - 1] == bus.path;
      assert Branches(bus.devices, bus.path) <==> !idBit && !cmpIdBit;
    }

    /** Decides one bit, stores it in the ROM buffer and writes it to the bus. */
    method TakeBranch(idBit: bool, cmpIdBit: bool, id: nat, byteNumber: nat, mask: bv8, lastZero0: nat, ghost rom: Rom)
      returns (lastZero: nat)
      requires Valid() && bus.Searching() && bus.phase == 2 && id == bus.position + 1 <= ROM_BITS
      requires bus.active != {} && byteNumber == (id - 1) / 8 && mask == Mask((id - 1) % 8)
      requires idBit <==> forall r :: r in bus.active ==> r[bus.position]
      requires cmpIdBit <==> forall r :: r in bus.active ==> !r[bus.position]
      requires lastZero0 == LastZero(bus.devices, bus.path)
      requires bus.path == RomOf(romNo[..])[..id - 1]
      requires RomOf(romNo[..])[id - 1] == rom[id - 1]
      modifies romNo, bus
      ensures bus.Searching() && bus.phase == 0 && bus.active != {}
      ensures bus.path == RomOf(romNo[..])[..id]
      ensures bus.path == old(bus.path) + [Direction(bus.devices, rom, lastDiscrepancy, old(bus.path))]
      ensures forall j :: id <= j < ROM_BITS ==> RomOf(romNo[..])[j] == RomOf(old(romNo[..]))[j]
      ensures lastZero == LastZero(bus.devices, bus.path)
    {
      var known := romNo[byteNumber] & mask != 0;
      assert known == RomOf(romNo[..])[id - 1];
      var direction;
      direction, lastZero := Decide(idBit, cmpIdBit, id, known, lastZero0);
      assert direction == Direction(bus.devices, rom, lastDiscrepancy, bus.path);
      DirectionKeepsDevices(bus.devices, rom, lastDiscrepancy, bus.path);
      ghost var before := RomOf(romNo[..]);
      SetRomBit(byteNumber, mask, id - 1, direction);
      bus.WriteBit(direction);
      PathGrows(before, id, direction);
    }

    /** Moves on to the next bit of the ROM buffer. */
    static method AdvanceMask(byteNumber0: nat, mask0: bv8, i: nat) returns (byteNumber: nat, mask: bv8)
      requires i < ROM_BITS && byteNumber0 == i / 8 && mask0 == Mask(i % 8)
      ensures byteNumber == (i + 1) / 8 && mask == Mask((i + 1) % 8)
    {
      MaskShift(i % 8);
      byteNumber := byteNumber0;
      mask := mask0 << 1;
      if mask == 0 {
        byteNumber := byteNumber + 1;
        mask := 0x01;
      }
    }

    /** The search is about to take bit `id`: the bits before it are those written
        to the bus, and the bits from it on are still those of `rom`. */
    ghost predicate AtBit(id: nat, byteNumber: nat, mask: bv8, lastZero: nat, rom: Rom)
      reads this, romNo, bus
    {
      && Valid() && 1 <= id <= ROM_BITS + 1
      && byteNumber == (id - 1) / 8 && mask == Mask((id - 1) % 8)
      && bus.Searching() && bus.phase == 0 && bus.active != {}
      && bus.position == id - 1 && bus.path == RomOf(romNo[..])[..id - 1]
      && (forall j :: id - 1 <= j < ROM_BITS ==> RomOf(romNo[..])[j] == rom[j])
      && lastZero == LastZero(bus.devices, bus.path)
    }

    /** Reads a bit and its complement off the bus, and takes the next bit unless
        no device answers. */
    method WalkBit(id: nat, byteNumber0: nat, mask0: bv8, lastZero0: nat, ghost rom: Rom)
      returns (found: bool, byteNumber: nat, mask: bv8, lastZero: nat)
      requires id <= ROM_BITS && AtBit(id, byteNumber0, mask0, lastZero0, rom)
      modifies romNo, bus
      ensures found && AtBit(id + 1, byteNumber, mask, lastZero, rom)
      ensures Walk(bus.devices, rom, lastDiscrepancy, bus.path)
           == Walk(bus.devices, rom, lastDiscrepancy, old(bus.path))
    {
      byteNumber, mask, lastZero := byteNumber0, mask0, lastZero0;
      var idBit := bus.ReadBit();
      var cmpIdBit := bus.ReadBit();
      found := !(idBit && cmpIdBit);
      if found {
        lastZero := TakeBranch(idBit, cmpIdBit, id, byteNumber, mask, lastZero, rom);
        byteNumber, mask := AdvanceMask(byteNumber, mask, id - 1);
      }
    }

    /** Follows one path from the root of the trie to a device. */
    method WalkDown() returns (lastZero: nat, idBitNumber: nat)
      requires Valid() && bus.Searching() && bus.path == [] && bus.phase == 0 && bus.devices != {}
      modifies romNo, bus
      ensures idBitNumber == ROM_BITS + 1
      ensures RomOf(romNo[..]) == Walk(bus.devices, old(RomOf(romNo[..])), lastDiscrepancy, [])
      ensures lastZero == LastZero(bus.devices, RomOf(romNo[..]))
    {
      ghost var rom := RomOf(romNo[..]);
      idBitNumber, lastZero := 1, 0;
      var romByteNumber, romByteMask := 0, 0x01 as bv8;
      AllMatchNothing(bus.devices);
      assert RomOf(romNo[..])[..0] == [];
      while romByteNumber < 8
        invariant AtBit(idBitNumber, romByteNumber, romByteMask, lastZero, rom)
        invariant Walk(bus.devices, rom, lastDiscrepancy, bus.path) == Walk(bus.devices, rom, lastDiscrepancy, [])
        decreases ROM_BITS + 1 - idBitNumber
      {
        var found;
        found, romByteNumber, romByteMask, lastZero :=
          WalkBit(idBitNumber, romByteNumber, romByteMask, lastZero, rom);
        if !found {
          break;
        }
        idBitNumber := idBitNumber + 1;
      }
      assert RomOf(romNo[..])[..ROM_BITS] == RomOf(romNo[..]);
    }

    /** One search call: drives the bus through a search and leaves exactly the
        state and the result of `Next`. */
    method SearchNext(newAddr: array<bv8>) returns (found: bool)
      requires Valid() && newAddr.Length == 8 && newAddr != romNo
      modifies this, romNo, bus, newAddr
      ensures (State(), found) == Next(bus.devices, old(State()))
      ensures newAddr[..] == if bus.devices == {} && !old(lastDeviceFlag) then old(newAddr[..]) else romNo[..]
    {
      found := false;
      if !lastDeviceFlag {
        var absent := bus.Reset();
        if absent != 0 {
          lastDiscrepancy := 0;
          lastDeviceFlag := false;
          return false;
        }
        bus.Write(SEARCH_COMMAND);
        var lastZero, idBitNumber := WalkDown();
        if idBitNumber >= ROM_BITS + 1 {
          lastDiscrepancy := lastZero;
          if lastDiscrepancy == 0 {
            lastDeviceFlag := true;
          }
          found := true;
        }
      }
      FirstByte(romNo[..]);
      if !found || romNo[0] == 0 {
        lastDiscrepancy := 0;
        lastDeviceFlag := false;
        found := false;
      }
      CopyRom(newAddr);
    }

    method CopyRom(newAddr: array<bv8>)
      requires Valid() && newAddr.Length == 8 && newAddr != romNo
      modifies newAddr
      ensures newAddr[..] == romNo[..]
    {
      for i := 0 to 8
        invariant forall j :: 0 <= j < i ==> newAddr[j] == romNo[j]
      {
        newAddr[i] := romNo[i];
      }
    }
  }

  lemma PathGrows(rom: seq<bool>, id: nat, bit: bool)
    requires 0 < id <= |rom|
    ensures rom[id - 1 := bit][..id] == rom[..id - 1] + [bit]
    ensures forall j :: id <= j < |rom| ==> rom[id - 1 := bit][j] == rom[j]
  {
  }

  lemma FirstByte(bytes: seq<bv8>)
    requires |bytes| == 8
    ensures bytes[0] == 0 <==> ZeroFamily(RomOf(bytes))
  {
    ZeroByte(bytes[0]);
    assert forall i :: 0 <= i < 8 ==> RomOf(bytes)[i] == BitAt(bytes[0], i);
  }
}
