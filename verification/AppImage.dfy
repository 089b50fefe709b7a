/** The firmware image builder: a header, three segments, zero fill and a checksum
    byte, and a loader that takes the image apart again. */
module AppImage {
  import opened Arithmetic
  import opened Sequences

  type Byte = n: nat | n < 256

  const CHECKSUM_INIT: Byte := 0xEF
  const BIN_MAGIC_FLASH: Byte := 0xE9
  const BIN_MAGIC_IROM: Byte := 0xEA
  const TEXT_ADDRESS := 0x40100000
  const FLASH_DATA_LINE := 16
  const IROM_OFFSET := 0x10000

  // ----- little-endian numbers -----

  /** The `k` lowest bytes of `n`, lowest first. */
  function Le(n: nat, k: nat): (s: seq<Byte>)
    ensures |s| == k
  {
    if k == 0 then [] else [n % 256] + Le(n / 256, k - 1)
  }

  function FromLe(s: seq<Byte>): nat {
    if s == [] then 0 else s[0] + 256 * FromLe(s[1..])
  }

  function Pow256(k: nat): nat {
    if k == 0 then 1 else 256 * Pow256(k - 1)
  }

  lemma {:induction false} LeRoundTrip(n: nat, k: nat)
    requires n < Pow256(k)
    ensures FromLe(Le(n, k)) == n
  {
    if k == 0 {
    } else {
      LeRoundTrip(n / 256, k - 1);
      assert Le(n, k)[1..] == Le(n / 256, k - 1);
    }
  }

  /** Byte `i` of a number, byte 0 the lowest. */
  function ByteOf(n: nat, i: nat): nat {
    if i == 0 then n % 256 else ByteOf(n / 256, i - 1)
  }

  lemma {:induction false} LeAt(n: nat, k: nat, i: nat)
    requires i < k
    ensures Le(n, k)[i] == ByteOf(n, i)
  {
    if i == 0 {
    } else {
      LeAt(n / 256, k - 1, i - 1);
    }
  }

  // ----- what is written -----

  function RoundUp(n: nat, line: nat): nat
    requires line > 0
  {
    (n + line - 1) / line * line
  }

  function Zeros(n: nat): (s: seq<Byte>)
    ensures |s| == n
  {
    seq(n, _ => 0)
  }

  datatype Segment = Segment(addr: nat, data: seq<Byte>)

  function Padded(data: seq<Byte>, line: nat): seq<Byte>
    requires line > 0
  {
    data + Zeros(RoundUp(|data|, line) - |data|)
  }

  /** A section as it is written: nothing at all when it is empty. */
  function SegmentBytes(s: Segment, line: nat): seq<Byte>
    requires line > 0
  {
    if s.data == [] then []
    else Le(s.addr, 4) + Le(RoundUp(|s.data|, line), 4) + Padded(s.data, line)
  }

  /** Exclusive or of all bits. */
  function BitXor(a: nat, b: nat): nat {
    if a == 0 then b
    else if b == 0 then a
    else (a % 2 + b % 2) % 2 + 2 * BitXor(a / 2, b / 2)
  }

  lemma {:induction false} XorBound(a: nat, b: nat, k: nat)
    requires a < Pow2(k) && b < Pow2(k)
    ensures BitXor(a, b) < Pow2(k)
  {
    if a != 0 && b != 0 {
      XorBound(a / 2, b / 2, k - 1);
    }
  }

  function Bit(n: nat, k: nat): (b: nat)
    ensures b < 2
  {
    if k == 0 then n % 2 else Bit(n / 2, k - 1)
  }

  lemma XorHalves(a: nat, b: nat)
    ensures BitXor(a, b) % 2 == (a % 2 + b % 2) % 2 && BitXor(a, b) / 2 == BitXor(a / 2, b / 2)
  {
    if a == 0 || b == 0 {
    } else {
      Halves((a % 2 + b % 2) % 2, BitXor(a / 2, b / 2));
    }
  }

  lemma Halves(r: nat, x: nat)
    requires r < 2
    ensures (r + 2 * x) % 2 == r && (r + 2 * x) / 2 == x
  {
  }

  /** A bit is set if and only if it is set in exactly one of the two. */
  lemma {:induction false} XorBit(a: nat, b: nat, k: nat)
    ensures Bit(BitXor(a, b), k) == 1 <==> Bit(a, k) != Bit(b, k)
    decreases k
  {
    XorHalves(a, b);
    if k == 0 {
    } else {
      XorBit(a / 2, b / 2, k - 1);
    }
  }

  function XorByte(a: Byte, b: Byte): (c: Byte)
    ensures b == 0 ==> c == a
  {
    assert Pow2(8) == 256;
    XorBound(a, b, 8);
    BitXor(a, b)
  }

  function Xor(sum: Byte, data: seq<Byte>): Byte
    decreases |data|
  {
    if data == [] then sum else Xor(XorByte(sum, data[0]), data[1..])
  }

  lemma {:induction false} XorAppend(sum: Byte, a: seq<Byte>, b: seq<Byte>)
    ensures Xor(sum, a + b) == Xor(Xor(sum, a), b)
    decreases |a|
  {
    if a == [] {
      assert a + b == b;
    } else {
      assert (a + b)[1..] == a[1..] + b;
      XorAppend(XorByte(sum, a[0]), a[1..], b);
    }
  }

  /** The bytes in which a bit is set. */
  function HowMany(data: seq<Byte>, k: nat): nat {
    if data == [] then 0 else Bit(data[0], k) + HowMany(data[1..], k)
  }

  /** A bit of the exclusive or of all is set if and only if it is set in an odd
      number of them. */
  lemma {:induction false} XorBits(sum: Byte, data: seq<Byte>, k: nat)
    ensures Bit(Xor(sum, data), k) == (Bit(sum, k) + HowMany(data, k)) % 2
    decreases |data|
  {
    if data == [] {
    } else {
      XorBit(sum, data[0], k);
      XorBits(XorByte(sum, data[0]), data[1..], k);
      OneMoreByte(Bit(sum, k), Bit(data[0], k), HowMany(data[1..], k));
    }
  }

  lemma OneMoreByte(a: nat, b: nat, n: nat)
    requires a < 2 && b < 2
    ensures ((if a != b then 1 else 0) + n) % 2 == (a + (b + n)) % 2
  {
  }

  lemma {:induction false} HowManyConcat(a: seq<Byte>, b: seq<Byte>, k: nat)
    ensures HowMany(a + b, k) == HowMany(a, k) + HowMany(b, k)
    decreases |a|
  {
    if a == [] {
      assert a + b == b;
    } else {
      assert (a + b)[1..] == a[1..] + b;
      HowManyConcat(a[1..], b, k);
    }
  }

  lemma {:induction false} XorZeros(sum: Byte, n: nat)
    ensures Xor(sum, Zeros(n)) == sum
  {
    if n == 0 {
    } else {
      assert Zeros(n)[1..] == Zeros(n - 1);
      XorZeros(sum, n - 1);
    }
  }

  // ----- the builder -----

  class Builder {
    var file: seq<Byte>
    var chkSum: Byte
    var blocks: nat

    constructor (before: seq<Byte>)
      ensures file == before && chkSum == CHECKSUM_INIT && blocks == 0
    {
      file, chkSum, blocks := before, CHECKSUM_INIT, 0;
    }

    method WriteFile(data: seq<Byte>)
      modifies this`file
      ensures file == old(file) + data
    {
      file := file + data;
    }

    method AddToSum(data: seq<Byte>)
      modifies this`chkSum
      ensures chkSum == Xor(old(chkSum), data)
      ensures forall k: nat :: Bit(chkSum, k) == (Bit(old(chkSum), k) + HowMany(data, k)) % 2
    {
      var loop := 0;
      forall k: nat
        ensures Bit(Xor(chkSum, data), k) == (Bit(chkSum, k) + HowMany(data, k)) % 2
      {
        XorBits(chkSum, data, k);
      }
      while loop < |data|
        invariant 0 <= loop <= |data| && Xor(chkSum, data[loop..]) == Xor(old(chkSum), data)
      {
        assert data[loop..][1..] == data[loop + 1..];
        chkSum := XorByte(chkSum, data[loop]);
        loop := loop + 1;
      }
    }

    /** Writes a section; the checksum takes in its bytes and its padding, which
        does not change it. */
    method CombineBin(data: seq<Byte>, addr: nat, needChk: bool)
      requires addr < U32 && |data| + 15 < U32
      modifies this
      ensures file == old(file) + SegmentBytes(Segment(addr, data), if needChk then 4 else 16)
      ensures chkSum == if needChk then Xor(old(chkSum), data) else old(chkSum)
      ensures blocks == old(blocks) + Count(data)
    {
      if |data| > 0 {
        var line := if needChk then 4 else 16;
        var tmpLen := RoundUp(|data|, line);
        WriteFile(Le(addr, 4) + Le(tmpLen, 4));
        WriteFile(data);
        if needChk {
          AddToSum(data);
        }
        var fill := tmpLen - |data|;
        if fill > 0 {
          WriteFile(Zeros(fill));
          if needChk {
            XorZeros(chkSum, fill);
            AddToSum(Zeros(fill));
          }
        }
        blocks := blocks + 1;
        assert file == old(file) + SegmentBytes(Segment(addr, data), line);
      }
    }

    method WriteSections(text: seq<Byte>, data: Segment, rodata: Segment)
      requires Sizes(0, text, data, rodata)
      modifies this
      ensures file == old(file) + Segments(text, data, rodata)
      ensures chkSum == Xor(old(chkSum), text + data.data + rodata.data)
      ensures blocks == old(blocks) + Count(text) + Count(data.data) + Count(rodata.data)
    {
      CombineBin(text, TEXT_ADDRESS, true);
      CombineBin(data.data, data.addr, true);
      CombineBin(rodata.data, rodata.addr, true);
      XorAppend(old(chkSum), text, data.data);
      XorAppend(old(chkSum), text + data.data, rodata.data);
      Regroup(old(file), SegmentBytes(Segment(TEXT_ADDRESS, text), 4), SegmentBytes(data, 4), SegmentBytes(rodata, 4));
    }

    /** Header, segments, zero fill and checksum. */
    method WriteImage(flags: (Byte, Byte), entry: nat, text: seq<Byte>, data: Segment, rodata: Segment)
      requires Sizes(entry, text, data, rodata) && chkSum == CHECKSUM_INIT
      modifies this
      ensures file == old(file) + ImageBytes(|old(file)|, flags, entry, text, data, rodata)
      ensures blocks == old(blocks) + Count(text) + Count(data.data) + Count(rodata.data)
    {
      WriteFile(Header(flags, entry));
      WriteSections(text, data, rodata);
      WriteTail();
      ghost var body := Segments(text, data, rodata);
      Regroup(old(file), Header(flags, entry), body, Tail(|old(file)| + 8 + |body|, chkSum));
    }

    /** A segment with the code that runs from flash, behind a header of its own. */
    method WriteIromFirst(flags: (Byte, Byte), entry: nat, irom: seq<Byte>)
      requires entry < U32 && |irom| + 15 < U32 && file == []
      modifies this
      ensures file == Before(2, flags, entry, irom) && chkSum == old(chkSum)
    {
      WriteFile([BIN_MAGIC_IROM, 4, flags.0, flags.1] + Le(entry, 4));
      CombineBin(irom, 0, false);
    }

    /** The code that runs from flash, at its fixed offset if the file is not
        longer already. */
    method WriteIromLast(irom: seq<Byte>)
      modifies this
      ensures file == old(file) + Behind(1, |old(file)|, irom)
    {
      var sumSize := |file|;
      WriteFile(Ones(IROM_OFFSET - sumSize));
      WriteFile(irom);
    }

    /** The fill makes the checksum the last byte of a line. */
    method WriteTail()
      modifies this`file
      ensures file == old(file) + Tail(|old(file)|, chkSum)
    {
      var sumSize := |file| + 1;
      FillIs(|file|);
      sumSize := FLASH_DATA_LINE - sumSize % FLASH_DATA_LINE;
      if sumSize > 0 {
        WriteFile(Zeros(sumSize));
      }
      WriteFile([chkSum]);
    }
  }

  function Count(data: seq<Byte>): nat {
    if data == [] then 0 else 1
  }

  predicate Sizes(entry: nat, text: seq<Byte>, data: Segment, rodata: Segment) {
    && entry < U32 && data.addr < U32 && rodata.addr < U32
    && |text| + 15 < U32 && |data.data| + 15 < U32 && |rodata.data| + 15 < U32
  }

  function Header(flags: (Byte, Byte), entry: nat): (s: seq<Byte>)
    ensures |s| == 8
  {
    [BIN_MAGIC_FLASH, 3, flags.0, flags.1] + Le(entry, 4)
  }

  function Segments(text: seq<Byte>, data: Segment, rodata: Segment): seq<Byte> {
    SegmentBytes(Segment(TEXT_ADDRESS, text), 4) + SegmentBytes(data, 4) + SegmentBytes(rodata, 4)
  }

  function CheckSum(text: seq<Byte>, data: Segment, rodata: Segment): Byte {
    Xor(CHECKSUM_INIT, text + data.data + rodata.data)
  }

  /** The zeros after `size` bytes that bring the next byte to the end of a line:
      a whole line of them if it is there already. */
  function Fill(size: nat): nat {
    if size >= 16 then Fill(size - 16) else if size == 15 then 16 else 15 - size
  }

  lemma FillIs(size: nat)
    ensures Fill(size) == FLASH_DATA_LINE - (size + 1) % FLASH_DATA_LINE
    ensures (size + Fill(size) + 1) % FLASH_DATA_LINE == 0
  {
    FillsLine(size);
    var lines := (size + 1) / 16 + 1;
    assert (16 * lines) % 16 == 0;
  }

  lemma {:induction false} FillsLine(size: nat)
    ensures size + 1 + Fill(size) == 16 * ((size + 1) / 16 + 1)
  {
    if size >= 16 {
      FillsLine(size - 16);
    }
  }

  /** Zeros, between one and a whole line of them, and the checksum. */
  function Tail(size: nat, sum: Byte): seq<Byte> {
    Zeros(Fill(size)) + [sum]
  }

  /** The image as it is appended to a file of `size` bytes. */
  function ImageBytes(size: nat, flags: (Byte, Byte), entry: nat, text: seq<Byte>, data: Segment, rodata: Segment)
    : seq<Byte>
  {
    Closing(size, Header(flags, entry) + Segments(text, data, rodata),
            CheckSum(text, data, rodata))
  }

  /** Header and segments with the fill and the checksum behind them. */
  function Closing(size: nat, front: seq<Byte>, sum: Byte): seq<Byte> {
    front + Tail(size + |front|, sum)
  }

  // ----- the loader -----

  datatype List = Done | More(head: Segment, tail: List)

  datatype Image = Image(flags: (Byte, Byte), entry: nat, segments: List)

  /** One segment from the front of the bytes. */
  function ReadSegment(s: seq<Byte>): Option<(Segment, seq<Byte>)> {
    if |s| < 8 then None
    else
      var len := FromLe(s[4..8]);
      if |s| < 8 + len then None else Some((Segment(FromLe(s[..4]), s[8..8 + len]), s[8 + len..]))
  }

  function ReadSegments(s: seq<Byte>, n: nat): Option<(List, seq<Byte>)>
    decreases n
  {
    if n == 0 then Some((Done, s))
    else
      match ReadSegment(s)
      case None => None
      case Some((first, rest)) =>
        match ReadSegments(rest, n - 1)
        case None => None
        case Some((others, end)) => Some((More(first, others), end))
  }

  function SegmentSum(sum: Byte, segments: List): Byte
    decreases segments
  {
    match segments
    case Done => sum
    case More(s, rest) => SegmentSum(Xor(sum, s.data), rest)
  }

  /** Takes apart the image at a position of a file: its header, as many segments
      as the header says, zeros up to the last byte of a line, and there the
      checksum of the segments. */
  function Load(file: seq<Byte>, at: nat): Option<Image> {
    LoadWith(Reading(), file, at)
  }

  function Reading(): SegmentReader {
    ReadSegments
  }

  function LoadWith(read: SegmentReader, file: seq<Byte>, at: nat): Option<Image> {
    if at + 8 > |file| then None else LoadFrom(read, file[at..at + 8], file[at + 8..], at + 8)
  }

  type SegmentReader = (seq<Byte>, nat) -> Option<(List, seq<Byte>)>

  function LoadFrom(read: SegmentReader, header: seq<Byte>, s: seq<Byte>, start: nat)
    : Option<Image>
    requires |header| == 8
  {
    match if header[0] == BIN_MAGIC_FLASH then read(s, header[1]) else None
    case None => None
    case Some((segments, rest)) =>
      if |rest| <= |s| && Closed(rest, start + |s| - |rest|, SegmentSum(CHECKSUM_INIT, segments))
      then Some(Image((header[2], header[3]), FromLe(header[4..]), segments))
      else None
  }

  /** After `size` bytes, zeros and a checksum complete the line. */
  predicate Closed(rest: seq<Byte>, size: nat, sum: Byte) {
    var fill := Fill(size);
    fill < |rest| && rest[..fill] == Zeros(fill) && rest[fill] == sum
  }

  /** Padding to words adds fewer than four zeros. */
  lemma RoundedUp(n: nat)
    ensures n <= RoundUp(n, 4) < n + 4 && RoundUp(n, 4) % 4 == 0
  {
    var words := (n + 3) / 4;
    assert RoundUp(n, 4) == 4 * words;
  }

  lemma PaddedSum(sum: Byte, data: seq<Byte>)
    ensures Xor(sum, Padded(data, 4)) == Xor(sum, data)
  {
    XorAppend(sum, data, Zeros(RoundUp(|data|, 4) - |data|));
    XorZeros(Xor(sum, data), RoundUp(|data|, 4) - |data|);
  }

  lemma SegmentBack(s: Segment, rest: seq<Byte>)
    requires s.data != [] && s.addr < U32 && |s.data| + 15 < U32
    ensures ReadSegment(SegmentBytes(s, 4) + rest) == Some((Segment(s.addr, Padded(s.data, 4)), rest))
  {
    WideSegmentBack(s, 4, rest);
  }

  lemma WideSegmentBack(s: Segment, line: nat, rest: seq<Byte>)
    requires s.data != [] && s.addr < U32 && |s.data| + 15 < U32 && (line == 4 || line == 16)
    ensures ReadSegment(SegmentBytes(s, line) + rest) == Some((Segment(s.addr, Padded(s.data, line)), rest))
  {
    var len := RoundUp(|s.data|, line);
    var all := SegmentBytes(s, line) + rest;
    assert Pow256(4) == U32;
    RoundedTo(|s.data|, line);
    LeRoundTrip(s.addr, 4);
    LeRoundTrip(len, 4);
    assert all[..4] == Le(s.addr, 4) && all[4..8] == Le(len, 4);
    assert all[8..8 + len] == Padded(s.data, line) && all[8 + len..] == rest;
  }

  function Loaded(text: seq<Byte>, data: Segment, rodata: Segment): List {
    More(Segment(TEXT_ADDRESS, Padded(text, 4)),
         More(Segment(data.addr, Padded(data.data, 4)),
              More(Segment(rodata.addr, Padded(rodata.data, 4)), Done)))
  }

  lemma SumBack(text: seq<Byte>, data: Segment, rodata: Segment)
    ensures SegmentSum(CHECKSUM_INIT, Loaded(text, data, rodata))
         == CheckSum(text, data, rodata)
  {
    XorAppend(CHECKSUM_INIT, text, data.data);
    XorAppend(CHECKSUM_INIT, text + data.data, rodata.data);
    var sum1 := Xor(CHECKSUM_INIT, text);
    var sum2 := Xor(sum1, data.data);
    var l := Loaded(text, data, rodata);
    SumStep(CHECKSUM_INIT, TEXT_ADDRESS, text, l.tail);
    SumStep(sum1, data.addr, data.data, l.tail.tail);
    SumStep(sum2, rodata.addr, rodata.data, Done);
  }

  lemma SumStep(sum: Byte, addr: nat, data: seq<Byte>, rest: List)
    ensures SegmentSum(sum, More(Segment(addr, Padded(data, 4)), rest)) == SegmentSum(Xor(sum, data), rest)
  {
    PaddedSum(sum, data);
  }

  lemma HeaderBack(flags: (Byte, Byte), entry: nat)
    requires entry < U32
    ensures FromLe(Header(flags, entry)[4..]) == entry
  {
    assert Pow256(4) == U32;
    LeRoundTrip(entry, 4);
    assert Header(flags, entry)[4..] == Le(entry, 4);
  }

  lemma HeaderAt(before: seq<Byte>, header: seq<Byte>, body: seq<Byte>, tail: seq<Byte>, after: seq<Byte>)
    requires |header| == 8
    ensures var file, at := before + (header + body + tail) + after, |before|;
            file[at..at + 8] == header && file[at + 8..] == body + (tail + after)
  {
  }

  /** The file ends with a whole line, in whose last byte a bit is set exactly if the
      section bytes and 0xEF have it an odd number of times. */
  lemma ImageAligned(size: nat, flags: (Byte, Byte), entry: nat, text: seq<Byte>, data: Segment, rodata: Segment)
    ensures var image := ImageBytes(size, flags, entry, text, data, rodata);
            && image != [] && (size + |image|) % 16 == 0
            && OddBits(image[|image| - 1], text, data.data, rodata.data)
  {
    LineEnd(size, Header(flags, entry) + Segments(text, data, rodata), CheckSum(text, data, rodata));
    ChecksumIs(text, data, rodata);
  }

  /** A bit is set exactly if it is set an odd number of times in 0xEF and the bytes. */
  ghost predicate OddBits(b: Byte, text: seq<Byte>, data: seq<Byte>, rodata: seq<Byte>) {
    forall k: nat :: Bit(b, k) == (Bit(0xEF, k) + HowMany(text, k) + HowMany(data, k) + HowMany(rodata, k)) % 2
  }

  lemma ChecksumIs(text: seq<Byte>, data: Segment, rodata: Segment)
    ensures OddBits(CheckSum(text, data, rodata), text, data.data, rodata.data)
  {
    forall k: nat
      ensures Bit(CheckSum(text, data, rodata), k)
           == (Bit(0xEF, k) + HowMany(text, k) + HowMany(data.data, k) + HowMany(rodata.data, k)) % 2
    {
      XorBits(CHECKSUM_INIT, text + data.data + rodata.data, k);
      HowManyConcat(text + data.data, rodata.data, k);
      HowManyConcat(text, data.data, k);
    }
  }

  predicate EndsLine(size: nat, image: seq<Byte>, last: Byte) {
    |image| > 0 && (size + |image|) % FLASH_DATA_LINE == 0 && image[|image| - 1] == last
  }

  lemma LineEnd(size: nat, front: seq<Byte>, sum: Byte)
    ensures EndsLine(size, Closing(size, front, sum), sum)
  {
    FillIs(size + |front|);
  }

  /** A loader finds the image behind the bytes before it, and in the image its
      sections with their addresses. */
  predicate LoadsBack(before: seq<Byte>, flags: (Byte, Byte), entry: nat, text: seq<Byte>, data: Segment,
                      rodata: Segment, after: seq<Byte>)
  {
    Load(before + ImageBytes(|before|, flags, entry, text, data, rodata) + after, |before|)
    == Some(Image(flags, entry, Loaded(text, data, rodata)))
  }

  /** An empty section is not written, although the header still speaks of three
      segments: with another section behind it, a loader takes that one in its
      place and does not get the sections back. */
  lemma EmptySectionMisleads(before: seq<Byte>, flags: (Byte, Byte), entry: nat, text: seq<Byte>, data: Segment,
                             rodata: Segment, after: seq<Byte>)
    requires Sizes(entry, text, data, rodata)
    requires if text == [] then data.data != [] || rodata.data != [] else data.data == [] && rodata.data != []
    ensures !LoadsBack(before, flags, entry, text, data, rodata, after)
  {
    var header, body := Header(flags, entry), Segments(text, data, rodata);
    var sum := CheckSum(text, data, rodata);
    NotLoaded(text, data, rodata, Tail(|before| + 8 + |body|, sum) + after);
    NotBack(Reading(), before, header, body, sum, after, Image(flags, entry, Loaded(text, data, rodata)));
  }

  lemma NotBack(read: SegmentReader, before: seq<Byte>, header: seq<Byte>, body: seq<Byte>, sum: Byte,
                after: seq<Byte>, image: Image)
    requires |header| == 8
    requires var r := read(body + (Tail(|before| + 8 + |body|, sum) + after), header[1]);
             r.Some? ==> r.value.0 != image.segments
    ensures LoadWith(read, before + Closing(|before|, header + body, sum) + after, |before|) != Some(image)
  {
    HeaderAt(before, header, body, Tail(|before| + 8 + |body|, sum), after);
  }

  lemma NotLoaded(text: seq<Byte>, data: Segment, rodata: Segment, rest: seq<Byte>)
    requires Sizes(0, text, data, rodata)
    requires if text == [] then data.data != [] || rodata.data != [] else data.data == [] && rodata.data != []
    ensures var r := ReadSegments(Segments(text, data, rodata) + rest, 3);
            r.Some? ==> r.value.0 != Loaded(text, data, rodata)
  {
    var first := Segment(TEXT_ADDRESS, text);
    InOrder(SegmentBytes(first, 4), SegmentBytes(data, 4), SegmentBytes(rodata, 4), rest);
    if text == [] && data.data != [] {
      HeadIs(data, SegmentBytes(rodata, 4) + rest, 2);
    } else if text == [] {
      HeadIs(rodata, rest, 2);
    } else {
      HeadIs(first, SegmentBytes(rodata, 4) + rest, 2);
      HeadIs(rodata, rest, 1);
    }
  }

  lemma InOrder(a: seq<Byte>, b: seq<Byte>, c: seq<Byte>, rest: seq<Byte>)
    ensures a + b + c + rest == a + (b + (c + rest))
    ensures a == [] ==> a + (b + (c + rest)) == b + (c + rest)
    ensures b == [] ==> b + (c + rest) == c + rest
  {
  }

  lemma HeadIs(s: Segment, rest: seq<Byte>, n: nat)
    requires s.data != [] && s.addr < U32 && |s.data| + 15 < U32
    ensures ReadSegments(SegmentBytes(s, 4) + rest, n + 1)
         == match ReadSegments(rest, n)
            case None => None
            case Some((others, end)) => Some((More(Segment(s.addr, Padded(s.data, 4)), others), end))
  {
    SegmentBack(s, rest);
  }

  /** What a loader would have to find in the place of an empty section. */
  function Missing(s: Segment): (m: seq<Byte>)
    ensures |m| == if s.data == [] then 8 else 0
  {
    if s.data == [] then Le(s.addr, 4) + Zeros(4) else []
  }

  /** Whatever empty sections there are, and whatever follows the image: a loader
      gets the sections back exactly if there is text, no empty section comes
      before another one, and the bytes behind the sections spell what is missing
      and once more a fill and the checksum. */
  lemma LoadedIff(before: seq<Byte>, flags: (Byte, Byte), entry: nat, text: seq<Byte>, data: Segment,
                  rodata: Segment, after: seq<Byte>)
    requires Sizes(entry, text, data, rodata)
    ensures LoadsBack(before, flags, entry, text, data, rodata, after)
       <==> text != [] && (data.data == [] ==> rodata.data == [])
            && MissingSpelled(WrittenOf(text, data, rodata), |before|, after)
  {
    if text == [] && data.data == [] && rodata.data == [] {
      NoSection(before, flags, entry, data, rodata, after);
    } else if text == [] || (data.data == [] && rodata.data != []) {
      EmptySectionMisleads(before, flags, entry, text, data, rodata, after);
    } else {
      LastEmptyIff(before, flags, entry, text, data, rodata, after);
    }
  }

  lemma NoSection(before: seq<Byte>, flags: (Byte, Byte), entry: nat, data: Segment, rodata: Segment,
                  after: seq<Byte>)
    requires Sizes(entry, [], data, rodata) && data.data == [] && rodata.data == []
    ensures !LoadsBack(before, flags, entry, [], data, rodata, after)
  {
    NothingLoaded(|before| + 8, data, rodata, after);
    assert Segments([], data, rodata) == [];
    assert [] + data.data + rodata.data == [];
    var tail := Tail(|before| + 8, CHECKSUM_INIT) + after;
    assert [] + tail == tail;
    NotBack(Reading(), before, Header(flags, entry), [], CHECKSUM_INIT, after,
            Image(flags, entry, Loaded([], data, rodata)));
  }

  lemma LastEmptyIff(before: seq<Byte>, flags: (Byte, Byte), entry: nat, text: seq<Byte>, data: Segment,
                     rodata: Segment, after: seq<Byte>)
    requires Sizes(entry, text, data, rodata) && text != [] && (data.data == [] ==> rodata.data == [])
    ensures LoadsBack(before, flags, entry, text, data, rodata, after)
       <==> MissingSpelled(WrittenOf(text, data, rodata), |before|, after)
  {
    var read, w := Reading(), WrittenOf(text, data, rodata);
    SectionsFound(read, text, data, rodata, |before| + 8, after);
    LoadsIff(read, before, flags, entry, w, after);
    LoadsBackIs(read, before, flags, entry, text, data, rodata, after);
  }

  /** The zeros that fill the line are an empty section at address zero, with at
      least one to spare. */
  predicate FillStandsIn(w: Written, size: nat, addr: nat) {
    addr == 0 && Fill(size + 8 + |w.body|) > 8
  }

  /** For an image by itself, or one whose last line does not go on to spell a line
      of its own: the sections come back exactly if none is empty, or if only the
      last one is, has address zero, and the fill is longer than its header. */
  lemma LoadedAloneIff(before: seq<Byte>, flags: (Byte, Byte), entry: nat, text: seq<Byte>, data: Segment,
                       rodata: Segment, after: seq<Byte>)
    requires Sizes(entry, text, data, rodata) && (|after| < 15 || after[14] != 0)
    ensures var w := WrittenOf(text, data, rodata);
            LoadsBack(before, flags, entry, text, data, rodata, after)
            <==> text != [] && data.data != [] && (rodata.data == [] ==> FillStandsIn(w, |before|, rodata.addr))
  {
    LoadedIff(before, flags, entry, text, data, rodata, after);
    if data.data == [] ==> rodata.data == [] {
      MissingSpelledIff(WrittenOf(text, data, rodata), |before|, data, rodata, after);
    }
  }

  lemma MissingSpelledIff(w: Written, size: nat, data: Segment, rodata: Segment, after: seq<Byte>)
    requires data.addr < U32 && rodata.addr < U32 && (|after| < 15 || after[14] != 0)
    requires data.data == [] ==> rodata.data == []
    requires w.missing == Missing(data) + Missing(rodata)
    ensures MissingSpelled(w, size, after)
       <==> data.data != [] && (rodata.data == [] ==> FillStandsIn(w, size, rodata.addr))
  {
    SpelledIff(data, rodata, size + 8 + |w.body|, w.sum, after);
  }

  /** Whether the bytes behind the sections are a second tail with what is missing
      in front of it. */
  predicate Spelled(missing: seq<Byte>, size: nat, sum: Byte, after: seq<Byte>) {
    missing + Tail(size + |missing|, sum) <= Tail(size, sum) + after
  }

  /** What is written of the sections, and what a loader would make of them. */
  datatype Written = Written(body: seq<Byte>, segments: List, sum: Byte, missing: seq<Byte>)

  function WrittenOf(text: seq<Byte>, data: Segment, rodata: Segment): Written {
    Written(Segments(text, data, rodata), Loaded(text, data, rodata), CheckSum(text, data, rodata),
            Missing(data) + Missing(rodata))
  }

  predicate MissingSpelled(w: Written, size: nat, after: seq<Byte>) {
    Spelled(w.missing, size + 8 + |w.body|, w.sum, after)
  }

  /** An image with three non-empty sections is loaded back with their addresses,
      their bytes and the zeros after each of these, wherever it is in a file. */
  lemma ImageBack(before: seq<Byte>, flags: (Byte, Byte), entry: nat, text: seq<Byte>, data: Segment,
                  rodata: Segment, after: seq<Byte>)
    requires Sizes(entry, text, data, rodata) && text != [] && data.data != [] && rodata.data != []
    ensures LoadsBack(before, flags, entry, text, data, rodata, after)
  {
    LoadedIff(before, flags, entry, text, data, rodata, after);
    NothingMissing(|before|, text, data, rodata, after);
  }

  lemma NothingMissing(size: nat, text: seq<Byte>, data: Segment, rodata: Segment, after: seq<Byte>)
    requires data.data != [] && rodata.data != []
    ensures MissingSpelled(WrittenOf(text, data, rodata), size, after)
  {
    NothingSpelled(Missing(data) + Missing(rodata), size + 8 + |Segments(text, data, rodata)|,
                   CheckSum(text, data, rodata), after);
  }

  lemma NothingSpelled(missing: seq<Byte>, size: nat, sum: Byte, after: seq<Byte>)
    requires missing == []
    ensures Spelled(missing, size, sum, after)
  {
    assert [] + Tail(size, sum) == Tail(size, sum);
  }

  /** The converse of `LeRoundTrip`. */
  lemma {:induction false} LeIsBytes(s: seq<Byte>)
    ensures Le(FromLe(s), |s|) == s
  {
    if s == [] {
    } else {
      LeIsBytes(s[1..]);
    }
  }

  lemma LeOfZero()
    ensures Le(0, 4) == Zeros(4)
  {
    assert Le(0, 1) == [0] + Le(0, 0);
    assert Le(0, 2) == [0] + Le(0, 1);
    assert Le(0, 3) == [0] + Le(0, 2);
    assert Le(0, 4) == [0] + Le(0, 3);
  }

  /** A loader finds an empty section exactly where its address and a zero length
      are spelled. */
  lemma EmptyIff(s: Segment, rest: seq<Byte>)
    requires s.data == [] && s.addr < U32
    ensures var r := ReadSegment(rest);
            if Missing(s) <= rest then r == Some((s, rest[8..])) else r.Some? ==> r.value.0 != s
  {
    assert Pow256(4) == U32;
    LeOfZero();
    LeRoundTrip(s.addr, 4);
    LeRoundTrip(0, 4);
    if Missing(s) <= rest {
      assert rest[..4] == Missing(s)[..4] == Le(s.addr, 4);
      assert rest[4..8] == Missing(s)[4..8] == Le(0, 4);
      assert rest[8..8] == [];
    } else if |rest| >= 8 && FromLe(rest[..4]) == s.addr && FromLe(rest[4..8]) == 0 {
      LeIsBytes(rest[..4]);
      LeIsBytes(rest[4..8]);
      assert false;
    }
  }

  /** Either exactly these segments with the given bytes behind them, or something
      else. */
  predicate Finds(r: Option<(List, seq<Byte>)>, segments: List, found: bool, end: seq<Byte>) {
    if found then r == Some((segments, end)) else r.Some? ==> r.value.0 != segments
  }

  function After(missing: seq<Byte>, rest: seq<Byte>): seq<Byte> {
    if missing <= rest then rest[|missing|..] else []
  }

  lemma HeadThen(s: Segment, rest: seq<Byte>, n: nat, others: List, found: bool, end: seq<Byte>)
    requires s.data != [] && s.addr < U32 && |s.data| + 15 < U32
    requires Finds(ReadSegments(rest, n), others, found, end)
    ensures Finds(ReadSegments(SegmentBytes(s, 4) + rest, n + 1),
                  More(Segment(s.addr, Padded(s.data, 4)), others), found, end)
  {
    HeadIs(s, rest, n);
  }

  lemma SegmentsIff(text: seq<Byte>, data: Segment, rodata: Segment, rest: seq<Byte>)
    requires Sizes(0, text, data, rodata) && text != [] && (data.data == [] ==> rodata.data == [])
    ensures var missing := Missing(data) + Missing(rodata);
            Finds(ReadSegments(Segments(text, data, rodata) + rest, 3), Loaded(text, data, rodata),
                  missing <= rest, After(missing, rest))
  {
    var first, missing := Segment(TEXT_ADDRESS, text), Missing(data) + Missing(rodata);
    var found, end := missing <= rest, After(missing, rest);
    var l := Loaded(text, data, rodata);
    InOrder(SegmentBytes(first, 4), SegmentBytes(data, 4), SegmentBytes(rodata, 4), rest);
    var s3 := SegmentBytes(rodata, 4) + rest;
    if data.data != [] {
      LastIff(rodata, rest);
      assert missing == Missing(rodata);
      HeadThen(data, s3, 1, l.tail.tail, found, end);
    } else {
      BothEmpty(data, rodata, rest);
      assert s3 == rest;
    }
    HeadThen(first, SegmentBytes(data, 4) + s3, 2, l.tail, found, end);
  }

  lemma LastIff(s: Segment, rest: seq<Byte>)
    requires s.addr < U32 && |s.data| + 15 < U32
    ensures Finds(ReadSegments(SegmentBytes(s, 4) + rest, 1), More(Segment(s.addr, Padded(s.data, 4)), Done),
                  Missing(s) <= rest, After(Missing(s), rest))
  {
    if s.data == [] {
      assert SegmentBytes(s, 4) + rest == rest;
      EmptyIff(s, rest);
    } else {
      HeadThen(s, rest, 0, Done, true, rest);
    }
  }

  lemma BothEmpty(data: Segment, rodata: Segment, rest: seq<Byte>)
    requires data.data == [] && rodata.data == [] && data.addr < U32 && rodata.addr < U32
    ensures var missing := Missing(data) + Missing(rodata);
            Finds(ReadSegments(rest, 2), More(data, More(rodata, Done)), missing <= rest, After(missing, rest))
  {
    EmptyIff(data, rest);
    if Missing(data) <= rest {
      EmptyIff(rodata, rest[8..]);
    }
  }

  /** With nothing but a header, the zero fill is not the address of the text. */
  lemma NothingLoaded(size: nat, data: Segment, rodata: Segment, after: seq<Byte>)
    ensures var r := ReadSegments(Tail(size, CHECKSUM_INIT) + after, 3);
            r.Some? ==> r.value.0 != Loaded([], data, rodata)
  {
    var rest := Tail(size, CHECKSUM_INIT) + after;
    var first := Segment(TEXT_ADDRESS, []);
    FillLater(size);
    assert Le(TEXT_ADDRESS, 4)[1] == 0 && Le(TEXT_ADDRESS, 4)[2] == 0x10;
    assert Missing(first)[1] == 0 && Missing(first)[2] == 0x10;
    assert |rest| >= 8 ==> rest[1] != 0 || rest[2] != 0x10;
    EmptyIff(first, rest);
    assert Padded([], 4) == [];
  }

  /** A reader at the segments finds these, if what is missing is behind them. */
  predicate Found(read: SegmentReader, start: nat, w: Written, after: seq<Byte>) {
    FoundIn(read, w, Tail(start + |w.body|, w.sum) + after)
  }

  predicate FoundIn(read: SegmentReader, w: Written, rest: seq<Byte>) {
    && w.sum == SegmentSum(CHECKSUM_INIT, w.segments)
    && Finds(read(w.body + rest, 3), w.segments, w.missing <= rest, After(w.missing, rest))
  }

  predicate ReadBack(read: SegmentReader, before: seq<Byte>, flags: (Byte, Byte), entry: nat, w: Written,
                     after: seq<Byte>)
  {
    LoadWith(read, before + Closing(|before|, Header(flags, entry) + w.body, w.sum) + after, |before|)
    == Some(Image(flags, entry, w.segments))
  }

  lemma LoadsBackIs(read: SegmentReader, before: seq<Byte>, flags: (Byte, Byte), entry: nat, text: seq<Byte>,
                    data: Segment, rodata: Segment, after: seq<Byte>)
    requires read == Reading()
    ensures LoadsBack(before, flags, entry, text, data, rodata, after)
       <==> ReadBack(read, before, flags, entry, WrittenOf(text, data, rodata), after)
  {
  }

  lemma SectionsFound(read: SegmentReader, text: seq<Byte>, data: Segment, rodata: Segment, start: nat,
                      after: seq<Byte>)
    requires Sizes(0, text, data, rodata) && text != [] && (data.data == [] ==> rodata.data == [])
    requires read == Reading()
    ensures Found(read, start, WrittenOf(text, data, rodata), after)
  {
    var w := WrittenOf(text, data, rodata);
    ReadsSegments(read, text, data, rodata, Tail(start + |w.body|, w.sum) + after);
    FoundIs(read, start, w, after);
  }

  lemma FoundIs(read: SegmentReader, start: nat, w: Written, after: seq<Byte>)
    requires FoundIn(read, w, Tail(start + |w.body|, w.sum) + after)
    ensures Found(read, start, w, after)
  {
  }

  lemma WrittenSum(text: seq<Byte>, data: Segment, rodata: Segment)
    ensures var w := WrittenOf(text, data, rodata); w.sum == SegmentSum(CHECKSUM_INIT, w.segments)
  {
    SumBack(text, data, rodata);
  }

  lemma ReadsSegments(read: SegmentReader, text: seq<Byte>, data: Segment, rodata: Segment, rest: seq<Byte>)
    requires Sizes(0, text, data, rodata) && text != [] && (data.data == [] ==> rodata.data == [])
    requires read == Reading()
    ensures FoundIn(read, WrittenOf(text, data, rodata), rest)
  {
    WrittenSum(text, data, rodata);
    SegmentsIff(text, data, rodata, rest);
    assert read(Segments(text, data, rodata) + rest, 3) == ReadSegments(Segments(text, data, rodata) + rest, 3);
  }

  lemma LoadsIff(read: SegmentReader, before: seq<Byte>, flags: (Byte, Byte), entry: nat, w: Written,
                 after: seq<Byte>)
    requires entry < U32 && Found(read, |before| + 8, w, after)
    ensures ReadBack(read, before, flags, entry, w, after) <==> MissingSpelled(w, |before|, after)
  {
    var start, header := |before| + 8, Header(flags, entry);
    var size := start + |w.body|;
    var rest := Tail(size, w.sum) + after;
    HeaderBack(flags, entry);
    LoadsAt(read, before, header, w, after);
    LoadsFromIff(read, header, w.body + rest, start, w.segments, w.missing, rest);
    ClosedIff(w.missing, rest, size + |w.missing|, w.sum);
  }

  lemma LoadsAt(read: SegmentReader, before: seq<Byte>, header: seq<Byte>, w: Written, after: seq<Byte>)
    requires |header| == 8
    ensures LoadWith(read, before + Closing(|before|, header + w.body, w.sum) + after, |before|)
         == LoadFrom(read, header, w.body + (Tail(|before| + 8 + |w.body|, w.sum) + after), |before| + 8)
  {
    HeaderAt(before, header, w.body, Tail(|before| + 8 + |w.body|, w.sum), after);
  }

  lemma LoadsFromIff(read: SegmentReader, header: seq<Byte>, s: seq<Byte>, start: nat, segments: List,
                     missing: seq<Byte>, rest: seq<Byte>)
    requires |header| == 8 && header[0] == BIN_MAGIC_FLASH && |rest| <= |s|
    requires Finds(read(s, header[1]), segments, missing <= rest, After(missing, rest))
    ensures LoadFrom(read, header, s, start) == Some(Image((header[2], header[3]), FromLe(header[4..]), segments))
       <==> missing <= rest && Closed(rest[|missing|..], start + |s| - |rest| + |missing|,
                                      SegmentSum(CHECKSUM_INIT, segments))
  {
  }

  lemma ClosedIff(missing: seq<Byte>, rest: seq<Byte>, size: nat, sum: Byte)
    ensures missing + Tail(size, sum) <= rest <==> missing <= rest && Closed(rest[|missing|..], size, sum)
  {
    var tail := Tail(size, sum);
    if missing <= rest {
      var behind := rest[|missing|..];
      if Closed(behind, size, sum) {
        assert behind[..|tail|] == tail;
        assert rest == missing + tail + behind[|tail|..];
      }
    } else if missing + tail <= rest {
      assert (missing + tail)[..|missing|] == missing;
    }
  }

  lemma {:induction false} FillLater(size: nat)
    ensures 1 <= Fill(size) <= 16 && Fill(size + 16) == Fill(size)
    ensures Fill(size + 8) == if Fill(size) > 8 then Fill(size) - 8 else Fill(size) + 8
  {
    if size >= 16 {
      FillLater(size - 16);
    }
  }

  /** A second tail has a zero where the fifteenth byte after the image would be. */
  lemma SpelledLater(missing: seq<Byte>, size: nat, sum: Byte, after: seq<Byte>)
    requires |missing| == 16 || (|missing| == 8 && Fill(size) <= 8)
    requires |after| < 15 || after[14] != 0
    ensures !Spelled(missing, size, sum, after)
  {
    FillLater(size);
    var fill := Fill(size);
    var second := missing + Tail(size + |missing|, sum);
    assert second[fill + 15] == 0;
    assert |after| >= 15 ==> (Tail(size, sum) + after)[fill + 15] == after[14];
  }

  lemma SpelledIff(data: Segment, rodata: Segment, size: nat, sum: Byte, after: seq<Byte>)
    requires data.addr < U32 && rodata.addr < U32 && (|after| < 15 || after[14] != 0)
    requires data.data == [] ==> rodata.data == []
    ensures Spelled(Missing(data) + Missing(rodata), size, sum, after)
        <==> data.data != [] && (rodata.data == [] ==> rodata.addr == 0 && Fill(size) > 8)
  {
    var missing := Missing(data) + Missing(rodata);
    if data.data == [] || (rodata.data == [] && Fill(size) <= 8) {
      SpelledLater(missing, size, sum, after);
    } else if rodata.data == [] {
      FillLater(size);
      assert missing == Le(rodata.addr, 4) + Zeros(4);
      ZerosIff(rodata.addr, Tail(size + 8, sum), Fill(size + 8), sum, after);
    } else {
      assert missing == [];
    }
  }

  lemma ZerosIff(addr: nat, tail: seq<Byte>, fill: nat, sum: Byte, after: seq<Byte>)
    requires addr < U32 && tail == Zeros(fill) + [sum]
    ensures Le(addr, 4) + Zeros(4) + tail <= Zeros(fill + 8) + [sum] + after <==> addr == 0
  {
    var first := Zeros(fill + 8) + [sum] + after;
    LeOfZero();
    assert first == Zeros(4) + Zeros(4) + tail + after;
    assert first[..4] == Zeros(4);
    if Le(addr, 4) + Zeros(4) + tail <= first {
      assert Le(addr, 4) == (Le(addr, 4) + Zeros(4) + tail)[..4] == Zeros(4);
      assert Pow256(4) == U32;
      LeRoundTrip(addr, 4);
      LeRoundTrip(0, 4);
    }
  }

  // ----- the whole file -----

  function Before(boot: nat, flags: (Byte, Byte), entry: nat, irom: seq<Byte>): seq<Byte> {
    if boot == 2 then
      [BIN_MAGIC_IROM, 4, flags.0, flags.1] + Le(entry, 4) + SegmentBytes(Segment(0, irom), 16)
    else []
  }

  function Ones(n: int): seq<Byte> {
    if n <= 0 then [] else seq(n, _ => 0xFF)
  }

  function Behind(boot: nat, size: nat, irom: seq<Byte>): seq<Byte> {
    if boot == 1 then Ones(IROM_OFFSET - size) + irom else []
  }

  /** Boot mode 1 puts the code that runs from flash behind the image, and mode 2
      in front of it; any other mode leaves it out. */
  method GenAppbin(boot: nat, flags: (Byte, Byte), entry: nat, irom: seq<Byte>, text: seq<Byte>, data: Segment,
                   rodata: Segment)
    returns (file: seq<Byte>)
    requires Sizes(entry, text, data, rodata) && |irom| + 15 < U32
    ensures var before := Before(boot, flags, entry, irom);
            var image := ImageBytes(|before|, flags, entry, text, data, rodata);
            file == before + image + Behind(boot, |before + image|, irom)
  {
    var b := new Builder([]);
    if boot == 2 {
      b.WriteIromFirst(flags, entry, irom);
    }
    b.WriteImage(flags, entry, text, data, rodata);
    if boot == 1 {
      b.WriteIromLast(irom);
    }
    file := b.file;
  }

  /** In boot mode 1 the file has the code, and nothing else, from its fixed offset
      on if and only if the image is not longer than that; and 0xFF in between. */
  lemma IromOffsetIff(image: seq<Byte>, irom: seq<Byte>)
    ensures var file := image + Behind(1, |image|, irom);
            && |file| >= 65536 && image <= file
            && (file[65536..] == irom <==> |image| <= 65536)
            && forall i :: |image| <= i < 65536 ==> file[i] == 0xFF
  {
    var file := image + Behind(1, |image|, irom);
    if |image| > IROM_OFFSET {
      assert |file[IROM_OFFSET..]| > |irom|;
    }
  }

  /** The image begins with its magic number, the number of segments, the flags, and
      the entry address, lowest byte first; then come the sections in order. */
  lemma ImageStarts(size: nat, flags: (Byte, Byte), entry: nat, text: seq<Byte>, data: Segment, rodata: Segment)
    ensures var image := ImageBytes(size, flags, entry, text, data, rodata);
            && |image| >= 8 && image[..4] == [0xE9, 3, flags.0, flags.1]
            && image[4..8] == Le(entry, 4)
            && SegmentBytes(Segment(0x40100000, text), 4) + SegmentBytes(data, 4) + SegmentBytes(rodata, 4)
               <= image[8..]
  {
    var header, body := Header(flags, entry), Segments(text, data, rodata);
    HeaderBytes(BIN_MAGIC_FLASH, 3, flags, entry);
    BehindHeader(header, body, Tail(size + |header + body|, CheckSum(text, data, rodata)));
  }

  /** A section is written as its address, its padded length, its bytes and zeros. */
  lemma SegmentIs(s: Segment, line: nat)
    requires s.data != [] && (line == 4 || line == 16)
    ensures var b, len := SegmentBytes(s, line), RoundUp(|s.data|, line);
            && |b| == 8 + len && |s.data| <= len < |s.data| + line && len % line == 0
            && (forall i :: 0 <= i < 4 ==> b[i] == ByteOf(s.addr, i) && b[4 + i] == ByteOf(len, i))
            && b[8..8 + |s.data|] == s.data
            && forall i :: 8 + |s.data| <= i < 8 + len ==> b[i] == 0
  {
    var b, len := SegmentBytes(s, line), RoundUp(|s.data|, line);
    RoundedTo(|s.data|, line);
    forall i | 0 <= i < 4
      ensures b[i] == ByteOf(s.addr, i) && b[4 + i] == ByteOf(len, i)
    {
      LeAt(s.addr, 4, i);
      LeAt(len, 4, i);
      assert b[i] == Le(s.addr, 4)[i] && b[4 + i] == Le(len, 4)[i];
    }
    assert b[8..] == Padded(s.data, line);
  }

  lemma RoundedTo(n: nat, line: nat)
    requires line == 4 || line == 16
    ensures n <= RoundUp(n, line) < n + line && RoundUp(n, line) % line == 0
  {
    if line == 4 {
      var words := (n + 3) / 4;
      assert RoundUp(n, line) == 4 * words;
    } else {
      var lines := (n + 15) / 16;
      assert RoundUp(n, line) == 16 * lines;
    }
  }

  /** In boot mode 2 a loader finds in front of the image a header of its own, and
      behind that, as one segment at address 0, the code with its zeros. */
  lemma BootTwoBack(flags: (Byte, Byte), entry: nat, irom: seq<Byte>, rest: seq<Byte>)
    requires irom != [] && |irom| + 15 < U32
    ensures var file := Before(2, flags, entry, irom) + rest;
            && file[..4] == [0xEA, 4, flags.0, flags.1]
            && file[4..8] == Le(entry, 4)
            && ReadSegment(file[8..]) == Some((Segment(0, Padded(irom, 16)), rest))
  {
    var file := Before(2, flags, entry, irom) + rest;
    var header, segment := [BIN_MAGIC_IROM, 4, flags.0, flags.1] + Le(entry, 4), SegmentBytes(Segment(0, irom), 16);
    HeaderBytes(BIN_MAGIC_IROM, 4, flags, entry);
    BehindHeader(header, segment, rest);
    assert file == header + segment + rest;
    WideSegmentBack(Segment(0, irom), 16, rest);
  }

  lemma HeaderBytes(magic: Byte, count: Byte, flags: (Byte, Byte), entry: nat)
    ensures var header := [magic, count, flags.0, flags.1] + Le(entry, 4);
            header[..4] == [magic, count, flags.0, flags.1] && header[4..] == Le(entry, 4)
  {
  }

  lemma BehindHeader(header: seq<Byte>, body: seq<Byte>, rest: seq<Byte>)
    requires |header| == 8
    ensures var file := header + body + rest;
            file[..4] == header[..4] && file[4..8] == header[4..] && file[8..] == body + rest
  {
  }
}
