/** Streams as lists: bytes that are still to come, and how they relate to the
    bytes that were put out already. */
module ByteList {

  /** Bytes still to come, as a list. */
  datatype Bytes = End | Byte(head: char, next: Bytes)

  function Str(b: Bytes): string {
    match b
    case End => ""
    case Byte(c, n) => [c] + Str(n)
  }

  lemma {:induction false} StrInjective(a: Bytes, b: Bytes)
    requires Str(a) == Str(b)
    ensures a == b
  {
    if a.Byte? && b.Byte? {
      assert Str(a)[1..] == Str(a.next) && Str(b)[1..] == Str(b.next);
      assert Str(a)[0] == Str(b)[0];
      StrInjective(a.next, b.next);
    }
  }

  /** The bytes of `buf` from `lo` up to `hi`, and then `rest`. */
  function Feed(buf: string, lo: nat, hi: nat, rest: Bytes): Bytes
    requires lo <= hi <= |buf|
    decreases hi - lo
  {
    if lo == hi then rest else Byte(buf[lo], Feed(buf, lo + 1, hi, rest))
  }

  lemma {:induction false} FeedIsConcat(buf: string, lo: nat, hi: nat, rest: Bytes)
    requires lo <= hi <= |buf|
    ensures Str(Feed(buf, lo, hi, rest)) == buf[lo..hi] + Str(rest)
    decreases hi - lo
  {
    if lo < hi {
      FeedIsConcat(buf, lo + 1, hi, rest);
      assert buf[lo..hi] == [buf[lo]] + buf[lo + 1..hi];
    }
  }

  /** `sent` and then `rest`. */
  function Join(sent: string, rest: Bytes): Bytes {
    Feed(sent, 0, |sent|, rest)
  }

  lemma JoinIsConcat(sent: string, rest: Bytes)
    ensures Str(Join(sent, rest)) == sent + Str(rest)
  {
    FeedIsConcat(sent, 0, |sent|, rest);
    assert sent[0..|sent|] == sent;
  }

  /** Paying out the front of a feed leaves the rest of it owed. */
  lemma Pay(sent: string, buf: string, lo: nat, len: nat, hi: nat, rest: Bytes)
    requires lo + len <= hi <= |buf|
    ensures Join(sent + buf[lo..lo + len], Feed(buf, lo + len, hi, rest)) == Join(sent, Feed(buf, lo, hi, rest))
  {
    var taken := buf[lo..lo + len];
    FeedIsConcat(buf, lo, hi, rest);
    FeedIsConcat(buf, lo + len, hi, rest);
    JoinIsConcat(sent, Feed(buf, lo, hi, rest));
    JoinIsConcat(sent + taken, Feed(buf, lo + len, hi, rest));
    assert buf[lo..hi] == taken + buf[lo + len..hi];
    StrInjective(Join(sent + taken, Feed(buf, lo + len, hi, rest)), Join(sent, Feed(buf, lo, hi, rest)));
  }
}
