/** The tree printer: an explicit stack of values and positions stands in for the
    recursion of the rendering, and each call puts out one piece. */
module JsonPrinter {
  import opened Arithmetic
  import opened ByteList
  import opened Decimal
  import opened JsonTree

  const JSONTREE_MAX_DEPTH := 10

  // ----- what a stack still has to put out -----

  /** A value that is at position `i` of its output, and then `rest`. */
  function FromIndex(v: Json, i: nat, rest: Bytes): Bytes
    requires v.Container() ==> i <= |v.items|
    requires v.Callback? ==> i <= |v.output|
  {
    if v.Container() && i > 0 then Items(v, i, rest)
    else if v.Callback? && v.output != [] then Chunks(v.output, i, rest)
    else Render(v, rest)
  }

  /** Below `k` down to `path`, each value is a container whose current item is
      the next value. */
  ghost predicate Linked(vals: seq<Json>, idx: seq<nat>, path: nat, k: nat) {
    && path <= k < |vals| == |idx|
    && forall j {:trigger vals[j]} :: path <= j < k ==>
         vals[j].Container() && idx[j] < |vals[j].items| && vals[j + 1] == vals[j].items[idx[j]].value
  }

  /** Each value fits into the levels that are left for it. */
  ghost predicate Sized(vals: seq<Json>, path: nat, k: nat)
    requires k < |vals| == JSONTREE_MAX_DEPTH
  {
    forall j {:trigger vals[j]} :: path <= j <= k ==> Fits(vals[j], JSONTREE_MAX_DEPTH - j)
  }

  /** What follows once value `k` is done. */
  ghost function Above(vals: seq<Json>, idx: seq<nat>, path: nat, k: nat): Bytes
    requires Linked(vals, idx, path, k)
    decreases k
  {
    if k == path then End else Items(vals[k - 1], idx[k - 1] + 1, Above(vals, idx, path, k - 1))
  }

  /** Steps that a value takes from position `i` on. */
  function Work(v: Json, i: nat): nat
    requires v.Container() ==> i <= |v.items|
    decreases v, if v.Container() then |v.items| - i else 0
  {
    if v.Container() then
      if i == |v.items| then 1 else 1 + Work(v.items[i].value, 0) + Work(v, i + 1)
    else if v.Callback? && i < |v.output| then |v.output| - i
    else 1
  }

  ghost function WorkAbove(vals: seq<Json>, idx: seq<nat>, path: nat, k: nat): nat
    requires Linked(vals, idx, path, k)
    decreases k
  {
    if k == path then 0 else Work(vals[k - 1], idx[k - 1] + 1) + WorkAbove(vals, idx, path, k - 1)
  }

  lemma AboveDependsBelow(vals: seq<Json>, idx: seq<nat>, vals': seq<Json>, idx': seq<nat>, path: nat, k: nat)
    requires Linked(vals, idx, path, k) && |vals'| == |vals| == |idx'|
    requires forall j :: path <= j < k ==> vals'[j] == vals[j] && idx'[j] == idx[j]
    requires vals'[k] == vals[k]
    ensures Linked(vals', idx', path, k)
    ensures Above(vals', idx', path, k) == Above(vals, idx, path, k)
    ensures WorkAbove(vals', idx', path, k) == WorkAbove(vals, idx, path, k)
  {
    assert forall j {:trigger vals'[j]} :: path <= j < k ==> vals[j + 1] == vals'[j + 1] && vals[j] == vals'[j];
    SameAbove(vals, idx, vals', idx', path, k);
  }

  lemma {:induction false} SameAbove(vals: seq<Json>, idx: seq<nat>, vals': seq<Json>, idx': seq<nat>,
                                     path: nat, k: nat)
    requires Linked(vals, idx, path, k) && Linked(vals', idx', path, k)
    requires forall j :: path <= j < k ==> vals'[j] == vals[j] && idx'[j] == idx[j]
    ensures Above(vals', idx', path, k) == Above(vals, idx, path, k)
    ensures WorkAbove(vals', idx', path, k) == WorkAbove(vals, idx, path, k)
    decreases k
  {
    if k > path {
      SameAbove(vals, idx, vals', idx', path, k - 1);
    }
  }

  /** Below an item of a value that fits there is another level. */
  lemma RoomBelow(vals: seq<Json>, path: nat, k: nat, i: nat)
    requires path <= k < |vals| == JSONTREE_MAX_DEPTH && Sized(vals, path, k)
    requires vals[k].Container() && i < |vals[k].items|
    ensures k + 1 < JSONTREE_MAX_DEPTH
  {
    assert Fits(vals[k], JSONTREE_MAX_DEPTH - k);
    assert Fits(vals[k].items[i].value, JSONTREE_MAX_DEPTH - k - 1);
  }

  lemma OneLevelDown(vals: seq<Json>, idx: seq<nat>, path: nat, k: nat, child: Json)
    requires Linked(vals, idx, path, k) && k + 1 < |vals| == JSONTREE_MAX_DEPTH && Sized(vals, path, k)
    requires vals[k].Container() && idx[k] < |vals[k].items| && child == vals[k].items[idx[k]].value
    ensures var vals', idx' := vals[k + 1 := child], idx[k + 1 := 0];
            && Linked(vals', idx', path, k + 1) && Sized(vals', path, k + 1)
            && Above(vals', idx', path, k + 1) == Items(vals[k], idx[k] + 1, Above(vals, idx, path, k))
            && WorkAbove(vals', idx', path, k + 1) == Work(vals[k], idx[k] + 1) + WorkAbove(vals, idx, path, k)
  {
    assert Fits(vals[k], JSONTREE_MAX_DEPTH - k);
    AboveDependsBelow(vals, idx, vals[k + 1 := child], idx[k + 1 := 0], path, k);
  }

  /** A stack whose top is at some position of its output. */
  ghost predicate Shape(vals: seq<Json>, idx: seq<nat>, path: nat, k: nat) {
    && |vals| == JSONTREE_MAX_DEPTH && Linked(vals, idx, path, k) && Sized(vals, path, k)
    && (vals[k].Container() ==> idx[k] <= |vals[k].items|)
    && (vals[k].Callback? ==> idx[k] == 0 || idx[k] < |vals[k].output|)
  }

  /** What a stack has still to put out. */
  ghost function PendingOf(vals: seq<Json>, idx: seq<nat>, path: nat, k: nat): Bytes
    requires Shape(vals, idx, path, k)
  {
    FromIndex(vals[k], idx[k], Above(vals, idx, path, k))
  }

  ghost function StepsOf(vals: seq<Json>, idx: seq<nat>, path: nat, k: nat): nat
    requires Shape(vals, idx, path, k)
  {
    Work(vals[k], idx[k]) + WorkAbove(vals, idx, path, k)
  }

  /** Going down to the current item leaves its rendering and the rest pending. */
  lemma IntoItem(vals: seq<Json>, idx: seq<nat>, path: nat, k: nat, child: Json)
    requires Shape(vals, idx, path, k) && vals[k].Container() && idx[k] < |vals[k].items|
    requires child == vals[k].items[idx[k]].value
    ensures k + 1 < JSONTREE_MAX_DEPTH
    ensures var vals', idx' := vals[k + 1 := child], idx[k + 1 := 0];
            && Shape(vals', idx', path, k + 1)
            && PendingOf(vals', idx', path, k + 1)
            == Render(child, Items(vals[k], idx[k] + 1, Above(vals, idx, path, k)))
            && StepsOf(vals', idx', path, k + 1) < StepsOf(vals, idx, path, k)
  {
    RoomBelow(vals, path, k, idx[k]);
    OneLevelDown(vals, idx, path, k, child);
  }

  /** Leaving a value that is done goes on with the next item above it. */
  lemma OutOfItem(vals: seq<Json>, idx: seq<nat>, path: nat, k: nat)
    requires Shape(vals, idx, path, k) && k > path
    ensures var idx' := idx[k - 1 := idx[k - 1] + 1];
            && Shape(vals, idx', path, k - 1)
            && PendingOf(vals, idx', path, k - 1) == Above(vals, idx, path, k)
            && StepsOf(vals, idx', path, k - 1) == WorkAbove(vals, idx, path, k)
  {
    AboveDependsBelow(vals, idx, vals, idx[k - 1 := idx[k - 1] + 1], path, k - 1);
  }

  // ----- pieces of text -----

  /** Writes the digits of a number to the end of a ten-character buffer, last
      digit first, and returns where they start. */
  method FillDigits(buf: array<char>, n: nat) returns (start: nat)
    requires buf.Length == 10 && n < I32
    modifies buf
    ensures start < 10 && buf[start..] == Digits(n)
  {
    DigitCount(n, 10, Pow10(10));
    var value := n;
    var l: int := 9;
    buf[l] := DigitChar(value % 10);
    l := l - 1;
    value := value / 10;
    assert buf[9..] == [DigitChar(n % 10)];
    while value > 0 && l >= 0
      invariant -1 <= l < 9 && 0 <= value
      invariant Digits(n) == (if value > 0 then Digits(value) else "") + buf[l + 1..]
    {
      ghost var tail := buf[l + 1..];
      OneMoreDigit(n, value, tail);
      buf[l] := DigitChar(value % 10);
      assert buf[l..] == [buf[l]] + tail;
      value := value / 10;
      l := l - 1;
    }
    assert |buf[l + 1..]| == 9 - l;
    assert value > 0 ==> |Digits(value)| >= 1;
    start := l + 1;
  }

  lemma OneMoreDigit(n: nat, value: nat, tail: string)
    requires value > 0 && Digits(n) == Digits(value) + tail
    ensures Digits(n) == (if value / 10 > 0 then Digits(value / 10) else "") + ([DigitChar(value % 10)] + tail)
  {
  }

  lemma {:induction false} EscapeSnoc(s: string, c: char)
    ensures Escape(s + [c]) == Escape(s) + if c == '"' then "\\\"" else [c]
  {
    if s == "" {
      assert (s + [c])[1..] == "";
    } else {
      assert (s + [c])[1..] == s[1..] + [c];
      EscapeSnoc(s[1..], c);
    }
  }

  lemma PayString(sent: string, s: string, rest: Bytes)
    ensures Join(sent + s, rest) == Join(sent, Join(s, rest))
  {
    Pay(sent, s, 0, |s|, |s|, rest);
    assert s[0..|s|] == s;
  }

  // ----- paths -----

  /** Length of a path's first segment. */
  function SegmentLength(path: string): (n: nat)
    ensures n <= |path| && (n < |path| ==> path[n] == '/') && '/' !in path[..n]
  {
    if path == "" || path[0] == '/' then 0 else 1 + SegmentLength(path[1..])
  }

  /** The first item whose name begins with `segment`, or the number of items. */
  function FindItem(items: seq<Item>, segment: string): (i: nat)
    ensures i <= |items| && (i < |items| ==> segment <= items[i].name)
    ensures forall j :: 0 <= j < i ==> !(segment <= items[j].name)
  {
    if items == [] || segment <= items[0].name then 0 else 1 + FindItem(items[1..], segment)
  }

  predicate HasItem(v: Json, segment: string) {
    v.Object? && FindItem(v.items, segment) < |v.items|
  }

  function ItemAt(v: Json, segment: string): Json
    requires HasItem(v, segment)
  {
    v.items[FindItem(v.items, segment)].value
  }

  /** The subtree that a path leads to, as far as it can be followed. An empty
      segment ends the path, except that an empty path names the first item. */
  function Along(v: Json, path: string): Json
    decreases |path|
  {
    var len := SegmentLength(path);
    if (len == 0 && path != "") || !HasItem(v, path[..len]) then v
    else if len >= |path| - 1 then ItemAt(v, path[..len])
    else Along(ItemAt(v, path[..len]), path[len + 1..])
  }

  // ----- the context -----

  class Context {
    const values: array<Json>
    const index: array<nat>
    var depth: nat
    var path: nat
    var out: string
    ghost var whole: Bytes           // all that is to be put out

    ghost predicate Valid()
      reads this, values, index
    {
      values.Length == JSONTREE_MAX_DEPTH == index.Length && Shape(values[..], index[..], path, depth)
    }

    ghost function Pending(): Bytes
      requires Valid()
      reads this, values, index
    {
      PendingOf(values[..], index[..], path, depth)
    }

    /** Put out and pending make up the whole. */
    ghost predicate Printing()
      reads this, values, index
    {
      Valid() && Join(out, Pending()) == whole
    }

    ghost function Remaining(): nat
      requires Valid()
      reads this, values, index
    {
      StepsOf(values[..], index[..], path, depth)
    }

    method PutChar(c: char, ghost rest: Bytes)
      requires Join(out, Byte(c, rest)) == whole
      modifies this`out
      ensures out == old(out) + [c] && Join(out, rest) == whole
    {
      Pay(out, [c], 0, 1, 1, rest);
      assert [c][0..1] == [c] && Feed([c], 0, 1, rest) == Byte(c, rest);
      out := out + [c];
    }

    method PutAll(s: string, ghost rest: Bytes)
      requires Join(out, Join(s, rest)) == whole
      modifies this`out
      ensures out == old(out) + s && Join(out, rest) == whole
    {
      var i := 0;
      while i < |s|
        invariant i <= |s| && out == old(out) + s[..i]
        invariant Join(out, Feed(s, i, |s|, rest)) == whole
      {
        PutChar(s[i], Feed(s, i + 1, |s|, rest));
        i := i + 1;
      }
    }

    /** Writes a string between quotes, with a backslash before each quote in it. */
    method WriteString(text: string, ghost rest: Bytes)
      requires Join(out, Join(Quoted(text), rest)) == whole
      modifies this`out
      ensures out == old(out) + Quoted(text) && Join(out, rest) == whole
    {
      ghost var start := out;
      out := out + "\"";
      var i := 0;
      while i < |text|
        invariant i <= |text| && out == start + "\"" + Escape(text[..i])
      {
        assert text[..i + 1] == text[..i] + [text[i]];
        EscapeSnoc(text[..i], text[i]);
        if text[i] == '"' {
          out := out + "\\";
        }
        out := out + [text[i]];
        i := i + 1;
      }
      assert text[..i] == text;
      out := out + "\"";
      assert out == start + Quoted(text);
      PayString(start, Quoted(text), rest);
    }

    /** Writes a number through a buffer of ten digits. */
    method WriteInt(value: int, ghost rest: Bytes)
      requires -I32 < value < I32
      requires Join(out, Join(IntText(value), rest)) == whole
      modifies this`out
      ensures out == old(out) + IntText(value) && Join(out, rest) == whole
    {
      ghost var start := out;
      if value < 0 {
        out := out + "-";
      }
      var buf := new char[10];
      var l := FillDigits(buf, if value < 0 then -value else value);
      PutFrom(buf, l);
      assert out == start + IntText(value);
      PayString(start, IntText(value), rest);
    }

    method PutFrom(buf: array<char>, start: nat)
      requires start <= buf.Length
      modifies this`out
      ensures out == old(out) + buf[start..]
    {
      var l := start;
      while l < buf.Length
        invariant start <= l <= buf.Length && out == old(out) + buf[start..l]
      {
        out := out + [buf[l]];
        l := l + 1;
      }
    }

    /** One step of printing. It returns false when there is nothing left at the
        root; above the root, it leaves the starting level when that is done. */
    method PrintNext() returns (more: bool)
      requires Printing()
      modifies this`out, this`depth, values, index
      ensures more && path <= depth ==> Printing() && Remaining() < old(Remaining())
      ensures !(more && path <= depth) ==> out == Str(whole)
    {
      var v := values[depth];
      match v {
        case Object(_) =>
          more := PrintContainer();
        case Array(_) =>
          more := PrintContainer();
        case Text(s) =>
          WriteString(s, Above(values[..], index[..], path, depth));
          more := BackUp();
        case Int(n) =>
          WriteInt(n, Above(values[..], index[..], path, depth));
          more := BackUp();
        case Callback(_, output) =>
          if output == [] {
            WriteString("", Above(values[..], index[..], path, depth));
          } else {
            more := NextPiece();
            if more {
              return;
            }
          }
          more := BackUp();
      }
    }

    /** One step of a container: its opening, the start of its next item, or its
        closing. */
    method PrintContainer() returns (more: bool)
      requires Printing() && values[depth].Container()
      modifies this`out, this`depth, values, index
      ensures more && path <= depth ==> Printing() && Remaining() < old(Remaining())
      ensures !(more && path <= depth) ==> out == Str(whole)
    {
      var v := values[depth];
      var i := index[depth];
      ghost var above := Above(values[..], index[..], path, depth);
      if i == 0 {
        PutChar(v.Type(), Byte('\n', Items(v, 0, above)));
        PutChar('\n', Items(v, 0, above));
      }
      if i >= |v.items| {
        PutChar('\n', Byte(Close(v.Type()), above));
        PutChar(Close(v.Type()), above);
        more := BackUp();
        return;
      }
      ghost var after := Items(v, i + 1, above);
      if i > 0 {
        PutChar(',', Byte('\n', ItemText(v, i, above)));
        PutChar('\n', ItemText(v, i, above));
      }
      assert Join(out, ItemText(v, i, above)) == whole;
      if v.Object? {
        assert ItemText(v, i, above) == Join(Quoted(v.items[i].name), Byte(':', Render(v.items[i].value, after)));
        WriteString(v.items[i].name, Byte(':', Render(v.items[i].value, after)));
        PutChar(':', Render(v.items[i].value, after));
      }
      StepDown(v.items[i].value);
      more := true;
    }

    /** Goes down to the current item of the current container. */
    method StepDown(child: Json)
      requires Valid() && values[depth].Container() && index[depth] < |values[depth].items|
      requires child == values[depth].items[index[depth]].value
      requires Join(out, Render(child, Items(values[depth], index[depth] + 1,
                                             Above(values[..], index[..], path, depth)))) == whole
      modifies this`depth, values, index
      ensures Printing() && path < depth && Remaining() < old(Remaining())
    {
      ghost var vals, idx := values[..], index[..];
      IntoItem(vals, idx, path, depth, child);
      depth := depth + 1;
      index[depth] := 0;
      values[depth] := child;
      assert values[..] == vals[depth := child] && index[..] == idx[depth := 0];
    }

    /** The next piece of a callback's output; false if it was the last. */
    method NextPiece() returns (more: bool)
      requires Printing() && values[depth].Callback? && values[depth].output != []
      modifies this`out, index
      ensures depth == old(depth)
      ensures more ==> Printing() && Remaining() < old(Remaining())
      ensures !more ==> Valid() && Join(out, Above(values[..], index[..], path, depth)) == whole
      ensures !more ==>
                WorkAbove(values[..], index[..], path, depth) == old(WorkAbove(values[..], index[..], path, depth))
    {
      var output := values[depth].output;
      var i := index[depth];
      ghost var above := Above(values[..], index[..], path, depth);
      ghost var vals, idx := values[..], index[..];
      PutAll(output[i], Chunks(output, i + 1, above));
      more := i + 1 < |output|;
      if more {
        index[depth] := i + 1;
        AboveDependsBelow(vals, idx, values[..], index[..], path, depth);
      }
    }

    /** Leaves a value that is done. */
    method BackUp() returns (more: bool)
      requires Valid() && Join(out, Above(values[..], index[..], path, depth)) == whole
      modifies this`depth, index
      ensures more && path <= depth ==>
                Printing() && Remaining() < old(1 + WorkAbove(values[..], index[..], path, depth))
      ensures !(more && path <= depth) ==> out == Str(whole)
    {
      if depth == 0 {
        JoinIsConcat(out, End);
        return false;
      }
      more := true;
      if depth > path {
        StepOn();
      } else {
        JoinIsConcat(out, End);
        StepUp();
      }
    }

    /** Goes on with the rest of the container above. */
    method StepOn()
      requires Valid() && depth > path && Join(out, Above(values[..], index[..], path, depth)) == whole
      modifies this`depth, index
      ensures path <= depth && Printing() && Remaining() < old(1 + WorkAbove(values[..], index[..], path, depth))
    {
      OutOfItem(values[..], index[..], path, depth);
      StepUp();
    }

    method StepUp()
      requires Valid() && depth > 0
      modifies this`depth, index
      ensures depth == old(depth) - 1 && values[..] == old(values[..])
      ensures index[..] == old(index[..][depth - 1 := index[depth - 1] + 1])
    {
      depth := depth - 1;
      index[depth] := index[depth] + 1;
    }

    // ----- finding a subtree by its path -----

    constructor (tree: Json)
      requires Fits(tree, JSONTREE_MAX_DEPTH)
      ensures Valid() && depth == 0 && path == 0 && values[0] == tree && index[0] == 0 && out == ""
      ensures fresh(values) && fresh(index)
    {
      values := new Json[JSONTREE_MAX_DEPTH](_ => tree);
      index := new nat[JSONTREE_MAX_DEPTH](_ => 0);
      depth, path, out := 0, 0, "";
      whole := End;
    }

    /** Goes down along the segments of a path as long as they match, and makes
        the level reached the starting level. */
    method FindPath(text: string)
      requires Valid() && depth == 0 && path == 0 && index[0] == 0
      modifies this`depth, this`path, values, index
      ensures Valid() && path == depth && index[depth] == 0
      ensures values[depth] == Along(old(values[0]), text)
    {
      ghost var tree := values[0];
      var rest := text;
      var going := true;
      while going
        invariant Valid() && path == 0 && index[depth] == 0
        invariant Along(tree, text) == if going then Along(values[depth], rest) else values[depth]
        decreases going, |rest|
      {
        going, rest := FollowSegment(rest);
      }
      path := depth;
    }

    /** Goes down one segment, and says whether there is another. */
    method FollowSegment(text: string) returns (going: bool, rest: string)
      requires Valid() && path == 0 && index[depth] == 0
      modifies this`depth, values, index
      ensures Valid() && index[depth] == 0 && (going ==> |rest| < |text|)
      ensures Along(old(values[depth]), text) == if going then Along(values[depth], rest) else values[depth]
    {
      var len := SegmentLength(text);
      going, rest := false, text;
      if len != 0 || text == "" {
        going := EnterItem(text[..len]);
        if going {
          going := len < |text| - 1;
          rest := if going then text[len + 1..] else text;
        }
      }
    }

    /** Goes down to the first item of an object whose name begins with `segment`. */
    method EnterItem(segment: string) returns (found: bool)
      requires Valid() && path == 0 && index[depth] == 0
      modifies this`depth, values, index
      ensures Valid() && index[depth] == 0
      ensures found == HasItem(old(values[depth]), segment)
      ensures values[depth] == if found then ItemAt(old(values[depth]), segment) else old(values[depth])
    {
      var v := values[depth];
      found := false;
      if v.Object? {
        var i := 0;
        while i < |v.items| && !(segment <= v.items[i].name)
          invariant i <= |v.items| && FindItem(v.items, segment) == i + FindItem(v.items[i..], segment)
        {
          i := i + 1;
        }
        found := i < |v.items|;
        if found {
          Descend(i);
        }
      }
    }

    method Descend(i: nat)
      requires Valid() && path == 0 && values[depth].Container() && i < |values[depth].items|
      modifies this`depth, values, index
      ensures Valid() && index[depth] == 0 && values[depth] == old(values[depth]).items[i].value
    {
      var child := values[depth].items[i].value;
      ghost var vals := values[..];
      RoomBelow(vals, path, depth, i);
      assert Fits(vals[depth], JSONTREE_MAX_DEPTH - depth);
      index[depth] := i;
      depth := depth + 1;
      values[depth] := child;
      index[depth] := 0;
      assert forall k :: 0 <= k < depth ==> values[k] == vals[k];
    }
  }

  // ----- the item that a path names -----

  /** The first item named exactly `segment`, or the number of items. */
  function FindNamed(items: seq<Item>, segment: string): (i: nat)
    ensures i <= |items| && (i < |items| ==> items[i].name == segment)
    ensures forall j :: 0 <= j < i ==> items[j].name != segment
  {
    if items == [] || items[0].name == segment then 0 else 1 + FindNamed(items[1..], segment)
  }

  /** No item before number `i` has a name that begins with `segment`. */
  predicate Unshadowed(items: seq<Item>, segment: string, i: nat)
    requires i <= |items|
  {
    forall j :: 0 <= j < i ==> !(segment <= items[j].name)
  }

  /** The item named by a segment is the one found if and only if no earlier name
      begins with the segment. */
  lemma FoundIff(items: seq<Item>, segment: string)
    requires FindNamed(items, segment) < |items|
    ensures FindItem(items, segment) == FindNamed(items, segment)
       <==> Unshadowed(items, segment, FindNamed(items, segment))
    ensures FindItem(items, segment) <= FindNamed(items, segment)
  {
    assert segment <= items[FindNamed(items, segment)].name;
  }

  /** The path ends here, or its segments name items exactly all the way. */
  predicate Resolves(v: Json, path: string)
    decreases |path|
  {
    var len := SegmentLength(path);
    (len == 0 && path != "") ||
    (v.Object? && FindNamed(v.items, path[..len]) < |v.items|
     && (len < |path| - 1 ==> Resolves(v.items[FindNamed(v.items, path[..len])].value, path[len + 1..])))
  }

  /** The numbers of the items to go down to, one after the other. */
  datatype Route = Here | Into(item: nat, next: Route)

  /** The numbers of the items that the segments name. */
  function NamedRoute(v: Json, path: string): Route
    requires Resolves(v, path)
    decreases |path|
  {
    var len := SegmentLength(path);
    if len == 0 && path != "" then Here
    else
      var i := FindNamed(v.items, path[..len]);
      Into(i, if len < |path| - 1 then NamedRoute(v.items[i].value, path[len + 1..]) else Here)
  }

  /** The numbers of the items that the search goes down to. */
  function FoundRoute(v: Json, path: string): Route
    decreases |path|
  {
    var len := SegmentLength(path);
    if (len == 0 && path != "") || !HasItem(v, path[..len]) then Here
    else
      var i := FindItem(v.items, path[..len]);
      Into(i, if len < |path| - 1 then FoundRoute(v.items[i].value, path[len + 1..]) else Here)
  }

  function Under(v: Json, route: Route): Json
    decreases route
  {
    if route == Here || !v.Container() || route.item >= |v.items| then v
    else Under(v.items[route.item].value, route.next)
  }

  /** At no segment does an earlier name begin with it. */
  predicate Clear(v: Json, path: string)
    requires Resolves(v, path)
    decreases |path|
  {
    var len := SegmentLength(path);
    (len == 0 && path != "") ||
    (var i := FindNamed(v.items, path[..len]);
     Unshadowed(v.items, path[..len], i)
     && (len < |path| - 1 ==> Clear(v.items[i].value, path[len + 1..])))
  }

  /** The search goes where its route says. */
  lemma {:induction false} AlongIsRoute(v: Json, path: string)
    ensures Along(v, path) == Under(v, FoundRoute(v, path))
    decreases |path|
  {
    var len := SegmentLength(path);
    if !((len == 0 && path != "") || !HasItem(v, path[..len])) && len < |path| - 1 {
      AlongIsRoute(v.items[FindItem(v.items, path[..len])].value, path[len + 1..]);
    }
  }

  /** A path of existing names leads to the items it names if and only if at no
      segment an earlier name begins with the segment. */
  lemma {:induction false} ReachedIff(v: Json, path: string)
    requires Resolves(v, path)
    ensures FoundRoute(v, path) == NamedRoute(v, path) <==> Clear(v, path)
    decreases |path|
  {
    var len := SegmentLength(path);
    if !(len == 0 && path != "") {
      var i := FindNamed(v.items, path[..len]);
      FoundIff(v.items, path[..len]);
      if len < |path| - 1 && FindItem(v.items, path[..len]) == i {
        ReachedIff(v.items[i].value, path[len + 1..]);
      }
    }
  }

  /** Such a path, where an earlier name is a longer one. */
  lemma APathMissesItsItem()
    ensures var tree := Object([Item("station_ip", Int(1)), Item("station", Int(2))]);
            && Resolves(tree, "station") && !Clear(tree, "station")
            && Under(tree, NamedRoute(tree, "station")) == Int(2) && Along(tree, "station") == Int(1)
  {
    var tree := Object([Item("station_ip", Int(1)), Item("station", Int(2))]);
    var name := "station";
    OneSegment(name);
    assert name[..|name|] == name;
    assert name <= tree.items[0].name && tree.items[0].name != name;
    assert FindNamed(tree.items[1..], name) == 0;
    assert NamedRoute(tree, name) == Into(1, Here);
    assert Under(Int(2), Here) == Int(2);
  }

  lemma OneSegment(path: string)
    requires '/' !in path
    ensures SegmentLength(path) == |path|
  {
  }

  lemma {:induction false} FirstSegment(first: string, rest: string)
    requires '/' !in first
    ensures SegmentLength(first + ("/" + rest)) == |first|
  {
    var path := first + ("/" + rest);
    if first == "" {
      assert path[0] == '/';
    } else {
      assert path[0] == first[0] && path[1..] == first[1..] + ("/" + rest);
      FirstSegment(first[1..], rest);
    }
  }

  /** The path `first/rest` goes on with `rest` from the item found for `first`, and
      ends where it is if there is none. */
  lemma SegmentBySegment(v: Json, first: string, rest: string)
    requires first != "" && rest != "" && '/' !in first
    ensures Along(v, first + ("/" + rest)) == if HasItem(v, first) then Along(ItemAt(v, first), rest) else v
  {
    var path := first + ("/" + rest);
    FirstSegment(first, rest);
    assert path[..|first|] == first && path[|first| + 1..] == rest;
  }

  /** Prints the subtree that a path leads to, character by character. */
  method PrintAlong(tree: Json, path: string) returns (text: string)
    requires Fits(tree, JSONTREE_MAX_DEPTH)
    ensures text == Str(Render(Along(tree, path), End))
  {
    var json := new Context(tree);
    json.FindPath(path);
    json.whole := Render(json.values[json.depth], End);
    assert Join("", json.whole) == json.whole;
    var more := true;
    while more && json.path <= json.depth
      invariant fresh(json.values) && fresh(json.index) && fresh(json)
      invariant json.whole == Render(Along(tree, path), End)
      invariant if more && json.path <= json.depth then json.Printing() else json.out == Str(json.whole)
      decreases more, if more && json.path <= json.depth then json.Remaining() else 0
    {
      more := json.PrintNext();
    }
    text := json.out;
  }

  /** The output buffer: `size` characters were allocated for it. */
  class JsonBuffer {
    const size: nat
    var written: string    // what was written, from the first character on

    constructor (size: nat)
      ensures this.size == size && written == ""
    {
      this.size := size;
      written := "";
    }

    /** Characters go in while the position is not past `size`. */
    method PutChar(c: char)
      modifies this`written
      ensures written == old(written) + if |old(written)| <= size then [c] else ""
    {
      if |written| <= size {
        written := written + [c];
      }
    }

    method Terminate()
      modifies this`written
      ensures written == old(written) + ['\0']
    {
      written := written + ['\0'];
    }

    /** Something was written behind the end of the buffer. */
    predicate Overrun()
      reads this
    {
      |written| > size
    }
  }

  /** Sends the rendering of the subtree that a path leads to through a buffer of
      `size` characters. What is sent is the rendering, cut off one character too
      late, and the buffer is overrun if and only if the rendering does not leave
      room for the NUL. */
  method JsonWsSend(tree: Json, path: string, size: nat) returns (pbuf: string, overrun: bool)
    requires Fits(tree, JSONTREE_MAX_DEPTH)
    ensures var text := Str(Render(Along(tree, path), End));
            && pbuf == (if |text| <= size then text else text[..size + 1])
            && (overrun <==> |text| >= size)
  {
    var text := PrintAlong(tree, path);
    var buffer := new JsonBuffer(size);
    for i := 0 to |text|
      invariant buffer.written == text[..if i <= size then i else size + 1]
    {
      buffer.PutChar(text[i]);
    }
    pbuf := buffer.written;
    buffer.Terminate();
    overrun := buffer.Overrun();
  }
}
