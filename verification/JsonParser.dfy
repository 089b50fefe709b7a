/** The text parser: one call reads one token, and a small stack tells where in
    an object or an array the text is. */
module JsonParser {
  import opened Decimal

  const JSONPARSE_MAX_DEPTH := 10
  const NUL := '\0'
  const PAIR_NAME := 'N'
  const NUMBER := '0'

  /** The largest value of a plain char, which a compiler may take as signed or as
      unsigned. */
  type CharMax = max: nat | max == 127 || max == 255 witness 127

  datatype Error = NoError | Syntax | UnexpectedArray | UnexpectedEndOfArray | UnexpectedString

  datatype State = State(pos: nat, stack: seq<char>, vtype: char, vstart: nat, vlen: nat, error: Error)
  {
    /** The innermost open bracket or pair, if there is one. */
    function Top(): char {
      if stack == [] then NUL else stack[|stack| - 1]
    }

    function Push(c: char): State {
      this.(stack := stack + [c], vtype := NUL)
    }

    function Pop(): State {
      if stack == [] then this else this.(stack := stack[..|stack| - 1])
    }
  }

  // ----- scanning -----

  /** The text ends with a NUL, and what lies behind it reads as NUL as well. */
  function CharAt(json: string, i: nat): char {
    if i < |json| then json[i] else NUL
  }

  predicate IsSpace(c: char) {
    c == ' ' || c == '\n'
  }

  predicate IsNumeric(c: char) {
    IsDigit(c) || c == '.'
  }

  function SkipSpace(json: string, i: nat): (j: nat)
    ensures i <= j && (i <= |json| ==> j <= |json|)
    decreases |json| - i
  {
    if i < |json| && IsSpace(json[i]) then SkipSpace(json, i + 1) else i
  }

  /** The position after the quote that ends a string; a character after a
      backslash does not end it. */
  function StringEnd(json: string, i: nat): (j: nat)
    ensures i < j
    decreases |json| - i
  {
    var c := CharAt(json, i);
    if c == NUL || c == '"' then i + 1
    else StringEnd(json, if c == '\\' then i + 2 else i + 1)
  }

  function NumberEnd(json: string, i: nat): (j: nat)
    ensures i <= j
    decreases |json| - i
  {
    if IsNumeric(CharAt(json, i)) then NumberEnd(json, i + 1) else i
  }

  /** Blanks and line breaks are passed, and nothing else. */
  lemma {:induction false} SkipSpaceIs(json: string, i: nat)
    requires i <= |json|
    ensures var j := SkipSpace(json, i);
            && i <= j <= |json| && (j < |json| ==> json[j] != ' ' && json[j] != '\n')
            && forall k :: i <= k < j ==> json[k] == ' ' || json[k] == '\n'
    decreases |json| - i
  {
    if i == |json| {
    } else if IsSpace(json[i]) {
      SkipSpaceIs(json, i + 1);
    }
  }

  /** A number goes on over digits and points, and over nothing else. */
  lemma {:induction false} NumberEndIs(json: string, i: nat)
    requires i <= |json|
    ensures var j := NumberEnd(json, i);
            && i <= j <= |json| && (j < |json| ==> json[j] !in "0123456789.")
            && forall k :: i <= k < j ==> json[k] in "0123456789."
    decreases |json| - i
  {
    if i == |json| {
    } else {
      NumericIs(json[i]);
      if IsNumeric(json[i]) {
        NumberEndIs(json, i + 1);
      }
    }
  }

  lemma NumericIs(c: char)
    ensures IsNumeric(c) <==> c in "0123456789."
  {
    var digits := "0123456789.";
    if IsDigit(c) {
      assert digits[c as int - '0' as int] == c;
    }
  }

  // ----- one token -----

  function ReadString(json: string, st: State, kind: char): State {
    var end := StringEnd(json, st.pos);
    st.(pos := end, vtype := kind, vstart := st.pos, vlen := end - st.pos - 1)
  }

  /** The first digit has gone by already. */
  function ReadNumber(json: string, st: State): State
    requires st.pos > 0
  {
    var end := NumberEnd(json, st.pos);
    st.(pos := end, vtype := NUMBER, vstart := st.pos - 1, vlen := end - (st.pos - 1))
  }

  /** What the character `c`, which has gone by already, does; NUL is returned
      for errors and for characters without meaning. */
  function Act(json: string, st: State, c: char): (State, char)
    requires st.pos > 0
  {
    var s := st.Top();
    match c
    case '{' => (st.Push(c), c)
    case '}' =>
      var pairs := if s == ':' && st.vtype != NUL then st.Pop() else st;
      if pairs.Top() == '{' then (pairs.Pop(), c) else (pairs.(error := Syntax), NUL)
    case ']' =>
      if s == '[' then (st.Pop(), c) else (st.(error := UnexpectedEndOfArray), NUL)
    case ':' => (st.Push(c), c)
    case ',' =>
      if s == ':' && st.vtype != NUL then (st.Pop(), c)
      else if s == '[' then (st, c)
      else (st.(error := Syntax), NUL)
    case '"' =>
      if s == '{' then (ReadString(json, st, PAIR_NAME), PAIR_NAME)
      else if s == '[' || s == ':' then (ReadString(json, st, c), c)
      else (st.(error := UnexpectedString), NUL)
    case '[' =>
      if s == '{' || s == '[' || s == ':' then (st.Push(c), c) else (st.(error := UnexpectedArray), NUL)
    case _ =>
      if (s == ':' || s == '[') && IsDigit(c) then (ReadNumber(json, st), NUMBER) else (st, NUL)
  }

  function Step(json: string, st: State): (State, char) {
    var i := SkipSpace(json, st.pos);
    Act(json, st.(pos := i + 1), CharAt(json, i))
  }

  /** Which errors there are, of a parser that had none: a `}` without an object to
      close, or a comma without a value before it or outside of an array; a `]`
      without an array to close; a string or a `[` where nothing is open that could
      hold it. After an error, and only then or before anything else that cannot
      begin a token, the kind is zero. */
  lemma ErrorsAre(json: string, st: State)
    requires st.error == NoError
    ensures var c, top := CharAt(json, SkipSpace(json, st.pos)), st.Top();
            var hasValue := top == ':' && st.vtype != NUL;
            var (next, kind) := Step(json, st);
            && (next.error == Syntax <==> || (c == '}' && (if hasValue then st.Pop().Top() else top) != '{')
                                          || (c == ',' && !hasValue && top != '['))
            && (next.error == UnexpectedEndOfArray <==> c == ']' && top != '[')
            && (next.error == UnexpectedString <==> c == '"' && top !in "{[:")
            && (next.error == UnexpectedArray <==> c == '[' && top !in "{[:")
            && (kind == NUL <==> next.error != NoError || (c !in "{}[]:,\"" && !(c in "0123456789" && top in ":[")))
  {
    var c := CharAt(json, SkipSpace(json, st.pos));
    NumericIs(c);
    DigitIs(c);
  }

  lemma DigitIs(c: char)
    ensures IsDigit(c) <==> c in "0123456789"
  {
    var digits := "0123456789";
    if IsDigit(c) {
      assert digits[c as int - '0' as int] == c;
    }
  }

  /** The next token does not need more stack than there is. */
  predicate Safe(json: string, st: State) {
    |Step(json, st).0.stack| <= JSONPARSE_MAX_DEPTH
  }

  // ----- values -----

  function Raw(json: string, start: nat, len: nat): string {
    seq(len, i requires 0 <= i => CharAt(json, start + i))
  }

  /** A string without the backslashes that escape something; `after` says that
      one went by just before. */
  function Unescape(after: bool, s: string): string
    decreases s
  {
    if s == "" then ""
    else if !after && s[0] == '\\' then Unescape(true, s[1..])
    else [s[0]] + Unescape(false, s[1..])
  }

  function Backslashes(after: bool, s: string): nat
    decreases s
  {
    if s == "" then 0
    else if !after && s[0] == '\\' then 1 + Backslashes(true, s[1..])
    else Backslashes(false, s[1..])
  }

  lemma {:induction false} FewerInPrefix(after: bool, s: string, n: nat)
    requires n <= |s|
    ensures Backslashes(after, s[..n]) <= Backslashes(after, s)
    decreases s
  {
    if n == 0 {
    } else {
      assert s[..n][1..] == s[1..][..n - 1];
      FewerInPrefix(!after && s[0] == '\\', s[1..], n - 1);
    }
  }

  lemma {:induction false} UnescapedLength(after: bool, s: string)
    ensures |Unescape(after, s)| + Backslashes(after, s) == |s|
    decreases s
  {
    if s == "" {
    } else {
      UnescapedLength(!after && s[0] == '\\', s[1..]);
    }
  }

  /** The last character is a backslash that escapes the next one. */
  predicate EndsEscaping(after: bool, s: string)
    decreases s
  {
    if s == "" then after else EndsEscaping(!after && s[0] == '\\', s[1..])
  }

  /** One more character to be copied. */
  lemma {:induction false} UnescapeSnoc(after: bool, s: string, c: char)
    ensures var dropped := !EndsEscaping(after, s) && c == '\\';
            && Unescape(after, s + [c]) == Unescape(after, s) + (if dropped then "" else [c])
            && Backslashes(after, s + [c]) == Backslashes(after, s) + (if dropped then 1 else 0)
            && EndsEscaping(after, s + [c]) == dropped
    decreases s
  {
    if s == "" {
      assert (s + [c])[1..] == "";
    } else {
      assert (s + [c])[1..] == s[1..] + [c];
      UnescapeSnoc(!after && s[0] == '\\', s[1..], c);
    }
  }

  function Value(json: string, st: State): string {
    Unescape(false, Raw(json, st.vstart, st.vlen))
  }

  function With(str: string, at: int, c: char): string {
    if 0 <= at < |str| then str[at := c] else str
  }

  /** Puts a character into an array, unless the place is outside of it. */
  method PutIn(str: array<char>, at: int, c: char) returns (outside: bool)
    modifies str
    ensures outside <==> !(0 <= at < str.Length)
    ensures str[..] == With(old(str[..]), at, c)
  {
    outside := !(0 <= at < str.Length);
    if !outside {
      str[at] := c;
    }
  }

  /** Character `k` is an escaping backslash with `max` such ones before it. */
  predicate OneTooMany(max: CharMax, s: string, k: nat) {
    k < |s| && Backslashes(false, s[..k]) == max && !EndsEscaping(false, s[..k]) && s[k] == '\\'
  }

  /** How far the copy of `raw` has got at character `i`, with count `z`. */
  ghost predicate Copying(max: CharMax, raw: string, before: string, str: string, i: nat, z: int, outside: bool,
                          cut: nat)
  {
    && i <= |raw| < |before| == |str| && max - 255 <= z <= max
    && if cut == |raw| then
         var done := Unescape(false, raw[..i]);
         && z == Backslashes(false, raw[..i]) && |done| == i - z && !outside
         && str == done + before[|done|..]
       else
         OneTooMany(max, raw, cut) && cut < i && Kept(max, raw, before, str, cut)
  }

  /** The copy is right up to the backslash at `cut`, and the next place of it is
      as before. */
  ghost predicate Kept(max: CharMax, raw: string, before: string, str: string, cut: nat) {
    cut < |raw| &&
    var done := Unescape(false, raw[..cut]);
    |done| == cut - max < |before| == |str| && str[..|done|] == done && str[|done|] == before[|done|]
  }

  /** What a copy of `raw` leaves in an array. */
  ghost predicate Copied(max: CharMax, raw: string, before: string, str: string, outside: bool, cut: nat) {
    if Backslashes(false, raw) <= max then
      var done := Unescape(false, raw);
      |done| < |before| == |str| && str == done + [NUL] + before[|done| + 1..] && !outside
    else
      OneTooMany(max, raw, cut) && Kept(max, raw, before, str, cut)
  }

  lemma SkipKeepsCopying(max: CharMax, raw: string, before: string, str: string, i: nat, z: int, outside: bool,
                         cut: nat)
    returns (cut': nat)
    requires Copying(max, raw, before, str, i, z, outside, cut)
    requires i < |raw| && !EndsEscaping(false, raw[..i]) && raw[i] == '\\'
    ensures Copying(max, raw, before, str, i + 1, if z == max then max - 255 else z + 1, outside, cut')
  {
    assert raw[..i + 1] == raw[..i] + [raw[i]];
    UnescapeSnoc(false, raw[..i], raw[i]);
    cut' := if z == max && cut == |raw| then i else cut;
  }

  lemma PutKeepsCopying(max: CharMax, raw: string, before: string, str: string, i: nat, z: int, outside: bool, cut: nat)
    requires Copying(max, raw, before, str, i, z, outside, cut)
    requires i < |raw| && (EndsEscaping(false, raw[..i]) || raw[i] != '\\')
    ensures Copying(max, raw, before, With(str, i - z, raw[i]), i + 1, z, outside || !(0 <= i - z < |str|), cut)
  {
    assert raw[..i + 1] == raw[..i] + [raw[i]];
    UnescapeSnoc(false, raw[..i], raw[i]);
    if cut == |raw| {
      OneMoreDone(Unescape(false, raw[..i]), before, raw[i]);
    } else {
      StaysKept(max, raw, before, str, cut, i - z, raw[i]);
    }
  }

  lemma OneMoreDone(done: string, before: string, c: char)
    requires |done| < |before|
    ensures With(done + before[|done|..], |done|, c) == done + [c] + before[|done| + 1..]
  {
  }

  lemma StaysKept(max: CharMax, raw: string, before: string, str: string, cut: nat, at: int, c: char)
    requires Kept(max, raw, before, str, cut) && at > cut - max
    ensures Kept(max, raw, before, With(str, at, c), cut)
  {
    var done := Unescape(false, raw[..cut]);
    assert With(str, at, c)[..|done|] == str[..|done|];
  }

  /** Copies one character, or counts it as an escaping backslash. */
  method CopyChar(max: CharMax, str: array<char>, c: char, i: nat, y0: bool, z0: int, outside0: bool,
                  ghost raw: string, ghost before: string, ghost cut0: nat)
    returns (y: bool, z: int, outside: bool, ghost cut: nat)
    requires i < |raw| && raw[i] == c && y0 == EndsEscaping(false, raw[..i])
    requires Copying(max, raw, before, str[..], i, z0, outside0, cut0)
    modifies str
    ensures y == EndsEscaping(false, raw[..i + 1])
    ensures Copying(max, raw, before, str[..], i + 1, z, outside, cut)
  {
    y, z, outside, cut := false, z0, outside0, cut0;
    assert raw[..i + 1] == raw[..i] + [c];
    UnescapeSnoc(false, raw[..i], c);
    if !y0 && c == '\\' {
      cut := SkipKeepsCopying(max, raw, before, str[..], i, z, outside, cut);
      y := true;
      z := if z == max then max - 255 else z + 1;
    } else {
      PutKeepsCopying(max, raw, before, str[..], i, z, outside, cut);
      var out := PutIn(str, i - z, c);
      outside := outside || out;
    }
  }

  lemma EndOfCopy(max: CharMax, raw: string, before: string, str: string, z: int, outside: bool, cut: nat)
    requires Copying(max, raw, before, str, |raw|, z, outside, cut)
    ensures Copied(max, raw, before, With(str, |raw| - z, NUL), outside || !(0 <= |raw| - z < |str|), cut)
  {
    assert raw[..|raw|] == raw;
    if cut == |raw| {
      OneMoreDone(Unescape(false, raw), before, NUL);
    } else {
      StaysKept(max, raw, before, str, cut, |raw| - z, NUL);
      CountGrows(max, raw, cut);
    }
  }

  /** Ends the copy with a NUL. */
  method EndCopy(max: CharMax, str: array<char>, at: int, outside0: bool,
                 ghost raw: string, ghost before: string, ghost z: int, ghost cut: nat)
    returns (outside: bool)
    requires Copying(max, raw, before, str[..], |raw|, z, outside0, cut) && at == |raw| - z
    modifies str
    ensures Copied(max, raw, before, str[..], outside, cut)
  {
    EndOfCopy(max, raw, before, str[..], z, outside0, cut);
    outside := PutIn(str, at, NUL);
    outside := outside || outside0;
  }

  /** One more backslash than the counter holds. */
  lemma CountGrows(max: CharMax, raw: string, cut: nat)
    requires OneTooMany(max, raw, cut)
    ensures Backslashes(false, raw) > max
  {
    assert raw[..cut + 1] == raw[..cut] + [raw[cut]];
    UnescapeSnoc(false, raw[..cut], raw[cut]);
    FewerInPrefix(false, raw, cut + 1);
  }

  // ----- the parser -----

  class Parser {
    const json: string
    const charMax: CharMax
    var pos: nat
    const stack: array<char>
    var depth: nat
    var vtype: char
    var vstart: nat
    var vlen: nat
    var error: Error

    ghost predicate Valid()
      reads this, stack
    {
      stack.Length == JSONPARSE_MAX_DEPTH && depth <= stack.Length
    }

    ghost function View(): State
      requires Valid()
      reads this, stack
    {
      State(pos, stack[..depth], vtype, vstart, vlen, error)
    }

    constructor (text: string, charMax: CharMax)
      ensures Valid() && fresh(stack) && json == text && this.charMax == charMax
      ensures pos == 0 && depth == 0 && error == NoError
    {
      json, this.charMax := text, charMax;
      stack := new char[JSONPARSE_MAX_DEPTH];
      pos, depth, error := 0, 0, NoError;
    }

    /** Nothing is said about a parser that has written outside of its stack. */
    method Push(c: char) returns (outside: bool)
      requires Valid()
      modifies this`depth, this`vtype, stack
      ensures Valid() && (outside <==> old(depth) == 10)
      ensures !outside ==> View() == old(View().Push(c))
    {
      outside := depth == stack.Length;
      if outside {
        return;
      }
      stack[depth] := c;
      depth := depth + 1;
      vtype := NUL;
    }

    method Pop() returns (c: char)
      requires Valid()
      modifies this`depth
      ensures Valid() && c == old(View().Top()) && View() == old(View().Pop())
    {
      if depth == 0 {
        return NUL;
      }
      depth := depth - 1;
      c := stack[depth];
      assert stack[..depth + 1] == stack[..depth] + [stack[depth]];
    }

    function GetType(): (c: char)
      requires Valid()
      reads this, stack
      ensures c == View().Top()
    {
      if depth == 0 then NUL else stack[depth - 1]
    }

    method SkipWs()
      modifies this`pos
      ensures pos == SkipSpace(json, old(pos))
      ensures forall k :: old(pos) <= k < pos ==> json[k] == ' ' || json[k] == '\n'
      ensures pos < |json| ==> json[pos] != ' ' && json[pos] != '\n'
    {
      if pos <= |json| {
        SkipSpaceIs(json, pos);
      }
      while pos < |json| && IsSpace(json[pos])
        invariant SkipSpace(json, pos) == SkipSpace(json, old(pos))
      {
        pos := pos + 1;
      }
    }

    /** Passes by an atomic value and notes where it is. */
    method Atomic(kind: char)
      requires Valid() && pos > 0
      modifies this`pos, this`vtype, this`vstart, this`vlen
      ensures Valid()
      ensures kind == '"' || kind == PAIR_NAME ==> View() == ReadString(json, old(View()), kind)
      ensures kind == NUMBER ==> View() == ReadNumber(json, old(View()))
    {
      vstart := pos;
      vtype := kind;
      if kind == '"' || kind == PAIR_NAME {
        var c := CharAt(json, pos);
        pos := pos + 1;
        while c != NUL && c != '"'
          invariant pos > 0 && c == CharAt(json, pos - 1)
          invariant StringEnd(json, pos - 1) == StringEnd(json, vstart)
          invariant vstart == old(pos) && vtype == kind
          decreases if c == NUL then 0 else |json| - pos + 1
        {
          if c == '\\' {
            pos := pos + 1;
          }
          c := CharAt(json, pos);
          pos := pos + 1;
        }
        vlen := pos - vstart - 1;
      } else if kind == NUMBER {
        while IsNumeric(CharAt(json, pos))
          invariant pos >= vstart && NumberEnd(json, pos) == NumberEnd(json, vstart)
          invariant vstart == old(pos) && vtype == kind
          decreases |json| - pos
        {
          pos := pos + 1;
        }
        vstart := vstart - 1;
        vlen := pos - vstart;
      }
    }

    /** Reads one token, unless that needs more stack than there is. */
    method Next() returns (kind: char, outside: bool)
      requires Valid()
      modifies this, stack
      ensures Valid() && (outside <==> !Safe(json, old(View())))
      ensures !outside ==> (View(), kind) == Step(json, old(View()))
    {
      SkipWs();
      var c := CharAt(json, pos);
      pos := pos + 1;
      kind, outside := BeginToken(c);
    }

    /** What a character does that begins a token. */
    method BeginToken(c: char) returns (kind: char, outside: bool)
      requires Valid() && pos > 0
      modifies this, stack
      ensures Valid() && (outside <==> |Act(json, old(View()), c).0.stack| > JSONPARSE_MAX_DEPTH)
      ensures !outside ==> (View(), kind) == Act(json, old(View()), c)
    {
      var s := GetType();
      match c {
        case '{' =>
          outside := Push(c);
          return c, outside;
        case '}' =>
          if s == ':' && vtype != NUL {
            var _ := Pop();
            s := GetType();
          }
          if s == '{' {
            var _ := Pop();
          } else {
            error := Syntax;
            return NUL, false;
          }
          return c, false;
        case ']' =>
          if s == '[' {
            var _ := Pop();
          } else {
            error := UnexpectedEndOfArray;
            return NUL, false;
          }
          return c, false;
        case ':' =>
          outside := Push(c);
          return c, outside;
        case ',' =>
          if s == ':' && vtype != NUL {
            var _ := Pop();
          } else if s == '[' {
          } else {
            error := Syntax;
            return NUL, false;
          }
          return c, false;
        case '"' =>
          if s == '{' || s == '[' || s == ':' {
            kind := if s == '{' then PAIR_NAME else c;
            Atomic(kind);
          } else {
            error := UnexpectedString;
            return NUL, false;
          }
          return kind, false;
        case '[' =>
          if s == '{' || s == '[' || s == ':' {
            outside := Push(c);
            return c, outside;
          } else {
            error := UnexpectedArray;
            return NUL, false;
          }
        case _ =>
          if s == ':' || s == '[' {
            if IsDigit(c) {
              Atomic(NUMBER);
              return NUMBER, false;
            }
          }
      }
      return NUL, false;
    }

    /** Copies the current value, without the backslashes that escape something,
        as far as it fits, and ends it with a NUL. The copy is right as long as
        the counter of backslashes does not wrap around; after that the next
        place of the copy is never written. */
    method CopyValue(str: array<char>, size: nat) returns (kind: char, outside: bool, ghost cut: nat)
      requires Valid() && 1 <= size <= str.Length
      modifies str
      ensures kind == vtype
      ensures vtype != NUL ==>
                Copied(charMax, Raw(json, vstart, vlen)[..if size <= vlen then size - 1 else vlen],
                       old(str[..]), str[..], outside, cut)
    {
      if vtype == NUL {
        return NUL, false, 0;
      }
      var n := if size <= vlen then size - 1 else vlen;
      outside, cut := CopyChars(str, n);
      return vtype, outside, cut;
    }

    /** Copies the first `n` characters of the current value; a backslash that
        escapes something is counted in `z`, which wraps around, and left out. */
    method CopyChars(str: array<char>, n: nat) returns (outside: bool, ghost cut: nat)
      requires n <= vlen && n < str.Length
      modifies str
      ensures Copied(charMax, Raw(json, vstart, vlen)[..n], old(str[..]), str[..], outside, cut)
    {
      var z, y, i := 0, false, 0;
      ghost var raw := Raw(json, vstart, vlen)[..n];
      ghost var before := str[..];
      outside, cut := false, n;
      while i < n
        invariant i <= n && y == EndsEscaping(false, raw[..i])
        invariant Copying(charMax, raw, before, str[..], i, z, outside, cut)
      {
        y, z, outside, cut := CopyChar(charMax, str, CharAt(json, vstart + i), i, y, z, outside, raw, before, cut);
        i := i + 1;
      }
      outside := EndCopy(charMax, str, i - z, outside, raw, before, z, cut);
    }

    method GetValueAsInt() returns (n: nat)
      ensures n == if vtype == NUMBER && vstart <= |json| then Atoi(json[vstart..]) else 0
    {
      if vtype != NUMBER || vstart > |json| {
        return 0;
      }
      n := Atoi(json[vstart..]);
    }
  }
}
