/** Reading the rendering of a tree back: the parser returns the tokens of the
    tree exactly for those trees that `Readable` describes. */
module JsonRoundTrip {
  import opened ByteList
  import opened Decimal
  import opened JsonTree
  import opened JsonSpacing
  import opened JsonPrinter
  import opened JsonParser
  import opened Sequences

  // ----- the tokens of a tree -----

  /** A number token has its text and the number. */
  datatype Tokens = NoMore | Token(kind: char, text: string, number: nat, next: Tokens)

  /** The tokens of a value, and then `more`. */
  function TokensOf(v: Json, more: Tokens): Tokens
    decreases v, 1, 0
  {
    if v.Container() then Token(v.Type(), "", 0, ItemTokens(v, 0, more))
    else if v.Int? then Token(NUMBER, IntText(v.n), if v.n < 0 then 0 else v.n, more)
    else Token('"', if v.Text? then v.text else "", 0, more)
  }

  function ItemTokens(v: Json, i: nat, more: Tokens): Tokens
    requires v.Container() && i <= |v.items|
    decreases v, 0, |v.items| - i
  {
    if i == |v.items| then Token(Close(v.Type()), "", 0, more)
    else
      var values := TokensOf(v.items[i].value, ItemTokens(v, i + 1, more));
      var pairs := if v.Object? then PairTokens(v.items[i].name, values) else values;
      if i > 0 then Token(',', "", 0, pairs) else pairs
  }

  function PairTokens(name: string, value: Tokens): Tokens {
    Token(PAIR_NAME, name, 0, Token(':', "", 0, value))
  }

  predicate HasText(kind: char) {
    kind in {'"', PAIR_NAME, NUMBER}
  }

  function Number(json: string, st: State): nat {
    if st.vtype == NUMBER && st.vstart <= |json| then Atoi(json[st.vstart..]) else 0
  }

  function Escapes(json: string, st: State): nat {
    Backslashes(false, Raw(json, st.vstart, st.vlen))
  }

  function Quotes(s: string): nat {
    if s == "" then 0 else (if s[0] == '"' then 1 else 0) + Quotes(s[1..])
  }

  /** A parser as seen from outside: its step; the current value, the backslashes
      that a copy of it skips, and its number; and whether the parser is at the
      end of the text with nothing open and no error. */
  datatype Reader = Reader(step: State -> (State, char), value: State -> string, escapes: State -> nat,
                           number: State -> nat, finished: State -> bool)

  function ReaderOf(json: string): Reader {
    Reader((st: State) => Step(json, st), (st: State) => Value(json, st), (st: State) => Escapes(json, st),
           (st: State) => Number(json, st), (st: State) => Finished(json, st))
  }

  predicate Finished(json: string, st: State) {
    SkipSpace(json, st.pos) == |json| && st.stack == [] && st.error == NoError
  }

  /** `r` is the parser of this text. */
  ghost predicate Reads(r: Reader, json: string) {
    && (forall st: State {:trigger Step(json, st)} :: r.step(st) == Step(json, st))
    && (forall st: State {:trigger Value(json, st)} :: r.value(st) == Value(json, st))
    && (forall st: State {:trigger Escapes(json, st)} :: r.escapes(st) == Escapes(json, st))
    && (forall st: State {:trigger Number(json, st)} :: r.number(st) == Number(json, st))
    && (forall st: State {:trigger Finished(json, st)} :: r.finished(st) == Finished(json, st))
  }

  /** The parser returns exactly these tokens, with these texts and numbers, never
      needs more stack than it has, and has then finished. */
  predicate Yields(r: Reader, st: State, tokens: Tokens)
    decreases tokens
  {
    match tokens
    case NoMore => r.finished(st)
    case Token(kind, text, number, next) =>
      var (after, k) := r.step(st);
      && k == kind && |after.stack| <= JSONPARSE_MAX_DEPTH
      && (HasText(kind) ==> r.value(after) == text && r.escapes(after) == Quotes(text))
      && (kind == NUMBER ==> r.number(after) == number)
      && Yields(r, after, next)
  }

  // ----- which trees can be read back -----

  /** The last value put out inside is an empty container, so that the parser
      does not notice that there was a value. */
  predicate EndsEmpty(v: Json) {
    v.Container() && (v.items == [] || EndsEmpty(v.items[|v.items| - 1].value))
  }

  /** No backslash in a string, no negative number, no value of a pair that ends
      with an empty container, and not more than `room` levels of stack, of which
      an array takes one and the values of an object take two. */
  predicate Readable(v: Json, room: int)
    decreases v, 2
  {
    if v.Container() then room >= 1 && ItemsReadable(v, 0, room)
    else (v.Text? ==> '\\' !in v.text) && (v.Int? ==> v.n >= 0)
  }

  predicate ItemsReadable(v: Json, i: nat, room: int)
    requires v.Container()
    decreases v, 1
  {
    forall j :: i <= j < |v.items| ==> ItemReadable(v, j, room)
  }

  predicate ItemReadable(v: Json, j: nat, room: int)
    requires v.Container() && j < |v.items|
    decreases v, 0
  {
    var item := v.items[j];
    if v.Object?
    then room >= 2 && '\\' !in item.name && !EndsEmpty(item.value) && Readable(item.value, room - 2)
    else Readable(item.value, room - 1)
  }

  // ----- positions in the text -----

  /** What is left of the text at `pos` is `rest`. */
  predicate At(json: string, pos: nat, rest: Bytes) {
    pos <= |json| && json[pos..] == Str(rest)
  }

  lemma AtByte(json: string, pos: nat, rest: Bytes)
    requires At(json, pos, rest) && rest.Byte?
    ensures pos < |json| && json[pos] == rest.head && At(json, pos + 1, rest.next)
  {
    assert json[pos] == json[pos..][0];
    assert json[pos + 1..] == json[pos..][1..];
  }

  lemma AtString(json: string, pos: nat, s: string, rest: Bytes)
    requires At(json, pos, Join(s, rest))
    ensures pos <= |json| && json[pos..] == s + Str(rest)
    ensures At(json, pos + |s|, rest)
  {
    JoinIsConcat(s, rest);
    assert json[pos + |s|..] == json[pos..][|s|..];
  }

  function AfterSpace(rest: Bytes): Bytes {
    if rest.Byte? && IsSpace(rest.head) then AfterSpace(rest.next) else rest
  }

  lemma {:induction false} SkipsTo(json: string, pos: nat, rest: Bytes)
    requires At(json, pos, rest)
    ensures At(json, SkipSpace(json, pos), AfterSpace(rest))
    decreases rest
  {
    if rest.Byte? {
      AtByte(json, pos, rest);
      if IsSpace(rest.head) {
        SkipsTo(json, pos + 1, rest.next);
      }
    }
  }

  /** One step acts on the next character that is not a space. */
  lemma StepAt(json: string, st: State, rest: Bytes) returns (pos: nat)
    requires At(json, st.pos, rest) && AfterSpace(rest).Byte?
    ensures pos == SkipSpace(json, st.pos) + 1
    ensures At(json, pos - 1, AfterSpace(rest)) && At(json, pos, AfterSpace(rest).next)
    ensures Step(json, st) == Act(json, st.(pos := pos), AfterSpace(rest).head)
  {
    SkipsTo(json, st.pos, rest);
    AtByte(json, SkipSpace(json, st.pos), AfterSpace(rest));
    pos := SkipSpace(json, st.pos) + 1;
  }

  // ----- strings -----

  /** A string as it is read from the position after its opening quote. */
  function Read(json: string, i: nat): string
    decreases |json| - i
  {
    var c := CharAt(json, i);
    if c == NUL || c == '"' then ""
    else if c == '\\' then [CharAt(json, i + 1)] + Read(json, i + 2)
    else [c] + Read(json, i + 1)
  }

  lemma RawCons(json: string, i: nat, len: nat)
    requires len > 0
    ensures Raw(json, i, len)[0] == CharAt(json, i) && Raw(json, i, len)[1..] == Raw(json, i + 1, len - 1)
  {
  }

  /** Reading at once is finding the end and then copying. */
  lemma {:induction false} ReadIsCopied(json: string, i: nat)
    ensures Unescape(false, Raw(json, i, StringEnd(json, i) - i - 1)) == Read(json, i)
    decreases |json| - i
  {
    var c := CharAt(json, i);
    if !(c == NUL || c == '"') {
      var len := StringEnd(json, i) - i - 1;
      if c == '\\' {
        RawCons(json, i, len);
        RawCons(json, i + 1, len - 1);
        ReadIsCopied(json, i + 2);
      } else {
        RawCons(json, i, len);
        ReadIsCopied(json, i + 1);
      }
    }
  }

  /** A string without backslashes is read back whole, up to its closing quote. */
  lemma {:induction false} ReadsBack(json: string, i: nat, s: string, tail: string)
    requires i <= |json| && json[i..] == Escape(s) + "\"" + tail
    requires NUL !in s && '\\' !in s
    ensures Read(json, i) == s && StringEnd(json, i) == i + |Escape(s)| + 1
    decreases |s|
  {
    if s == "" {
      assert json[i] == json[i..][0];
    } else {
      Skips(json, i, s, tail);
      ReadsBack(json, if s[0] == '"' then i + 2 else i + 1, s[1..], tail);
    }
  }

  /** The first character of an escaped string. */
  lemma Skips(json: string, i: nat, s: string, tail: string)
    requires i <= |json| && json[i..] == Escape(s) + "\"" + tail && s != ""
    ensures s[0] == '"' ==> i + 2 <= |json| && json[i] == '\\' && json[i + 1] == '"'
                            && json[i + 2..] == Escape(s[1..]) + "\"" + tail
    ensures s[0] != '"' ==> i < |json| && json[i] == s[0] && json[i + 1..] == Escape(s[1..]) + "\"" + tail
  {
    var rest := Escape(s[1..]) + "\"" + tail;
    var first := if s[0] == '"' then "\\\"" else [s[0]];
    assert Escape(s) == first + Escape(s[1..]);
    Regroup(first, Escape(s[1..]), "\"", tail);
    Cut(json, i, first, rest);
    if s[0] == '"' {
      assert first[0] == '\\' && first[1] == '"';
      assert json[i + 0] == first[0] && json[i + 1] == first[1];
    } else {
      assert json[i + 0] == first[0];
    }
  }

  lemma Cut(json: string, i: nat, first: string, rest: string)
    requires i <= |json| && json[i..] == first + rest
    ensures i + |first| <= |json| && json[i + |first|..] == rest
    ensures forall j :: 0 <= j < |first| ==> json[i + j] == first[j]
  {
    assert json[i + |first|..] == json[i..][|first|..];
    forall j | 0 <= j < |first| ensures json[i + j] == first[j] {
      assert json[i..][j] == first[j];
    }
  }

  /** Copying a printed string back skips as many backslashes as it has quotes. */
  lemma {:induction false} OneBackslashPerQuote(s: string)
    requires '\\' !in s
    ensures Backslashes(false, Escape(s)) == Quotes(s)
  {
    if s == "" {
    } else {
      OneBackslashPerQuote(s[1..]);
      var rest := Escape(s[1..]);
      if s[0] == '"' {
        assert Escape(s)[1..] == "\"" + rest && ("\"" + rest)[1..] == rest;
      } else {
        assert Escape(s)[1..] == rest;
      }
    }
  }

  function Slashes(k: nat): (s: string)
    ensures |s| == k
  {
    seq(k, _ => '\\')
  }

  /** Once a backslash has been taken for an escape, what is read lags behind
      what was written, and does not catch up. */
  lemma {:induction false} NeverCatchesUp(json: string, i: nat, k: nat, s: string, tail: string)
    requires i <= |json| && json[i..] == Escape(s) + "\"" + tail
    requires NUL !in s && (k > 0 || '\\' in s)
    ensures Read(json, i) != Slashes(k) + s
    decreases |s|
  {
    var whole := Slashes(k) + s;
    if s == "" {
      assert json[i] == json[i..][0];
      assert whole[0] == '\\';
    } else {
      Skips(json, i, s, tail);
      if s[0] == '\\' {
        BackslashLags(json, i, k, s, tail);
      } else if k > 0 {
        assert whole[0] == '\\' && Read(json, i)[0] == s[0];
      } else {
        assert whole == s && Slashes(0) + s[1..] == s[1..];
        NeverCatchesUp(json, if s[0] == '"' then i + 2 else i + 1, 0, s[1..], tail);
      }
    }
  }

  lemma OneMoreSlash(k: nat, s: string)
    requires |s| >= 2 && s[0] == '\\' && s[1] == '\\'
    ensures (Slashes(k) + s)[1..] == Slashes(k + 1) + s[1..][1..]
  {
  }

  lemma {:induction false} BackslashLags(json: string, i: nat, k: nat, s: string, tail: string)
    requires i <= |json| && json[i..] == Escape(s) + "\"" + tail
    requires NUL !in s && s != "" && s[0] == '\\'
    ensures Read(json, i) != Slashes(k) + s
    decreases |s|, 0
  {
    var whole := Slashes(k) + s;
    Skips(json, i, s, tail);
    assert whole[0] == '\\';
    var next := s[1..];
    assert Read(json, i) == [CharAt(json, i + 1)] + Read(json, i + 2);
    if next == "" {
      assert json[i + 1] == json[i + 1..][0] == '"';
    } else {
      Skips(json, i + 1, next, tail);
      if next[0] == '"' {
        assert json[i + 2] == '"' && Read(json, i + 2) == "";
        assert |Read(json, i)| == 1 < |whole|;
      } else if next[0] == '\\' {
        NeverCatchesUp(json, i + 2, k + 1, next[1..], tail);
        OneMoreSlash(k, s);
        assert Read(json, i)[1..] == Read(json, i + 2);
      } else {
        assert Read(json, i)[0] == next[0];
      }
    }
  }

  /** A string is read back exactly if there is no backslash in it. */
  lemma ReadsBackIff(json: string, i: nat, s: string, tail: string)
    requires i <= |json| && json[i..] == Escape(s) + "\"" + tail && NUL !in s
    ensures Read(json, i) == s <==> '\\' !in s
  {
    if '\\' in s {
      assert Slashes(0) + s == s;
      NeverCatchesUp(json, i, 0, s, tail);
    } else {
      ReadsBack(json, i, s, tail);
    }
  }

  // ----- one token -----

  /** A string token. */
  lemma StringStep(json: string, r: Reader, st: State, lead: Bytes, text: string, rest: Bytes) returns (after: State)
    requires Reads(r, json)
    requires At(json, st.pos, lead) && AfterSpace(lead) == Join(Quoted(text), rest)
    requires st.Top() in {'{', '[', ':'} && NUL !in text
    ensures var kind := if st.Top() == '{' then PAIR_NAME else '"';
            r.step(st) == (after, kind) && after.vtype == kind
    ensures after.stack == st.stack && after.error == st.error
    ensures r.value(after) == text <==> '\\' !in text
    ensures '\\' !in text ==> r.escapes(after) == Quotes(text)
    ensures '\\' !in text ==> At(json, after.pos, rest)
  {
    QuotedIs(text, rest);
    var i := StepAt(json, st, lead);
    after := Step(json, st).0;
    StringAt(json, i, text, rest);
    assert r.value(after) == Value(json, after) && r.escapes(after) == Escapes(json, after);
  }

  lemma QuotedIs(text: string, rest: Bytes)
    ensures var b := Join(Quoted(text), rest);
            b.Byte? && b.head == '"' && Str(b.next) == Escape(text) + "\"" + Str(rest)
  {
    var q := Quoted(text);
    assert q[0] == '"' && q[1..] == Escape(text) + "\"";
    FeedIsConcat(q, 1, |q|, rest);
    assert q[1..|q|] == q[1..];
  }

  lemma StringAt(json: string, i: nat, text: string, rest: Bytes)
    requires i <= |json| && json[i..] == Escape(text) + "\"" + Str(rest) && NUL !in text
    ensures Unescape(false, Raw(json, i, StringEnd(json, i) - i - 1)) == text <==> '\\' !in text
    ensures '\\' !in text ==> At(json, StringEnd(json, i), rest)
    ensures '\\' !in text ==> Backslashes(false, Raw(json, i, StringEnd(json, i) - i - 1)) == Quotes(text)
  {
    ReadsBackIff(json, i, text, Str(rest));
    ReadIsCopied(json, i);
    if '\\' !in text {
      ReadsBack(json, i, text, Str(rest));
      Cut(json, i, Escape(text) + "\"", Str(rest));
      Assoc(Escape(text), "\"", Str(rest));
      RawIs(json, i, Escape(text), "\"" + Str(rest));
      OneBackslashPerQuote(text);
    }
  }

  lemma {:induction false} NumberRun(json: string, i: nat, digits: string, tail: string)
    requires i <= |json| && json[i..] == digits + tail && (tail == "" || !IsNumeric(tail[0]))
    requires forall k :: 0 <= k < |digits| ==> IsDigit(digits[k])
    ensures NumberEnd(json, i) == i + |digits|
    decreases |digits|
  {
    if digits == "" {
      assert tail != "" ==> json[i] == json[i..][0];
    } else {
      assert digits + tail == [digits[0]] + (digits[1..] + tail);
      Cut(json, i, [digits[0]], digits[1..] + tail);
      assert json[i + 0] == digits[0];
      NumberRun(json, i + 1, digits[1..], tail);
    }
  }

  lemma {:induction false} NothingEscaped(s: string)
    requires '\\' !in s
    ensures Unescape(false, s) == s && Backslashes(false, s) == 0
  {
    if s == "" {
    } else {
      NothingEscaped(s[1..]);
    }
  }

  /** A number token: its text and its value. */
  lemma NumberStep(json: string, r: Reader, st: State, lead: Bytes, n: nat, rest: Bytes) returns (after: State)
    requires Reads(r, json)
    requires At(json, st.pos, lead) && AfterSpace(lead) == Join(Digits(n), rest)
    requires st.Top() in {'[', ':'} && Stops(rest)
    ensures r.step(st) == (after, NUMBER) && after.vtype == NUMBER
    ensures after.stack == st.stack && after.error == st.error
    ensures r.value(after) == Digits(n) && At(json, after.pos, rest)
    ensures r.escapes(after) == 0 == Quotes(Digits(n)) && r.number(after) == n
  {
    var d := Digits(n);
    assert Join(d, rest).Byte? && IsDigit(Join(d, rest).head);
    var i := StepAt(json, st, lead);
    DigitActs(json, st.(pos := i), AfterSpace(lead).head);
    after := NumberRead(json, st.(pos := i), n, rest);
    assert r.step(st) == Step(json, st);
    NoQuotes(d);
    assert r.value(after) == Value(json, after) && r.escapes(after) == Escapes(json, after);
    assert r.number(after) == Number(json, after);
  }

  lemma NumberRead(json: string, st: State, n: nat, rest: Bytes) returns (after: State)
    requires st.pos > 0 && At(json, st.pos - 1, Join(Digits(n), rest)) && Stops(rest)
    ensures after == ReadNumber(json, st) && after.vtype == NUMBER
    ensures after.stack == st.stack && after.error == st.error && At(json, after.pos, rest)
    ensures Value(json, after) == Digits(n) && Escapes(json, after) == 0 && Number(json, after) == n
  {
    after := ReadNumber(json, st);
    NumberAt(json, st.pos - 1, n, rest);
  }

  lemma {:induction false} NoQuotes(s: string)
    requires '"' !in s
    ensures Quotes(s) == 0
  {
    if s == "" {
    } else {
      NoQuotes(s[1..]);
    }
  }

  lemma DigitActs(json: string, st: State, c: char)
    requires st.pos > 0 && st.Top() in {'[', ':'} && IsDigit(c)
    ensures Act(json, st, c) == (ReadNumber(json, st), NUMBER)
  {
  }

  lemma MinusStops(json: string, r: Reader, st: State, lead: Bytes, n: int, rest: Bytes)
    requires Reads(r, json) && n < 0
    requires At(json, st.pos, lead) && AfterSpace(lead) == Join(IntText(n), rest)
    ensures r.step(st).1 == NUL
  {
    assert IntText(n)[0] == '-';
    var _ := StepAt(json, st, lead);
    assert r.step(st) == Step(json, st);
  }

  lemma RawIs(json: string, i: nat, s: string, tail: string)
    requires i <= |json| && json[i..] == s + tail
    ensures Raw(json, i, |s|) == s
  {
    Cut(json, i, s, tail);
    forall k | 0 <= k < |s| ensures Raw(json, i, |s|)[k] == s[k] {
      assert json[i + k] == s[k];
      assert CharAt(json, i + k) == json[i + k];
    }
  }

  lemma NumberAt(json: string, i: nat, n: nat, rest: Bytes)
    requires At(json, i, Join(Digits(n), rest)) && Stops(rest)
    ensures NumberEnd(json, i + 1) == i + |Digits(n)| && At(json, i + |Digits(n)|, rest)
    ensures Unescape(false, Raw(json, i, |Digits(n)|)) == Digits(n)
    ensures Backslashes(false, Raw(json, i, |Digits(n)|)) == 0
    ensures Atoi(json[i..]) == n
  {
    var d := Digits(n);
    AtString(json, i, d, rest);
    assert rest.Byte? ==> Str(rest)[0] == rest.head;
    assert json[i + 1..] == d[1..] + Str(rest) by {
      assert json[i + 1..] == json[i..][1..];
    }
    NumberRun(json, i + 1, d[1..], Str(rest));
    RawIs(json, i, d, Str(rest));
    NothingEscaped(d);
    ReadStops(d, Str(rest), 0, 0);
    AtoiOfDigits(n);
  }

  /** What follows does not prolong a number. */
  predicate Stops(rest: Bytes) {
    rest.Byte? ==> !IsNumeric(rest.head)
  }

  /** The name of a pair, with its colon. */
  lemma ReadName(g: Gaps, json: string, r: Reader, st: State, lead: Bytes, name: string, value: Bytes, more: Tokens)
    returns (after: State)
    requires Reads(r, json) && Blank(g)
    requires At(json, st.pos, lead) && AfterSpace(lead) == LoosePair(name, value, g)
    requires st.Top() == '{' && NUL !in name && |st.stack| <= JSONPARSE_MAX_DEPTH
    ensures if '\\' !in name && |st.stack| < JSONPARSE_MAX_DEPTH
            then At(json, after.pos, Gap(g, AfterColon, value)) && after.stack == st.stack + [':']
                 && after.error == st.error
                 && after.vtype == NUL
                 && (Yields(r, st, PairTokens(name, more)) <==> Yields(r, after, more))
            else !Yields(r, st, PairTokens(name, more))
  {
    var colon := Byte(':', Gap(g, AfterColon, value));
    after := StringStep(json, r, st, lead, name, Gap(g, BeforeColon, colon));
    if '\\' !in name {
      GapSkips(g, BeforeColon, colon);
      after := ReadColon(json, r, after, Gap(g, BeforeColon, colon), Gap(g, AfterColon, value));
    }
  }

  /** The parser passes the blanks at a place. */
  lemma GapSkips(g: Gaps, place: Place, rest: Bytes)
    requires Blank(g)
    ensures AfterSpace(Gap(g, place, rest)) == AfterSpace(rest)
    ensures Stops(rest) ==> Stops(Gap(g, place, rest))
  {
    BlanksSkip(g(place, rest), 0, rest);
  }

  lemma {:induction false} BlanksSkip(s: string, i: nat, rest: Bytes)
    requires IsBlank(s) && i <= |s|
    ensures AfterSpace(Feed(s, i, |s|, rest)) == AfterSpace(rest)
    ensures Stops(rest) ==> Stops(Feed(s, i, |s|, rest))
    decreases |s| - i
  {
    if i == |s| {
    } else {
      BlanksSkip(s, i + 1, rest);
    }
  }

  lemma ReadColon(json: string, r: Reader, st: State, lead: Bytes, rest: Bytes) returns (after: State)
    requires Reads(r, json) && At(json, st.pos, lead) && AfterSpace(lead) == Byte(':', rest)
    ensures r.step(st) == (after, ':') && At(json, after.pos, rest)
    ensures after.stack == st.stack + [':'] && after.error == st.error && after.vtype == NUL
  {
    var _ := StepAt(json, st, lead);
    after := Step(json, st).0;
  }

  // ----- whole values -----

  /** A value has been read: the stack is as before, and the value type tells
      whether the value ended with an empty container. */
  predicate HasRead(json: string, after: State, base: seq<char>, empty: bool, rest: Bytes) {
    At(json, after.pos, rest) && after.stack == base && after.error == NoError && (after.vtype == NUL <==> empty)
  }

  lemma {:induction false} ReadValue(g: Gaps, json: string, r: Reader, st: State, lead: Bytes, v: Json, rest: Bytes,
                                     more: Tokens)
    returns (after: State)
    requires Reads(r, json) && Blank(g)
    requires At(json, st.pos, lead) && AfterSpace(lead) == Loose(v, rest, g)
    requires Plain(v) && Stops(rest) && st.error == NoError && |st.stack| <= JSONPARSE_MAX_DEPTH
    requires st.Top() in {'[', ':'} || (v.Object? && st.stack == [])
    ensures if Readable(v, JSONPARSE_MAX_DEPTH - |st.stack|)
            then HasRead(json, after, st.stack, EndsEmpty(v), rest)
                 && (Yields(r, st, TokensOf(v, more)) <==> Yields(r, after, more))
            else !Yields(r, st, TokensOf(v, more))
    decreases v, 1, 0, 0
  {
    if v.Container() {
      after := ReadContainer(g, json, r, st, lead, v, rest, more);
    } else {
      after := ReadAtom(g, json, r, st, lead, v, rest, more);
    }
  }

  lemma ReadAtom(g: Gaps, json: string, r: Reader, st: State, lead: Bytes, v: Json, rest: Bytes, more: Tokens)
    returns (after: State)
    requires Reads(r, json) && Blank(g)
    requires !v.Container() && At(json, st.pos, lead) && AfterSpace(lead) == Loose(v, rest, g)
    requires Plain(v) && Stops(rest) && st.error == NoError && |st.stack| <= JSONPARSE_MAX_DEPTH
    requires st.Top() in {'[', ':'}
    ensures if Readable(v, JSONPARSE_MAX_DEPTH - |st.stack|)
            then HasRead(json, after, st.stack, false, rest)
                 && (Yields(r, st, TokensOf(v, more)) <==> Yields(r, after, more))
            else !Yields(r, st, TokensOf(v, more))
  {
    if v.Int? {
      if v.n >= 0 {
        after := NumberStep(json, r, st, lead, v.n, rest);
      } else {
        after := st;
        MinusStops(json, r, st, lead, v.n, rest);
      }
    } else {
      after := StringStep(json, r, st, lead, if v.Text? then v.text else "", rest);
    }
  }

  lemma {:induction false} ReadContainer(g: Gaps, json: string, r: Reader, st: State, lead: Bytes, v: Json,
                                         rest: Bytes, more: Tokens)
    returns (after: State)
    requires Reads(r, json) && Blank(g)
    requires v.Container() && At(json, st.pos, lead) && AfterSpace(lead) == Loose(v, rest, g)
    requires Plain(v) && Stops(rest) && st.error == NoError && |st.stack| <= JSONPARSE_MAX_DEPTH
    requires st.Top() in {'[', ':'} || (v.Object? && st.stack == [])
    ensures if Readable(v, JSONPARSE_MAX_DEPTH - |st.stack|)
            then HasRead(json, after, st.stack, EndsEmpty(v), rest)
                 && (Yields(r, st, TokensOf(v, more)) <==> Yields(r, after, more))
            else !Yields(r, st, TokensOf(v, more))
    decreases v, 0, |v.items| + 1, 0
  {
    after := ReadOpen(g, json, r, st, lead, v, rest);
    if |st.stack| < JSONPARSE_MAX_DEPTH {
      GapSkips(g, AfterOpen, LooseItems(v, 0, rest, g));
      after := ReadItems(g, json, r, after, st.stack, Gap(g, AfterOpen, LooseItems(v, 0, rest, g)), v, 0, rest, more);
    }
  }

  lemma ReadOpen(g: Gaps, json: string, r: Reader, st: State, lead: Bytes, v: Json, rest: Bytes)
    returns (after: State)
    requires Reads(r, json) && Blank(g)
    requires v.Container() && At(json, st.pos, lead) && AfterSpace(lead) == Loose(v, rest, g)
    requires st.Top() in {'[', ':'} || v.Object?
    ensures r.step(st) == (after, v.Type()) && after.vtype == NUL && after.error == st.error
    ensures after.stack == st.stack + [v.Type()] && At(json, after.pos, Gap(g, AfterOpen, LooseItems(v, 0, rest, g)))
  {
    var _ := StepAt(json, st, lead);
    after := Step(json, st).0;
  }

  /** What is on the stack when the items from `i` on are read. */
  function Opened(v: Json, i: nat): seq<char>
    requires v.Container()
  {
    if v.Array? then ['['] else if i == 0 then ['{'] else ['{', ':']
  }

  lemma ItemsSplit(v: Json, i: nat, room: int)
    requires v.Container() && i < |v.items|
    ensures ItemsReadable(v, i, room) <==>
            && (v.Object? ==> room >= 2 && '\\' !in v.items[i].name && !EndsEmpty(v.items[i].value))
            && Readable(v.items[i].value, if v.Object? then room - 2 else room - 1)
            && ItemsReadable(v, i + 1, room)
  {
    assert ItemsReadable(v, i, room) ==> ItemReadable(v, i, room);
  }

  lemma {:induction false} ReadItems(g: Gaps, json: string, r: Reader, st: State, base: seq<char>, lead: Bytes,
                                     v: Json, i: nat, rest: Bytes, more: Tokens)
    returns (after: State)
    requires Reads(r, json) && Blank(g)
    requires v.Container() && i <= |v.items|
    requires At(json, st.pos, lead) && AfterSpace(lead) == AfterSpace(LooseItems(v, i, rest, g))
    requires Plain(v) && Stops(rest) && st.error == NoError && |base| < JSONPARSE_MAX_DEPTH
    requires st.stack == base + Opened(v, i) && |st.stack| <= JSONPARSE_MAX_DEPTH
    requires st.vtype == NUL <==> i == 0 || EndsEmpty(v.items[i - 1].value)
    ensures if (v.Object? && i > 0 ==> st.vtype != NUL) && ItemsReadable(v, i, JSONPARSE_MAX_DEPTH - |base|)
            then HasRead(json, after, base, EndsEmpty(v), rest)
                 && (Yields(r, st, ItemTokens(v, i, more)) <==> Yields(r, after, more))
            else !Yields(r, st, ItemTokens(v, i, more))
    decreases v, 0, |v.items| - i, 3
  {
    after := st;
    if i < |v.items| {
      NoSpaceFirst(g, v, i, rest);
    }
    if i == |v.items| {
      after := ReadClose(json, r, st, base, lead, v, rest);
    } else if i == 0 {
      after := ReadItem(g, json, r, st, base, lead, v, i, rest, more);
    } else {
      after := ReadFurtherItem(g, json, r, st, base, lead, v, i, rest, more);
    }
  }

  lemma {:induction false} ReadFurtherItem(g: Gaps, json: string, r: Reader, st: State, base: seq<char>, lead: Bytes,
                                           v: Json, i: nat, rest: Bytes, more: Tokens)
    returns (after: State)
    requires Reads(r, json) && Blank(g)
    requires v.Container() && 0 < i < |v.items|
    requires At(json, st.pos, lead) && AfterSpace(lead) == AfterSpace(LooseItems(v, i, rest, g))
    requires Plain(v) && Stops(rest) && st.error == NoError && |base| < JSONPARSE_MAX_DEPTH
    requires st.stack == base + Opened(v, i) && |st.stack| <= JSONPARSE_MAX_DEPTH
    ensures if (v.Object? ==> st.vtype != NUL) && ItemsReadable(v, i, JSONPARSE_MAX_DEPTH - |base|)
            then HasRead(json, after, base, EndsEmpty(v), rest)
                 && (Yields(r, st, ItemTokens(v, i, more)) <==> Yields(r, after, more))
            else !Yields(r, st, ItemTokens(v, i, more))
    decreases v, 0, |v.items| - i, 2
  {
    NoSpaceFirst(g, v, i, rest);
    GapSkips(g, AfterComma, LooseItemText(v, i, rest, g));
    after := ReadComma(json, r, st, base, lead, v, i, Gap(g, AfterComma, LooseItemText(v, i, rest, g)));
    if v.Array? || st.vtype != NUL {
      after := ReadItem(g, json, r, after, base, Gap(g, AfterComma, LooseItemText(v, i, rest, g)), v, i, rest, more);
    }
  }

  lemma NoSpaceBefore(g: Gaps, v: Json, rest: Bytes)
    requires Plain(v)
    ensures AfterSpace(Loose(v, rest, g)) == Loose(v, rest, g)
  {
  }

  lemma NoSpaceFirst(g: Gaps, v: Json, i: nat, rest: Bytes)
    requires v.Container() && i < |v.items| && Plain(v)
    ensures AfterSpace(LooseItemText(v, i, rest, g)) == LooseItemText(v, i, rest, g)
  {
    var after := LooseNext(v, i, rest, g);
    if v.Array? {
      NoSpaceBefore(g, v.items[i].value, after);
    } else {
      assert Quoted(v.items[i].name)[0] == '"';
    }
  }

  lemma ReadComma(json: string, r: Reader, st: State, base: seq<char>, lead: Bytes, v: Json, i: nat, rest: Bytes)
    returns (after: State)
    requires Reads(r, json)
    requires v.Container() && i > 0 && At(json, st.pos, lead) && AfterSpace(lead) == Byte(',', rest)
    requires st.stack == base + Opened(v, i)
    ensures if v.Object? && st.vtype == NUL then r.step(st).1 == NUL
            else r.step(st) == (after, ',') && At(json, after.pos, rest) && after.stack == base + [v.Type()]
                 && after.error == st.error
  {
    var _ := StepAt(json, st, lead);
    after := Step(json, st).0;
    if v.Object? {
      assert (base + ['{', ':'])[..|base| + 1] == base + ['{'];
    }
  }

  lemma ReadClose(json: string, r: Reader, st: State, base: seq<char>, lead: Bytes, v: Json, rest: Bytes)
    returns (after: State)
    requires Reads(r, json)
    requires v.Container() && At(json, st.pos, lead) && AfterSpace(lead) == Byte(Close(v.Type()), rest)
    requires st.error == NoError && st.stack == base + Opened(v, |v.items|)
    requires st.vtype == NUL <==> EndsEmpty(v)
    ensures if v.Object? && v.items != [] && st.vtype == NUL then r.step(st).1 == NUL
            else r.step(st) == (after, Close(v.Type())) && HasRead(json, after, base, EndsEmpty(v), rest)
  {
    var pos := StepAt(json, st, lead);
    CloseActs(json, st.(pos := pos), base, v);
    assert r.step(st) == Step(json, st);
    after := Step(json, st).0;
  }

  lemma CloseActs(json: string, st: State, base: seq<char>, v: Json)
    requires st.pos > 0 && v.Container() && st.stack == base + Opened(v, |v.items|)
    ensures var r := Act(json, st, Close(v.Type()));
            if v.Object? && v.items != [] && st.vtype == NUL then r.1 == NUL
            else r == (st.(stack := base), Close(v.Type()))
  {
    if v.Object? && v.items != [] {
      assert (base + ['{', ':'])[..|base| + 1] == base + ['{'];
    }
    assert (base + ['{'])[..|base|] == base && (base + ['['])[..|base|] == base;
  }

  lemma {:induction false} ReadItem(g: Gaps, json: string, r: Reader, st: State, base: seq<char>, lead: Bytes,
                                    v: Json, i: nat, rest: Bytes, more: Tokens)
    returns (after: State)
    requires Reads(r, json) && Blank(g)
    requires v.Container() && i < |v.items|
    requires At(json, st.pos, lead) && AfterSpace(lead) == LooseItemText(v, i, rest, g)
    requires Plain(v) && Stops(rest) && st.error == NoError && |base| < JSONPARSE_MAX_DEPTH
    requires st.stack == base + [v.Type()]
    ensures var item := v.items[i];
            var values := TokensOf(item.value, ItemTokens(v, i + 1, more));
            var tokens := if v.Object? then PairTokens(item.name, values) else values;
            if ItemsReadable(v, i, JSONPARSE_MAX_DEPTH - |base|)
            then HasRead(json, after, base, EndsEmpty(v), rest)
                 && (Yields(r, st, tokens) <==> Yields(r, after, more))
            else !Yields(r, st, tokens)
    decreases v, 0, |v.items| - i, 1
  {
    ItemsSplit(v, i, JSONPARSE_MAX_DEPTH - |base|);
    if v.Array? {
      after := ReadRest(g, json, r, st, base, lead, v, i, rest, more);
    } else {
      after := ReadPair(g, json, r, st, base, lead, v, i, rest, more);
    }
  }

  lemma {:induction false} ReadPair(g: Gaps, json: string, r: Reader, st: State, base: seq<char>, lead: Bytes,
                                    v: Json, i: nat, rest: Bytes, more: Tokens)
    returns (after: State)
    requires Reads(r, json) && Blank(g)
    requires v.Object? && i < |v.items|
    requires var value := Loose(v.items[i].value, LooseNext(v, i, rest, g), g);
             At(json, st.pos, lead) && AfterSpace(lead) == LoosePair(v.items[i].name, value, g)
    requires Plain(v) && Stops(rest) && st.error == NoError && |base| < JSONPARSE_MAX_DEPTH
    requires st.stack == base + ['{']
    ensures var item := v.items[i];
            var tokens := PairTokens(item.name, TokensOf(item.value, ItemTokens(v, i + 1, more)));
            if && JSONPARSE_MAX_DEPTH - |base| >= 2 && '\\' !in item.name && !EndsEmpty(item.value)
               && Readable(item.value, JSONPARSE_MAX_DEPTH - |base| - 2)
               && ItemsReadable(v, i + 1, JSONPARSE_MAX_DEPTH - |base|)
            then HasRead(json, after, base, EndsEmpty(v), rest)
                 && (Yields(r, st, tokens) <==> Yields(r, after, more))
            else !Yields(r, st, tokens)
    decreases v, 0, |v.items| - i, 0, 1
  {
    var item := v.items[i];
    var value := Loose(item.value, LooseNext(v, i, rest, g), g);
    assert st.Top() == '{' && NUL !in item.name;
    after := ReadName(g, json, r, st, lead, item.name, value, TokensOf(item.value, ItemTokens(v, i + 1, more)));
    if '\\' !in item.name && JSONPARSE_MAX_DEPTH - |base| >= 2 {
      assert after.stack == base + ['{', ':'];
      NoSpaceBefore(g, item.value, LooseNext(v, i, rest, g));
      GapSkips(g, AfterColon, value);
      after := ReadRest(g, json, r, after, base, Gap(g, AfterColon, value), v, i, rest, more);
    }
  }

  lemma NextItemStops(g: Gaps, v: Json, i: nat, rest: Bytes)
    requires v.Container() && i < |v.items| && Blank(g)
    ensures Stops(LooseNext(v, i, rest, g))
    ensures AfterSpace(LooseNext(v, i, rest, g)) == AfterSpace(LooseItems(v, i + 1, rest, g))
  {
    GapSkips(g, AfterValue, LooseItems(v, i + 1, rest, g));
  }

  /** A value in a container and the items after it. */
  lemma {:induction false} ReadRest(g: Gaps, json: string, r: Reader, st: State, base: seq<char>, lead: Bytes,
                                    v: Json, i: nat, rest: Bytes, more: Tokens)
    returns (after: State)
    requires Reads(r, json) && Blank(g)
    requires v.Container() && i < |v.items|
    requires At(json, st.pos, lead) && AfterSpace(lead) == Loose(v.items[i].value, LooseNext(v, i, rest, g), g)
    requires Plain(v) && Stops(rest) && st.error == NoError && |base| < JSONPARSE_MAX_DEPTH
    requires st.stack == base + Opened(v, i + 1) && |st.stack| <= JSONPARSE_MAX_DEPTH
    ensures var item := v.items[i];
            var tokens := TokensOf(item.value, ItemTokens(v, i + 1, more));
            if && Readable(item.value, JSONPARSE_MAX_DEPTH - |st.stack|)
               && (v.Object? ==> !EndsEmpty(item.value))
               && ItemsReadable(v, i + 1, JSONPARSE_MAX_DEPTH - |base|)
            then HasRead(json, after, base, EndsEmpty(v), rest)
                 && (Yields(r, st, tokens) <==> Yields(r, after, more))
            else !Yields(r, st, tokens)
    decreases v, 0, |v.items| - i, 0, 0
  {
    var value := v.items[i].value;
    NextItemStops(g, v, i, rest);
    after := ReadValue(g, json, r, st, lead, value, LooseNext(v, i, rest, g), ItemTokens(v, i + 1, more));
    if Readable(value, JSONPARSE_MAX_DEPTH - |st.stack|) {
      after := ReadItems(g, json, r, after, base, LooseNext(v, i, rest, g), v, i + 1, rest, more);
    }
  }

  // ----- the round trip -----

  /** For a new parser on a text of a tree, with any blanks between the tokens, and
      whatever is in the parser's value fields: it reads back the tree's tokens and
      comes to the end with nothing open exactly if the tree is an object that is
      readable within the stack. */
  lemma LooseRoundTripIff(tree: Json, st: State, g: Gaps, tail: string)
    requires Plain(tree) && st.pos == 0 && st.stack == [] && st.error == NoError
    requires Blank(g) && IsBlank(tail)
    ensures Yields(ReaderOf(LooseText(tree, g, tail)), st, TokensOf(tree, NoMore))
       <==> tree.Object? && Readable(tree, JSONPARSE_MAX_DEPTH)
  {
    var json := LooseText(tree, g, tail);
    var r := ReaderOf(json);
    var rest := Join(tail, End);
    var text := Loose(tree, rest, g);
    assert json[0..] == json;
    BlanksSkip(tail, 0, End);
    GapSkips(g, First, text);
    NoSpaceBefore(g, tree, rest);
    if tree.Object? {
      var after := ReadValue(g, json, r, st, Gap(g, First, text), tree, rest, NoMore);
      if Readable(tree, JSONPARSE_MAX_DEPTH) {
        EndsBlank(json, after.pos, rest);
        assert r.finished(after) == Finished(json, after);
      }
    } else {
      NoObject(json, r, st, tree, Gap(g, First, text), rest, g);
    }
  }

  /** A text of a tree with blanks. */
  function LooseText(tree: Json, g: Gaps, tail: string): string {
    Str(Gap(g, First, Loose(tree, Join(tail, End), g)))
  }

  lemma EndsBlank(json: string, pos: nat, rest: Bytes)
    requires At(json, pos, rest) && AfterSpace(rest) == End
    ensures SkipSpace(json, pos) == |json|
  {
    SkipsTo(json, pos, rest);
    assert |json[SkipSpace(json, pos)..]| == 0;
  }

  /** In particular for the printed text. */
  lemma RoundTripIff(tree: Json, st: State)
    requires Plain(tree) && st.pos == 0 && st.stack == [] && st.error == NoError
    ensures Yields(ReaderOf(Str(Render(tree, End))), st, TokensOf(tree, NoMore))
       <==> tree.Object? && Readable(tree, JSONPARSE_MAX_DEPTH)
  {
    PrintedTextIsLoose(tree);
    LooseRoundTripIff(tree, st, Printed(), "");
  }

  lemma PrintedTextIsLoose(tree: Json)
    requires Plain(tree)
    ensures LooseText(tree, Printed(), "") == Str(Render(tree, End)) && Blank(Printed()) && IsBlank("")
  {
    PrintedIsLoose(tree, End);
    OneBlank(Loose(tree, End, Printed()));
    OneBlank(End);
  }

  lemma NoObject(json: string, r: Reader, st: State, tree: Json, lead: Bytes, rest: Bytes, g: Gaps)
    requires Reads(r, json) && At(json, st.pos, lead) && AfterSpace(lead) == Loose(tree, rest, g)
    requires Plain(tree) && !tree.Object? && st.stack == []
    ensures !Yields(r, st, TokensOf(tree, NoMore))
  {
    var pos := StepAt(json, st, lead);
    NothingOpen(json, st.(pos := pos), AfterSpace(lead).head);
    assert r.step(st) == Step(json, st);
  }

  lemma NothingOpen(json: string, st: State, c: char)
    requires st.pos > 0 && st.stack == [] && (c == '[' || c == '"' || c == '-' || IsDigit(c))
    ensures Act(json, st, c).1 == NUL
  {
  }

  /** No string has more quotes than the copy of a value can count. */
  predicate Countable(v: Json, max: nat) {
    && (v.Container() ==> forall j :: 0 <= j < |v.items| ==>
          Quotes(v.items[j].name) <= max && Countable(v.items[j].value, max))
    && (v.Text? ==> Quotes(v.text) <= max)
  }

  /** A token as a program takes it: its kind, its text and its number. */
  function Taken(kind: char, text: string, number: nat): (char, string, nat) {
    (kind, if HasText(kind) then text else "", if kind == NUMBER then number else 0)
  }

  function TokenList(tokens: Tokens): seq<(char, string, nat)> {
    match tokens
    case NoMore => []
    case Token(kind, text, number, next) => [Taken(kind, text, number)] + TokenList(next)
  }

  predicate Sound(tokens: Tokens, max: nat) {
    tokens.Token? ==>
      && tokens.kind != NUL && Sound(tokens.next, max)
      && (HasText(tokens.kind) ==> NUL !in tokens.text && Quotes(tokens.text) <= max)
  }

  lemma {:induction false} SoundValue(v: Json, more: Tokens, max: nat)
    requires Sound(more, max) && Plain(v) && Countable(v, max)
    ensures Sound(TokensOf(v, more), max)
    decreases v, 1, 0
  {
    if v.Container() {
      SoundItems(v, 0, more, max);
    } else if v.Int? {
      NoQuotes(IntText(v.n));
    }
  }

  lemma {:induction false} SoundItems(v: Json, i: nat, more: Tokens, max: nat)
    requires v.Container() && i <= |v.items| && Sound(more, max) && Plain(v) && Countable(v, max)
    ensures Sound(ItemTokens(v, i, more), max)
    decreases v, 0, |v.items| - i
  {
    if i < |v.items| {
      SoundItems(v, i + 1, more, max);
      SoundValue(v.items[i].value, ItemTokens(v, i + 1, more), max);
      assert Sound(PairTokens(v.items[i].name, TokensOf(v.items[i].value, ItemTokens(v, i + 1, more))), max);
    }
  }

  /** The characters of an array up to its first NUL. */
  function UpToNul(s: string): string {
    if s == "" || s[0] == NUL then "" else [s[0]] + UpToNul(s[1..])
  }

  lemma {:induction false} NulEnds(text: string, rest: string)
    requires NUL !in text
    ensures UpToNul(text + [NUL] + rest) == text
  {
    if text == "" {
      assert text + [NUL] + rest == [NUL] + rest;
    } else {
      assert (text + [NUL] + rest)[1..] == text[1..] + [NUL] + rest;
      NulEnds(text[1..], rest);
    }
  }

  /** The current value, copied into a buffer that is just large enough. */
  method TakeText(parser: Parser, ghost text: string) returns (value: string)
    requires parser.Valid() && parser.vtype != NUL && NUL !in text
    requires Value(parser.json, parser.View()) == text && Escapes(parser.json, parser.View()) <= parser.charMax
    ensures value == text
  {
    var buffer := new char[parser.vlen + 1];
    var _, _, _ := parser.CopyValue(buffer, parser.vlen + 1);
    value := UpToNul(buffer[..]);
    ghost var raw := Raw(parser.json, parser.vstart, parser.vlen);
    assert raw[..parser.vlen] == raw;
    NulEnds(text, buffer[..][|text| + 1..]);
  }

  /** The next token of a parser that is to yield `left`: its kind, and its text
      and number as the parser hands them out. */
  method TakeToken(parser: Parser, ghost r: Reader, ghost left: Tokens)
    returns (kind: char, value: string, number: nat)
    requires parser.Valid() && Reads(r, parser.json) && Yields(r, parser.View(), left) && Sound(left, parser.charMax)
    modifies parser, parser.stack
    ensures parser.Valid()
    ensures left.NoMore? ==> kind == NUL
    ensures left.Token? ==>
              && kind == left.kind != NUL && Yields(r, parser.View(), left.next)
              && (kind, value, number) == Taken(kind, left.text, left.number)
  {
    kind := NextToken(parser, r, left);
    value := "";
    if HasText(kind) {
      value := TakeText(parser, left.text);
    }
    number := 0;
    if kind == NUMBER {
      number := parser.GetValueAsInt();
    }
  }

  method NextToken(parser: Parser, ghost r: Reader, ghost left: Tokens) returns (kind: char)
    requires parser.Valid() && Reads(r, parser.json) && Yields(r, parser.View(), left) && Sound(left, parser.charMax)
    modifies parser, parser.stack
    ensures parser.Valid() && (left.NoMore? ==> kind == NUL)
    ensures left.Token? ==>
              && kind == left.kind != NUL && Yields(r, parser.View(), left.next)
              && (HasText(kind) ==>
                    && parser.vtype != NUL && Value(parser.json, parser.View()) == left.text
                    && Escapes(parser.json, parser.View()) <= parser.charMax)
              && (kind == NUMBER ==> Number(parser.json, parser.View()) == left.number)
  {
    ghost var st := parser.View();
    ghost var next := Step(parser.json, st).0;
    assert left.NoMore? ==> r.finished(st) == Finished(parser.json, st);
    assert r.step(st) == Step(parser.json, st);
    assert r.value(next) == Value(parser.json, next) && r.escapes(next) == Escapes(parser.json, next);
    assert r.number(next) == Number(parser.json, next);
    var outside;
    kind, outside := parser.Next();
    assert !outside;
  }

  lemma Onward(tokens: seq<(char, string, nat)>, left: Tokens)
    requires left.Token?
    ensures tokens + TokenList(left)
         == (tokens + [Taken(left.kind, left.text, left.number)]) + TokenList(left.next)
  {
  }

  /** Reads the tokens of a text until the parser returns zero. */
  method ParseAll(parser: Parser, ghost r: Reader, ghost all: Tokens) returns (tokens: seq<(char, string, nat)>)
    requires parser.Valid() && Reads(r, parser.json) && Yields(r, parser.View(), all) && Sound(all, parser.charMax)
    modifies parser, parser.stack
    ensures tokens == TokenList(all)
  {
    ghost var left := all;
    tokens := [];
    var kind, value, number := TakeToken(parser, r, left);
    while kind != NUL
      invariant parser.Valid() && (left.NoMore? <==> kind == NUL)
      invariant left.Token? ==> Sound(left, parser.charMax) && kind == left.kind && Yields(r, parser.View(), left.next)
      invariant left.Token? ==> (kind, value, number) == Taken(kind, left.text, left.number)
      invariant tokens + TokenList(left) == TokenList(all)
      decreases left
    {
      Onward(tokens, left);
      tokens := tokens + [(kind, value, number)];
      left := left.next;
      kind, value, number := TakeToken(parser, r, left);
    }
  }

  /** Reads a text of a tree, with any blanks between the tokens: every name, string
      and number comes out of the parser as it is in the tree. */
  method ParseLoose(text: string, charMax: CharMax, ghost tree: Json, ghost g: Gaps, ghost tail: string)
    returns (tokens: seq<(char, string, nat)>)
    requires Plain(tree) && Countable(tree, charMax) && tree.Object? && Readable(tree, JSONPARSE_MAX_DEPTH)
    requires Blank(g) && IsBlank(tail) && text == LooseText(tree, g, tail)
    ensures tokens == TokenList(TokensOf(tree, NoMore))
  {
    var parser := new Parser(text, charMax);
    LooseRoundTripIff(tree, parser.View(), g, tail);
    SoundValue(tree, NoMore, charMax);
    tokens := ParseAll(parser, ReaderOf(text), TokensOf(tree, NoMore));
  }

  /** Prints a tree and reads the text back. */
  method PrintAndParse(tree: Json, charMax: CharMax) returns (tokens: seq<(char, string, nat)>)
    requires Plain(tree) && Countable(tree, charMax) && Fits(tree, JSONTREE_MAX_DEPTH)
    requires tree.Object? && Readable(tree, JSONPARSE_MAX_DEPTH)
    ensures tokens == TokenList(TokensOf(tree, NoMore))
  {
    var text := PrintAlong(tree, "/");
    assert Along(tree, "/") == tree;
    PrintedTextIsLoose(tree);
    tokens := ParseLoose(text, charMax, tree, Printed(), "");
  }

  /** Some trees that do not come back: an empty object as the value of a pair,
      a negative number, a backslash, and an array at the root. */
  function Refused(): seq<Json> {
    [Object([Item("a", Object([]))]), Object([Item("a", Int(-5))]), Object([Item("a", Text("\\"))]),
     Array([Item("", Int(1))])]
  }

  lemma SomeDoNotComeBack(st: State, tree: Json)
    requires st.pos == 0 && st.stack == [] && st.error == NoError && tree in Refused()
    ensures !Yields(ReaderOf(Str(Render(tree, End))), st, TokensOf(tree, NoMore))
  {
    RefusedAreUnreadable(tree);
    RoundTripIff(tree, st);
  }

  lemma RefusedAreUnreadable(tree: Json)
    requires tree in Refused()
    ensures Plain(tree) && !(tree.Object? && Readable(tree, JSONPARSE_MAX_DEPTH))
  {
    assert tree.Object? ==> !ItemReadable(tree, 0, JSONPARSE_MAX_DEPTH);
  }
}
