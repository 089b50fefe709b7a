/** The tag automaton of the HTTP server's server-side-include scanner.
    It decides, byte by byte, where a tag `<!--#name-->` ends, and so
    which stream of bytes a file expands to. */
module SsiTags {

  const LEAD_IN := "<!--#"
  const LEAD_OUT := "-->"
  const LEN_TAG_LEAD_IN := 5
  const LEN_TAG_LEAD_OUT := 3
  const MAX_TAG_NAME_LEN := 8
  const MAX_TAG_INSERT_LEN := 192
  const UNKNOWN_TAG1_TEXT := "<b>***UNKNOWN TAG "
  const UNKNOWN_TAG2_TEXT := "***</b>"
  const UNKNOWN_TAG1_LEN := 18
  const UNKNOWN_TAG2_LEN := 7

  /** LEAD_IN[k] and LEAD_OUT[k]. */
  function LeadInChar(k: nat): char {
    if k == 0 then '<' else if k == 1 then '!' else if k < 4 then '-' else '#'
  }

  function LeadOutChar(k: nat): char {
    if k < 2 then '-' else '>'
  }

  predicate IsSpace(c: char) {
    c == ' ' || c == '\t' || c == '\n' || c == '\r'
  }

  /** The bytes of a C buffer up to its terminator. */
  function CString(s: string): string {
    if s == "" || s[0] == '\0' then "" else [s[0]] + CString(s[1..])
  }

  // ----- what a tag is replaced by -----

  /** The tag names an application registered, and the handler that is asked
      for the text of the tag with a given index. */
  datatype TagTable = TagTable(names: seq<string>, handler: nat -> string)
  {
    /** Every text the handler returns fits the insert buffer. */
    ghost predicate Fits() {
      forall i: nat :: i < |names| ==> |handler(i)| <= MAX_TAG_INSERT_LEN
    }

    predicate Matches(name: string, i: nat)
      requires i < |names|
    {
      CString(name) == CString(names[i])
    }
  }

  /** The first `n` bytes are what C takes as the string in the buffer. */
  predicate EndsAt(s: string, n: nat) {
    && n <= |s| && (n == |s| || s[n] == '\0')
    && forall k :: 0 <= k < n ==> s[k] != '\0'
  }

  /** The strings in two buffers are the same, byte by byte. */
  ghost predicate SameName(a: string, b: string) {
    exists n :: EndsAt(a, n) && EndsAt(b, n) && forall k :: 0 <= k < n ==> a[k] == b[k]
  }

  /** `text` is what a tag called `name` inserts: the handler's text for the
      first registered name that is the same, or else a visible error marker. */
  ghost predicate IsInsert(table: TagTable, name: string, text: string) {
    || (exists i: nat :: i < |table.names| && SameName(name, table.names[i])
                         && (forall j: nat :: j < i ==> !SameName(name, table.names[j]))
                         && text == table.handler(i))
    || ((forall j: nat :: j < |table.names| ==> !SameName(name, table.names[j]))
        && exists n :: EndsAt(name, n)
                       && text == ErrorMarker(name[..if n < 167 then n else 167]))
  }

  function ErrorMarker(name: string): string {
    "<b>***UNKNOWN TAG " + name + "***</b>"
  }

  lemma {:induction false} CStringEnds(s: string) returns (n: nat)
    ensures EndsAt(s, n) && CString(s) == s[..n]
    decreases s
  {
    if s == "" || s[0] == '\0' {
      n := 0;
    } else {
      var m := CStringEnds(s[1..]);
      n := m + 1;
      assert s[..n] == [s[0]] + s[1..][..m];
      assert forall k :: 0 < k < n ==> s[k] == s[1..][k - 1];
    }
  }

  lemma EndsOnce(s: string, n: nat, m: nat)
    requires EndsAt(s, n) && EndsAt(s, m)
    ensures n == m
  {
  }

  lemma SameNameIff(a: string, b: string)
    ensures CString(a) == CString(b) <==> SameName(a, b)
  {
    var n := CStringEnds(a);
    var m := CStringEnds(b);
    if CString(a) == CString(b) {
      assert forall k :: 0 <= k < n ==> a[k] == a[..n][k] == b[..m][k] == b[k];
    }
    if k :| EndsAt(a, k) && EndsAt(b, k) && forall l :: 0 <= l < k ==> a[l] == b[l] {
      EndsOnce(a, n, k);
      EndsOnce(b, m, k);
      assert a[..n] == b[..m];
    }
  }

  function UnknownTag(name: string): string {
    var room := MAX_TAG_INSERT_LEN - (UNKNOWN_TAG1_LEN + UNKNOWN_TAG2_LEN);
    var key := CString(name);
    Marker(if |key| <= room then key else key[..room])
  }

  function Marker(key: string): string {
    UNKNOWN_TAG1_TEXT + key + UNKNOWN_TAG2_TEXT
  }

  /** Index of the first name from `start` on that matches, or the table's length. */
  function FirstMatch(table: TagTable, name: string, start: nat): nat
    decreases |table.names| - start
  {
    if start >= |table.names| || table.Matches(name, start) then start
    else FirstMatch(table, name, start + 1)
  }

  function Insert(table: TagTable, name: string): string {
    var i := FirstMatch(table, name, 0);
    if i < |table.names| then table.handler(i) else UnknownTag(name)
  }

  lemma {:induction false} FirstMatchIsFirst(table: TagTable, name: string, start: nat)
    requires start <= |table.names|
    ensures var i := FirstMatch(table, name, start);
            && start <= i <= |table.names|
            && (i < |table.names| ==> table.Matches(name, i))
            && (forall j: nat :: start <= j < i ==> !table.Matches(name, j))
    decreases |table.names| - start
  {
    if start < |table.names| && !table.Matches(name, start) {
      FirstMatchIsFirst(table, name, start + 1);
    }
  }

  /** The insert is found by searching the names that match. */
  lemma InsertIsFirst(table: TagTable, name: string, i: nat)
    requires i <= |table.names| && (i < |table.names| ==> table.Matches(name, i))
    requires forall j: nat :: j < i ==> !table.Matches(name, j)
    ensures Insert(table, name) == if i < |table.names| then table.handler(i) else UnknownTag(name)
  {
    FirstMatchIsFirst(table, name, 0);
  }

  /** `Insert` is the one text that `IsInsert` describes. */
  lemma InsertIff(table: TagTable, name: string, text: string)
    ensures IsInsert(table, name, text) <==> text == Insert(table, name)
  {
    FirstMatchIsFirst(table, name, 0);
    var i := FirstMatch(table, name, 0);
    forall j: nat | j < |table.names|
      ensures table.Matches(name, j) <==> SameName(name, table.names[j])
    {
      SameNameIff(name, table.names[j]);
    }
    var n := CStringEnds(name);
    UnknownTagIs(name, n);
    forall m | EndsAt(name, m)
      ensures m == n
    {
      EndsOnce(name, n, m);
    }
    if k: nat :| k < |table.names| && SameName(name, table.names[k])
                 && (forall j: nat :: j < k ==> !SameName(name, table.names[j]))
                 && text == table.handler(k) {
      assert i == k;
    }
  }

  lemma MarkerIs(key: string)
    ensures Marker(key) == ErrorMarker(key)
  {
  }

  lemma UnknownTagIs(name: string, n: nat)
    requires n <= |name| && CString(name) == name[..n]
    ensures UnknownTag(name) == ErrorMarker(name[..if n < 167 then n else 167])
  {
    var key := CString(name);
    MarkerIs(if |key| <= 167 then key else key[..167]);
    if n > 167 {
      assert name[..n][..167] == name[..167];
    }
  }

  /** For names without a NUL: the first equal name decides. */
  lemma InsertByName(table: TagTable, name: string, i: nat)
    requires '\0' !in name && i <= |table.names| && forall j: nat :: j < |table.names| ==> '\0' !in table.names[j]
    requires (i < |table.names| ==> table.names[i] == name) && forall j: nat :: j < i ==> table.names[j] != name
    ensures i < |table.names| ==> Insert(table, name) == table.handler(i)
    ensures i == |table.names| && |name| <= 167 ==> Insert(table, name) == ErrorMarker(name)
  {
    forall j: nat | j < |table.names|
      ensures table.Matches(name, j) <==> name == table.names[j]
    {
      NoNul(name);
      NoNul(table.names[j]);
    }
    InsertIsFirst(table, name, i);
    NoNul(name);
    UnknownTagIs(name, |name|);
    assert name[..|name|] == name;
  }

  lemma {:induction false} NoNul(s: string)
    requires '\0' !in s
    ensures CString(s) == s && s[..|s|] == s
  {
    if s == "" {
    } else {
      NoNul(s[1..]);
    }
  }

  // ----- the automaton -----

  /** Where the scanner is: outside any tag, after the first `matched`
      characters of the lead-in, in the name, or in the lead-out. */
  datatype Scan =
    | Text
    | LeadIn(matched: nat)
    | Name(name: string)
    | LeadOut(name: string, matched: nat)
  {
    predicate Valid() {
      match this
      case Text => true
      case LeadIn(k) => 1 <= k < LEN_TAG_LEAD_IN
      case Name(n) => |n| <= MAX_TAG_NAME_LEN
      case LeadOut(n, k) => 1 <= |n| <= MAX_TAG_NAME_LEN && k < LEN_TAG_LEAD_OUT
    }

    /** Reading `c` now completes a tag. */
    predicate Completes(c: char) {
      LeadOut? && matched == LEN_TAG_LEAD_OUT - 1 && c == LeadOutChar(matched)
    }

    function Next(c: char): (s: Scan)
      requires Valid()
      ensures s.Valid()
    {
      match this
      case Text => if c == LeadInChar(0) then LeadIn(1) else Text
      case LeadIn(k) =>
        if c != LeadInChar(k) then Text
        else if k + 1 == LEN_TAG_LEAD_IN then Name("")
        else LeadIn(k + 1)
      case Name(n) =>
        if n == "" && IsSpace(c) then this
        else if c == LeadOutChar(0) || IsSpace(c) then
          if n == "" then Text else LeadOut(n, if c == LeadOutChar(0) then 1 else 0)
        else if |n| < MAX_TAG_NAME_LEN then Name(n + [c])
        else Text
      case LeadOut(n, k) =>
        if k == 0 && IsSpace(c) then this
        else if c != LeadOutChar(k) then Text
        else if k == LEN_TAG_LEAD_OUT - 1 then Text
        else LeadOut(n, k + 1)
    }
  }

  type State = s: Scan | s.Valid() witness Text

  /** The state after reading all of `text` from state `s`. */
  function ScanOver(s: State, text: string): State
    decreases text
  {
    if text == "" then s else ScanOver(s.Next(text[0]), text[1..])
  }

  function InsertAfter(table: TagTable, s: State, c: char): string {
    if s.Completes(c) then Insert(table, s.name) else ""
  }

  /** The file with every tag followed by its insert. */
  function Expand(table: TagTable, s: State, text: string): string
    decreases text
  {
    if text == "" then "" else
    [text[0]] + InsertAfter(table, s, text[0]) + Expand(table, s.Next(text[0]), text[1..])
  }

  /** The insert due after the last byte of `text`, if a tag ends there. */
  function FinalInsert(table: TagTable, s: State, text: string): string
    decreases text
  {
    if text == "" then ""
    else if |text| == 1 then InsertAfter(table, s, text[0])
    else FinalInsert(table, s.Next(text[0]), text[1..])
  }

  /** What the server puts out: `Expand` without the insert of a tag that is
      the very last thing in the file. */
  function Emitted(table: TagTable, s: State, text: string): string
    decreases text
  {
    if text == "" then ""
    else [text[0]] + (if |text| == 1 then "" else InsertAfter(table, s, text[0]))
         + Emitted(table, s.Next(text[0]), text[1..])
  }

  lemma {:induction false} EmittedMissesFinalInsert(table: TagTable, s: State, text: string)
    ensures Emitted(table, s, text) + FinalInsert(table, s, text) == Expand(table, s, text)
    decreases text
  {
    if text == "" {
    } else if |text| == 1 {
      assert text[1..] == "";
    } else {
      EmittedMissesFinalInsert(table, s.Next(text[0]), text[1..]);
    }
  }

  lemma NoFinalInsertIff(table: TagTable, text: string)
    ensures Emitted(table, Text, text) == Expand(table, Text, text)
       <==> FinalInsert(table, Text, text) == ""
  {
    EmittedMissesFinalInsert(table, Text, text);
    assert |Expand(table, Text, text)|
        == |Emitted(table, Text, text)| + |FinalInsert(table, Text, text)|;
  }

  // ----- which byte strings are tags -----

  predicate Blank(s: string) {
    forall i :: 0 <= i < |s| ==> s[i] in " \t\n\r"
  }

  predicate IsTagName(name: string) {
    && 1 <= |name| <= 8
    && forall i :: 0 <= i < |name| ==> name[i] !in "- \t\n\r"
  }

  /** A tag in its documented form, with optional blanks around the name. */
  function Tag(before: string, name: string, after: string): string {
    LEAD_IN + before + name + after + LEAD_OUT
  }

  lemma {:induction false} ExpandConcat(table: TagTable, s: State, a: string, b: string)
    ensures ScanOver(s, a + b) == ScanOver(ScanOver(s, a), b)
    ensures Expand(table, s, a + b)
         == Expand(table, s, a) + Expand(table, ScanOver(s, a), b)
    decreases a
  {
    if a == "" {
      assert a + b == b;
    } else {
      assert (a + b)[1..] == a[1..] + b;
      ExpandConcat(table, s.Next(a[0]), a[1..], b);
    }
  }

  /** Reading `text` from `s` meets no end of tag and stops in `t`. */
  ghost predicate Quiet(table: TagTable, s: State, text: string, t: State) {
    ScanOver(s, text) == t && Expand(table, s, text) == text
  }

  lemma {:induction false} QuietConcat(table: TagTable, s: State, a: string, t: State, b: string, u: State)
    requires Quiet(table, s, a, t) && Quiet(table, t, b, u)
    ensures Quiet(table, s, a + b, u)
  {
    ExpandConcat(table, s, a, b);
  }

  lemma QuietByte(table: TagTable, s: State, c: char)
    requires !s.Completes(c)
    ensures Quiet(table, s, [c], s.Next(c))
  {
    assert [c][1..] == "";
    assert Expand(table, s, [c]) == [c] + "" + Expand(table, s.Next(c), "");
    assert ScanOver(s, [c]) == ScanOver(s.Next(c), "");
  }

  /** A state that stays put on every byte of `text`. */
  lemma {:induction false} QuietStay(table: TagTable, s: State, text: string)
    requires forall i :: 0 <= i < |text| ==> s.Next(text[i]) == s && !s.Completes(text[i])
    ensures Quiet(table, s, text, s)
  {
    if text == "" {
    } else {
      QuietByte(table, s, text[0]);
      QuietStay(table, s, text[1..]);
      QuietConcat(table, s, [text[0]], s, text[1..], s);
      assert text == [text[0]] + text[1..];
    }
  }

  lemma {:induction false} QuietName(table: TagTable, done: string, rest: string)
    requires |done| + |rest| <= MAX_TAG_NAME_LEN
    requires forall i :: 0 <= i < |rest| ==> rest[i] != '-' && !IsSpace(rest[i])
    ensures Quiet(table, Name(done), rest, Name(done + rest))
    decreases rest
  {
    if rest == "" {
      assert done + rest == done;
    } else {
      QuietByte(table, Name(done), rest[0]);
      QuietName(table, done + [rest[0]], rest[1..]);
      assert done + [rest[0]] + rest[1..] == done + rest;
      QuietConcat(table, Name(done), [rest[0]], Name(done + [rest[0]]), rest[1..], Name(done + rest));
      assert rest == [rest[0]] + rest[1..];
    }
  }

  lemma QuietSnoc(table: TagTable, s: State, a: string, t: State, c: char)
    requires Quiet(table, s, a, t) && !t.Completes(c)
    ensures Quiet(table, s, a + [c], t.Next(c))
  {
    QuietByte(table, t, c);
    QuietConcat(table, s, a, t, [c], t.Next(c));
  }

  lemma QuietLeadIn(table: TagTable)
    ensures Quiet(table, Text, LEAD_IN, Name(""))
  {
    QuietByte(table, Text, '<');
    QuietSnoc(table, Text, "<", LeadIn(1), '!');
    QuietSnoc(table, Text, "<!", LeadIn(2), '-');
    QuietSnoc(table, Text, "<!-", LeadIn(3), '-');
    QuietSnoc(table, Text, "<!--", LeadIn(4), '#');
    assert "<" + "!" == "<!" && "<!" + "-" == "<!-" && "<!-" + "-" == "<!--" && "<!--" + "#" == LEAD_IN;
  }

  lemma QuietNameEnd(table: TagTable, name: string, after: string)
    requires Blank(after) && 1 <= |name| <= MAX_TAG_NAME_LEN
    ensures Quiet(table, Name(name), after + "-", LeadOut(name, 1))
  {
    if after == "" {
      assert after + "-" == "-";
      QuietByte(table, Name(name), '-');
    } else {
      QuietByte(table, Name(name), after[0]);
      QuietStay(table, LeadOut(name, 0), after[1..]);
      QuietConcat(table, Name(name), [after[0]], LeadOut(name, 0), after[1..], LeadOut(name, 0));
      assert after == [after[0]] + after[1..];
      QuietSnoc(table, Name(name), after, LeadOut(name, 0), '-');
    }
  }

  lemma QuietUpToName(table: TagTable, before: string, name: string)
    requires Blank(before) && IsTagName(name)
    ensures Quiet(table, Text, LEAD_IN + before + name, Name(name))
  {
    QuietLeadIn(table);
    QuietStay(table, Name(""), before);
    QuietConcat(table, Text, LEAD_IN, Name(""), before, Name(""));
    QuietName(table, "", name);
    assert "" + name == name;
    QuietConcat(table, Text, LEAD_IN + before, Name(""), name, Name(name));
  }

  /** From an idle scanner a tag is recognised. */
  lemma TagFromText(table: TagTable, before: string, name: string, after: string)
    requires Blank(before) && Blank(after) && IsTagName(name)
    ensures ScanOver(Text, Tag(before, name, after)) == Text
    ensures Expand(table, Text, Tag(before, name, after))
         == Tag(before, name, after) + Insert(table, name)
  {
    var b := UpToLastByte(table, before, name, after);
    LastByte(table, Text, b, LeadOut(name, 2), '>');
  }

  lemma UpToLastByte(table: TagTable, before: string, name: string, after: string) returns (b: string)
    requires Blank(before) && Blank(after) && IsTagName(name)
    ensures Tag(before, name, after) == b + ">" && Quiet(table, Text, b, LeadOut(name, 2))
  {
    var a := LEAD_IN + before + name;
    QuietUpToName(table, before, name);
    QuietNameEnd(table, name, after);
    QuietConcat(table, Text, a, Name(name), after + "-", LeadOut(name, 1));
    QuietSnoc(table, Text, a + (after + "-"), LeadOut(name, 1), '-');
    b := a + (after + "-") + "-";
  }

  lemma {:induction false} FinalInsertSnoc(table: TagTable, s: State, a: string, c: char)
    ensures FinalInsert(table, s, a + [c]) == InsertAfter(table, ScanOver(s, a), c)
    decreases a
  {
    if a == "" {
      assert a + [c] == [c];
    } else {
      assert (a + [c])[1..] == a[1..] + [c];
      FinalInsertSnoc(table, s.Next(a[0]), a[1..], c);
    }
  }

  /** A file that ends with a tag is put out without the insert of that tag. */
  lemma TagAtEndLosesInsert(table: TagTable, before: string, name: string, after: string)
    requires Blank(before) && Blank(after) && IsTagName(name)
    ensures Emitted(table, Text, Tag(before, name, after)) == Tag(before, name, after)
    ensures FinalInsert(table, Text, Tag(before, name, after)) == Insert(table, name)
  {
    var tag := Tag(before, name, after);
    TagFromText(table, before, name, after);
    var b := UpToLastByte(table, before, name, after);
    FinalInsertSnoc(table, Text, b, '>');
    EmittedMissesFinalInsert(table, Text, tag);
    assert Emitted(table, Text, tag) == (Emitted(table, Text, tag) + Insert(table, name))[..|tag|];
  }

  /** Such a file, whose insert is not empty. */
  lemma ATagLosesItsInsert()
    ensures var table := TagTable([], (i: nat) => "");
            Emitted(table, Text, "<!--#x-->") != Expand(table, Text, "<!--#x-->")
  {
    var table := TagTable([], (i: nat) => "");
    assert Tag("", "x", "") == "<!--#x-->";
    TagAtEndLosesInsert(table, "", "x", "");
    NoFinalInsertIff(table, "<!--#x-->");
  }

  lemma LastByte(table: TagTable, s: State, a: string, t: State, c: char)
    requires Quiet(table, s, a, t) && t.Completes(c)
    ensures ScanOver(s, a + [c]) == Text
    ensures Expand(table, s, a + [c]) == a + [c] + Insert(table, t.name)
  {
    ExpandConcat(table, s, a, [c]);
    assert [c][1..] == "";
    assert ScanOver(t, [c]) == ScanOver(Text, "");
    assert Expand(table, t, [c]) == [c] + Insert(table, t.name) + Expand(table, Text, "");
  }

  /** From inside a tag, `<!--` never leaves the scanner where `#` would open one. */
  lemma LeadInStates(s: State)
    requires s != Text
    ensures var s1 := s.Next('<'); var s2 := s1.Next('!'); var s3 := s2.Next('-'); var s4 := s3.Next('-');
            && !s.Completes('<') && !s1.Completes('!') && !s2.Completes('-') && !s3.Completes('-')
            && s4.Next('#') == Text && !s4.Completes('#')
  {
  }

  lemma LeadInFromInside(table: TagTable, s: State) returns (t: State)
    requires s != Text
    ensures Quiet(table, s, "<!--", t) && t.Next('#') == Text && !t.Completes('#')
  {
    LeadInStates(s);
    var s1 := s.Next('<');
    var s2 := s1.Next('!');
    var s3 := s2.Next('-');
    t := s3.Next('-');
    QuietByte(table, s, '<');
    QuietSnoc(table, s, "<", s1, '!');
    QuietSnoc(table, s, "<!", s2, '-');
    QuietSnoc(table, s, "<!-", s3, '-');
    assert "<" + "!" == "<!" && "<!" + "-" == "<!-" && "<!-" + "-" == "<!--";
  }

  /** A scanner that is inside a half-read tag swallows the `<` of the next
      one and never recognises it. */
  lemma TagFromInside(table: TagTable, s: State, before: string, name: string, after: string)
    requires s != Text
    requires Blank(before) && Blank(after) && IsTagName(name)
    ensures Quiet(table, s, Tag(before, name, after), Text)
  {
    var t := LeadInFromInside(table, s);
    QuietSnoc(table, s, "<!--", t, '#');
    assert "<!--" + "#" == LEAD_IN;
    QuietStay(table, Text, before);
    QuietConcat(table, s, LEAD_IN, Text, before, Text);
    var u := NearStays(table, Text, name);
    QuietConcat(table, s, LEAD_IN + before, Text, name, u);
    var v := NearStays(table, u, after);
    QuietConcat(table, s, LEAD_IN + before + name, u, after, v);
    LeadOutFromNear(table, v);
    QuietConcat(table, s, LEAD_IN + before + name + after, v, LEAD_OUT, Text);
  }

  /** Outside of a tag, at most two bytes into a lead-in. */
  predicate NearText(s: State) {
    s == Text || s == LeadIn(1) || s == LeadIn(2)
  }

  /** Without a `-` a lead-in gets no further than that. */
  lemma {:induction false} NearStays(table: TagTable, s: State, text: string) returns (t: State)
    requires NearText(s) && '-' !in text
    ensures Quiet(table, s, text, t) && NearText(t)
    decreases text
  {
    t := s;
    if text != "" {
      QuietByte(table, s, text[0]);
      t := NearStays(table, s.Next(text[0]), text[1..]);
      QuietConcat(table, s, [text[0]], s.Next(text[0]), text[1..], t);
      assert text == [text[0]] + text[1..];
    }
  }

  lemma LeadOutFromNear(table: TagTable, s: State)
    requires NearText(s)
    ensures Quiet(table, s, LEAD_OUT, Text)
  {
    var s1 := s.Next('-');
    var s2 := s1.Next('-');
    QuietByte(table, s, '-');
    QuietSnoc(table, s, "-", s1, '-');
    QuietSnoc(table, s, "--", s2, '>');
    assert "-" + "-" == "--" && "--" + ">" == LEAD_OUT;
  }

  /** A tag inside a file is expanded if and only if the scanner is idle where
      the tag starts; the text around it is not affected. */
  lemma TagExpandedIff(table: TagTable, pre: string, before: string, name: string, after: string, rest: string)
    requires Blank(before) && Blank(after) && IsTagName(name)
    ensures Expand(table, Text, pre + Tag(before, name, after) + rest)
         == Expand(table, Text, pre)
            + (Tag(before, name, after) + if ScanOver(Text, pre) == Text then Insert(table, name) else "")
            + Expand(table, Text, rest)
  {
    var tag := Tag(before, name, after);
    var s := ScanOver(Text, pre);
    if s == Text {
      TagFromText(table, before, name, after);
    } else {
      TagFromInside(table, s, before, name, after);
    }
    ExpandAround(table, pre, tag, rest);
  }

  lemma ExpandAround(table: TagTable, pre: string, tag: string, rest: string)
    requires ScanOver(ScanOver(Text, pre), tag) == Text
    ensures Expand(table, Text, pre + tag + rest)
         == Expand(table, Text, pre) + Expand(table, ScanOver(Text, pre), tag) + Expand(table, Text, rest)
  {
    ExpandConcat(table, Text, pre + tag, rest);
    ExpandConcat(table, Text, pre, tag);
  }

  /** In particular, a `<` right before a tag hides it. */
  lemma DoubledBracketHidesTag(table: TagTable, before: string, name: string, after: string)
    requires Blank(before) && Blank(after) && IsTagName(name)
    ensures Expand(table, Text, "<" + Tag(before, name, after)) == "<" + Tag(before, name, after)
  {
    QuietByte(table, Text, '<');
    TagFromInside(table, LeadIn(1), before, name, after);
    QuietConcat(table, Text, "<", LeadIn(1), Tag(before, name, after), Text);
  }

  // ----- nothing else gets an insert -----

  lemma {:induction false} ScanSnoc(s: State, a: string, c: char)
    ensures ScanOver(s, a + [c]) == ScanOver(s, a).Next(c)
    decreases a
  {
    if a == "" {
      assert [c][1..] == "";
      assert ScanOver(s, a + [c]) == ScanOver(s.Next(c), "");
    } else {
      assert (a + [c])[1..] == a[1..] + [c];
      ScanSnoc(s.Next(a[0]), a[1..], c);
    }
  }

  /** `text` ends with a documented tag, and the scanner is idle where that begins. */
  predicate EndsWithTag(text: string, pre: string, before: string, name: string, after: string) {
    && text == pre + Tag(before, name, after)
    && Blank(before) && Blank(after) && IsTagName(name)
    && ScanOver(Text, pre) == Text
  }

  /** What has been read of a tag that begins behind `pre`, in state `s`. */
  predicate Begun(s: State, text: string, pre: string, before: string, name: string, after: string) {
    s == Text ||
    (ScanOver(Text, pre) == Text &&
     match s
     case LeadIn(k) => text == pre + LEAD_IN[..k]
     case Name(n) => && n == name && (n == "" || IsTagName(n)) && Blank(before)
                     && text == pre + (LEAD_IN + before + n)
     case LeadOut(n, k) => && n == name && IsTagName(n) && Blank(before) && Blank(after)
                           && text == pre + (LEAD_IN + before + n + after + LEAD_OUT[..k]))
  }

  /** One more byte of a tag. */
  lemma BegunSnoc(s: State, text: string, c: char, pre: string, before: string, name: string, after: string)
    returns (pre': string, before': string, name': string, after': string)
    requires s == ScanOver(Text, text) && Begun(s, text, pre, before, name, after)
    ensures Begun(s.Next(c), text + [c], pre', before', name', after')
  {
    pre', before', name', after' := pre, before, name, after;
    match s
    case Text =>
      pre' := text;
    case LeadIn(k) =>
      before', name' := "", "";
      LeadInGrows(pre, k);
    case Name(n) =>
      if n == "" && IsSpace(c) {
        before' := before + [c];
        Snoc(pre, LEAD_IN + before, c);
      } else if IsSpace(c) {
        after' := [c];
        Snoc(pre, LEAD_IN + before + n, c);
      } else {
        name', after' := n + [c], "";
        Snoc(pre, LEAD_IN + before + n, c);
      }
      if c == LeadOutChar(0) {
        name' := n;
      }
    case LeadOut(n, k) =>
      if k == 0 && IsSpace(c) {
        after' := after + [c];
      }
      LeadOutGrows(pre, LEAD_IN + before + n, after, k, c);
  }

  lemma Snoc(pre: string, tail: string, c: char)
    ensures pre + tail + [c] == pre + (tail + [c])
  {
  }

  lemma LeadInGrows(pre: string, k: nat)
    requires 1 <= k < LEN_TAG_LEAD_IN
    ensures pre + LEAD_IN[..k] + [LeadInChar(k)] == pre + LEAD_IN[..k + 1]
    ensures LEAD_IN[..LEN_TAG_LEAD_IN] == LEAD_IN + "" + ""
  {
  }

  lemma LeadOutGrows(pre: string, front: string, after: string, k: nat, c: char)
    requires k < LEN_TAG_LEAD_OUT
    ensures c == LeadOutChar(k) ==>
              pre + (front + after + LEAD_OUT[..k]) + [c] == pre + (front + after + LEAD_OUT[..k + 1])
    ensures k == 0 ==> pre + (front + after + LEAD_OUT[..k]) + [c] == pre + (front + (after + [c]) + LEAD_OUT[..0])
  {
  }

  /** Wherever the scanner is inside of a tag, the text ends with what it has read
      of it. */
  lemma {:induction false} Origin(text: string) returns (pre: string, before: string, name: string, after: string)
    ensures Begun(ScanOver(Text, text), text, pre, before, name, after)
    decreases |text|
  {
    if text == "" {
      pre, before, name, after := "", "", "", "";
    } else {
      var up, c := text[..|text| - 1], text[|text| - 1];
      assert text == up + [c];
      pre, before, name, after := Origin(up);
      ScanSnoc(Text, up, c);
      pre, before, name, after := BegunSnoc(ScanOver(Text, up), up, c, pre, before, name, after);
    }
  }

  /** An insert goes in behind a byte if and only if a documented tag ends there that
      begins where the scanner is idle, and it is the insert of that tag. */
  lemma OnlyTagsGetInserts(table: TagTable, text: string, c: char)
    ensures ScanOver(Text, text).Completes(c)
       <==> exists pre, before, name, after :: EndsWithTag(text + [c], pre, before, name, after)
    ensures forall pre, before, name, after :: EndsWithTag(text + [c], pre, before, name, after) ==>
              InsertAfter(table, ScanOver(Text, text), c) == Insert(table, name)
  {
    forall pre, before, name, after | EndsWithTag(text + [c], pre, before, name, after)
      ensures ScanOver(Text, text) == LeadOut(name, 2) && c == '>'
    {
      TagCompletes(table, text, c, pre, before, name, after);
    }
    var s := ScanOver(Text, text);
    if s.Completes(c) {
      var pre, before, name, after := Origin(text);
      LeadOutGrows(pre, LEAD_IN + before + name, after, 2, c);
      assert EndsWithTag(text + [c], pre, before, name, after);
    }
  }

  lemma TagCompletes(table: TagTable, text: string, c: char, pre: string, before: string, name: string, after: string)
    requires EndsWithTag(text + [c], pre, before, name, after)
    ensures ScanOver(Text, text) == LeadOut(name, 2) && c == '>'
  {
    var b := UpToLastByte(table, before, name, after);
    assert text + [c] == (pre + b) + ['>'];
    assert text == (text + [c])[..|text|] == pre + b;
    ExpandConcat(table, Text, pre, b);
  }

  /** A file is put out completely if and only if any tag that it ends with, begun
      where the scanner is idle, has an empty insert. */
  lemma ExpandedIff(table: TagTable, text: string)
    ensures Emitted(table, Text, text) == Expand(table, Text, text)
       <==> forall pre, before, name, after :: EndsWithTag(text, pre, before, name, after) ==>
              Insert(table, name) == ""
  {
    NoFinalInsertIff(table, text);
    if text == "" {
    } else {
      var up, c := text[..|text| - 1], text[|text| - 1];
      assert text == up + [c];
      FinalInsertSnoc(table, Text, up, c);
      OnlyTagsGetInserts(table, up, c);
    }
  }
}
