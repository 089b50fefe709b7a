/** The server's timer text: cutting it at its separators, and reading timers
    from the parts. */
module TimerText {
  import opened Decimal
  import opened Sequences
  import opened TimerSchedule

  /** The first position of `c` from `start` on, or -1. */
  function IndexOf(s: string, c: char, start: nat): (i: int)
    requires start <= |s|
    ensures i == -1 || start <= i < |s|
    ensures i >= 0 ==> s[i] == c
    ensures forall j :: start <= j < (if i < 0 then |s| else i) ==> s[j] != c
    decreases |s| - start
  {
    if start == |s| then -1 else if s[start] == c then start else IndexOf(s, c, start + 1)
  }

  /** Each part followed by the separator. */
  function Ended(parts: seq<string>, c: char): string {
    if parts == [] then "" else Ended(parts[..|parts| - 1], c) + parts[|parts| - 1] + [c]
  }

  /** The parts with a separator between any two of them. */
  function Joined(parts: seq<string>, c: char): string
    requires parts != []
  {
    Ended(parts[..|parts| - 1], c) + parts[|parts| - 1]
  }

  predicate NoneHas(parts: seq<string>, c: char) {
    forall i :: 0 <= i < |parts| ==> c !in parts[i]
  }

  /** Cuts a text at each separator. */
  method Split(s: string, c: char) returns (parts: seq<string>)
    ensures parts != [] && Joined(parts, c) == s && NoneHas(parts, c)
  {
    parts := [];
    var i := 0;
    while true
      invariant i <= |s| && Ended(parts, c) == s[..i] && NoneHas(parts, c)
      decreases |s| - i
    {
      var start := i;
      var end := IndexOf(s, c, start);
      if end == -1 {
        end := |s|;
      }
      ghost var before := parts;
      parts := parts + [s[start..end]];
      assert parts[..|parts| - 1] == before;
      i := end + 1;
      assert s[..start] + s[start..end] == s[..end];
      if i > |s| {
        assert s[..end] == s;
        break;
      }
      assert s[..i] == s[..end] + [c];
    }
  }

  /** The length of a text up to its last separator. */
  function LastCut(s: string, c: char): nat {
    if s == "" then 0 else if s[|s| - 1] == c then |s| else LastCut(s[..|s| - 1], c)
  }

  lemma {:induction false} CutBefore(a: string, p: string, c: char)
    requires c !in p && (a == "" || a[|a| - 1] == c)
    ensures LastCut(a + p, c) == |a|
  {
    if p == "" {
      assert a + p == a;
    } else {
      assert (a + p)[..|a + p| - 1] == a + p[..|p| - 1] && (a + p)[|a + p| - 1] == p[|p| - 1];
      CutBefore(a, p[..|p| - 1], c);
    }
  }

  /** A text has only one last part. */
  lemma LastPart(a: string, p: string, b: string, q: string, c: char)
    requires a + p == b + q && c !in p && c !in q
    requires (a == "" || a[|a| - 1] == c) && (b == "" || b[|b| - 1] == c)
    ensures a == b && p == q
  {
    CutBefore(a, p, c);
    CutBefore(b, q, c);
    assert a == (a + p)[..|a|] && b == (b + q)[..|b|];
    assert p == (a + p)[|a|..] && q == (b + q)[|b|..];
  }

  /** There is only one way to cut a text. */
  lemma {:induction false} OneSplit(parts: seq<string>, others: seq<string>, c: char)
    requires parts != [] && others != [] && NoneHas(parts, c) && NoneHas(others, c)
    requires Joined(parts, c) == Joined(others, c)
    ensures parts == others
    decreases |parts|
  {
    var front, front' := parts[..|parts| - 1], others[..|others| - 1];
    EndsWithSeparator(front, c);
    EndsWithSeparator(front', c);
    LastPart(Ended(front, c), parts[|parts| - 1], Ended(front', c), others[|others| - 1], c);
    if front != [] {
      assert front' != [];
      assert Ended(front, c)[..|Ended(front, c)| - 1] == Joined(front, c);
      assert Ended(front', c)[..|Ended(front', c)| - 1] == Joined(front', c);
      OneSplit(front, front', c);
    }
    assert parts == front + [parts[|parts| - 1]] && others == front' + [others[|others| - 1]];
  }

  lemma EndsWithSeparator(parts: seq<string>, c: char)
    ensures parts == [] <==> Ended(parts, c) == ""
    ensures parts != [] ==> Ended(parts, c)[|Ended(parts, c)| - 1] == c
  {
  }

  // ----- reading timers -----

  function TimerOf(letter: char, n: nat, action: string): Option<Timer> {
    if letter == 'f' then Some(Fixed(n, action))
    else if letter == 'l' then Some(Loop(n, action))
    else if letter == 'w' then Some(Weekly(n, action))
    else None
  }

  /** Reads a part that has one `=`, with `head` before and `action` behind it. */
  method ReadTimer(str: string, ghost head: string, ghost action: string) returns (timer: Option<Timer>)
    requires str == head + "=" + action && '=' !in head && '=' !in action && head != ""
    ensures timer == TimerOf(head[0], Atoi(head[1..]), action)
  {
    var parts := Split(str, '=');
    TwoParts(head, action, '=');
    OneSplit(parts, [head, action], '=');
    assert str[0] == head[0];
    timer := TimerOf(str[0], Atoi(parts[0][1..]), parts[1]);
  }

  lemma TwoParts(a: string, b: string, c: char)
    requires c !in a && c !in b
    ensures NoneHas([a, b], c) && Joined([a, b], c) == a + [c] + b
  {
    assert [a, b][..1] == [a] && [a][..0] == [];
    assert Ended([a], c) == "" + a + [c];
  }

  function Action(timer: Timer): string {
    match timer
    case Fixed(_, a) => a
    case Loop(_, a) => a
    case Weekly(_, a) => a
  }

  function Head(timer: Timer): (h: string)
    ensures h != "" && '=' !in h && ';' !in h
  {
    match timer
    case Fixed(at, _) => "f" + Digits(at)
    case Loop(p, _) => "l" + Digits(p)
    case Weekly(s, _) => "w" + Digits(s)
  }

  /** A timer as the server writes it. */
  function Show(timer: Timer): string {
    Head(timer) + "=" + Action(timer)
  }

  /** What the server writes for a timer of each kind. */
  lemma ShownIs(n: nat, action: string)
    ensures Show(Fixed(n, action)) == "f" + Digits(n) + "=" + action
    ensures Show(Loop(n, action)) == "l" + Digits(n) + "=" + action
    ensures Show(Weekly(n, action)) == "w" + Digits(n) + "=" + action
  {
  }

  function ShowAll(timers: seq<Timer>): seq<string> {
    seq(|timers|, i requires 0 <= i < |timers| => Show(timers[i]))
  }

  lemma ShownIsRead(timer: Timer)
    ensures TimerOf(Head(timer)[0], Atoi(Head(timer)[1..]), Action(timer)) == Some(timer)
  {
    var n := if timer.Fixed? then timer.at else if timer.Loop? then timer.period else timer.second;
    assert Head(timer)[1..] == Digits(n);
    AtoiOfDigits(n);
  }

  method ReadShown(str: string, ghost timer: Timer) returns (t: Option<Timer>)
    requires str == Show(timer) && '=' !in Action(timer)
    ensures t == Some(timer)
  {
    ShownIsRead(timer);
    t := ReadTimer(str, Head(timer), Action(timer));
  }

  method SplitShown(text: string, ghost timers: seq<Timer>) returns (parts: seq<string>)
    requires timers != [] && text == Joined(ShowAll(timers), ';')
    requires forall i :: 0 <= i < |timers| ==> ';' !in Action(timers[i])
    ensures parts == ShowAll(timers)
  {
    parts := Split(text, ';');
    ShownParts(timers);
    OneSplit(parts, ShowAll(timers), ';');
  }

  lemma ShownParts(timers: seq<Timer>)
    requires forall i :: 0 <= i < |timers| ==> ';' !in Action(timers[i])
    ensures NoneHas(ShowAll(timers), ';')
  {
  }

  method ReadParts(parts: seq<string>, ghost timers: seq<Timer>) returns (read: seq<Option<Timer>>)
    requires parts == ShowAll(timers)
    requires forall i :: 0 <= i < |timers| ==> '=' !in Action(timers[i])
    ensures |read| == |timers| && forall i :: 0 <= i < |timers| ==> read[i] == Some(timers[i])
  {
    read := [];
    for i := 0 to |parts|
      invariant |read| == i && forall j :: 0 <= j < i ==> read[j] == Some(timers[j])
    {
      var timer := ReadShown(parts[i], timers[i]);
      read := read + [timer];
    }
  }

  /** The timers that a text describes are read from it, in order. */
  method ReadTimers(text: string, ghost timers: seq<Timer>) returns (read: seq<Option<Timer>>)
    requires timers != [] && text == Joined(ShowAll(timers), ';')
    requires forall i :: 0 <= i < |timers| ==> '=' !in Action(timers[i]) && ';' !in Action(timers[i])
    ensures |read| == |timers| && forall i :: 0 <= i < |timers| ==> read[i] == Some(timers[i])
  {
    var parts := SplitShown(text, timers);
    read := ReadParts(parts, timers);
  }
}
