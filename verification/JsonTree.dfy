/** JSON value trees, their rendering as text, and the tokens of that text. */
module JsonTree {
  import opened Arithmetic
  import opened ByteList
  import opened Decimal

  /** A value. An array uses only the values of its items. A callback puts out
      its text piece by piece; without output function (no pieces) it is empty. */
  datatype Json =
    | Object(items: seq<Item>)
    | Array(items: seq<Item>)
    | Text(text: string)
    | Int(n: int)
    | Callback(id: nat, output: seq<string>)
  {
    predicate Container() {
      Object? || Array?
    }

    /** The type code; a container's is its opening bracket. */
    function Type(): char {
      match this
      case Object(_) => '{'
      case Array(_) => '['
      case Text(_) => '"'
      case Int(_) => 'I'
      case Callback(_, _) => 'C'
    }
  }

  datatype Item = Item(name: string, value: Json)

  /** The closing bracket is two codes after the opening one. */
  function Close(open: char): char
    requires open == '{' || open == '['
  {
    (open as int + 2) as char
  }

  // ----- rendering -----

  /** A string with its quotes escaped. */
  function Escape(s: string): string {
    if s == "" then "" else (if s[0] == '"' then "\\\"" else [s[0]]) + Escape(s[1..])
  }

  function Quoted(s: string): string {
    "\"" + Escape(s) + "\""
  }

  function IntText(n: int): string {
    if n < 0 then "-" + Digits(-n) else Digits(n)
  }

  /** The text of a number has a minus sign exactly if it is negative, and then its
      digits. */
  lemma SignIsRead(n: int)
    ensures IntText(n) != "" && (IntText(n)[0] == '-' <==> n < 0)
    ensures Atoi(if n < 0 then IntText(n)[1..] else IntText(n)) == if n < 0 then -n else n
  {
    AtoiOfDigits(if n < 0 then -n else n);
    assert n < 0 ==> IntText(n)[1..] == Digits(-n);
  }

  function Chunks(chunks: seq<string>, i: nat, rest: Bytes): Bytes
    requires i <= |chunks|
    decreases |chunks| - i
  {
    if i == |chunks| then rest else Join(chunks[i], Chunks(chunks, i + 1, rest))
  }

  /** The text of a value, and then `rest`. */
  function Render(v: Json, rest: Bytes): Bytes
    decreases v, 1, 0
  {
    if v.Container() then Byte(v.Type(), Byte('\n', Items(v, 0, rest)))
    else if v.Int? then Join(IntText(v.n), rest)
    else if v.Text? then Join(Quoted(v.text), rest)
    else if v.output == [] then Join(Quoted(""), rest)
    else Chunks(v.output, 0, rest)
  }

  /** The text of a container from item `i` on, with its closing bracket, and
      then `rest`. */
  function Items(v: Json, i: nat, rest: Bytes): Bytes
    requires v.Container() && i <= |v.items|
    decreases v, 0, |v.items| - i
  {
    if i == |v.items| then Byte('\n', Byte(Close(v.Type()), rest))
    else if i > 0 then Byte(',', Byte('\n', ItemText(v, i, rest)))
    else ItemText(v, i, rest)
  }

  function ItemText(v: Json, i: nat, rest: Bytes): Bytes
    requires v.Container() && i < |v.items|
    decreases v, 0, |v.items| - i, 0
  {
    var after := Items(v, i + 1, rest);
    if v.Object? then Join(Quoted(v.items[i].name), Byte(':', Render(v.items[i].value, after)))
    else Render(v.items[i].value, after)
  }


  // ----- the printed text as a string -----

  /** The pieces of a callback's output in a row. */
  function Flat(pieces: seq<string>, i: nat): string
    requires i <= |pieces|
    decreases |pieces| - i
  {
    if i == |pieces| then "" else pieces[i] + Flat(pieces, i + 1)
  }

  /** The items of a container between their brackets, each on a line of its own. */
  function PrintedText(v: Json): string
    decreases v, 1, 0
  {
    match v
    case Object(_) => "{\n" + (ItemsText(v, 0) + "\n}")
    case Array(_) => "[\n" + (ItemsText(v, 0) + "\n]")
    case Text(s) => "\"" + Escape(s) + "\""
    case Int(n) => IntText(n)
    case Callback(_, output) => if output == [] then "\"\"" else Flat(output, 0)
  }

  function ItemsText(v: Json, i: nat): string
    requires v.Container() && i <= |v.items|
    decreases v, 0, |v.items| - i
  {
    if i == |v.items| then ""
    else
      var value := PrintedText(v.items[i].value) + ItemsText(v, i + 1);
      var item := if v.Object? then "\"" + Escape(v.items[i].name) + "\"" + (":" + value) else value;
      if i > 0 then ",\n" + item else item
  }

  lemma {:induction false} ChunksAre(pieces: seq<string>, i: nat, rest: Bytes)
    requires i <= |pieces|
    ensures Str(Chunks(pieces, i, rest)) == Flat(pieces, i) + Str(rest)
    decreases |pieces| - i
  {
    if i == |pieces| {
    } else {
      ChunksAre(pieces, i + 1, rest);
      JoinIsConcat(pieces[i], Chunks(pieces, i + 1, rest));
    }
  }

  /** What is printed is that text, whatever follows. */
  lemma {:induction false} RenderIsText(v: Json, rest: Bytes)
    ensures Str(Render(v, rest)) == PrintedText(v) + Str(rest)
    decreases v, 1, 0
  {
    match v
    case Object(_) =>
      ItemsAreText(v, 0, rest);
      LineAround('{', ItemsText(v, 0), "\n}", Str(rest));
    case Array(_) =>
      ItemsAreText(v, 0, rest);
      LineAround('[', ItemsText(v, 0), "\n]", Str(rest));
    case Text(s) => JoinIsConcat(Quoted(s), rest);
    case Int(n) => JoinIsConcat(IntText(n), rest);
    case Callback(_, output) =>
      if output == [] {
        assert Quoted("") == "\"\"";
        JoinIsConcat(Quoted(""), rest);
      } else {
        ChunksAre(output, 0, rest);
      }
  }

  lemma LineAround(open: char, items: string, close: string, rest: string)
    ensures [open] + (['\n'] + (items + (close + rest))) == [open] + "\n" + (items + close) + rest
    ensures open == '{' ==> [open] + "\n" == "{\n"
    ensures open == '[' ==> [open] + "\n" == "[\n"
  {
  }

  lemma {:induction false} ItemsAreText(v: Json, i: nat, rest: Bytes)
    requires v.Container() && i <= |v.items|
    ensures Str(Items(v, i, rest)) == ItemsText(v, i) + ((if v.Object? then "\n}" else "\n]") + Str(rest))
    decreases v, 0, |v.items| - i
  {
    var close := if v.Object? then "\n}" else "\n]";
    if i == |v.items| {
      assert Str(Items(v, i, rest)) == ['\n'] + ([Close(v.Type())] + Str(rest));
      assert close == ['\n'] + [Close(v.Type())];
    } else {
      var after := Items(v, i + 1, rest);
      var value := v.items[i].value;
      ItemsAreText(v, i + 1, rest);
      RenderIsText(value, after);
      TailMoves(PrintedText(value), ItemsText(v, i + 1), close + Str(rest));
      var text := PrintedText(value) + ItemsText(v, i + 1);
      var item := ItemText(v, i, rest);
      if v.Object? {
        JoinIsConcat(Quoted(v.items[i].name), Byte(':', Render(value, after)));
        PairMoves(Quoted(v.items[i].name), text, close + Str(rest));
      }
      if i > 0 {
        CommaMoves(if v.Object? then Quoted(v.items[i].name) + (":" + text) else text, close + Str(rest));
      }
    }
  }

  lemma TailMoves(a: string, b: string, c: string)
    ensures a + (b + c) == (a + b) + c
  {
  }

  lemma PairMoves(name: string, text: string, rest: string)
    ensures name + ([':'] + (text + rest)) == (name + (":" + text)) + rest
  {
  }

  lemma CommaMoves(item: string, rest: string)
    ensures [','] + (['\n'] + (item + rest)) == (",\n" + item) + rest
  {
  }

  /** The tree has at most `n` levels, and its numbers and their negations are
      32-bit integers. */
  predicate Fits(v: Json, n: nat) {
    && n > 0
    && (v.Int? ==> -I32 < v.n < I32)
    && (v.Container() ==> forall i :: 0 <= i < |v.items| ==> Fits(v.items[i].value, n - 1))
  }
}
