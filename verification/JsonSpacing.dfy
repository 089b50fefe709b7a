/** Texts of JSON trees with blanks between the tokens, of which the printed text is
    one. */
module JsonSpacing {
  import opened ByteList
  import opened Decimal
  import opened JsonTree

  /** Strings have no NUL inside, and callbacks have no output of their own. */
  predicate Plain(v: Json) {
    && (v.Container() ==> forall j :: 0 <= j < |v.items| ==> '\0' !in v.items[j].name && Plain(v.items[j].value))
    && (v.Text? ==> '\0' !in v.text)
    && (v.Callback? ==> v.output == [])
  }

  // ----- texts with blanks -----

  /** Where a text may have blanks: between any two tokens. */
  datatype Place = First | AfterOpen | AfterComma | BeforeColon | AfterColon | AfterValue

  /** The blanks at a place, by what comes after them. */
  type Gaps = (Place, Bytes) -> string

  predicate IsBlank(s: string) {
    forall i :: 0 <= i < |s| ==> s[i] == ' ' || s[i] == '\n'
  }

  ghost predicate Blank(g: Gaps) {
    forall place: Place, rest: Bytes :: IsBlank(g(place, rest))
  }

  function Gap(g: Gaps, place: Place, rest: Bytes): Bytes {
    Join(g(place, rest), rest)
  }

  /** The text of a value with blanks, and then `rest`. */
  function Loose(v: Json, rest: Bytes, g: Gaps): Bytes
    decreases v, 1, 0
  {
    if v.Container() then Byte(v.Type(), Gap(g, AfterOpen, LooseItems(v, 0, rest, g)))
    else Render(v, rest)
  }

  function LooseItems(v: Json, i: nat, rest: Bytes, g: Gaps): Bytes
    requires v.Container() && i <= |v.items|
    decreases v, 0, |v.items| - i, 2
  {
    if i == |v.items| then Byte(Close(v.Type()), rest)
    else if i > 0 then Byte(',', Gap(g, AfterComma, LooseItemText(v, i, rest, g)))
    else LooseItemText(v, i, rest, g)
  }

  /** What follows the value of item `i`. */
  function LooseNext(v: Json, i: nat, rest: Bytes, g: Gaps): Bytes
    requires v.Container() && i < |v.items|
    decreases v, 0, |v.items| - i, 0
  {
    Gap(g, AfterValue, LooseItems(v, i + 1, rest, g))
  }

  function LooseItemText(v: Json, i: nat, rest: Bytes, g: Gaps): Bytes
    requires v.Container() && i < |v.items|
    decreases v, 0, |v.items| - i, 1
  {
    var value := Loose(v.items[i].value, LooseNext(v, i, rest, g), g);
    if v.Object? then LoosePair(v.items[i].name, value, g) else value
  }

  function LoosePair(name: string, value: Bytes, g: Gaps): Bytes {
    Join(Quoted(name), Gap(g, BeforeColon, Byte(':', Gap(g, AfterColon, value))))
  }

  predicate Closes(rest: Bytes) {
    rest.Byte? && (rest.head == '}' || rest.head == ']')
  }

  /** The blanks of a printed text. */
  function Printed(): Gaps {
    (place: Place, rest: Bytes) =>
      match place
      case AfterOpen => if Closes(rest) then "\n\n" else "\n"
      case AfterComma => "\n"
      case AfterValue => if Closes(rest) then "\n" else ""
      case _ => ""
  }

  lemma {:induction false} PrintedIsLoose(v: Json, rest: Bytes)
    requires Plain(v)
    ensures Render(v, rest) == Loose(v, rest, Printed())
    decreases v, 1, 0
  {
    if v.Container() {
      PrintedItems(v, 0, rest);
      var items := LooseItems(v, 0, rest, Printed());
      OneBlank(items);
      if v.items != [] {
        FirstIsNoClose(v, rest);
      }
    }
  }

  lemma OneBlank(rest: Bytes)
    ensures Join("", rest) == rest && Join("\n", rest) == Byte('\n', rest)
    ensures Join("\n\n", rest) == Byte('\n', Byte('\n', rest))
  {
    assert Feed("\n", 0, 1, rest) == Byte('\n', Feed("\n", 1, 1, rest));
    assert Feed("\n\n", 0, 2, rest) == Byte('\n', Feed("\n\n", 1, 2, rest));
    assert Feed("\n\n", 1, 2, rest) == Byte('\n', Feed("\n\n", 2, 2, rest));
  }

  /** Only a closing bracket begins with one. */
  lemma FirstIsNoClose(v: Json, rest: Bytes)
    requires v.Container() && v.items != [] && Plain(v)
    ensures !Closes(LooseItems(v, 0, rest, Printed()))
  {
    if v.Object? {
      assert Quoted(v.items[0].name)[0] == '"';
    } else {
      NoClose(v.items[0].value, LooseNext(v, 0, rest, Printed()));
    }
  }

  lemma NoClose(v: Json, rest: Bytes)
    requires Plain(v)
    ensures !Closes(Loose(v, rest, Printed()))
  {
    if v.Int? {
      assert IntText(v.n)[0] == '-' || IsDigit(IntText(v.n)[0]);
    }
  }

  /** The printed items, after the line break in front of a closing bracket. */
  lemma {:induction false} PrintedItems(v: Json, i: nat, rest: Bytes)
    requires v.Container() && i <= |v.items| && Plain(v)
    ensures var items := LooseItems(v, i, rest, Printed());
            Items(v, i, rest) == if i == |v.items| then Byte('\n', items) else items
    decreases v, 0, |v.items| - i
  {
    if i == |v.items| {
    } else {
      var value := v.items[i].value;
      var after := LooseItems(v, i + 1, rest, Printed());
      PrintedItems(v, i + 1, rest);
      OneBlank(after);
      assert Items(v, i + 1, rest) == LooseNext(v, i, rest, Printed());
      PrintedIsLoose(value, Items(v, i + 1, rest));
      var text := Loose(value, Items(v, i + 1, rest), Printed());
      OneBlank(text);
      OneBlank(Byte(':', text));
      OneBlank(LooseItemText(v, i, rest, Printed()));
    }
  }
}
