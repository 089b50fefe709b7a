/** The parameter store: two data sectors and a flag sector of a NOR flash that
    can lose power in the middle of any erase or write. */
module ParamStore {

  const SPI_FLASH_SEC_SIZE := 4096
  const SECTORS := 4                // from ESP_PARAM_START_SEC on
  const ESP_PARAM_SAVE_0 := 1
  const ESP_PARAM_SAVE_1 := 2
  const ESP_PARAM_FLAG := 3
  const PARAM_SIZE := 84            // size of the saved record
  const FLAG_SIZE := 4

  type Sector = s: seq<bv8> | |s| == SPI_FLASH_SEC_SIZE witness seq(SPI_FLASH_SEC_SIZE, _ => 0xFF)
  type Record = s: seq<bv8> | |s| == PARAM_SIZE witness seq(PARAM_SIZE, _ => 0)
  type Contents = c: seq<Sector> | |c| == SECTORS witness seq(SECTORS, _ => ERASED)

  const ERASED: Sector := seq(SPI_FLASH_SEC_SIZE, _ => 0xFF)

  /** Programming can only turn ones into zeros. */
  function Programmed(s: Sector, data: seq<bv8>): (r: Sector)
    requires |data| <= SPI_FLASH_SEC_SIZE
  {
    seq(SPI_FLASH_SEC_SIZE, i requires 0 <= i < SPI_FLASH_SEC_SIZE => if i < |data| then s[i] & data[i] else s[i])
  }

  lemma EraseThenProgram(data: seq<bv8>)
    requires |data| <= SPI_FLASH_SEC_SIZE
    ensures Programmed(ERASED, data)[..|data|] == data
  {
    forall i | 0 <= i < |data|
      ensures Programmed(ERASED, data)[i] == data[i]
    {
      assert forall x: bv8 {:trigger 0xFF & x} :: 0xFF & x == x;
    }
  }

  /** The flash. An erase or write reports whether it finished, which it does if
      power holds; if power fails in it, its sector may hold anything, and no other
      sector changes. */
  class Flash {
    var sectors: Contents
    const power: bool                // whether power is sure to hold

    method Read(sector: nat, size: nat) returns (data: seq<bv8>)
      requires sector < SECTORS && size <= SPI_FLASH_SEC_SIZE
      ensures data == sectors[sector][..size]
    {
      data := sectors[sector][..size];
    }

    /** Power failed while this sector was being changed. */
    method Scramble(sector: nat)
      requires sector < SECTORS
      modifies this
      ensures forall s :: 0 <= s < SECTORS && s != sector ==> sectors[s] == old(sectors)[s]
    {
      var old0: seq<bv8> := sectors[sector];
      var garbage: seq<bv8> :| |garbage| == |old0|;
      sectors := sectors[sector := garbage];
    }

    method EraseSector(sector: nat) returns (finished: bool)
      requires sector < SECTORS
      modifies this
      ensures forall s :: 0 <= s < SECTORS && s != sector ==> sectors[s] == old(sectors)[s]
      ensures finished ==> sectors[sector] == ERASED
      ensures power ==> finished
    {
      finished := power;
      if !power {
        finished := *;
      }
      sectors := sectors[sector := ERASED];
      if !finished {
        Scramble(sector);
      }
    }

    method Write(sector: nat, data: seq<bv8>) returns (finished: bool)
      requires sector < SECTORS && |data| <= SPI_FLASH_SEC_SIZE
      modifies this
      ensures forall s :: 0 <= s < SECTORS && s != sector ==> sectors[s] == old(sectors)[s]
      ensures finished ==> sectors[sector] == Programmed(old(sectors)[sector], data)
      ensures power ==> finished
    {
      finished := power;
      if !power {
        finished := *;
      }
      sectors := sectors[sector := Programmed(sectors[sector], data)];
      if !finished {
        Scramble(sector);
      }
    }
  }

  /** The record that a load would return. */
  function Stored(c: Contents): Record {
    if c[ESP_PARAM_FLAG][0] == 0 then c[ESP_PARAM_SAVE_0][..PARAM_SIZE] else c[ESP_PARAM_SAVE_1][..PARAM_SIZE]
  }

  method LoadParam(flash: Flash) returns (param: Record)
    ensures param == Stored(flash.sectors)
    ensures param == flash.sectors[if flash.sectors[3][0] == 0 then 1 else 2][..84]
  {
    var flag := flash.Read(ESP_PARAM_FLAG, FLAG_SIZE);
    if flag[0] == 0 {
      param := flash.Read(ESP_PARAM_SAVE_0, PARAM_SIZE);
    } else {
      param := flash.Read(ESP_PARAM_SAVE_1, PARAM_SIZE);
    }
  }

  /** Erases a sector and writes `data` to it; stops where power fails. */
  method Replace(flash: Flash, sector: nat, data: seq<bv8>) returns (finished: bool)
    requires sector < SECTORS && |data| <= SPI_FLASH_SEC_SIZE
    modifies flash
    ensures forall s :: 0 <= s < SECTORS && s != sector ==> flash.sectors[s] == old(flash.sectors)[s]
    ensures finished ==> flash.sectors[sector][..|data|] == data
    ensures flash.power ==> finished
  {
    finished := flash.EraseSector(sector);
    if finished {
      EraseThenProgram(data);
      finished := flash.Write(sector, data);
    }
  }

  /** Saves a record. A save finishes if power holds, and leaves it as the stored
      record; wherever power fails, the stored record is either this one or the one
      before, whole. */
  method SaveParam(flash: Flash, param: Record) returns (finished: bool)
    modifies flash
    ensures finished ==> Stored(flash.sectors) == param
    ensures flash.power ==> finished
    ensures Stored(flash.sectors) == param || Stored(flash.sectors) == old(Stored(flash.sectors))
  {
    var flag := flash.Read(ESP_PARAM_FLAG, FLAG_SIZE);
    if flag[0] == 0 {
      finished := Replace(flash, ESP_PARAM_SAVE_1, param);
      if finished {
        flag := flag[0 := 1];
        finished := Replace(flash, ESP_PARAM_FLAG, flag);
        assert finished ==> flash.sectors[ESP_PARAM_FLAG][0] == flash.sectors[ESP_PARAM_FLAG][..FLAG_SIZE][0] == 1;
      }
    } else {
      finished := Replace(flash, ESP_PARAM_SAVE_0, param);
      if finished {
        flag := flag[0 := 0];
        finished := Replace(flash, ESP_PARAM_FLAG, flag);
        assert finished ==> flash.sectors[ESP_PARAM_FLAG][0] == flash.sectors[ESP_PARAM_FLAG][..FLAG_SIZE][0] == 0;
      }
    }
  }

  // ----- why a save erases first -----

  /** No bit of `data` has to go from 0 to 1. */
  predicate Covers(s: Sector, data: seq<bv8>)
    requires |data| <= SPI_FLASH_SEC_SIZE
  {
    forall i :: 0 <= i < |data| ==> s[i] & data[i] == data[i]
  }

  lemma ProgrammedIff(s: Sector, data: seq<bv8>)
    requires |data| <= SPI_FLASH_SEC_SIZE
    ensures Programmed(s, data)[..|data|] == data <==> Covers(s, data)
  {
    assert forall i :: 0 <= i < |data| ==> Programmed(s, data)[..|data|][i] == s[i] & data[i];
  }

  /** What a save would leave that programs the same sectors without erasing them. */
  function SavedOver(c: Contents, param: Record): Contents {
    var sector, flag := if c[ESP_PARAM_FLAG][0] == 0 then ESP_PARAM_SAVE_1 else ESP_PARAM_SAVE_0,
                        if c[ESP_PARAM_FLAG][0] == 0 then 1 else 0;
    c[sector := Programmed(c[sector], param)]
     [ESP_PARAM_FLAG := Programmed(c[ESP_PARAM_FLAG], c[ESP_PARAM_FLAG][..FLAG_SIZE][0 := flag])]
  }

  /** Without the erases a save stores its record if and only if either the flag
      is 0 and the record is the one already stored, or the flag is not 0 and no
      bit of the record has to rise: a flag of 0 cannot become 1. */
  lemma WithoutEraseIff(c: Contents, param: Record)
    ensures Stored(SavedOver(c, param)) == param
       <==> if c[ESP_PARAM_FLAG][0] == 0 then Stored(c) == param else Covers(c[ESP_PARAM_SAVE_0], param)
    ensures c[ESP_PARAM_FLAG][0] == 0 ==> Stored(SavedOver(c, param)) == Stored(c)
    ensures SavedOver(c, param)[ESP_PARAM_FLAG][0] == 0
  {
    FlagStaysDown(c[ESP_PARAM_FLAG][0]);
    ProgrammedIff(c[ESP_PARAM_SAVE_0], param);
  }

  lemma FlagStaysDown(f: bv8)
    ensures f == 0 ==> f & 1 == 0
    ensures f & 0 == 0
  {
  }

  function SavedOverAll(c: Contents, params: seq<Record>): Contents
    decreases |params|
  {
    if params == [] then c else SavedOverAll(SavedOver(c, params[0]), params[1..])
  }

  /** Without the erases only the first of any number of saves can have an effect. */
  lemma {:induction false} OneSaveWithoutErase(c: Contents, params: seq<Record>)
    requires params != []
    ensures Stored(SavedOverAll(c, params)) == Stored(SavedOver(c, params[0]))
    decreases |params|
  {
    WithoutEraseIff(c, params[0]);
    if |params| > 1 {
      var next := SavedOver(c, params[0]);
      OneSaveWithoutErase(next, params[1..]);
      WithoutEraseIff(next, params[1]);
    }
  }

  // ----- histories of saves and power losses -----

  /** The record that counts after a history: `kept[i]` tells whether save `i`
      took effect. */
  function LastKept(first: Record, params: seq<Record>, kept: seq<bool>): Record
    requires |kept| == |params|
  {
    if params == [] then first
    else if kept[|kept| - 1] then params[|params| - 1]
    else LastKept(first, params[..|params| - 1], kept[..|kept| - 1])
  }

  /** Any sequence of saves, each of which power may cut off anywhere: each save
      takes effect entirely or not at all, finished ones always do, and a load
      returns the last that did. */
  method SaveAll(flash: Flash, params: seq<Record>) returns (finished: seq<bool>, ghost kept: seq<bool>, loaded: Record)
    modifies flash
    ensures |finished| == |kept| == |params|
    ensures forall i :: 0 <= i < |params| && finished[i] ==> kept[i]
    ensures flash.power ==> forall i :: 0 <= i < |params| ==> finished[i]
    ensures loaded == LastKept(old(Stored(flash.sectors)), params, kept)
  {
    finished, kept := [], [];
    ghost var first := Stored(flash.sectors);
    var i := 0;
    while i < |params|
      invariant i == |finished| == |kept| <= |params|
      invariant forall j :: 0 <= j < i && finished[j] ==> kept[j]
      invariant flash.power ==> forall j :: 0 <= j < i ==> finished[j]
      invariant Stored(flash.sectors) == LastKept(first, params[..i], kept)
    {
      var ok := SaveParam(flash, params[i]);
      finished := finished + [ok];
      ghost var k := Stored(flash.sectors) == params[i];
      assert params[..i + 1][..i] == params[..i] && (kept + [k])[..i] == kept;
      kept := kept + [k];
      i := i + 1;
    }
    assert params[..i] == params;
    loaded := LoadParam(flash);
  }
}
