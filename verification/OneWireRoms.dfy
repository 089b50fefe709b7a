/** ROM codes on a 1-Wire bus, their order, and the path that one ROM search
    takes through the binary trie of the codes present. */
module OneWireRoms {

  const ROM_BITS := 64
  const FAMILY_BITS := 8

  type Rom = r: seq<bool> | |r| == ROM_BITS witness seq(ROM_BITS, _ => false)

  const ZERO_ROM: Rom := seq(ROM_BITS, _ => false)

  // ----- the order of ROM codes: bit 0 of byte 0 decides first -----

  ghost predicate DiffAt(a: Rom, b: Rom, k: nat) {
    k < ROM_BITS && a[..k] == b[..k] && !a[k] && b[k]
  }

  ghost predicate Less(a: Rom, b: Rom) {
    exists k: nat :: DiffAt(a, b, k)
  }

  lemma {:induction false} FirstDiff(a: Rom, b: Rom, k: nat)
    requires k <= ROM_BITS && a[..k] == b[..k]
    ensures a == b || Less(a, b) || Less(b, a)
    decreases ROM_BITS - k
  {
    if k == ROM_BITS {
      assert a == a[..k] && b == b[..k];
    } else if a[k] == b[k] {
      assert a[..k + 1] == a[..k] + [a[k]] && b[..k + 1] == b[..k] + [b[k]];
      FirstDiff(a, b, k + 1);
    } else {
      assert DiffAt(a, b, k) || DiffAt(b, a, k);
    }
  }

  lemma LessTotal(a: Rom, b: Rom)
    ensures a == b || Less(a, b) || Less(b, a)
  {
    FirstDiff(a, b, 0);
  }

  lemma LessAsymmetric(a: Rom, b: Rom)
    requires Less(a, b)
    ensures a != b && !Less(b, a)
  {
    var k: nat :| DiffAt(a, b, k);
    forall j: nat
      ensures !DiffAt(b, a, j)
    {
      if j < k {
        assert a[..k][j] == a[j] && b[..k][j] == b[j];
      } else if k < j < ROM_BITS {
        assert a[..j][k] == a[k] && b[..j][k] == b[k];
      }
    }
  }

  lemma LessTransitive(a: Rom, b: Rom, c: Rom)
    requires Less(a, b) && Less(b, c)
    ensures Less(a, c)
  {
    var j: nat :| DiffAt(a, b, j);
    var k: nat :| DiffAt(b, c, k);
    if j < k {
      assert b[j] == b[..k][j] == c[..k][j] == c[j];
      assert c[..j] == c[..k][..j] && b[..j] == b[..k][..j];
      assert DiffAt(a, c, j);
    } else if k < j {
      assert a[k] == a[..j][k] == b[..j][k] == b[k];
      assert a[..k] == a[..j][..k] && b[..k] == b[..j][..k];
      assert DiffAt(a, c, k);
    }
  }

  // ----- one walk down the trie -----

  /** The devices still taking part once the bits of `path` were chosen. */
  ghost function Matching(devices: set<Rom>, path: seq<bool>): set<Rom> {
    set r | r in devices && path <= r
  }

  /** Devices with a 0 and devices with a 1 both follow `path`. */
  ghost predicate Branches(devices: set<Rom>, path: seq<bool>) {
    && |path| < ROM_BITS
    && (exists r :: r in Matching(devices, path) && r[|path|])
    && (exists r :: r in Matching(devices, path) && !r[|path|])
  }

  /** The bit a search writes after `path`, when `rom` and `last` are the last
      ROM found and its last discrepancy (positions count from 1). */
  ghost function Direction(devices: set<Rom>, rom: Rom, last: nat, path: seq<bool>): bool
    requires |path| < ROM_BITS
  {
    if Branches(devices, path) then
      if |path| + 1 < last then rom[|path|] else |path| + 1 == last
    else forall r :: r in Matching(devices, path) ==> r[|path|]
  }

  ghost function Walk(devices: set<Rom>, rom: Rom, last: nat, path: seq<bool>): Rom
    requires |path| <= ROM_BITS
    decreases ROM_BITS - |path|
  {
    if |path| == ROM_BITS then path
    else Walk(devices, rom, last, path + [Direction(devices, rom, last, path)])
  }

  /** The deepest position of `path` where 0 was taken and a device has 1. */
  ghost function LastZero(devices: set<Rom>, path: seq<bool>): (n: nat)
    requires |path| <= ROM_BITS
    ensures n <= |path|
  {
    if path == [] then 0
    else
      var up := path[..|path| - 1];
      if !path[|path| - 1] && Branches(devices, up) then |path| else LastZero(devices, up)
  }

  lemma MatchingStep(devices: set<Rom>, path: seq<bool>, bit: bool)
    requires |path| < ROM_BITS
    ensures Matching(devices, path + [bit]) == set r | r in Matching(devices, path) && r[|path|] == bit
  {
    forall r: Rom
      ensures path + [bit] <= r <==> path <= r && r[|path|] == bit
    {
    }
  }

  /** Every bit written keeps at least one device on the bus. */
  lemma DirectionKeepsDevices(devices: set<Rom>, rom: Rom, last: nat, path: seq<bool>)
    requires |path| < ROM_BITS && Matching(devices, path) != {}
    ensures Matching(devices, path + [Direction(devices, rom, last, path)]) != {}
  {
    var bit := Direction(devices, rom, last, path);
    MatchingStep(devices, path, bit);
    var s :| s in Matching(devices, path) && s[|path|] == bit;
    assert s in Matching(devices, path + [bit]);
  }

  /** A search ends at a device, and the path follows the one already taken. */
  lemma {:induction false} WalkFindsDevice(devices: set<Rom>, rom: Rom, last: nat, path: seq<bool>)
    requires |path| <= ROM_BITS && Matching(devices, path) != {}
    ensures Walk(devices, rom, last, path) in Matching(devices, path)
    decreases ROM_BITS - |path|
  {
    if |path| == ROM_BITS {
      var r :| r in Matching(devices, path);
      assert r == r[..ROM_BITS] == path;
    } else {
      var bit := Direction(devices, rom, last, path);
      DirectionKeepsDevices(devices, rom, last, path);
      WalkFindsDevice(devices, rom, last, path + [bit]);
      MatchingStep(devices, path, bit);
    }
  }

  /** Below the last discrepancy a search takes the smallest device. */
  lemma {:induction false} WalkIsLeast(devices: set<Rom>, rom: Rom, last: nat, path: seq<bool>, s: Rom)
    requires last <= |path| <= ROM_BITS && s in Matching(devices, path)
    ensures var w := Walk(devices, rom, last, path); w == s || Less(w, s)
    decreases ROM_BITS - |path|
  {
    if |path| == ROM_BITS {
      assert s == s[..ROM_BITS] == path;
    } else {
      var n := |path|;
      var bit := Direction(devices, rom, last, path);
      MatchingStep(devices, path, bit);
      var w := Walk(devices, rom, last, path);
      if s[n] == bit {
        WalkIsLeast(devices, rom, last, path + [bit], s);
      } else {
        assert s[n] && !bit;
        DirectionKeepsDevices(devices, rom, last, path);
        WalkFindsDevice(devices, rom, last, path + [bit]);
        assert w[..n] == path == s[..n] && !w[n];
        assert DiffAt(w, s, n);
      }
    }
  }

  /** Above the last discrepancy a search repeats the last ROM. */
  lemma {:induction false} WalkRepeats(devices: set<Rom>, rom: Rom, last: nat, n: nat)
    requires rom in devices && n < last <= ROM_BITS
    ensures Walk(devices, rom, last, []) == Walk(devices, rom, last, rom[..n])
  {
    if n == 0 {
      assert rom[..0] == [];
    } else {
      WalkRepeats(devices, rom, last, n - 1);
      var path := rom[..n - 1];
      assert rom in Matching(devices, path);
      assert Direction(devices, rom, last, path) == rom[n - 1];
      assert path + [rom[n - 1]] == rom[..n];
    }
  }

  /** What `LastZero` is: at it, `path` takes 0 where a device has 1; deeper
      down there is no such place. */
  lemma {:induction false} LastZeroIsLast(devices: set<Rom>, path: seq<bool>)
    requires |path| <= ROM_BITS
    ensures var n := LastZero(devices, path);
            && (n > 0 ==> !path[n - 1] && Branches(devices, path[..n - 1]))
            && forall k :: n <= k < |path| && !path[k] ==> !Branches(devices, path[..k])
  {
    if path == [] {
    } else {
      var up := path[..|path| - 1];
      LastZeroIsLast(devices, up);
      assert forall k :: 0 <= k <= |up| ==> up[..k] == path[..k];
    }
  }

  /** A device that comes after `rom` leaves it at or above the last zero. */
  lemma GreaterLeavesAbove(devices: set<Rom>, rom: Rom, s: Rom, k: nat)
    requires rom in devices && s in devices && DiffAt(rom, s, k)
    ensures k < LastZero(devices, rom)
  {
    LastZeroIsLast(devices, rom);
    assert s in Matching(devices, rom[..k]) && rom in Matching(devices, rom[..k]);
    assert Branches(devices, rom[..k]);
  }

  ghost predicate IsNext(devices: set<Rom>, rom: Rom, w: Rom) {
    && w in devices && Less(rom, w)
    && forall s :: s in devices && Less(rom, s) ==> w == s || Less(w, s)
  }

  /** From a found ROM with a last zero, a search repeats it up to there and then
      takes 1. */
  lemma WalkTurns(devices: set<Rom>, rom: Rom, last: nat)
    requires rom in devices && 0 < last == LastZero(devices, rom)
    ensures !rom[last - 1]
    ensures Matching(devices, rom[..last - 1] + [true]) != {}
    ensures Walk(devices, rom, last, []) == Walk(devices, rom, last, rom[..last - 1] + [true])
  {
    LastZeroIsLast(devices, rom);
    WalkRepeats(devices, rom, last, last - 1);
    assert rom in Matching(devices, rom[..last - 1]);
    DirectionKeepsDevices(devices, rom, last, rom[..last - 1]);
  }

  /** Whoever shares the first `n` bits of `rom` is below `s` if `rom` is so
      because of a bit among them. */
  lemma LessFromPrefix(rom: Rom, w: Rom, s: Rom, k: nat, n: nat)
    requires DiffAt(rom, s, k) && k < n <= ROM_BITS && w[..n] == rom[..n]
    ensures Less(w, s)
  {
    assert w[..k] == w[..n][..k] == rom[..n][..k] == rom[..k];
    assert w[k] == w[..n][k] == rom[..n][k] == rom[k];
    assert DiffAt(w, s, k);
  }

  /** The search after `rom` is not above any device that `rom` is below. */
  lemma WalkStaysBelow(devices: set<Rom>, rom: Rom, s: Rom)
    requires rom in devices && s in devices && Less(rom, s) && LastZero(devices, rom) > 0
    ensures var w := Walk(devices, rom, LastZero(devices, rom), []);
            w == s || Less(w, s)
  {
    var last := LastZero(devices, rom);
    var turn := rom[..last - 1] + [true];
    var w := Walk(devices, rom, last, []);
    WalkTurns(devices, rom, last);
    var k: nat :| DiffAt(rom, s, k);
    GreaterLeavesAbove(devices, rom, s, k);
    if k == last - 1 {
      assert s[..last] == turn;
      WalkIsLeast(devices, rom, last, turn, s);
    } else {
      WalkFindsDevice(devices, rom, last, turn);
      assert w[..last - 1] == turn[..last - 1] == rom[..last - 1];
      LessFromPrefix(rom, w, s, k, last - 1);
    }
  }

  /** From a found ROM and its last zero, a search goes to the next larger one. */
  lemma WalkIsNext(devices: set<Rom>, rom: Rom)
    requires rom in devices && LastZero(devices, rom) > 0
    ensures IsNext(devices, rom, Walk(devices, rom, LastZero(devices, rom), []))
  {
    var last := LastZero(devices, rom);
    var turn := rom[..last - 1] + [true];
    var w := Walk(devices, rom, last, []);
    WalkTurns(devices, rom, last);
    WalkFindsDevice(devices, rom, last, turn);
    assert turn <= w;
    assert w[..last - 1] == rom[..last - 1] && w[last - 1];
    assert DiffAt(rom, w, last - 1);
    forall s | s in devices && Less(rom, s)
      ensures w == s || Less(w, s)
    {
      WalkStaysBelow(devices, rom, s);
    }
  }

  /** There is no last zero exactly when the ROM is the largest on the bus. */
  lemma LastZeroIff(devices: set<Rom>, rom: Rom)
    requires rom in devices
    ensures LastZero(devices, rom) == 0 <==> forall s :: s in devices ==> s == rom || Less(s, rom)
  {
    if LastZero(devices, rom) == 0 {
      forall s | s in devices
        ensures s == rom || Less(s, rom)
      {
        LessTotal(s, rom);
        if k: nat :| DiffAt(rom, s, k) {
          GreaterLeavesAbove(devices, rom, s, k);
        }
      }
    } else {
      WalkIsNext(devices, rom);
      var w := Walk(devices, rom, LastZero(devices, rom), []);
      LessAsymmetric(rom, w);
    }
  }
}
