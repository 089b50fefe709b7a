/** The resumable ROM search: its state between calls, what a run of calls
    returns, and the search routine itself on a wired-AND bus. */
module OneWireSearch {
  import opened Arithmetic
  import opened OneWireRoms

  /** What survives from one call to the next. */
  datatype Search = Search(rom: Rom, last: nat, done: bool)
  {
    /** The next call starts at the root of the trie. */
    predicate Fresh() { last == 0 && !done }
  }

  predicate ZeroFamily(r: Rom) {
    forall i :: 0 <= i < FAMILY_BITS ==> !r[i]
  }

  /** One call: the state it leaves and whether it reports a device. */
  ghost function Next(devices: set<Rom>, st: Search): (Search, bool) {
    if st.done || devices == {} then (Search(st.rom, 0, false), false)
    else
      var w := Walk(devices, st.rom, st.last, []);
      var last := LastZero(devices, w);
      if ZeroFamily(w) then (Search(w, 0, false), false) else (Search(w, last, last == 0), true)
  }

  /** The state after `n` calls. */
  ghost function After(devices: set<Rom>, st: Search, n: nat): Search {
    if n == 0 then st else Next(devices, After(devices, st, n - 1)).0
  }

  /** Call number `n` reports `r`. */
  ghost predicate Reports(devices: set<Rom>, st: Search, n: nat, r: Rom) {
    var (next, found) := Next(devices, After(devices, st, n));
    found && next.rom == r
  }

  // ----- enumeration -----

  /** `s` lists the devices in increasing order. */
  ghost predicate Listing(devices: set<Rom>, s: seq<Rom>) {
    && (forall i, j {:trigger Less(s[i], s[j])} :: 0 <= i < j < |s| ==> Less(s[i], s[j]))
    && (forall r :: r in devices <==> r in s)
  }

  lemma ListingOrder(devices: set<Rom>, s: seq<Rom>, i: nat, j: nat)
    requires Listing(devices, s) && i < |s| && j < |s|
    ensures Less(s[i], s[j]) <==> i < j
  {
    LessTotal(s[i], s[j]);
    if Less(s[i], s[j]) {
      LessAsymmetric(s[i], s[j]);
    }
  }

  lemma AllMatchNothing(devices: set<Rom>)
    ensures Matching(devices, []) == devices
  {
    assert forall r :: r in devices ==> r in Matching(devices, []);
  }

  /** A walk from the root without a last discrepancy finds the least device. */
  lemma FirstIsLeast(devices: set<Rom>, rom: Rom)
    requires devices != {}
    ensures var w := Walk(devices, rom, 0, []);
            && w in devices
            && forall s :: s in devices ==> w == s || Less(w, s)
  {
    AllMatchNothing(devices);
    WalkFindsDevice(devices, rom, 0, []);
    forall s | s in devices
      ensures Walk(devices, rom, 0, []) == s || Less(Walk(devices, rom, 0, []), s)
    {
      WalkIsLeast(devices, rom, 0, [], s);
    }
  }

  lemma {:induction false} ListingExists(devices: set<Rom>)
    ensures exists s :: Listing(devices, s)
    decreases |devices|
  {
    if devices == {} {
      assert Listing(devices, []);
    } else {
      var any :| any in devices;
      var w := Walk(devices, any, 0, []);
      FirstIsLeast(devices, any);
      ListingExists(devices - {w});
      var t :| Listing(devices - {w}, t);
      ListingCons(devices, w, t);
    }
  }

  lemma ListingCons(devices: set<Rom>, w: Rom, t: seq<Rom>)
    requires w in devices && Listing(devices - {w}, t)
    requires forall s :: s in devices ==> w == s || Less(w, s)
    ensures Listing(devices, [w] + t)
  {
    var s := [w] + t;
    forall i, j | 0 <= i < j < |s|
      ensures Less(s[i], s[j])
    {
      assert s[j] == t[j - 1] && t[j - 1] in devices - {w};
    }
    forall r
      ensures r in devices <==> r in s
    {
      assert r in s <==> r == w || r in t;
    }
  }

  /** A fresh call reports the first listed device. */
  lemma FirstCall(devices: set<Rom>, s: seq<Rom>, st: Search)
    requires Listing(devices, s) && st.Fresh() && s != []
    ensures Walk(devices, st.rom, 0, []) == s[0]
  {
    assert s[0] in devices;
    FirstIsLeast(devices, st.rom);
    var w := Walk(devices, st.rom, 0, []);
    var i :| 0 <= i < |s| && s[i] == w;
    ListingOrder(devices, s, i, 0);
  }

  /** A call after device number `i` goes on to the next one. */
  lemma NextCall(devices: set<Rom>, s: seq<Rom>, i: nat)
    requires Listing(devices, s) && i + 1 < |s|
    ensures LastZero(devices, s[i]) > 0
    ensures Walk(devices, s[i], LastZero(devices, s[i]), []) == s[i + 1]
  {
    assert s[i] in devices && s[i + 1] in devices;
    LastZeroIff(devices, s[i]);
    ListingOrder(devices, s, i + 1, i);
    WalkIsNext(devices, s[i]);
    var w := Walk(devices, s[i], LastZero(devices, s[i]), []);
    var j :| 0 <= j < |s| && s[j] == w;
    ListingOrder(devices, s, i, j);
    ListingOrder(devices, s, j, i + 1);
  }

  lemma LastCall(devices: set<Rom>, s: seq<Rom>)
    requires Listing(devices, s) && s != []
    ensures LastZero(devices, s[|s| - 1]) == 0
  {
    var r := s[|s| - 1];
    assert r in devices;
    LastZeroIff(devices, r);
    forall x | x in devices
      ensures x == r || Less(x, r)
    {
      var i :| 0 <= i < |s| && s[i] == x;
    }
  }

  /** The state between calls: fresh at the start of a round, otherwise at the
      device reported last, with that device's last zero. */
  ghost predicate StateAt(devices: set<Rom>, s: seq<Rom>, st: Search, q: nat) {
    if q == 0 then st.Fresh()
    else q <= |s| && st == Search(s[q - 1], LastZero(devices, s[q - 1]), q == |s|)
  }

  /** The device a call finds from that state, and its last zero. */
  lemma FoundAt(devices: set<Rom>, s: seq<Rom>, st: Search, q: nat)
    requires Listing(devices, s) && q < |s| && StateAt(devices, s, st, q)
    ensures !st.done && Walk(devices, st.rom, st.last, []) == s[q]
    ensures LastZero(devices, s[q]) == 0 <==> q + 1 == |s|
  {
    if q == 0 {
      FirstCall(devices, s, st);
    } else {
      NextCall(devices, s, q - 1);
    }
    if q + 1 < |s| {
      NextCall(devices, s, q);
    } else {
      LastCall(devices, s);
    }
  }

  lemma StateStep(devices: set<Rom>, s: seq<Rom>, st: Search, q: nat)
    requires Listing(devices, s) && (forall r :: r in devices ==> !ZeroFamily(r))
    requires q <= |s| && StateAt(devices, s, st, q)
    ensures var (next, found) := Next(devices, st);
            && (found <==> q < |s|)
            && (found ==> next.rom == s[q])
            && StateAt(devices, s, next, if q < |s| then q + 1 else 0)
  {
    if q < |s| {
      assert s[q] in devices;
      FoundAt(devices, s, st, q);
    } else if s == [] {
      assert devices == {};
    }
  }

  /** `n % m`, counted up. */
  function Phase(n: nat, m: nat): nat {
    if n == 0 then 0
    else if Phase(n - 1, m) + 1 < m then Phase(n - 1, m) + 1 else 0
  }

  lemma {:induction false} PhaseIsMod(n: nat, m: nat)
    requires m > 0
    ensures Phase(n, m) == n % m
  {
    if n == 0 {
      assert 0 % m == 0 by { ModIs(0, 0, m, 0); }
    } else {
      PhaseIsMod(n - 1, m);
      var d := (n - 1) / m;
      assert n - 1 == d * m + (n - 1) % m;
      if (n - 1) % m + 1 < m {
        ModIs(n, d, m, (n - 1) % m + 1);
      } else {
        assert (d + 1) * m == d * m + m;
        ModIs(n, d + 1, m, 0);
      }
    }
  }

  lemma {:induction false} StateAfter(devices: set<Rom>, s: seq<Rom>, st: Search, n: nat)
    requires Listing(devices, s) && (forall r :: r in devices ==> !ZeroFamily(r)) && st.Fresh()
    ensures Phase(n, |s| + 1) <= |s|
    ensures StateAt(devices, s, After(devices, st, n), Phase(n, |s| + 1))
  {
    if n == 0 {
    } else {
      StateAfter(devices, s, st, n - 1);
      StateStep(devices, s, After(devices, st, n - 1), Phase(n - 1, |s| + 1));
    }
  }

  /** Over any number of calls from a reset: the devices come out in increasing
      order, each once, then one call reports none, and then it starts over. */
  lemma EnumeratesForever(devices: set<Rom>, s: seq<Rom>, st: Search, n: nat, r: Rom)
    requires Listing(devices, s) && (forall d :: d in devices ==> !ZeroFamily(d)) && st.Fresh()
    ensures var q := n % (|s| + 1);
            Reports(devices, st, n, r) <==> q < |s| && r == s[q]
  {
    StateAfter(devices, s, st, n);
    PhaseIsMod(n, |s| + 1);
    StateStep(devices, s, After(devices, st, n), Phase(n, |s| + 1));
  }

  // ----- devices whose first byte is zero -----

  lemma ZeroFamilyIsLeast(w: Rom, d: Rom)
    requires ZeroFamily(d) && Less(w, d)
    ensures ZeroFamily(w)
  {
    var k: nat :| DiffAt(w, d, k);
    assert k >= FAMILY_BITS;
    forall i | 0 <= i < FAMILY_BITS
      ensures !w[i]
    {
      assert w[i] == w[..k][i] == d[..k][i] == d[i];
    }
  }

  /** A fresh call reports a device exactly when there are devices and none of
      them has a zero first byte. */
  lemma FreshCallIff(devices: set<Rom>, st: Search)
    requires st.Fresh()
    ensures Next(devices, st).1 <==> devices != {} && forall d :: d in devices ==> !ZeroFamily(d)
  {
    if devices != {} {
      FirstIsLeast(devices, st.rom);
      var w := Walk(devices, st.rom, 0, []);
      if d :| d in devices && ZeroFamily(d) {
        if w != d {
          ZeroFamilyIsLeast(w, d);
        }
      }
    }
  }

  lemma {:induction false} NothingForever(devices: set<Rom>, st: Search, n: nat)
    requires st.Fresh() && exists d :: d in devices && ZeroFamily(d)
    ensures After(devices, st, n).Fresh() && !Next(devices, After(devices, st, n)).1
  {
    if n > 0 {
      NothingForever(devices, st, n - 1);
    }
    FreshCallIff(devices, After(devices, st, n));
  }

  lemma ReportedSoon(devices: set<Rom>, s: seq<Rom>, st: Search, d: Rom)
    requires Listing(devices, s) && (forall r :: r in devices ==> !ZeroFamily(r)) && st.Fresh()
    requires d in devices
    ensures exists n: nat :: Reports(devices, st, n, d)
  {
    var i :| 0 <= i < |s| && s[i] == d;
    EnumeratesForever(devices, s, st, i, d);
    assert Reports(devices, st, i, d) by { ModIs(i, 0, |s| + 1, i); }
  }

  /** Every device is reported sooner or later if and only if none has a zero
      first byte: such a device stops every search. */
  lemma AllReportedIff(devices: set<Rom>, st: Search)
    requires st.Fresh()
    ensures (forall d :: d in devices ==> exists n: nat :: Reports(devices, st, n, d))
       <==> (forall d :: d in devices ==> !ZeroFamily(d))
  {
    if d :| d in devices && ZeroFamily(d) {
      forall n: nat
        ensures !Reports(devices, st, n, d)
      {
        NothingForever(devices, st, n);
      }
    } else {
      ListingExists(devices);
      var s :| Listing(devices, s);
      forall d | d in devices
        ensures exists n: nat :: Reports(devices, st, n, d)
      {
        ReportedSoon(devices, s, st, d);
      }
    }
  }

  // ----- searching for a family -----

  predicate InFamily(r: Rom, family: seq<bool>) {
    |family| == FAMILY_BITS && r[..FAMILY_BITS] == family
  }

  /** The state that a targeted search starts from. */
  function Target(family: seq<bool>): Search
    requires |family| == FAMILY_BITS
  {
    Search(family + seq(ROM_BITS - FAMILY_BITS, _ => false), ROM_BITS, false)
  }

  /** As long as a device of the family takes part, the walk stays in the family. */
  lemma {:induction false} WalkStaysInFamily(devices: set<Rom>, family: seq<bool>, n: nat, d: Rom)
    requires |family| == FAMILY_BITS && n <= FAMILY_BITS
    requires d in devices && InFamily(d, family)
    ensures Walk(devices, Target(family).rom, ROM_BITS, [])
         == Walk(devices, Target(family).rom, ROM_BITS, family[..n])
  {
    if n == 0 {
      assert family[..0] == [];
    } else {
      WalkStaysInFamily(devices, family, n - 1, d);
      var path := family[..n - 1];
      var rom := Target(family).rom;
      assert d[..n - 1] == d[..FAMILY_BITS][..n - 1] == path;
      assert d[n - 1] == d[..FAMILY_BITS][n - 1] == family[n - 1] == rom[n - 1];
      assert d in Matching(devices, path);
      assert Direction(devices, rom, ROM_BITS, path) == family[n - 1];
      assert path + [family[n - 1]] == family[..n];
    }
  }

  /** After targeting a family code, the next call reports a device of that
      family if and only if there is one on the bus and the code is not zero. */
  lemma TargetFindsFamilyIff(devices: set<Rom>, family: seq<bool>)
    requires |family| == FAMILY_BITS
    ensures var (next, found) := Next(devices, Target(family));
            found && InFamily(next.rom, family)
            <==> (exists d :: d in devices && InFamily(d, family)) && exists i :: 0 <= i < FAMILY_BITS && family[i]
  {
    var rom := Target(family).rom;
    var w := Walk(devices, rom, ROM_BITS, []);
    AllMatchNothing(devices);
    if devices != {} {
      WalkFindsDevice(devices, rom, ROM_BITS, []);
    }
    if d :| d in devices && InFamily(d, family) {
      WalkStaysInFamily(devices, family, FAMILY_BITS, d);
      assert family[..FAMILY_BITS] == family;
      assert d in Matching(devices, family);
      WalkFindsDevice(devices, rom, ROM_BITS, family);
      assert forall i :: 0 <= i < FAMILY_BITS ==> w[i] == w[..FAMILY_BITS][i] == family[i];
    }
  }
}
