/** Singly linked tail queues: a head holds the first element and the address of
    the last link, which is the head's own link when the queue is empty. */
module TailQueue {

  class Node {
    var next: Node?

    constructor ()
    {
      next := null;
    }
  }

  /** The address of a link: the first link of a head or the next link of an
      element. */
  datatype Link = FirstOf(head: Head) | NextOf(node: Node)

  // ----- chains of elements -----

  /** No element is there twice. */
  ghost predicate Distinct(s: seq<Node>) {
    s == [] || (s[|s| - 1] !in s[..|s| - 1] && Distinct(s[..|s| - 1]))
  }

  /** Each element links to the one after it, and the last one to `end`. */
  ghost predicate Chained(s: seq<Node>, end: Node?)
    reads s
  {
    s == [] || (s[|s| - 1].next == end && Chained(s[..|s| - 1], s[|s| - 1]))
  }

  ghost function Start(s: seq<Node>, end: Node?): Node? {
    if s == [] then end else s[0]
  }

  lemma {:induction false} ChainedAppend(s: seq<Node>, t: seq<Node>, end: Node?)
    ensures Chained(s + t, end) <==> Chained(s, Start(t, end)) && Chained(t, end)
  {
    if t == [] {
      assert s + t == s;
    } else {
      var t' := t[..|t| - 1];
      assert (s + t)[..|s + t| - 1] == s + t';
      ChainedAppend(s, t', t[|t| - 1]);
    }
  }

  lemma {:induction false} DistinctAppend(s: seq<Node>, t: seq<Node>, n: Node)
    requires Distinct(s + t)
    ensures Distinct(s) && Distinct(t) && !(n in s && n in t)
  {
    if t == [] {
      assert s + t == s;
    } else {
      assert (s + t)[..|s + t| - 1] == s + t[..|t| - 1];
      DistinctAppend(s, t[..|t| - 1], n);
      assert t == t[..|t| - 1] + [t[|t| - 1]];
    }
  }

  lemma {:induction false} DistinctWithout(s: seq<Node>, n: Node, t: seq<Node>)
    ensures Distinct(s + [n] + t) <==> Distinct(s + t) && n !in s && n !in t
  {
    if t == [] {
      assert s + [n] + t == s + [n] && s + t == s;
    } else {
      var last, t' := t[|t| - 1], t[..|t| - 1];
      assert (s + [n] + t)[..|s + [n] + t| - 1] == s + [n] + t' && (s + t)[..|s + t| - 1] == s + t';
      DistinctWithout(s, n, t');
      assert t == t' + [last];
      assert last in s + [n] + t' <==> last in s + t' || last == n;
    }
  }

  lemma OneMore(s: seq<Node>, n: Node)
    requires Chained(s, n) && n.next == null && Distinct(s) && n !in s
    ensures Chained(s + [n], null) && Distinct(s + [n])
  {
    assert (s + [n])[..|s|] == s;
  }

  /** The link of element `i`. */
  lemma LinkAt(s: seq<Node>, i: nat, end: Node?)
    requires i < |s| && Chained(s, end)
    ensures s[i].next == if i + 1 < |s| then s[i + 1] else end
  {
    assert s == s[..i + 1] + s[i + 1..];
    ChainedAppend(s[..i + 1], s[i + 1..], end);
  }

  /** Another successor for the last element of a chain; elements `t` elsewhere
      stay linked. */
  method Relink(n: Node, next: Node?, ghost s: seq<Node>, ghost t: seq<Node>)
    requires s != [] && s[|s| - 1] == n && Distinct(s + t) && Chained(s, n.next) && Chained(t, null)
    modifies n
    ensures n.next == next && Chained(s, next) && Chained(t, null)
  {
    DistinctAppend(s, t, n);
    n.next := next;
  }

  // ----- the queue -----

  /** The queue of `h` consists of the elements `s`. */
  ghost predicate Holds(h: Head, s: seq<Node>)
    reads h, s
  {
    && Distinct(s) && Chained(s, null) && h.first == Start(s, null)
    && h.last == if s == [] then FirstOf(h) else NextOf(s[|s| - 1])
  }

  class Head {
    var first: Node?
    var last: Link
    ghost var elements: seq<Node>

    ghost predicate Valid()
      reads this, elements
    {
      Holds(this, elements)
    }

    constructor ()
      ensures Valid() && elements == []
    {
      first, elements := null, [];
      last := FirstOf(this);
    }

    method Init()
      modifies this
      ensures Valid() && elements == []
    {
      first := null;
      last := FirstOf(this);
      elements := [];
    }

    method Empty() returns (b: bool)
      requires Valid()
      ensures b <==> elements == []
    {
      b := first == null;
    }

    /** The element that the last link belongs to. */
    method Last() returns (n: Node?)
      requires Valid()
      ensures n == if elements == [] then null else elements[|elements| - 1]
    {
      n := if first == null then null else last.node;
    }

    method InsertHead(elm: Node)
      requires Valid() && elm !in elements
      modifies this, elm
      ensures Valid() && elements == [elm] + old(elements)
    {
      elm.next := first;
      if elm.next == null {
        last := NextOf(elm);
      }
      first := elm;
      ChainedAppend([elm], elements, null);
      DistinctWithout([], elm, elements);
      assert [] + [elm] + elements == [elm] + elements && [] + elements == elements;
      elements := [elm] + elements;
    }

    /** An assignment through the last link; elements `t` elsewhere stay linked. */
    method LinkLast(n: Node, ghost t: seq<Node>)
      requires Valid() && Chained(t, null) && Distinct(elements + t)
      modifies this`first, elements
      ensures Chained(elements, n) && first == Start(elements, n) && Chained(t, null)
      ensures n !in elements ==> n.next == old(n.next)
    {
      match last {
        case FirstOf(h) =>
          assert h == this && elements == [];
          h.first := n;
        case NextOf(m) =>
          assert elements != [];
          Relink(m, n, elements, t);
      }
    }

    method InsertTail(elm: Node)
      requires Valid() && elm !in elements
      modifies this, elm, elements
      ensures Valid() && elements == old(elements) + [elm]
    {
      elm.next := null;
      ghost var s := elements;
      assert s + [] == s;
      LinkLast(elm, []);
      last := NextOf(elm);
      OneMore(s, elm);
      elements := s + [elm];
    }

    method InsertAfter(at: Node, elm: Node, ghost k: nat)
      requires Valid() && elm !in elements && k < |elements| && elements[k] == at
      modifies this, at, elm
      ensures Valid() && elements == old(elements[..k + 1] + [elm] + elements[k + 1..])
    {
      ghost var a, b := elements[..k + 1], elements[k + 1..];
      assert elements == a + b;
      ChainedAppend(a, b, null);
      DistinctWithout(a, elm, b);
      elm.next := at.next;
      if elm.next == null {
        last := NextOf(elm);
      }
      Relink(at, elm, a, b);
      ChainedAppend(a, [elm], Start(b, null));
      ChainedAppend(a + [elm], b, null);
      elements := a + [elm] + b;
    }

    method RemoveHead()
      requires Valid() && elements != []
      modifies this
      ensures Valid() && elements == old(elements[1..])
    {
      ghost var rest := elements[1..];
      assert elements == [first] + rest;
      ChainedAppend([first], rest, null);
      DistinctAppend([first], rest, first);
      first := first.next;
      if first == null {
        last := FirstOf(this);
      }
      elements := rest;
    }

    method RemoveAfter(at: Node, ghost k: nat)
      requires Valid() && k + 1 < |elements| && elements[k] == at
      modifies this, at
      ensures Valid() && elements == old(elements[..k + 1] + elements[k + 2..])
    {
      ghost var a, n, b := elements[..k + 1], elements[k + 1], elements[k + 2..];
      assert elements == a + [n] + b;
      ChainedAppend(a + [n], b, null);
      ChainedAppend(a, [n], Start(b, null));
      DistinctWithout(a, n, b);
      Relink(at, at.next.next, a, b);
      if at.next == null {
        last := NextOf(at);
      }
      ChainedAppend(a, b, null);
      elements := a + b;
    }

    method Remove(elm: Node)
      requires Valid() && elm in elements
      modifies this, elements
      ensures Valid() && elements == Without(old(elements), elm)
    {
      if first == elm {
        RemoveHead();
      } else {
        var cur := first;
        ghost var k := 0;
        LinkAt(elements, k, null);
        while cur.next != elm
          invariant Valid() && elements == old(elements)
          invariant k + 1 < |elements| && cur == elements[k] && cur.next == elements[k + 1]
          invariant elm in elements[k + 1..]
          decreases |elements| - k
        {
          assert elements[k + 1..] == [elements[k + 1]] + elements[k + 2..];
          cur := cur.next;
          k := k + 1;
          LinkAt(elements, k, null);
        }
        WithoutAt(elements, k + 1);
        RemoveAfter(cur, k);
      }
    }

    /** Appends the elements of another queue, which is empty afterwards. */
    method Concat(other: Head)
      requires Valid() && other.Valid() && this != other && Distinct(elements + other.elements)
      modifies this, other, elements
      ensures Valid() && elements == old(elements + other.elements)
      ensures other.Valid() && other.elements == []
    {
      if other.first != null {
        ghost var s, t := elements, other.elements;
        LinkLast(other.first, t);
        ChainedAppend(s, t, null);
        last := other.last;
        elements := s + t;
        other.Init();
      } else {
        assert elements + other.elements == elements;
      }
    }

    /** Exchanges the elements of two queues. */
    method Swap(other: Head)
      requires Valid() && other.Valid()
      modifies this, other
      ensures Valid() && elements == old(other.elements)
      ensures other.Valid() && other.elements == old(elements)
    {
      var swapFirst, swapLast := first, last;
      ghost var swapElements := elements;
      first, last, elements := other.first, other.last, other.elements;
      other.first, other.last, other.elements := swapFirst, swapLast, swapElements;
      if first == null {
        last := FirstOf(this);
      }
      if other.first == null {
        other.last := FirstOf(other);
      }
    }

    /** Puts a chain of linked elements in front. */
    method InsertChainHead(chead: Node, ctail: Node, ghost chain: seq<Node>)
      requires Valid() && chain != [] && chead == chain[0] && ctail == chain[|chain| - 1]
      requires Chained(chain, ctail.next) && Distinct(chain + elements)
      modifies this, ctail
      ensures Valid() && elements == chain + old(elements)
    {
      Relink(ctail, first, chain, elements);
      if ctail.next == null {
        last := NextOf(ctail);
      }
      first := chead;
      ChainedAppend(chain, elements, null);
      elements := chain + elements;
    }

    /** Visits the elements from the first link on. */
    method Foreach() returns (visited: seq<Node>)
      requires Valid()
      ensures visited == elements
    {
      visited := [];
      var n := first;
      while n != null
        invariant visited <= elements && n == Start(elements[|visited|..], null)
        decreases |elements| - |visited|
      {
        LinkAt(elements, |visited|, null);
        visited := visited + [n];
        n := n.next;
      }
    }
  }

  /** A sequence without the first occurrence of an element. */
  ghost function Without(s: seq<Node>, n: Node): seq<Node> {
    if s == [] then [] else if s[0] == n then s[1..] else [s[0]] + Without(s[1..], n)
  }

  lemma {:induction false} WithoutAt(s: seq<Node>, k: nat)
    requires k < |s| && Distinct(s)
    ensures Without(s, s[k]) == s[..k] + s[k + 1..]
  {
    if k == 0 {
    } else {
      assert s == [s[0]] + s[1..];
      DistinctAppend([s[0]], s[1..], s[0]);
      assert s[1..][k - 1] == s[k] && s[k] in s[1..];
      WithoutAt(s[1..], k - 1);
      AroundElement(s, k);
    }
  }

  lemma AroundElement(s: seq<Node>, k: nat)
    requires 0 < k < |s|
    ensures [s[0]] + (s[1..][..k - 1] + s[1..][k..]) == s[..k] + s[k + 1..]
  {
  }

  /** The links determine the elements. */
  lemma OneContents(h: Head, s: seq<Node>, t: seq<Node>)
    requires Holds(h, s) && Holds(h, t)
    ensures s == t
  {
    SameFrom(s, t, 0);
  }

  lemma {:induction false} SameFrom(s: seq<Node>, t: seq<Node>, i: nat)
    requires Chained(s, null) && Chained(t, null) && i <= |s| && i <= |t|
    requires Start(s[i..], null) == Start(t[i..], null) && s[..i] == t[..i]
    ensures s == t
    decreases |s| - i
  {
    if i < |s| {
      assert i < |t|;
      assert s[..i + 1] == s[..i] + [s[i]] && t[..i + 1] == t[..i] + [t[i]];
      LinkAt(s, i, null);
      LinkAt(t, i, null);
      SameFrom(s, t, i + 1);
    } else {
      assert s == s[..i] && t == t[..i];
    }
  }

  /** No element links back: from element `i` on, the links come to the end of
      the queue after exactly the remaining elements. */
  lemma {:induction false} Acyclic(s: seq<Node>, i: nat)
    requires Chained(s, null) && i < |s|
    ensures Steps(s[i], s, |s| - i) == null
    ensures forall k :: 0 <= k < |s| - i ==> Steps(s[i], s, k) == s[i + k]
    decreases |s| - i
  {
    LinkAt(s, i, null);
    if i + 1 < |s| {
      Acyclic(s, i + 1);
    }
  }

  /** Where `k` links lead to within the elements `s`. */
  ghost function Steps(n: Node?, s: seq<Node>, k: nat): Node?
    reads s
  {
    if k == 0 || n !in s then n else Steps(n.next, s, k - 1)
  }
}
