/** The tree walker: successive calls visit the nodes below the root, and an
    update calls the set hooks of the callbacks among them. */
module JsonWalker {
  import opened JsonTree
  import opened JsonPrinter
  import opened Sequences

  /** Nodes still to be visited. */
  datatype Nodes = Done | Node(head: Json, next: Nodes)

  function List(nodes: Nodes): seq<Json> {
    match nodes
    case Done => []
    case Node(v, n) => [v] + List(n)
  }

  /** The nodes below `v`, from item `i` on, each before the nodes below it. */
  function Preorder(v: Json, i: nat): seq<Json>
    requires v.Container() ==> i <= |v.items|
    decreases v, if v.Container() then |v.items| - i else 0
  {
    if v.Container() && i < |v.items|
    then [v.items[i].value] + (Preorder(v.items[i].value, 0) + Preorder(v, i + 1))
    else []
  }

  /** The same nodes as a list, and then `rest`. */
  function Visit(v: Json, i: nat, rest: Nodes): Nodes
    requires v.Container() ==> i <= |v.items|
    decreases v, if v.Container() then |v.items| - i else 0
  {
    if v.Container() && i < |v.items|
    then Node(v.items[i].value, Visit(v.items[i].value, 0, Visit(v, i + 1, rest)))
    else rest
  }

  lemma {:induction false} VisitIsPreorder(v: Json, i: nat, rest: Nodes)
    requires v.Container() ==> i <= |v.items|
    ensures List(Visit(v, i, rest)) == Preorder(v, i) + List(rest)
    decreases v, if v.Container() then |v.items| - i else 0
  {
    if v.Container() && i < |v.items| {
      VisitIsPreorder(v.items[i].value, 0, Visit(v, i + 1, rest));
      VisitIsPreorder(v, i + 1, rest);
      var child, below, others := [v.items[i].value], Preorder(v.items[i].value, 0), Preorder(v, i + 1);
      Assoc(child, below + others, List(rest));
      Assoc(below, others, List(rest));
    }
  }

  /** The nodes to be visited once value `k` is done. */
  ghost function After(vals: seq<Json>, idx: seq<nat>, k: nat): Nodes
    requires Linked(vals, idx, 0, k)
  {
    if k == 0 then Done else Visit(vals[k - 1], idx[k - 1] + 1, After(vals, idx, k - 1))
  }

  lemma {:induction false} AfterDependsBelow(vals: seq<Json>, idx: seq<nat>, vals': seq<Json>, idx': seq<nat>, k: nat)
    requires Linked(vals, idx, 0, k) && Linked(vals', idx', 0, k)
    requires forall j :: 0 <= j < k ==> vals'[j] == vals[j] && idx'[j] == idx[j]
    ensures After(vals', idx', k) == After(vals, idx, k)
  {
    if k == 0 {
    } else {
      AfterDependsBelow(vals, idx, vals', idx', k - 1);
    }
  }

  lemma IntoChild(vals: seq<Json>, idx: seq<nat>, k: nat, child: Json)
    requires Linked(vals, idx, 0, k) && k + 1 < |vals| == JSONTREE_MAX_DEPTH && Sized(vals, 0, k)
    requires vals[k].Container() && idx[k] < |vals[k].items| && child == vals[k].items[idx[k]].value
    ensures var vals', idx' := vals[k + 1 := child], idx[k + 1 := 0];
            && Linked(vals', idx', 0, k + 1) && Sized(vals', 0, k + 1)
            && After(vals', idx', k + 1) == Visit(vals[k], idx[k] + 1, After(vals, idx, k))
  {
    var vals', idx' := vals[k + 1 := child], idx[k + 1 := 0];
    OneLevelDown(vals, idx, 0, k, child);
    AfterDependsBelow(vals, idx, vals', idx', k);
    AfterStep(vals', idx', k);
  }

  lemma AfterStep(vals: seq<Json>, idx: seq<nat>, k: nat)
    requires Linked(vals, idx, 0, k + 1) && Linked(vals, idx, 0, k)
    ensures After(vals, idx, k + 1) == Visit(vals[k], idx[k] + 1, After(vals, idx, k))
  {
  }

  ghost function Pending(json: Context): Nodes
    requires json.Valid() && json.path == 0
    reads json, json.values, json.index
  {
    Visit(json.values[json.depth], json.index[json.depth], After(json.values[..], json.index[..], json.depth))
  }

  ghost predicate Walking(json: Context)
    reads json, json.values, json.index
  {
    json.Valid() && json.path == 0
  }

  /** The node reached, and those after it. */
  function At(v: Option<Json>, after: Nodes): Nodes {
    if v.Some? then Node(v.value, after) else Done
  }

  /** The next node to be visited, if there is one. */
  method FindNext(json: Context) returns (v: Option<Json>)
    requires Walking(json)
    modifies json`depth, json.values, json.index
    ensures Walking(json)
    ensures At(v, Pending(json)) == old(Pending(json))
    ensures if v.Some? then json.depth > 0 else Pending(json) == Done
  {
    while true
      invariant Walking(json) && Pending(json) == old(Pending(json))
      decreases json.depth
    {
      var top := json.values[json.depth];
      if top.Container() && json.index[json.depth] < |top.items| {
        v := Some(top.items[json.index[json.depth]].value);
        StepInto(json);
        return;
      }
      if json.depth == 0 {
        return None;
      }
      StepOut(json);
    }
  }

  /** Goes down to the current item of the current container. */
  method StepInto(json: Context)
    requires Walking(json) && Pending(json).Node?
    requires json.values[json.depth].Container() && json.index[json.depth] < |json.values[json.depth].items|
    modifies json`depth, json.values, json.index
    ensures Walking(json) && json.depth > 0 && Pending(json) == old(Pending(json)).next
  {
    ghost var vals, idx := json.values[..], json.index[..];
    var child := json.values[json.depth].items[json.index[json.depth]].value;
    RoomBelow(vals, 0, json.depth, json.index[json.depth]);
    json.depth := json.depth + 1;
    json.index[json.depth] := 0;
    json.values[json.depth] := child;
    assert json.values[..] == vals[json.depth := child] && json.index[..] == idx[json.depth := 0];
    IntoChild(vals, idx, json.depth - 1, child);
  }

  /** Leaves a value that has nothing more to be visited below it. */
  method StepOut(json: Context)
    requires Walking(json) && json.depth > 0
    requires !json.values[json.depth].Container() || json.index[json.depth] == |json.values[json.depth].items|
    modifies json`depth, json.index
    ensures Walking(json) && json.depth == old(json.depth) - 1 && Pending(json) == old(Pending(json))
  {
    ghost var vals, idx := json.values[..], json.index[..];
    json.depth := json.depth - 1;
    json.index[json.depth] := json.index[json.depth] + 1;
    assert vals == json.values[..] && json.index[..] == idx[json.depth := idx[json.depth] + 1];
    AfterDependsBelow(vals, idx, json.values[..], json.index[..], json.depth);
  }

  /** The nodes from the first one of a type on. */
  function From(nodes: Nodes, code: char): (r: Nodes)
    ensures |List(r)| <= |List(nodes)|
    ensures r.Node? ==> r.head.Type() == code
  {
    if nodes == Done || nodes.head.Type() == code then nodes else From(nodes.next, code)
  }

  /** The next node of a type, if there is one. */
  method FindNextOfType(json: Context, code: char) returns (v: Option<Json>)
    requires Walking(json)
    modifies json`depth, json.values, json.index
    ensures Walking(json) && (v == None ==> Pending(json) == Done)
    ensures At(v, Pending(json)) == From(old(Pending(json)), code)
  {
    v := FindNext(json);
    while v.Some? && v.value.Type() != code && json.path < json.depth
      invariant Walking(json) && (v.Some? ==> json.depth > 0) && (v == None ==> Pending(json) == Done)
      invariant From(old(Pending(json)), code) == From(At(v, Pending(json)), code)
      decreases v.Some?, Pending(json)
    {
      v := FindNext(json);
    }
    v := if json.path < json.depth then v else None;
  }

  // ----- updates -----

  /** The callbacks among the nodes, in order. */
  function Callbacks(nodes: seq<Json>): seq<nat> {
    if nodes == [] then []
    else (if nodes[0].Callback? then [nodes[0].id] else []) + Callbacks(nodes[1..])
  }

  /** Callback `k` begins a run of equal callbacks. */
  predicate Begins(ids: seq<nat>, k: nat)
    requires k < |ids|
  {
    k > 0 ==> ids[k - 1] != ids[k]
  }

  /** The hooks called for the first `n` callbacks: one for each run of equal
      callbacks that have a hook. */
  function SetCalls(ids: seq<nat>, hooks: set<nat>, n: nat): seq<nat>
    requires n <= |ids|
  {
    if n == 0 then []
    else if Begins(ids, n - 1) && ids[n - 1] in hooks then SetCalls(ids, hooks, n - 1) + [ids[n - 1]]
    else SetCalls(ids, hooks, n - 1)
  }

  /** The call for a callback that begins a run comes right behind the calls for those
      before it. */
  lemma {:induction false} CalledInOrder(ids: seq<nat>, hooks: set<nat>, n: nat, k: nat)
    requires k < n <= |ids| && Begins(ids, k) && ids[k] in hooks
    ensures SetCalls(ids, hooks, k) + [ids[k]] <= SetCalls(ids, hooks, n)
    decreases n
  {
    if k < n - 1 {
      CalledInOrder(ids, hooks, n - 1, k);
    }
  }

  lemma {:induction false} CallbacksFrom(nodes: Nodes)
    ensures Callbacks(List(nodes)) == Callbacks(List(From(nodes, 'C')))
  {
    if nodes.Node? && nodes.head.Type() != 'C' {
      assert List(nodes)[1..] == List(nodes.next);
      CallbacksFrom(nodes.next);
    }
  }

  lemma NextCallback(v: Json, after: Nodes, ids: seq<nat>, n: nat)
    requires v.Callback? && n <= |ids| && Callbacks(List(Node(v, after))) == ids[n..]
    ensures n < |ids| && ids[n] == v.id && Callbacks(List(From(after, 'C'))) == ids[n + 1..]
  {
    assert List(Node(v, after))[1..] == List(after);
    CallbacksFrom(after);
    assert ids[n..][1..] == ids[n + 1..];
  }

  /** Calls the set hook of each callback that has one (`hooks` holds those),
      except when the same callback was visited just before. */
  method JsonParse(json: Context, hooks: set<nat>) returns (calls: seq<nat>)
    requires Walking(json)
    modifies json`depth, json.values, json.index
    ensures Walking(json) && Pending(json) == Done
    ensures var ids := Callbacks(List(old(Pending(json)))); calls == SetCalls(ids, hooks, |ids|)
  {
    ghost var ids, n := Callbacks(List(Pending(json))), 0;
    CallbacksFrom(Pending(json));
    assert ids[0..] == ids;
    var v := FindNextOfType(json, 'C');
    ghost var after := Pending(json);
    var last: Option<nat> := None;
    calls := [];
    while v.Some?
      invariant Walking(json) && after == Pending(json) && Ahead(v, after, ids, n)
      invariant last == if n == 0 then None else Some(ids[n - 1])
      invariant calls == SetCalls(ids, hooks, n)
      decreases |List(At(v, after))|
    {
      Passed(v.value, after, ids, n);
      last, calls := Called(v.value.id, last, calls, hooks, ids, n);
      v := FindNextOfType(json, 'C');
      after, n := Pending(json), n + 1;
    }
  }

  /** The callback at hand and those behind it are callback number `n` and those
      after it. */
  predicate Ahead(v: Option<Json>, after: Nodes, ids: seq<nat>, n: nat) {
    && n <= |ids| && (if v.Some? then v.value.Callback? else after == Done)
    && Callbacks(List(At(v, after))) == ids[n..]
  }

  lemma Passed(v: Json, after: Nodes, ids: seq<nat>, n: nat)
    requires Ahead(Some(v), after, ids, n)
    ensures n < |ids| && ids[n] == v.id
    ensures forall w, rest {:trigger At(w, rest)} ::
              At(w, rest) == From(after, 'C') && (w == None ==> rest == Done) ==>
                Ahead(w, rest, ids, n + 1) && |List(At(w, rest))| < |List(At(Some(v), after))|
  {
    NextCallback(v, after, ids, n);
  }

  method Called(c: nat, last: Option<nat>, calls: seq<nat>, hooks: set<nat>, ghost ids: seq<nat>, ghost n: nat)
    returns (last': Option<nat>, calls': seq<nat>)
    requires n < |ids| && ids[n] == c
    requires last == if n == 0 then None else Some(ids[n - 1])
    requires calls == SetCalls(ids, hooks, n)
    ensures last' == Some(ids[n]) && calls' == SetCalls(ids, hooks, n + 1)
  {
    last', calls' := last, calls;
    if last != Some(c) {
      last' := Some(c);
      if c in hooks {
        calls' := calls + [c];
      }
    }
  }

  /** A context at the root has the whole tree before it. */
  lemma WholeTree(json: Context)
    requires Walking(json) && json.depth == 0 && json.index[0] == 0
    ensures List(Pending(json)) == Preorder(json.values[0], 0)
  {
    VisitIsPreorder(json.values[0], 0, Done);
  }

  /** There are as many calls as runs of equal callbacks with a hook. */
  lemma {:induction false} CallsAreRuns(ids: seq<nat>, hooks: set<nat>, n: nat)
    requires n <= |ids|
    ensures |SetCalls(ids, hooks, n)| == |Runs(ids, hooks, n)|
  {
    if n == 0 {
    } else {
      CallsAreRuns(ids, hooks, n - 1);
      if Begins(ids, n - 1) && ids[n - 1] in hooks {
        assert Runs(ids, hooks, n) == Runs(ids, hooks, n - 1) + {n - 1};
      } else {
        assert Runs(ids, hooks, n) == Runs(ids, hooks, n - 1);
      }
    }
  }

  /** A hook is called if and only if its callback is there. */
  lemma {:induction false} CalledIff(ids: seq<nat>, hooks: set<nat>, n: nat, id: nat)
    requires n <= |ids|
    ensures id in SetCalls(ids, hooks, n) <==> id in hooks && exists k :: 0 <= k < n && ids[k] == id
  {
    if n == 0 {
    } else {
      CalledIff(ids, hooks, n - 1, id);
      if id == ids[n - 1] && !Begins(ids, n - 1) {
        assert ids[n - 2] == id;
      }
    }
  }

  /** Where the runs of callbacks with a hook begin among the first `n`. */
  function Runs(ids: seq<nat>, hooks: set<nat>, n: nat): set<nat>
    requires n <= |ids|
  {
    set k | 0 <= k < n && Begins(ids, k) && ids[k] in hooks
  }
}
