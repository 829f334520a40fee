/** The search of web/gpu-worker-d3d9-shader-cache.ts through an arbitrary object graph for the first
    object that parses as shader-cache counters (or as a translator version: the two walks differ only
    in the parser, which is the `parsed` of a node here).

    A heap maps object identities to nodes; children are array items or property values in order. */
module ObjectSearch {
  import opened Prelude

  type Id = nat

  datatype Value = Primitive | Ref(id: Id)

  datatype Node<R> = Node(children: seq<Value>, parsed: Option<R>)

  type Heap<R> = map<Id, Node<R>>

  /** Every reference leads to an object. */
  ghost predicate Closed<R>(h: Heap<R>) {
    forall x, v :: x in h && v in h[x].children && v.Ref? ==> v.id in h
  }

  predicate Valid<R>(h: Heap<R>, v: Value) {
    v.Ref? ==> v.id in h
  }

  // ---- The walk with the visited set ------------------------------------------------------------------

  function Walk<R>(h: Heap<R>, v: Value, seen: set<Id>): (r: (Option<R>, set<Id>))
    requires Closed(h) && Valid(h, v)
    ensures seen <= r.1
    decreases h.Keys - seen, 0
  {
    if v.Primitive? then (None, seen)
    else if h[v.id].parsed.Some? then (h[v.id].parsed, seen)
    else if v.id in seen then (None, seen)
    else WalkAll(h, h[v.id].children, seen + {v.id})
  }

  function WalkAll<R>(h: Heap<R>, vs: seq<Value>, seen: set<Id>): (r: (Option<R>, set<Id>))
    requires Closed(h) && forall v :: v in vs ==> Valid(h, v)
    ensures seen <= r.1
    decreases h.Keys - seen, |vs|
  {
    if vs == [] then (None, seen)
    else
      var (found, seen') := Walk(h, vs[0], seen);
      if found.Some? then (found, seen') else WalkAll(h, vs[1..], seen')
  }

  /** The closure over `seen`. */
  class Walker<R(!new)> {
    const heap: Heap<R>
    var seen: set<Id>

    constructor (heap: Heap<R>)
      requires Closed(heap)
      ensures this.heap == heap && seen == {}
    {
      this.heap := heap;
      seen := {};
    }

    method Visit(v: Value) returns (r: Option<R>)
      requires Closed(heap) && Valid(heap, v)
      modifies this
      ensures (r, seen) == Walk(heap, v, old(seen))
      decreases heap.Keys - seen
    {
      if v.Primitive? { return None; }
      var parsed := heap[v.id].parsed;
      if parsed.Some? { return parsed; }
      if v.id in seen { return None; }
      seen := seen + {v.id};
      var children := heap[v.id].children;
      ghost var whole := WalkAll(heap, children, seen);
      var i := 0;
      while i < |children|
        invariant 0 <= i <= |children| && old(seen) + {v.id} <= seen
        invariant WalkAll(heap, children[i..], seen) == whole
      {
        assert children[i] in children;
        assert children[i..][0] == children[i] && children[i..][1..] == children[i + 1..];
        var found := Visit(children[i]);
        if found.Some? { return found; }
        i := i + 1;
      }
      return None;
    }
  }

  method Find<R(!new)>(h: Heap<R>, root: Value) returns (r: Option<R>)
    requires Closed(h) && Valid(h, root)
    ensures r == Walk(h, root, {}).0
  {
    var walker := new Walker(h);
    r := walker.Visit(root);
  }

  // ---- Completeness -----------------------------------------------------------------------------------

  predicate Edge<R>(h: Heap<R>, a: Id, b: Id) {
    a in h && Ref(b) in h[a].children
  }

  ghost predicate IsPath<R>(h: Heap<R>, p: seq<Id>) {
    p != [] && forall i :: 0 <= i < |p| - 1 ==> Edge(h, p[i], p[i + 1])
  }

  ghost predicate PathFromTo<R>(h: Heap<R>, p: seq<Id>, a: Id, b: Id) {
    IsPath(h, p) && p[0] == a && p[|p| - 1] == b
  }

  ghost predicate Reachable<R>(h: Heap<R>, a: Id, b: Id) {
    exists p :: PathFromTo(h, p, a, b)
  }

  /** Nodes outside `path` do not parse, and all their children have been visited and do not parse. */
  ghost predicate Settled<R>(h: Heap<R>, seen: set<Id>, path: set<Id>) {
    && seen <= h.Keys
    && forall x :: x in seen && x !in path ==>
         h[x].parsed.None? && forall y :: Edge(h, x, y) ==> y in seen && y in h && h[y].parsed.None?
  }

  ghost predicate Visited<R>(h: Heap<R>, v: Value, seen: set<Id>) {
    v.Ref? ==> v.id in seen && v.id in h && h[v.id].parsed.None?
  }

  lemma {:induction false} WalkSettles<R>(h: Heap<R>, v: Value, seen: set<Id>, path: set<Id>)
    requires Closed(h) && Valid(h, v) && Settled(h, seen, path) && path <= seen
    ensures var (found, seen') := Walk(h, v, seen);
            found.None? ==> Settled(h, seen', path) && Visited(h, v, seen')
    decreases h.Keys - seen, 0
  {
    if v.Ref? && h[v.id].parsed.None? && v.id !in seen {
      var id := v.id;
      WalkAllSettles(h, h[id].children, seen + {id}, path + {id});
      var (found, seen') := Walk(h, v, seen);
      if found.None? {
        forall y | Edge(h, id, y) ensures y in seen' && y in h && h[y].parsed.None? {
          assert Visited(h, Ref(y), seen');
        }
      }
    }
  }

  lemma {:induction false} WalkAllSettles<R>(h: Heap<R>, vs: seq<Value>, seen: set<Id>, path: set<Id>)
    requires Closed(h) && (forall v :: v in vs ==> Valid(h, v)) && Settled(h, seen, path) && path <= seen
    ensures var (found, seen') := WalkAll(h, vs, seen);
            found.None? ==> Settled(h, seen', path) && forall v :: v in vs ==> Visited(h, v, seen')
    decreases h.Keys - seen, |vs|
  {
    if vs != [] {
      WalkSettles(h, vs[0], seen, path);
      var (found, seen') := Walk(h, vs[0], seen);
      if found.None? { WalkAllSettles(h, vs[1..], seen', path); }
    }
  }

  lemma {:induction false} SettledAlongPath<R>(h: Heap<R>, seen: set<Id>, p: seq<Id>)
    requires Settled(h, seen, {}) && IsPath(h, p) && p[0] in seen
    ensures p[|p| - 1] in seen
  {
    if |p| > 1 {
      assert Edge(h, p[0], p[1]);
      SettledAlongPath(h, seen, p[1..]);
    }
  }

  /** What is found was parsed from a reachable object. */
  lemma {:induction false} WalkFindsReachable<R>(h: Heap<R>, v: Value, seen: set<Id>) returns (p: seq<Id>)
    requires Closed(h) && Valid(h, v) && Walk(h, v, seen).0.Some?
    ensures v.Ref? && IsPath(h, p) && p[0] == v.id && p[|p| - 1] in h
    ensures h[p[|p| - 1]].parsed == Walk(h, v, seen).0
    decreases h.Keys - seen, 0
  {
    if h[v.id].parsed.Some? {
      p := [v.id];
    } else {
      var i;
      i, p := WalkAllFindsReachable(h, h[v.id].children, seen + {v.id});
      p := [v.id] + p;
    }
  }

  lemma {:induction false} WalkAllFindsReachable<R>(h: Heap<R>, vs: seq<Value>, seen: set<Id>)
    returns (i: nat, p: seq<Id>)
    requires Closed(h) && (forall v :: v in vs ==> Valid(h, v)) && WalkAll(h, vs, seen).0.Some?
    ensures i < |vs| && vs[i].Ref? && IsPath(h, p) && p[0] == vs[i].id && p[|p| - 1] in h
    ensures h[p[|p| - 1]].parsed == WalkAll(h, vs, seen).0
    decreases h.Keys - seen, |vs|
  {
    var (found, seen') := Walk(h, vs[0], seen);
    if found.Some? {
      i := 0;
      p := WalkFindsReachable(h, vs[0], seen);
    } else {
      i, p := WalkAllFindsReachable(h, vs[1..], seen');
      i := i + 1;
    }
  }

  /** On every finite graph, cyclic or not: null exactly when no reachable object parses, and otherwise
      what some reachable object parses to. */
  lemma FindIsComplete<R>(h: Heap<R>, root: Id)
    requires Closed(h) && root in h
    ensures var r := Walk(h, Ref(root), {}).0;
            && (r.None? <==> forall x :: x in h && Reachable(h, root, x) ==> h[x].parsed.None?)
            && (r.Some? ==> exists x :: x in h && Reachable(h, root, x) && h[x].parsed == r)
  {
    var (r, seen) := Walk(h, Ref(root), {});
    if r.None? {
      WalkSettles(h, Ref(root), {}, {});
      forall x | x in h && Reachable(h, root, x) ensures h[x].parsed.None? {
        var p :| PathFromTo(h, p, root, x);
        SettledAlongPath(h, seen, p);
      }
    } else {
      var p := WalkFindsReachable(h, Ref(root), {});
      assert PathFromTo(h, p, root, p[|p| - 1]);
    }
  }

  // ---- The same answer as simpler walks -----------------------------------------------------------------

  /** Depth-first search that gives up only on its own ancestors. */
  function Pruned<R>(h: Heap<R>, v: Value, path: set<Id>): Option<R>
    requires Closed(h) && Valid(h, v)
    decreases h.Keys - path, 0
  {
    if v.Primitive? then None
    else if h[v.id].parsed.Some? then h[v.id].parsed
    else if v.id in path then None
    else PrunedAll(h, h[v.id].children, path + {v.id})
  }

  function PrunedAll<R>(h: Heap<R>, vs: seq<Value>, path: set<Id>): Option<R>
    requires Closed(h) && forall v :: v in vs ==> Valid(h, v)
    decreases h.Keys - path, |vs|
  {
    if vs == [] then None
    else
      var found := Pruned(h, vs[0], path);
      if found.Some? then found else PrunedAll(h, vs[1..], path)
  }

  /** Nothing is left to find below a settled node. */
  lemma {:induction false} SettledIsBarren<R>(h: Heap<R>, v: Value, seen: set<Id>, path: set<Id>, deeper: set<Id>)
    requires Closed(h) && Valid(h, v) && Settled(h, seen, path) && path <= deeper && Visited(h, v, seen)
    ensures Pruned(h, v, deeper) == None
    decreases h.Keys - deeper, 0
  {
    if v.Ref? && v.id !in deeper {
      forall c | c in h[v.id].children ensures Visited(h, c, seen) {
        if c.Ref? { assert Edge(h, v.id, c.id); }
      }
      SettledAreBarren(h, h[v.id].children, seen, path, deeper + {v.id});
    }
  }

  lemma {:induction false} SettledAreBarren<R>(h: Heap<R>, vs: seq<Value>, seen: set<Id>, path: set<Id>,
                                               deeper: set<Id>)
    requires Closed(h) && Settled(h, seen, path) && path <= deeper
    requires forall v :: v in vs ==> Valid(h, v) && Visited(h, v, seen)
    ensures PrunedAll(h, vs, deeper) == None
    decreases h.Keys - deeper, |vs|
  {
    if vs != [] {
      SettledIsBarren(h, vs[0], seen, path, deeper);
      SettledAreBarren(h, vs[1..], seen, path, deeper);
    }
  }

  lemma {:induction false} WalkIsPruned<R>(h: Heap<R>, v: Value, seen: set<Id>, path: set<Id>)
    requires Closed(h) && Valid(h, v) && Settled(h, seen, path) && path <= seen
    ensures Walk(h, v, seen).0 == Pruned(h, v, path)
    decreases h.Keys - seen, 0
  {
    if v.Ref? && h[v.id].parsed.None? {
      if v.id in seen {
        if v.id !in path { SettledIsBarren(h, v, seen, path, path); }
      } else {
        WalkAllIsPruned(h, h[v.id].children, seen + {v.id}, path + {v.id});
      }
    }
  }

  lemma {:induction false} WalkAllIsPruned<R>(h: Heap<R>, vs: seq<Value>, seen: set<Id>, path: set<Id>)
    requires Closed(h) && (forall v :: v in vs ==> Valid(h, v)) && Settled(h, seen, path) && path <= seen
    ensures WalkAll(h, vs, seen).0 == PrunedAll(h, vs, path)
    decreases h.Keys - seen, |vs|
  {
    if vs != [] {
      WalkIsPruned(h, vs[0], seen, path);
      WalkSettles(h, vs[0], seen, path);
      var (found, seen') := Walk(h, vs[0], seen);
      if found.None? { WalkAllIsPruned(h, vs[1..], seen', path); }
    }
  }

  /** Some non-empty path. */
  ghost predicate Leads<R>(h: Heap<R>, a: Id, b: Id) {
    exists p :: |p| > 1 && PathFromTo(h, p, a, b)
  }

  ghost predicate Acyclic<R>(h: Heap<R>) {
    forall x :: x in h ==> !Leads(h, x, x)
  }

  /** `v` is below everything on `path`. */
  ghost predicate Below<R>(h: Heap<R>, path: set<Id>, v: Value) {
    v.Ref? ==> forall a :: a in path ==> Leads(h, a, v.id)
  }

  lemma ChildIsBelow<R>(h: Heap<R>, path: set<Id>, id: Id, child: Value)
    requires id in h && Below(h, path, Ref(id)) && child in h[id].children
    ensures Below(h, path + {id}, child)
  {
    if child.Ref? {
      assert Edge(h, id, child.id);
      forall a | a in path + {id} ensures Leads(h, a, child.id) {
        if a in path {
          assert Leads(h, a, Ref(id).id);
          var p :| |p| > 1 && PathFromTo(h, p, a, id);
          assert PathFromTo(h, p + [child.id], a, child.id);
        } else {
          assert PathFromTo(h, [id, child.id], id, child.id);
        }
      }
    }
  }

  /** The walk without any visited set, which an acyclic graph lets terminate. */
  function Plain<R>(h: Heap<R>, v: Value, ghost path: set<Id>): Option<R>
    requires Closed(h) && Valid(h, v) && Acyclic(h) && Below(h, path, v) && path <= h.Keys
    decreases h.Keys - path, 0
  {
    if v.Primitive? then None
    else if h[v.id].parsed.Some? then h[v.id].parsed
    else
      assert v.id !in path;
      assert forall c :: c in h[v.id].children ==> Below(h, path + {v.id}, c) by {
        forall c | c in h[v.id].children ensures Below(h, path + {v.id}, c) { ChildIsBelow(h, path, v.id, c); }
      }
      PlainAll(h, h[v.id].children, path + {v.id})
  }

  function PlainAll<R>(h: Heap<R>, vs: seq<Value>, ghost path: set<Id>): Option<R>
    requires Closed(h) && Acyclic(h) && path <= h.Keys
    requires forall v :: v in vs ==> Valid(h, v) && Below(h, path, v)
    decreases h.Keys - path, |vs|
  {
    if vs == [] then None
    else
      var found := Plain(h, vs[0], path);
      if found.Some? then found else PlainAll(h, vs[1..], path)
  }

  lemma {:induction false} PlainIsPruned<R>(h: Heap<R>, v: Value, path: set<Id>)
    requires Closed(h) && Valid(h, v) && Acyclic(h) && Below(h, path, v) && path <= h.Keys
    ensures Plain(h, v, path) == Pruned(h, v, path)
    decreases h.Keys - path, 0
  {
    if v.Ref? && h[v.id].parsed.None? {
      forall c | c in h[v.id].children ensures Below(h, path + {v.id}, c) { ChildIsBelow(h, path, v.id, c); }
      PlainAllIsPruned(h, h[v.id].children, path + {v.id});
    }
  }

  lemma {:induction false} PlainAllIsPruned<R>(h: Heap<R>, vs: seq<Value>, path: set<Id>)
    requires Closed(h) && Acyclic(h) && path <= h.Keys
    requires forall v :: v in vs ==> Valid(h, v) && Below(h, path, v)
    ensures PlainAll(h, vs, path) == PrunedAll(h, vs, path)
    decreases h.Keys - path, |vs|
  {
    if vs != [] {
      PlainIsPruned(h, vs[0], path);
      PlainAllIsPruned(h, vs[1..], path);
    }
  }

  /** On every graph the visited set never changes the answer of the depth-first search that stops only
      at ancestors; on acyclic graphs that is the search without any check. */
  lemma VisitedSetIsHarmless<R>(h: Heap<R>, root: Value)
    requires Closed(h) && Valid(h, root)
    ensures Walk(h, root, {}).0 == Pruned(h, root, {})
    ensures Acyclic(h) ==> Walk(h, root, {}).0 == Plain(h, root, {})
  {
    WalkIsPruned(h, root, {}, {});
    if Acyclic(h) { PlainIsPruned(h, root, {}); }
  }
}
