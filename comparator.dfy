/** The comparison of two trees, `pyDtsTool/comparator.py`: the paths
    only one tree has, and a nested report of what differs between the
    roots, their descendants paired by path name, and the ref nodes
    paired by ref text. */
module Comparing {
  import opened Wrappers
  import opened Properties
  import opened Signatures
  import opened Nodes
  import opened Trees
  import opened Registry
  import opened Merging
  import opened DeviceTrees
  import D = ODicts

  /** One side of a difference: a property value, `*missing` or
      `*present`. */
  datatype Side = Val(v: PValue) | Missing | Present

  /** A difference: `{1: …, 2: …}`, a node's report keyed by property name
      (with `nodes` for its children), or the `nodes` report keyed by
      path name. */
  datatype Diff =
    | Pair(one: Side, two: Side)
    | Nested(entries: D.ODict<string, Diff>)
    | Children(nodes: D.ODict<Option<string>, Diff>)

  /** Python `==` on property values: the bool property reports `True`,
      which equals the integer 1. */
  predicate Same(a: PValue, b: PValue) {
    a == b || (a.PBool? && b == PInt(1)) || (a == PInt(1) && b.PBool?)
  }

  // ----- properties -----

  /** The first property loop from property i on. Property names are
      unique in a node, so the first property of a name is the one
      `Lookup` finds. */
  function PropsLeft(p1: seq<Property>, p2: seq<Property>, i: nat, acc: D.ODict<string, Diff>): D.ODict<string, Diff>
    requires i <= |p1|
    decreases |p1| - i
  {
    if i == |p1| then acc
    else
      var p := p1[i];
      var next := match Lookup(p2, p.name)
        case None => D.Put(acc, p.name, Pair(Val(p.value), Missing))
        case Some(v2) => if Same(p.value, v2) then acc else D.Put(acc, p.name, Pair(Val(p.value), Val(v2)));
      PropsLeft(p1, p2, i + 1, next)
  }

  /** The second property loop from property j on. */
  function PropsRight(p1: seq<Property>, p2: seq<Property>, j: nat, acc: D.ODict<string, Diff>): D.ODict<string, Diff>
    requires j <= |p2|
    decreases |p2| - j
  {
    if j == |p2| then acc
    else
      var q := p2[j];
      var next := if Lookup(p1, q.name).None? then D.Put(acc, q.name, Pair(Missing, Val(q.value))) else acc;
      PropsRight(p1, p2, j + 1, next)
  }

  /** The property part of a node's report. */
  function PropDiffs(p1: seq<Property>, p2: seq<Property>): D.ODict<string, Diff> {
    PropsRight(p1, p2, 0, PropsLeft(p1, p2, 0, []))
  }

  // ----- children -----

  /** The first child from position j on whose path name is pn, or none;
      a child whose path name cannot be formed aborts the search. */
  function FindPath(h: Heap, cs: seq<NodeId>, j: nat, pn: Option<string>): (r: Result<Option<NodeId>>)
    requires j <= |cs| && forall c | c in cs :: c in h
    ensures r.Ok? && r.value.Some? ==> r.value.value in cs
    decreases |cs| - j
  {
    if j == |cs| then Ok(None)
    else
      var q :- Pathname(h[cs[j]]);
      if q == pn then Ok(Some(cs[j])) else FindPath(h, cs, j + 1, pn)
  }

  /** The first children loop's work on child i. A child without a
      partner is `*present`/`*missing`; a partner with a non-empty report
      stores it; one with an empty report is stored and deleted again when
      `erase` holds (`_node_diff`) and not stored at all otherwise
      (`get_diff`). */
  function LeftNext(h1: Heap, h2: Heap, c1: seq<NodeId>, c2: seq<NodeId>, i: nat,
                    acc: D.ODict<Option<string>, Diff>, erase: bool, fuel: nat): (r: Result<D.ODict<Option<string>, Diff>>)
    requires i < |c1| && (forall c | c in c1 :: c in h1) && (forall c | c in c2 :: c in h2) && Closed(h1) && Closed(h2)
    decreases fuel, 1, 0
  {
    var pn :- Pathname(h1[c1[i]]);
    var m :- FindPath(h2, c2, 0, pn);
    match m
    case None => Ok(D.Put(acc, pn, Pair(Present, Missing)))
    case Some(y) =>
      var sub :- NodeDiff(h1, c1[i], h2, y, fuel);
      if sub != [] then Ok(D.Put(acc, pn, Nested(sub)))
      else if erase then D.PutHas(acc, pn, Nested(sub)); Ok(D.Del(D.Put(acc, pn, Nested(sub)), pn))
      else Ok(acc)
  }

  /** The first children loop from child i on. */
  function KidsLeft(h1: Heap, h2: Heap, c1: seq<NodeId>, c2: seq<NodeId>, i: nat,
                    acc: D.ODict<Option<string>, Diff>, erase: bool, fuel: nat): (r: Result<D.ODict<Option<string>, Diff>>)
    requires i <= |c1| && (forall c | c in c1 :: c in h1) && (forall c | c in c2 :: c in h2) && Closed(h1) && Closed(h2)
    decreases fuel, 1, |c1| - i
  {
    if i == |c1| then Ok(acc)
    else
      var next :- LeftNext(h1, h2, c1, c2, i, acc, erase, fuel);
      KidsLeft(h1, h2, c1, c2, i + 1, next, erase, fuel)
  }

  /** The second children loop from child j on: a child of the second node
      with no partner is `*missing`/`*present`. */
  function KidsRight(h1: Heap, h2: Heap, c1: seq<NodeId>, c2: seq<NodeId>, j: nat,
                     acc: D.ODict<Option<string>, Diff>): (r: Result<D.ODict<Option<string>, Diff>>)
    requires j <= |c2| && (forall c | c in c1 :: c in h1) && (forall c | c in c2 :: c in h2)
    decreases |c2| - j
  {
    if j == |c2| then Ok(acc)
    else
      var pn :- Pathname(h2[c2[j]]);
      var m :- FindPath(h1, c1, 0, pn);
      var next := if m.None? then D.Put(acc, pn, Pair(Missing, Present)) else acc;
      KidsRight(h1, h2, c1, c2, j + 1, next)
  }

  /** `_node_diff(x1, x2)`: the property part, then, when either node has
      children, a `nodes` entry that is dropped again when it stays empty.
      The walk stops with Diverges after `fuel` levels. */
  function NodeDiff(h1: Heap, x1: NodeId, h2: Heap, x2: NodeId, fuel: nat): (r: Result<D.ODict<string, Diff>>)
    requires x1 in h1 && x2 in h2 && Closed(h1) && Closed(h2)
    decreases fuel, 0
  {
    if fuel == 0 then Err(Diverges)
    else
      var d := PropDiffs(h1[x1].props, h2[x2].props);
      var c1 := h1[x1].children;
      var c2 := h2[x2].children;
      if c1 == [] && c2 == [] then Ok(d)
      else
        var left :- KidsLeft(h1, h2, c1, c2, 0, [], true, fuel - 1);
        var nodes :- KidsRight(h1, h2, c1, c2, 0, left);
        D.PutHas(d, "nodes", Children(nodes));
        var withNodes := D.Put(d, "nodes", Children(nodes));
        Ok(if nodes == [] then D.Del(withNodes, "nodes") else withNodes)
  }

  // ----- the whole report -----

  /** The comparison of two trees: the file names, the root report and the ref-node report;
      a report `_cleanup_diff` removed is None. */
  datatype Report = Report(filenames: (Option<string>, Option<string>),
                           root: Option<D.ODict<string, Diff>>,
                           refNodes: Option<D.ODict<string, Diff>>)

  /** `sig_tuple('/', None, None, None)` */
  const RootTuple := SigTuple(Some("/"), [], None, None)

  /** The first ref loop from ref i on: a ref the second tree lacks is
      `*present`/`*missing`, a shared ref stores a non-empty report. */
  function RefsLeft(h1: Heap, h2: Heap, r1: D.ODict<string, NodeId>, r2: D.ODict<string, NodeId>, i: nat,
                    acc: D.ODict<string, Diff>): (r: Result<D.ODict<string, Diff>>)
    requires i <= |r1| && Closed(h1) && Closed(h2)
    requires (forall k | 0 <= k < |r1| :: r1[k].1 in h1) && (forall k | 0 <= k < |r2| :: r2[k].1 in h2)
    decreases |r1| - i
  {
    if i == |r1| then Ok(acc)
    else
      var next :- match D.Lookup(r2, r1[i].0)
        case None => Ok(D.Put(acc, r1[i].0, Pair(Present, Missing)))
        case Some(y) =>
          assert y == r2[D.IndexOf(r2, r1[i].0)].1;
          var sub :- NodeDiff(h1, r1[i].1, h2, y, Depth(h1));
          Ok(if sub != [] then D.Put(acc, r1[i].0, Nested(sub)) else acc);
      RefsLeft(h1, h2, r1, r2, i + 1, next)
  }

  /** The second ref loop from ref j on: a ref only the second tree has is
      `*missing`/`*present`. */
  function RefsRight(r1: D.ODict<string, NodeId>, r2: D.ODict<string, NodeId>, j: nat,
                     acc: D.ODict<string, Diff>): D.ODict<string, Diff>
    requires j <= |r2|
    decreases |r2| - j
  {
    if j == |r2| then acc
    else RefsRight(r1, r2, j + 1, if D.Has(r1, r2[j].0) then acc else D.Put(acc, r2[j].0, Pair(Missing, Present)))
  }

  /** The number of keys of a difference. */
  function Len(d: Diff): nat {
    match d
    case Pair(_, _) => 2
    case Nested(es) => |es|
    case Children(ns) => |ns|
  }

  /** What `_cleanup_diff` leaves, and whether it raised: KeyError for a
      report it already removed, TypeError before any comparison. */
  datatype Cleaned = Cleaned(report: Option<Report>, outcome: Outcome)

  function Cleanup(rep: Option<Report>): (r: Cleaned)
    ensures rep.None? ==> r == Cleaned(rep, Fail(TypeError))
  {
    match rep
    case None => Cleaned(rep, Fail(TypeError))
    case Some(rp) =>
      match rp.root
      case None => Cleaned(rep, Fail(KeyError))
      case Some(rt) =>
        var rt2 := if D.Has(rt, "nodes") && Len(D.Get(rt, "nodes")) == 0 then D.Del(rt, "nodes") else rt;
        var root := if rt2 == [] then None else Some(rt2);
        match rp.refNodes
        case None => Cleaned(Some(rp.(root := root)), Fail(KeyError))
        case Some(rf) => Cleaned(Some(rp.(root := root, refNodes := if rf == [] then None else Some(rf))), Pass)
  }

  /** The keys of a report that may have been removed. */
  function Entries<K, V>(o: Option<D.ODict<K, V>>): D.ODict<K, V> {
    if o.None? then [] else o.value
  }

  /** `_cleanup_diff` removes an empty `nodes` entry and then an empty root
      report and an empty ref-node report, and nothing else: every other
      key keeps its entry and no report is left empty. A report already
      removed raises KeyError, the root's before anything changes. */
  lemma CleanupMeaning(rp: Report)
    requires rp.root.Some? ==> D.UniqueKeys(rp.root.value)
    ensures var c := Cleanup(Some(rp));
      && (rp.root.None? ==> c == Cleaned(Some(rp), Fail(KeyError)))
      && (rp.root.Some? ==>
            var rt := rp.root.value;
            && c.report.Some? && c.report.value.filenames == rp.filenames
            && (c.outcome == Pass <==> rp.refNodes.Some?)
            && (rp.refNodes.None? ==> c.outcome == Fail(KeyError) && c.report.value.refNodes.None?)
            && (forall k | k != "nodes" :: D.Lookup(Entries(c.report.value.root), k) == D.Lookup(rt, k))
            && D.Lookup(Entries(c.report.value.root), "nodes")
               == (if D.Has(rt, "nodes") && Len(D.Get(rt, "nodes")) == 0 then None else D.Lookup(rt, "nodes"))
            && (c.report.value.root.Some? ==> c.report.value.root.value != [])
            && (rp.refNodes.Some? ==> Entries(c.report.value.refNodes) == rp.refNodes.value)
            && (c.report.value.refNodes.Some? ==> c.report.value.refNodes.value != []))
  {
    if rp.root.Some? {
      var rt := rp.root.value;
      if D.Has(rt, "nodes") && Len(D.Get(rt, "nodes")) == 0 { D.DelLookup(rt, "nodes"); }
    }
  }

  /** The root report before clean-up: the roots' properties, then a
      `nodes` entry for their children. A tree without a root `/` makes
      `.properties` raise AttributeError. */
  function RootDiff(a1: Arena, a2: Arena): (r: Result<D.ODict<string, Diff>>)
    requires Sound(a1) && Sound(a2)
  {
    var x1 := FromTuple(a1.heap, a1.entries, RootTuple);
    var x2 := FromTuple(a2.heap, a2.entries, RootTuple);
    if x1.None? || x2.None? then Err(AttributeError)
    else
      var n1 := a1.heap[x1.value];
      var n2 := a2.heap[x2.value];
      var d := PropDiffs(n1.props, n2.props);
      var left :- KidsLeft(a1.heap, a2.heap, n1.children, n2.children, 0, [], false, Depth(a1.heap));
      var nodes :- KidsRight(a1.heap, a2.heap, n1.children, n2.children, 0, left);
      Ok(D.Put(d, "nodes", Children(nodes)))
  }

  /** The ref-node report before clean-up. */
  function RefDiffs(a1: Arena, a2: Arena): (r: Result<D.ODict<string, Diff>>)
    requires Sound(a1) && Sound(a2)
  {
    var r1 := Index(ByRef, a1.heap, a1.entries);
    var r2 := Index(ByRef, a2.heap, a2.entries);
    var left :- RefsLeft(a1.heap, a2.heap, r1, r2, 0, []);
    Ok(RefsRight(r1, r2, 0, left))
  }

  /** `get_diff()`: the report after clean-up. */
  function ReportOf(a1: Arena, a2: Arena, f1: Option<string>, f2: Option<string>): (r: Result<Report>)
    requires Sound(a1) && Sound(a2)
  {
    var root :- RootDiff(a1, a2);
    var refs :- RefDiffs(a1, a2);
    var c := Cleanup(Some(Report((f1, f2), Some(root), Some(refs))));
    assert c.outcome == Pass;
    Ok(c.report.value)
  }

  /** A path of the tree: the path of one of its registered nodes. */
  ghost predicate HasPath(a: Arena, p: string)
    requires Sound(a)
  {
    exists i | 0 <= i < |a.entries| :: Path(a.heap, a.entries[i].id, Depth(a.heap)) == Ok(p)
  }

  // ----- a tree against itself -----

  /** None of the children's path names raises. */
  predicate PathsOk(h: Heap, cs: seq<NodeId>)
    requires forall c | c in cs :: c in h
  {
    forall k | 0 <= k < |cs| :: Pathname(h[cs[k]]).Ok?
  }

  /** No two children share a path name, and none of their path names
      raises. */
  predicate Apart(h: Heap, cs: seq<NodeId>)
    requires forall c | c in cs :: c in h
  {
    && PathsOk(h, cs)
    && (forall i, j | 0 <= i < j < |cs| :: Pathname(h[cs[i]]) != Pathname(h[cs[j]]))
  }

  /** Every node's children are apart. */
  predicate PathsApart(h: Heap)
    requires Closed(h)
  {
    forall x | x in h :: Apart(h, h[x].children)
  }

  lemma LookupOwn(p: seq<Property>, i: nat)
    requires UniqueNames(p) && i < |p|
    ensures Lookup(p, p[i].name) == Some(p[i].value)
  {
    assert IndexOf(p, p[i].name).Some?;
  }

  lemma {:induction false} PropsLeftSelf(p: seq<Property>, i: nat)
    requires UniqueNames(p) && i <= |p|
    ensures PropsLeft(p, p, i, []) == []
    decreases |p| - i
  {
    if i < |p| {
      LookupOwn(p, i);
      PropsLeftSelf(p, i + 1);
    }
  }

  lemma {:induction false} PropsRightSelf(p: seq<Property>, j: nat)
    requires UniqueNames(p) && j <= |p|
    ensures PropsRight(p, p, j, []) == []
    decreases |p| - j
  {
    if j < |p| {
      LookupOwn(p, j);
      PropsRightSelf(p, j + 1);
    }
  }

  /** A property list compared with itself differs nowhere. */
  lemma PropDiffsSelf(p: seq<Property>)
    requires UniqueNames(p)
    ensures PropDiffs(p, p) == []
  {
    PropsLeftSelf(p, 0);
    PropsRightSelf(p, 0);
  }

  /** Among children that are apart, each child's path name finds that
      child. */
  lemma {:induction false} FindOwn(h: Heap, cs: seq<NodeId>, j: nat, i: nat)
    requires (forall c | c in cs :: c in h) && Apart(h, cs) && j <= i < |cs|
    ensures FindPath(h, cs, j, Pathname(h[cs[i]]).value) == Ok(Some(cs[i]))
    decreases i - j
  {
    if j < i {
      assert Pathname(h[cs[j]]) != Pathname(h[cs[i]]);
      FindOwn(h, cs, j + 1, i);
    }
  }

  lemma {:induction false} KidsLeftSelf(h: Heap, cs: seq<NodeId>, i: nat, erase: bool, fuel: nat)
    requires Closed(h) && PropsOk(h) && PathsApart(h)
    requires i <= |cs| && (forall c | c in cs :: c in h) && Apart(h, cs)
    requires Acyclic(h) && forall c | c in cs :: fuel + Height(h, c) > |h|
    ensures KidsLeft(h, h, cs, cs, i, [], erase, fuel) == Ok([])
    decreases fuel, 1, |cs| - i
  {
    if i < |cs| {
      NodeSelf(h, cs[i], fuel);
      LeftNextSelf(h, cs, i, erase, fuel);
      KidsLeftSelf(h, cs, i + 1, erase, fuel);
    }
  }

  /** One round of the first children loop of a node against itself adds
      nothing when the child's own report is empty. */
  lemma LeftNextSelf(h: Heap, cs: seq<NodeId>, i: nat, erase: bool, fuel: nat)
    requires Closed(h) && i < |cs| && (forall c | c in cs :: c in h) && Apart(h, cs)
    requires NodeDiff(h, cs[i], h, cs[i], fuel) == Ok([])
    ensures LeftNext(h, h, cs, cs, i, [], erase, fuel) == Ok([])
  {
    var pn := Pathname(h[cs[i]]).value;
    FindOwn(h, cs, 0, i);
    if erase { D.PutDel([], pn, Nested([])); }
  }

  lemma {:induction false} KidsRightSelf(h: Heap, cs: seq<NodeId>, j: nat)
    requires j <= |cs| && (forall c | c in cs :: c in h) && Apart(h, cs)
    ensures KidsRight(h, h, cs, cs, j, []) == Ok([])
    decreases |cs| - j
  {
    if j < |cs| {
      FindOwn(h, cs, 0, j);
      KidsRightSelf(h, cs, j + 1);
    }
  }

  /** `_node_diff(x, x)` is `{}` on an acyclic tree whose every node's
      children have distinct path names, once the fuel reaches below the
      deepest node. */
  lemma {:induction false} NodeSelf(h: Heap, x: NodeId, fuel: nat)
    requires Closed(h) && PropsOk(h) && PathsApart(h) && x in h
    requires Acyclic(h) && fuel + Height(h, x) > |h|
    ensures NodeDiff(h, x, h, x, fuel) == Ok([])
    decreases fuel, 0
  {
    var cs := h[x].children;
    PropDiffsSelf(h[x].props);
    if cs != [] {
      forall c | c in cs ensures fuel - 1 + Height(h, c) > |h| {
        ChildHeight(h, x, c);
      }
      KidsLeftSelf(h, cs, 0, true, fuel - 1);
      KidsRightSelf(h, cs, 0);
      D.PutDel([], "nodes", Children([]));
    }
  }

  lemma {:induction false} IndexUnique(f: Field, h: Heap, es: seq<Entry>)
    requires Registered(h, es)
    ensures D.UniqueKeys(Index(f, h, es))
  {
    if es != [] {
      IndexUnique(f, h, es[..|es| - 1]);
      var e := es[|es| - 1];
      match IndexKey(f, h[e.id])
      case None =>
      case Some(k) => D.PutUnique(Index(f, h, es[..|es| - 1]), k, e.id);
    }
  }

  lemma {:induction false} RefsLeftSelf(h: Heap, r: D.ODict<string, NodeId>, i: nat)
    requires Closed(h) && PropsOk(h) && PathsApart(h) && D.UniqueKeys(r)
    requires i <= |r| && forall k | 0 <= k < |r| :: r[k].1 in h
    requires Acyclic(h)
    ensures RefsLeft(h, h, r, r, i, []) == Ok([])
    decreases |r| - i
  {
    if i < |r| {
      NodeSelf(h, r[i].1, Depth(h));
      RefsLeftSelfStep(h, r, i);
      RefsLeftSelf(h, r, i + 1);
    }
  }

  /** One round of the first ref loop of a tree against itself adds
      nothing when the ref node's own report is empty. */
  lemma RefsLeftSelfStep(h: Heap, r: D.ODict<string, NodeId>, i: nat)
    requires Closed(h) && D.UniqueKeys(r)
    requires i < |r| && forall k | 0 <= k < |r| :: r[k].1 in h
    requires NodeDiff(h, r[i].1, h, r[i].1, Depth(h)) == Ok([])
    ensures RefsLeft(h, h, r, r, i, []) == RefsLeft(h, h, r, r, i + 1, [])
  {
    D.GetAt(r, i);
  }

  lemma {:induction false} RefsRightSelf(r: D.ODict<string, NodeId>, j: nat)
    requires j <= |r|
    ensures RefsRight(r, r, j, []) == []
    decreases |r| - j
  {
    if j < |r| {
      assert D.Has(r, r[j].0);
      RefsRightSelf(r, j + 1);
    }
  }

  lemma RootSelf(a: Arena)
    requires Sound(a) && PathsApart(a.heap) && FromTuple(a.heap, a.entries, RootTuple).Some?
    requires Acyclic(a.heap)
    ensures RootDiff(a, a) == Ok([("nodes", Children([]))])
  {
    var h := a.heap;
    var x := FromTuple(h, a.entries, RootTuple).value;
    var cs := h[x].children;
    PropDiffsSelf(h[x].props);
    KidsLeftSelf(h, cs, 0, false, Depth(h));
    KidsRightSelf(h, cs, 0);
    assert D.Put([], "nodes", Children([])) == [("nodes", Children([]))];
  }

  lemma RefsSelf(a: Arena)
    requires Sound(a) && PathsApart(a.heap) && Acyclic(a.heap)
    ensures RefDiffs(a, a) == Ok([])
  {
    var r := Index(ByRef, a.heap, a.entries);
    IndexUnique(ByRef, a.heap, a.entries);
    RefsLeftSelf(a.heap, r, 0);
    RefsRightSelf(r, 0);
  }

  lemma CleanupEmpty(fs: (Option<string>, Option<string>))
    ensures Cleanup(Some(Report(fs, Some([("nodes", Children([]))]), Some([])))) == Cleaned(Some(Report(fs, None, None)), Pass)
  {
    D.PutDel([], "nodes", Children([]));
    assert D.Put([], "nodes", Children([])) == [("nodes", Children([]))];
  }

  /** Comparing an acyclic tree with itself reports only the file names,
      when every node's children have distinct path names and the tree
      has a root. */
  lemma ReportSelf(a: Arena, f: Option<string>)
    requires Sound(a) && PathsApart(a.heap) && FromTuple(a.heap, a.entries, RootTuple).Some?
    requires Acyclic(a.heap)
    ensures ReportOf(a, a, f, f) == Ok(Report((f, f), None, None))
  {
    RootSelf(a);
    RefsSelf(a);
    CleanupEmpty((f, f));
  }

  // ----- what the report says, key by key -----

  /** What a report holds for property name k: the value only the first
      node has, the value only the second has, or both values when they
      differ; nothing when they are equal or neither node has one. */
  function PropEntry(p1: seq<Property>, p2: seq<Property>, k: string): Option<Diff> {
    match (Lookup(p1, k), Lookup(p2, k))
    case (Some(a), None) => Some(Pair(Val(a), Missing))
    case (Some(a), Some(b)) => if Same(a, b) then None else Some(Pair(Val(a), Val(b)))
    case (None, Some(b)) => Some(Pair(Missing, Val(b)))
    case (None, None) => None
  }

  function Names(p: seq<Property>): (r: seq<string>)
    ensures |r| == |p| && forall i | 0 <= i < |p| :: r[i] == p[i].name
  {
    seq(|p|, i requires 0 <= i < |p| => p[i].name)
  }

  /** The entry the first property loop makes for property p. */
  function LeftEntry(p: Property, p2: seq<Property>): Option<Diff> {
    match Lookup(p2, p.name)
    case None => Some(Pair(Val(p.value), Missing))
    case Some(v2) => if Same(p.value, v2) then None else Some(Pair(Val(p.value), Val(v2)))
  }

  /** The entry the second property loop makes for property q. */
  function RightEntry(p1: seq<Property>, q: Property): Option<Diff> {
    if Lookup(p1, q.name).None? then Some(Pair(Missing, Val(q.value))) else None
  }

  function LeftProps(p1: seq<Property>, p2: seq<Property>): (r: seq<Option<Diff>>)
    ensures |r| == |p1| && forall j | 0 <= j < |p1| :: r[j] == LeftEntry(p1[j], p2)
  {
    seq(|p1|, j requires 0 <= j < |p1| => LeftEntry(p1[j], p2))
  }

  function RightProps(p1: seq<Property>, p2: seq<Property>): (r: seq<Option<Diff>>)
    ensures |r| == |p2| && forall k | 0 <= k < |p2| :: r[k] == RightEntry(p1, p2[k])
  {
    seq(|p2|, k requires 0 <= k < |p2| => RightEntry(p1, p2[k]))
  }

  lemma PropsLeftStep(p1: seq<Property>, p2: seq<Property>, i: nat, acc: D.ODict<string, Diff>)
    requires i < |p1|
    ensures PropsLeft(p1, p2, i, acc) == PropsLeft(p1, p2, i + 1, D.Step(acc, Names(p1)[i], LeftProps(p1, p2)[i]))
  {
  }

  /** The first property loop stores each property's entry under its name. */
  lemma PropsLeftFold(p1: seq<Property>, p2: seq<Property>, i: nat, acc: D.ODict<string, Diff>)
    requires i <= |p1|
    ensures PropsLeft(p1, p2, i, acc) == D.Fold(Names(p1), LeftProps(p1, p2), i, acc)
  {
    var ks, es := Names(p1), LeftProps(p1, p2);
    var f := (k: nat, a: D.ODict<string, Diff>) => if k <= |p1| then Ok(PropsLeft(p1, p2, k, a)) else Ok(a);
    forall k: nat, a | i <= k < |p1| ensures f(k, a) == f(k + 1, D.Step(a, ks[k], es[k])) {
      PropsLeftStep(p1, p2, k, a);
    }
    D.FoldBy(ks, es, f, i, acc);
  }

  lemma PropsRightStep(p1: seq<Property>, p2: seq<Property>, j: nat, acc: D.ODict<string, Diff>)
    requires j < |p2|
    ensures PropsRight(p1, p2, j, acc) == PropsRight(p1, p2, j + 1, D.Step(acc, Names(p2)[j], RightProps(p1, p2)[j]))
  {
  }

  /** The second property loop stores each property's entry under its name. */
  lemma PropsRightFold(p1: seq<Property>, p2: seq<Property>, j: nat, acc: D.ODict<string, Diff>)
    requires j <= |p2|
    ensures PropsRight(p1, p2, j, acc) == D.Fold(Names(p2), RightProps(p1, p2), j, acc)
  {
    var ks, es := Names(p2), RightProps(p1, p2);
    var f := (k: nat, a: D.ODict<string, Diff>) => if k <= |p2| then Ok(PropsRight(p1, p2, k, a)) else Ok(a);
    forall k: nat, a | j <= k < |p2| ensures f(k, a) == f(k + 1, D.Step(a, ks[k], es[k])) {
      PropsRightStep(p1, p2, k, a);
    }
    D.FoldBy(ks, es, f, j, acc);
  }

  lemma NamesDistinct(p: seq<Property>)
    requires UniqueNames(p)
    ensures D.Distinct(Names(p))
  {
  }

  /** The property part of a node's report holds, under each name, exactly
      the entry `PropEntry` describes, and no name twice. */
  lemma PropDiffsMeaning(p1: seq<Property>, p2: seq<Property>)
    requires UniqueNames(p1) && UniqueNames(p2)
    ensures D.UniqueKeys(PropDiffs(p1, p2))
    ensures forall k :: D.Lookup(PropDiffs(p1, p2), k) == PropEntry(p1, p2, k)
  {
    var ks1, ks2 := Names(p1), Names(p2);
    var es1, es2 := LeftProps(p1, p2), RightProps(p1, p2);
    PropsLeftFold(p1, p2, 0, []);
    PropsRightFold(p1, p2, 0, PropsLeft(p1, p2, 0, []));
    NamesDistinct(p1);
    NamesDistinct(p2);
    D.JoinLookup(ks1, es1, ks2, es2);
    var n := PropDiffs(p1, p2);
    forall k ensures D.Lookup(n, k) == PropEntry(p1, p2, k) {
      var i1, i2 := IndexOf(p1, k), IndexOf(p2, k);
      if i1.Some? {
        var i := i1.value;
        assert ks1[i] == k;
        LookupOwn(p1, i);
        if i2.Some? { LookupOwn(p2, i2.value); }
        forall j | 0 <= j < |ks2| && ks2[j] == k ensures es2[j].None? { }
        assert D.Lookup(n, ks1[i]) == es1[i];
      } else if i2.Some? {
        var j := i2.value;
        assert ks2[j] == k;
        LookupOwn(p2, j);
        assert D.Lookup(n, ks2[j]) == es2[j];
      } else {
        assert D.Absent(ks1, 0, k) && D.Absent(ks2, 0, k);
      }
    }
  }

  /** No child from position j on has path name pn. */
  predicate NoChild(h: Heap, cs: seq<NodeId>, j: nat, pn: Option<string>)
    requires forall c | c in cs :: c in h
  {
    forall k | j <= k < |cs| :: Pathname(h[cs[k]]) != Ok(pn)
  }

  /** Among children whose path names do not raise, the search finds a
      child exactly when one has the path name. */
  lemma {:induction false} FindSpec(h: Heap, cs: seq<NodeId>, j: nat, pn: Option<string>)
    requires j <= |cs| && (forall c | c in cs :: c in h) && forall k | j <= k < |cs| :: Pathname(h[cs[k]]).Ok?
    ensures FindPath(h, cs, j, pn).Ok?
    ensures FindPath(h, cs, j, pn).value.None? <==> NoChild(h, cs, j, pn)
    decreases |cs| - j
  {
    if j < |cs| {
      var q := Pathname(h[cs[j]]).value;
      NoChildStep(h, cs, j, pn);
      if q == pn {
        assert FindPath(h, cs, j, pn) == Ok(Some(cs[j]));
      } else {
        FindSpec(h, cs, j + 1, pn);
        assert FindPath(h, cs, j, pn) == FindPath(h, cs, j + 1, pn);
      }
    }
  }

  lemma NoChildStep(h: Heap, cs: seq<NodeId>, j: nat, pn: Option<string>)
    requires j < |cs| && forall c | c in cs :: c in h
    ensures NoChild(h, cs, j, pn) <==> Pathname(h[cs[j]]) != Ok(pn) && NoChild(h, cs, j + 1, pn)
  {
  }

  function Paths(h: Heap, cs: seq<NodeId>): (r: seq<Option<string>>)
    requires (forall c | c in cs :: c in h) && PathsOk(h, cs)
    ensures |r| == |cs| && forall i | 0 <= i < |cs| :: Ok(r[i]) == Pathname(h[cs[i]])
  {
    seq(|cs|, i requires 0 <= i < |cs| => Pathname(h[cs[i]]).value)
  }

  /** What the first children loop does with child i: `*present` when
      the second node has no child of its path name, the partner's report
      when that is non-empty, nothing otherwise. */
  function KidEntry(h1: Heap, h2: Heap, c1: seq<NodeId>, c2: seq<NodeId>, i: nat, fuel: nat): Result<Option<Diff>>
    requires i < |c1| && (forall c | c in c1 :: c in h1) && (forall c | c in c2 :: c in h2) && Closed(h1) && Closed(h2)
  {
    var pn :- Pathname(h1[c1[i]]);
    var m :- FindPath(h2, c2, 0, pn);
    match m
    case None => Ok(Some(Pair(Present, Missing)))
    case Some(y) =>
      var sub :- NodeDiff(h1, c1[i], h2, y, fuel);
      Ok(if sub != [] then Some(Nested(sub)) else None)
  }

  function KidEntries(h1: Heap, h2: Heap, c1: seq<NodeId>, c2: seq<NodeId>, fuel: nat): (r: seq<Option<Diff>>)
    requires (forall c | c in c1 :: c in h1) && (forall c | c in c2 :: c in h2) && Closed(h1) && Closed(h2)
    ensures |r| == |c1|
  {
    seq(|c1|, i requires 0 <= i < |c1| => match KidEntry(h1, h2, c1, c2, i, fuel) case Ok(e) => e case Err(_) => None)
  }

  /** One step of the first children loop, when the loop completes and
      the accumulator lacks the child's path name. */
  lemma KidsLeftStep(h1: Heap, h2: Heap, c1: seq<NodeId>, c2: seq<NodeId>, i: nat,
                     acc: D.ODict<Option<string>, Diff>, erase: bool, fuel: nat)
    requires i < |c1| && (forall c | c in c1 :: c in h1) && (forall c | c in c2 :: c in h2) && Closed(h1) && Closed(h2)
    requires PathsOk(h1, c1) && KidsLeft(h1, h2, c1, c2, i, acc, erase, fuel).Ok? && !D.Has(acc, Paths(h1, c1)[i])
    ensures KidEntry(h1, h2, c1, c2, i, fuel).Ok?
    ensures KidsLeft(h1, h2, c1, c2, i, acc, erase, fuel)
      == KidsLeft(h1, h2, c1, c2, i + 1, D.Step(acc, Paths(h1, c1)[i], KidEntries(h1, h2, c1, c2, fuel)[i]), erase, fuel)
  {
    var pn := Paths(h1, c1)[i];
    assert Pathname(h1[c1[i]]) == Ok(pn);
    var m := FindPath(h2, c2, 0, pn);
    assert m.Ok?;
    if m.value.Some? {
      var sub := NodeDiff(h1, c1[i], h2, m.value.value, fuel);
      assert sub.Ok?;
      if sub.value == [] && erase { D.PutDel(acc, pn, Nested(sub.value)); }
    }
  }

  lemma PathsDistinct(h: Heap, cs: seq<NodeId>)
    requires (forall c | c in cs :: c in h) && Apart(h, cs)
    ensures D.Distinct(Paths(h, cs))
  {
    var ks := Paths(h, cs);
    forall i, j | 0 <= i < j < |cs| ensures ks[i] != ks[j] {
      assert Pathname(h[cs[i]]) != Pathname(h[cs[j]]);
    }
  }

  /** The first children loop from child k on, with accumulator a: the
      accumulator has distinct keys and none of the remaining path names,
      and the loop completes. */
  predicate LeftReady(h1: Heap, h2: Heap, c1: seq<NodeId>, c2: seq<NodeId>, erase: bool, fuel: nat,
                      k: nat, a: D.ODict<Option<string>, Diff>)
    requires (forall c | c in c1 :: c in h1) && (forall c | c in c2 :: c in h2) && Closed(h1) && Closed(h2) && PathsOk(h1, c1)
  {
    k <= |c1| && D.UniqueKeys(a) && (forall j | k <= j < |c1| :: !D.Has(a, Paths(h1, c1)[j]))
    && KidsLeft(h1, h2, c1, c2, k, a, erase, fuel).Ok?
  }

  /** A ready step stores the child's entry and leaves the loop ready. */
  lemma LeftReadyStep(h1: Heap, h2: Heap, c1: seq<NodeId>, c2: seq<NodeId>, erase: bool, fuel: nat,
                      k: nat, a: D.ODict<Option<string>, Diff>)
    requires (forall c | c in c1 :: c in h1) && (forall c | c in c2 :: c in h2) && Closed(h1) && Closed(h2) && PathsOk(h1, c1)
    requires D.Distinct(Paths(h1, c1)) && k < |c1| && LeftReady(h1, h2, c1, c2, erase, fuel, k, a)
    ensures var next := D.Step(a, Paths(h1, c1)[k], KidEntries(h1, h2, c1, c2, fuel)[k]);
      KidsLeft(h1, h2, c1, c2, k, a, erase, fuel) == KidsLeft(h1, h2, c1, c2, k + 1, next, erase, fuel)
      && LeftReady(h1, h2, c1, c2, erase, fuel, k + 1, next)
  {
    KidsLeftStep(h1, h2, c1, c2, k, a, erase, fuel);
    D.FreshStep(Paths(h1, c1), k, a, KidEntries(h1, h2, c1, c2, fuel)[k]);
  }

  /** The first children loop, when it completes, stores every child's
      entry under its path name (storing and deleting an empty report is
      not storing it, since path names are distinct). */
  lemma {:induction false} KidsLeftFold(h1: Heap, h2: Heap, c1: seq<NodeId>, c2: seq<NodeId>, i: nat,
                     acc: D.ODict<Option<string>, Diff>, erase: bool, fuel: nat)
    requires i <= |c1| && (forall c | c in c1 :: c in h1) && (forall c | c in c2 :: c in h2) && Closed(h1) && Closed(h2)
    requires Apart(h1, c1) && D.UniqueKeys(acc) && forall j | i <= j < |c1| :: !D.Has(acc, Paths(h1, c1)[j])
    requires KidsLeft(h1, h2, c1, c2, i, acc, erase, fuel).Ok?
    ensures KidsLeft(h1, h2, c1, c2, i, acc, erase, fuel) == Ok(D.Fold(Paths(h1, c1), KidEntries(h1, h2, c1, c2, fuel), i, acc))
    decreases |c1| - i
  {
    PathsDistinct(h1, c1);
    assert LeftReady(h1, h2, c1, c2, erase, fuel, i, acc);
    if i < |c1| {
      LeftReadyStep(h1, h2, c1, c2, erase, fuel, i, acc);
      KidsLeftFold(h1, h2, c1, c2, i + 1, D.Step(acc, Paths(h1, c1)[i], KidEntries(h1, h2, c1, c2, fuel)[i]), erase, fuel);
    }
  }

  /** The entry the second children loop makes for each child. */
  function MissingKids(h1: Heap, h2: Heap, c1: seq<NodeId>, c2: seq<NodeId>): (r: seq<Option<Diff>>)
    requires (forall c | c in c1 :: c in h1) && (forall c | c in c2 :: c in h2) && PathsOk(h2, c2)
    ensures |r| == |c2| && forall k | 0 <= k < |c2| :: r[k] == if NoChild(h1, c1, 0, Paths(h2, c2)[k]) then Some(Pair(Missing, Present)) else None
  {
    seq(|c2|, k requires 0 <= k < |c2| => if NoChild(h1, c1, 0, Paths(h2, c2)[k]) then Some(Pair(Missing, Present)) else None)
  }

  /** One step of the second children loop stores the child's entry. */
  lemma KidsRightStep(h1: Heap, h2: Heap, c1: seq<NodeId>, c2: seq<NodeId>, j: nat, acc: D.ODict<Option<string>, Diff>)
    requires j < |c2| && (forall c | c in c1 :: c in h1) && (forall c | c in c2 :: c in h2)
    requires PathsOk(h1, c1) && PathsOk(h2, c2)
    ensures KidsRight(h1, h2, c1, c2, j, acc)
      == KidsRight(h1, h2, c1, c2, j + 1, D.Step(acc, Paths(h2, c2)[j], MissingKids(h1, h2, c1, c2)[j]))
  {
    FindSpec(h1, c1, 0, Paths(h2, c2)[j]);
  }

  /** The second children loop stores `*missing` under each path name of
      the second node's children that the first node's children lack. */
  lemma KidsRightFold(h1: Heap, h2: Heap, c1: seq<NodeId>, c2: seq<NodeId>, j: nat, acc: D.ODict<Option<string>, Diff>)
    requires j <= |c2| && (forall c | c in c1 :: c in h1) && (forall c | c in c2 :: c in h2)
    requires PathsOk(h1, c1) && PathsOk(h2, c2)
    ensures KidsRight(h1, h2, c1, c2, j, acc) == Ok(D.Fold(Paths(h2, c2), MissingKids(h1, h2, c1, c2), j, acc))
  {
    var ks, es := Paths(h2, c2), MissingKids(h1, h2, c1, c2);
    var f := (i: nat, a: D.ODict<Option<string>, Diff>) => if i <= |c2| then KidsRight(h1, h2, c1, c2, i, a) else Ok(a);
    forall i: nat, a | j <= i < |c2| ensures f(i, a) == f(i + 1, D.Step(a, ks[i], es[i])) {
      KidsRightStep(h1, h2, c1, c2, i, a);
    }
    D.FoldBy(ks, es, f, j, acc);
  }

  /** The state after child i of a first children loop that completes. */
  lemma KidsLeftNext(h1: Heap, h2: Heap, c1: seq<NodeId>, c2: seq<NodeId>, i: nat,
                     acc: D.ODict<Option<string>, Diff>, erase: bool, fuel: nat) returns (next: D.ODict<Option<string>, Diff>)
    requires i < |c1| && (forall c | c in c1 :: c in h1) && (forall c | c in c2 :: c in h2) && Closed(h1) && Closed(h2)
    requires KidsLeft(h1, h2, c1, c2, i, acc, erase, fuel).Ok?
    ensures KidEntry(h1, h2, c1, c2, i, fuel).Ok?
    ensures KidsLeft(h1, h2, c1, c2, i, acc, erase, fuel) == KidsLeft(h1, h2, c1, c2, i + 1, next, erase, fuel)
  {
    var pn := Pathname(h1[c1[i]]).value;
    var m := FindPath(h2, c2, 0, pn).value;
    match m
    case None => next := D.Put(acc, pn, Pair(Present, Missing));
    case Some(y) =>
      var sub := NodeDiff(h1, c1[i], h2, y, fuel).value;
      if sub != [] { next := D.Put(acc, pn, Nested(sub)); }
      else if erase { D.PutHas(acc, pn, Nested(sub)); next := D.Del(D.Put(acc, pn, Nested(sub)), pn); }
      else { next := acc; }
  }

  /** A first children loop that completes found every child's entry. */
  lemma {:induction false} KidsLeftOk(h1: Heap, h2: Heap, c1: seq<NodeId>, c2: seq<NodeId>, i: nat,
                                      acc: D.ODict<Option<string>, Diff>, erase: bool, fuel: nat)
    requires i <= |c1| && (forall c | c in c1 :: c in h1) && (forall c | c in c2 :: c in h2) && Closed(h1) && Closed(h2)
    requires KidsLeft(h1, h2, c1, c2, i, acc, erase, fuel).Ok?
    ensures EntriesOk(h1, h2, c1, c2, i, fuel)
    decreases |c1| - i
  {
    if i < |c1| {
      var next := KidsLeftNext(h1, h2, c1, c2, i, acc, erase, fuel);
      KidsLeftOk(h1, h2, c1, c2, i + 1, next, erase, fuel);
      EntriesOkStep(h1, h2, c1, c2, i, fuel);
    }
  }

  /** The entry of every child from i on is found without raising. */
  predicate EntriesOk(h1: Heap, h2: Heap, c1: seq<NodeId>, c2: seq<NodeId>, i: nat, fuel: nat)
    requires (forall c | c in c1 :: c in h1) && (forall c | c in c2 :: c in h2) && Closed(h1) && Closed(h2)
  {
    forall j | i <= j < |c1| :: KidEntry(h1, h2, c1, c2, j, fuel).Ok?
  }

  lemma EntriesOkStep(h1: Heap, h2: Heap, c1: seq<NodeId>, c2: seq<NodeId>, i: nat, fuel: nat)
    requires (forall c | c in c1 :: c in h1) && (forall c | c in c2 :: c in h2) && Closed(h1) && Closed(h2)
    requires i < |c1| && KidEntry(h1, h2, c1, c2, i, fuel).Ok?
    ensures EntriesOk(h1, h2, c1, c2, i, fuel) <==> EntriesOk(h1, h2, c1, c2, i + 1, fuel)
  {
  }

  lemma NoChildAbsent(h: Heap, cs: seq<NodeId>, k: Option<string>)
    requires (forall c | c in cs :: c in h) && Apart(h, cs)
    ensures NoChild(h, cs, 0, k) <==> D.Absent(Paths(h, cs), 0, k)
  {
    var ks := Paths(h, cs);
    if NoChild(h, cs, 0, k) {
      forall i | 0 <= i < |cs| ensures ks[i] != k { assert Pathname(h[cs[i]]) != Ok(k); }
    }
  }

  /** The `nodes` report in Fold terms: each child of the first node finds
      its own entry, each child of the second node that the first lacks
      finds `*missing`, every other path name finds nothing. */
  lemma ChildrenLookup(h1: Heap, h2: Heap, c1: seq<NodeId>, c2: seq<NodeId>, erase: bool, fuel: nat)
    requires (forall c | c in c1 :: c in h1) && (forall c | c in c2 :: c in h2) && Closed(h1) && Closed(h2)
    requires Apart(h1, c1) && Apart(h2, c2)
    requires KidsLeft(h1, h2, c1, c2, 0, [], erase, fuel).Ok?
    ensures KidsRight(h1, h2, c1, c2, 0, KidsLeft(h1, h2, c1, c2, 0, [], erase, fuel).value).Ok?
    ensures var n := KidsRight(h1, h2, c1, c2, 0, KidsLeft(h1, h2, c1, c2, 0, [], erase, fuel).value).value;
      && D.UniqueKeys(n)
      && (forall i | 0 <= i < |c1| :: D.Lookup(n, Paths(h1, c1)[i]) == KidEntries(h1, h2, c1, c2, fuel)[i])
      && (forall j | 0 <= j < |c2| && NoChild(h1, c1, 0, Paths(h2, c2)[j]) :: D.Lookup(n, Paths(h2, c2)[j]) == Some(Pair(Missing, Present)))
      && (forall k | NoChild(h1, c1, 0, k) && NoChild(h2, c2, 0, k) :: D.Lookup(n, k) == None)
  {
    var ks1, ks2 := Paths(h1, c1), Paths(h2, c2);
    var es1 := KidEntries(h1, h2, c1, c2, fuel);
    var es2 := MissingKids(h1, h2, c1, c2);
    KidsLeftFold(h1, h2, c1, c2, 0, [], erase, fuel);
    KidsRightFold(h1, h2, c1, c2, 0, KidsLeft(h1, h2, c1, c2, 0, [], erase, fuel).value);
    PathsDistinct(h1, c1);
    PathsDistinct(h2, c2);
    D.JoinLookup(ks1, es1, ks2, es2);
    var n := D.Fold(ks2, es2, 0, D.Fold(ks1, es1, 0, []));
    forall i | 0 <= i < |c1| ensures D.Lookup(n, ks1[i]) == es1[i] {
      forall j | 0 <= j < |c2| && ks2[j] == ks1[i] ensures es2[j].None? {
        assert Pathname(h1[c1[i]]) == Ok(ks2[j]);
      }
    }
    forall k | NoChild(h1, c1, 0, k) && NoChild(h2, c2, 0, k) ensures D.Lookup(n, k) == None {
      NoChildAbsent(h1, c1, k);
      NoChildAbsent(h2, c2, k);
    }
  }

  /** Children are paired by path name: a child of the first node whose
      path name a child of the second node shares is compared with that
      child, and the `nodes` report holds the comparison when it is
      non-empty and nothing under that name otherwise. */
  lemma ChildrenPaired(h1: Heap, h2: Heap, c1: seq<NodeId>, c2: seq<NodeId>, erase: bool, fuel: nat, i: nat, j: nat)
    requires (forall c | c in c1 :: c in h1) && (forall c | c in c2 :: c in h2) && Closed(h1) && Closed(h2)
    requires Apart(h1, c1) && Apart(h2, c2)
    requires KidsLeft(h1, h2, c1, c2, 0, [], erase, fuel).Ok?
    requires i < |c1| && j < |c2| && Pathname(h1[c1[i]]) == Pathname(h2[c2[j]])
    ensures KidsRight(h1, h2, c1, c2, 0, KidsLeft(h1, h2, c1, c2, 0, [], erase, fuel).value).Ok?
    ensures NodeDiff(h1, c1[i], h2, c2[j], fuel).Ok?
    ensures var sub := NodeDiff(h1, c1[i], h2, c2[j], fuel).value;
      D.Lookup(KidsRight(h1, h2, c1, c2, 0, KidsLeft(h1, h2, c1, c2, 0, [], erase, fuel).value).value, Pathname(h1[c1[i]]).value)
      == if sub != [] then Some(Nested(sub)) else None
  {
    var pn := Paths(h1, c1)[i];
    KidsLeftOk(h1, h2, c1, c2, 0, [], erase, fuel);
    FindOwn(h2, c2, 0, j);
    assert FindPath(h2, c2, 0, pn) == Ok(Some(c2[j]));
    var e := KidEntry(h1, h2, c1, c2, i, fuel);
    var sub := NodeDiff(h1, c1[i], h2, c2[j], fuel);
    assert sub.Ok? && e.value == if sub.value != [] then Some(Nested(sub.value)) else None;
    assert KidEntries(h1, h2, c1, c2, fuel)[i] == e.value;
    ChildrenLookup(h1, h2, c1, c2, erase, fuel);
  }

  /** A child of the first node whose path name no child of the second
      node has is reported `*present`/`*missing`. */
  lemma ChildrenUnpaired(h1: Heap, h2: Heap, c1: seq<NodeId>, c2: seq<NodeId>, erase: bool, fuel: nat, i: nat)
    requires (forall c | c in c1 :: c in h1) && (forall c | c in c2 :: c in h2) && Closed(h1) && Closed(h2)
    requires Apart(h1, c1) && Apart(h2, c2)
    requires KidsLeft(h1, h2, c1, c2, 0, [], erase, fuel).Ok?
    requires i < |c1| && NoChild(h2, c2, 0, Pathname(h1[c1[i]]).value)
    ensures KidsRight(h1, h2, c1, c2, 0, KidsLeft(h1, h2, c1, c2, 0, [], erase, fuel).value).Ok?
    ensures D.Lookup(KidsRight(h1, h2, c1, c2, 0, KidsLeft(h1, h2, c1, c2, 0, [], erase, fuel).value).value, Pathname(h1[c1[i]]).value)
      == Some(Pair(Present, Missing))
  {
    var pn := Paths(h1, c1)[i];
    KidsLeftOk(h1, h2, c1, c2, 0, [], erase, fuel);
    FindSpec(h2, c2, 0, pn);
    assert FindPath(h2, c2, 0, pn) == Ok(None);
    var e := KidEntry(h1, h2, c1, c2, i, fuel);
    assert e == Ok(Some(Pair(Present, Missing)));
    assert KidEntries(h1, h2, c1, c2, fuel)[i] == e.value;
    ChildrenLookup(h1, h2, c1, c2, erase, fuel);
  }

  /** What the first ref loop does with ref i: `*present` when the second
      tree lacks the ref, the report for the node of that ref when it is
      non-empty, nothing otherwise. */
  function RefEntry(h1: Heap, h2: Heap, r1: D.ODict<string, NodeId>, r2: D.ODict<string, NodeId>, i: nat): Result<Option<Diff>>
    requires i < |r1| && Closed(h1) && Closed(h2)
    requires (forall k | 0 <= k < |r1| :: r1[k].1 in h1) && (forall k | 0 <= k < |r2| :: r2[k].1 in h2)
  {
    match D.Lookup(r2, r1[i].0)
    case None => Ok(Some(Pair(Present, Missing)))
    case Some(y) =>
      assert y == r2[D.IndexOf(r2, r1[i].0)].1;
      var sub :- NodeDiff(h1, r1[i].1, h2, y, Depth(h1));
      Ok(if sub != [] then Some(Nested(sub)) else None)
  }

  function RefEntries(h1: Heap, h2: Heap, r1: D.ODict<string, NodeId>, r2: D.ODict<string, NodeId>): (r: seq<Option<Diff>>)
    requires Closed(h1) && Closed(h2)
    requires (forall k | 0 <= k < |r1| :: r1[k].1 in h1) && (forall k | 0 <= k < |r2| :: r2[k].1 in h2)
    ensures |r| == |r1|
  {
    seq(|r1|, i requires 0 <= i < |r1| => match RefEntry(h1, h2, r1, r2, i) case Ok(e) => e case Err(_) => None)
  }

  /** One step of a first ref loop that completes. */
  lemma RefsLeftStep(h1: Heap, h2: Heap, r1: D.ODict<string, NodeId>, r2: D.ODict<string, NodeId>, i: nat,
                     acc: D.ODict<string, Diff>) returns (next: D.ODict<string, Diff>)
    requires i < |r1| && Closed(h1) && Closed(h2)
    requires (forall k | 0 <= k < |r1| :: r1[k].1 in h1) && (forall k | 0 <= k < |r2| :: r2[k].1 in h2)
    requires RefsLeft(h1, h2, r1, r2, i, acc).Ok?
    ensures RefEntry(h1, h2, r1, r2, i).Ok?
    ensures next == match RefEntry(h1, h2, r1, r2, i).value case None => acc case Some(v) => D.Put(acc, r1[i].0, v)
    ensures RefsLeft(h1, h2, r1, r2, i, acc) == RefsLeft(h1, h2, r1, r2, i + 1, next)
  {
    match D.Lookup(r2, r1[i].0)
    case None => next := D.Put(acc, r1[i].0, Pair(Present, Missing));
    case Some(y) =>
      assert y == r2[D.IndexOf(r2, r1[i].0)].1;
      var sub := NodeDiff(h1, r1[i].1, h2, y, Depth(h1));
      assert sub.Ok?;
      next := if sub.value != [] then D.Put(acc, r1[i].0, Nested(sub.value)) else acc;
  }

  /** A first ref loop that completes found the entry of every ref j. */
  lemma {:induction false} RefsLeftOk(h1: Heap, h2: Heap, r1: D.ODict<string, NodeId>, r2: D.ODict<string, NodeId>, i: nat,
                                      acc: D.ODict<string, Diff>, j: nat)
    requires i <= j < |r1| && Closed(h1) && Closed(h2)
    requires (forall k | 0 <= k < |r1| :: r1[k].1 in h1) && (forall k | 0 <= k < |r2| :: r2[k].1 in h2)
    requires RefsLeft(h1, h2, r1, r2, i, acc).Ok?
    ensures RefEntry(h1, h2, r1, r2, j).Ok?
    decreases j - i
  {
    var next := RefsLeftStep(h1, h2, r1, r2, i, acc);
    if i < j {
      RefsLeftOk(h1, h2, r1, r2, i + 1, next, j);
    }
  }

  lemma {:induction false} RefsLeftFold(h1: Heap, h2: Heap, r1: D.ODict<string, NodeId>, r2: D.ODict<string, NodeId>, i: nat,
                                        acc: D.ODict<string, Diff>)
    requires i <= |r1| && Closed(h1) && Closed(h2)
    requires (forall k | 0 <= k < |r1| :: r1[k].1 in h1) && (forall k | 0 <= k < |r2| :: r2[k].1 in h2)
    requires RefsLeft(h1, h2, r1, r2, i, acc).Ok?
    ensures RefsLeft(h1, h2, r1, r2, i, acc).value == D.Fold(D.Keys(r1), RefEntries(h1, h2, r1, r2), i, acc)
    decreases |r1| - i
  {
    if i < |r1| {
      var next := RefsLeftStep(h1, h2, r1, r2, i, acc);
      RefsLeftFold(h1, h2, r1, r2, i + 1, next);
    }
  }

  /** The entry the second ref loop makes for each ref. */
  function MissingRefs(r1: D.ODict<string, NodeId>, r2: D.ODict<string, NodeId>): (r: seq<Option<Diff>>)
    ensures |r| == |r2| && forall k | 0 <= k < |r2| :: r[k] == if D.Has(r1, r2[k].0) then None else Some(Pair(Missing, Present))
  {
    seq(|r2|, k requires 0 <= k < |r2| => if D.Has(r1, r2[k].0) then None else Some(Pair(Missing, Present)))
  }

  lemma {:induction false} RefsRightFold(r1: D.ODict<string, NodeId>, r2: D.ODict<string, NodeId>, j: nat, acc: D.ODict<string, Diff>)
    requires j <= |r2|
    ensures RefsRight(r1, r2, j, acc)
      == D.Fold(D.Keys(r2), MissingRefs(r1, r2), j, acc)
    decreases |r2| - j
  {
    if j < |r2| {
      RefsRightFold(r1, r2, j + 1, if D.Has(r1, r2[j].0) then acc else D.Put(acc, r2[j].0, Pair(Missing, Present)));
    }
  }

  /** The ref-node report in Fold terms. */
  lemma RefsLookup(h1: Heap, h2: Heap, r1: D.ODict<string, NodeId>, r2: D.ODict<string, NodeId>)
    requires Closed(h1) && Closed(h2) && D.UniqueKeys(r1) && D.UniqueKeys(r2)
    requires (forall k | 0 <= k < |r1| :: r1[k].1 in h1) && (forall k | 0 <= k < |r2| :: r2[k].1 in h2)
    requires RefsLeft(h1, h2, r1, r2, 0, []).Ok?
    ensures forall i | 0 <= i < |r1| :: RefEntry(h1, h2, r1, r2, i).Ok?
    ensures var n := RefsRight(r1, r2, 0, RefsLeft(h1, h2, r1, r2, 0, []).value);
      && D.UniqueKeys(n)
      && (forall i | 0 <= i < |r1| :: D.Lookup(n, r1[i].0) == RefEntries(h1, h2, r1, r2)[i])
      && (forall k | !D.Has(r1, k) :: D.Lookup(n, k) == if D.Has(r2, k) then Some(Pair(Missing, Present)) else None)
  {
    var ks1, ks2 := D.Keys(r1), D.Keys(r2);
    var es1 := RefEntries(h1, h2, r1, r2);
    var es2 := MissingRefs(r1, r2);
    forall i | 0 <= i < |r1| ensures RefEntry(h1, h2, r1, r2, i).Ok? { RefsLeftOk(h1, h2, r1, r2, 0, [], i); }
    RefsLeftFold(h1, h2, r1, r2, 0, []);
    RefsRightFold(r1, r2, 0, RefsLeft(h1, h2, r1, r2, 0, []).value);
    D.KeysDistinct(r1);
    D.KeysDistinct(r2);
    D.JoinLookup(ks1, es1, ks2, es2);
    var n := D.Fold(ks2, es2, 0, D.Fold(ks1, es1, 0, []));
    forall i | 0 <= i < |r1| ensures D.Lookup(n, ks1[i]) == es1[i] {
      forall j | 0 <= j < |r2| && ks2[j] == ks1[i] ensures es2[j].None? {
        assert D.Has(r1, ks2[j]);
      }
    }
    forall k | !D.Has(r1, k) ensures D.Lookup(n, k) == if D.Has(r2, k) then Some(Pair(Missing, Present)) else None {
      D.HasKeys(r1, k);
      D.HasKeys(r2, k);
      if D.Has(r2, k) {
        var j := D.IndexOf(r2, k);
        assert ks2[j] == k && es2[j].Some?;
      }
    }
  }

  /** Ref nodes are paired by ref: a ref both trees have is reported by the
      comparison of its two nodes when that is non-empty and not at all
      otherwise, a ref only the first has is `*present`/`*missing`, one
      only the second has `*missing`/`*present`, and no other ref appears. */
  lemma RefsMeaning(h1: Heap, h2: Heap, r1: D.ODict<string, NodeId>, r2: D.ODict<string, NodeId>, k: string)
    requires Closed(h1) && Closed(h2) && D.UniqueKeys(r1) && D.UniqueKeys(r2)
    requires (forall k | 0 <= k < |r1| :: r1[k].1 in h1) && (forall k | 0 <= k < |r2| :: r2[k].1 in h2)
    requires RefsLeft(h1, h2, r1, r2, 0, []).Ok?
    ensures var n := RefsRight(r1, r2, 0, RefsLeft(h1, h2, r1, r2, 0, []).value);
      && D.UniqueKeys(n)
      && (D.Has(r1, k) && D.Has(r2, k) ==>
            var x, y := D.Get(r1, k), D.Get(r2, k);
            x in h1 && y in h2 && NodeDiff(h1, x, h2, y, Depth(h1)).Ok?
            && D.Lookup(n, k) == if NodeDiff(h1, x, h2, y, Depth(h1)).value != [] then Some(Nested(NodeDiff(h1, x, h2, y, Depth(h1)).value)) else None)
      && (D.Has(r1, k) && !D.Has(r2, k) ==> D.Lookup(n, k) == Some(Pair(Present, Missing)))
      && (!D.Has(r1, k) && D.Has(r2, k) ==> D.Lookup(n, k) == Some(Pair(Missing, Present)))
      && (!D.Has(r1, k) && !D.Has(r2, k) ==> D.Lookup(n, k) == None)
  {
    RefsLookup(h1, h2, r1, r2);
    if D.Has(r1, k) {
      var i := D.IndexOf(r1, k);
      D.GetAt(r1, i);
      assert RefEntries(h1, h2, r1, r2)[i] == RefEntry(h1, h2, r1, r2, i).value;
      if D.Has(r2, k) {
        D.GetAt(r2, D.IndexOf(r2, k));
      }
    }
  }

  // ----- the loops -----

  /** The first property loop of `_node_diff` and `get_diff`. */
  method PropsLeftOf(p1: seq<Property>, p2: seq<Property>) returns (d: D.ODict<string, Diff>)
    ensures d == PropsLeft(p1, p2, 0, [])
  {
    d := [];
    for i := 0 to |p1|
      invariant PropsLeft(p1, p2, 0, []) == PropsLeft(p1, p2, i, d)
    {
      var p := p1[i];
      var v2 := Lookup(p2, p.name);
      if v2.None? {
        d := D.Put(d, p.name, Pair(Val(p.value), Missing));
      } else if !Same(p.value, v2.value) {
        d := D.Put(d, p.name, Pair(Val(p.value), Val(v2.value)));
      }
    }
  }

  /** The second property loop, continuing from what the first one left. */
  method PropsRightOf(p1: seq<Property>, p2: seq<Property>, left: D.ODict<string, Diff>) returns (d: D.ODict<string, Diff>)
    ensures d == PropsRight(p1, p2, 0, left)
  {
    d := left;
    for j := 0 to |p2|
      invariant PropsRight(p1, p2, 0, left) == PropsRight(p1, p2, j, d)
    {
      var q := p2[j];
      if Lookup(p1, q.name).None? {
        d := D.Put(d, q.name, Pair(Missing, Val(q.value)));
      }
    }
  }

  /** The property loops of `_node_diff` and `get_diff`. */
  method PropDiffsOf(p1: seq<Property>, p2: seq<Property>) returns (d: D.ODict<string, Diff>)
    ensures d == PropDiffs(p1, p2)
  {
    var left := PropsLeftOf(p1, p2);
    d := PropsRightOf(p1, p2, left);
  }

  /** The generator search for a child of a given path name. */
  method FindPathOf(h: Heap, cs: seq<NodeId>, pn: Option<string>) returns (r: Result<Option<NodeId>>)
    requires forall c | c in cs :: c in h
    ensures r == FindPath(h, cs, 0, pn)
  {
    var j := 0;
    while j < |cs|
      invariant j <= |cs| && FindPath(h, cs, 0, pn) == FindPath(h, cs, j, pn)
      decreases |cs| - j
    {
      var q := Pathname(h[cs[j]]);
      if q.Err? { return Err(q.error); }
      if q.value == pn { return Ok(Some(cs[j])); }
      j := j + 1;
    }
    return Ok(None);
  }

  /** `_node_diff(x1, x2)` */
  method NodeDiffOf(h1: Heap, x1: NodeId, h2: Heap, x2: NodeId, fuel: nat) returns (r: Result<D.ODict<string, Diff>>)
    requires x1 in h1 && x2 in h2 && Closed(h1) && Closed(h2)
    ensures r == NodeDiff(h1, x1, h2, x2, fuel)
    decreases fuel, 0
  {
    if fuel == 0 { return Err(Diverges); }
    var d := PropDiffsOf(h1[x1].props, h2[x2].props);
    var c1 := h1[x1].children;
    var c2 := h2[x2].children;
    if c1 == [] && c2 == [] { return Ok(d); }
    var left := KidsLeftOf(h1, h2, c1, c2, true, fuel - 1);
    if left.Err? { return Err(left.error); }
    var nodes := KidsRightOf(h1, h2, c1, c2, left.value);
    if nodes.Err? { return Err(nodes.error); }
    D.PutHas(d, "nodes", Children(nodes.value));
    d := D.Put(d, "nodes", Children(nodes.value));
    if nodes.value == [] {
      d := D.Del(d, "nodes");
    }
    return Ok(d);
  }

  /** The first children loop, over all of `c1`. */
  method KidsLeftOf(h1: Heap, h2: Heap, c1: seq<NodeId>, c2: seq<NodeId>, erase: bool, fuel: nat)
    returns (r: Result<D.ODict<Option<string>, Diff>>)
    requires (forall c | c in c1 :: c in h1) && (forall c | c in c2 :: c in h2) && Closed(h1) && Closed(h2)
    ensures r == KidsLeft(h1, h2, c1, c2, 0, [], erase, fuel)
    decreases fuel, 1
  {
    var acc: D.ODict<Option<string>, Diff> := [];
    for i := 0 to |c1|
      invariant KidsLeft(h1, h2, c1, c2, 0, [], erase, fuel) == KidsLeft(h1, h2, c1, c2, i, acc, erase, fuel)
    {
      var pn := Pathname(h1[c1[i]]);
      if pn.Err? { return Err(pn.error); }
      var m := FindPathOf(h2, c2, pn.value);
      if m.Err? { return Err(m.error); }
      match m.value
      case None =>
        acc := D.Put(acc, pn.value, Pair(Present, Missing));
      case Some(y) =>
        var sub := NodeDiffOf(h1, c1[i], h2, y, fuel);
        if sub.Err? { return Err(sub.error); }
        if sub.value != [] {
          acc := D.Put(acc, pn.value, Nested(sub.value));
        } else if erase {
          D.PutHas(acc, pn.value, Nested(sub.value));
          acc := D.Del(D.Put(acc, pn.value, Nested(sub.value)), pn.value);
        }
    }
    return Ok(acc);
  }

  /** The second children loop, over all of `c2`. */
  method KidsRightOf(h1: Heap, h2: Heap, c1: seq<NodeId>, c2: seq<NodeId>, left: D.ODict<Option<string>, Diff>)
    returns (r: Result<D.ODict<Option<string>, Diff>>)
    requires (forall c | c in c1 :: c in h1) && (forall c | c in c2 :: c in h2)
    ensures r == KidsRight(h1, h2, c1, c2, 0, left)
  {
    var acc := left;
    for j := 0 to |c2|
      invariant KidsRight(h1, h2, c1, c2, 0, left) == KidsRight(h1, h2, c1, c2, j, acc)
    {
      var pn := Pathname(h2[c2[j]]);
      if pn.Err? { return Err(pn.error); }
      var m := FindPathOf(h1, c1, pn.value);
      if m.Err? { return Err(m.error); }
      if m.value.None? {
        acc := D.Put(acc, pn.value, Pair(Missing, Present));
      }
    }
    return Ok(acc);
  }

  /** The ref loops of `get_diff`. */
  method RefDiffsOf(h1: Heap, h2: Heap, r1: D.ODict<string, NodeId>, r2: D.ODict<string, NodeId>)
    returns (r: Result<D.ODict<string, Diff>>)
    requires Closed(h1) && Closed(h2)
    requires (forall k | 0 <= k < |r1| :: r1[k].1 in h1) && (forall k | 0 <= k < |r2| :: r2[k].1 in h2)
    ensures RefsLeft(h1, h2, r1, r2, 0, []).Err? ==> r == RefsLeft(h1, h2, r1, r2, 0, [])
    ensures RefsLeft(h1, h2, r1, r2, 0, []).Ok? ==> r == Ok(RefsRight(r1, r2, 0, RefsLeft(h1, h2, r1, r2, 0, []).value))
  {
    var acc: D.ODict<string, Diff> := [];
    for i := 0 to |r1|
      invariant RefsLeft(h1, h2, r1, r2, 0, []) == RefsLeft(h1, h2, r1, r2, i, acc)
    {
      var y := D.Lookup(r2, r1[i].0);
      if y.None? {
        acc := D.Put(acc, r1[i].0, Pair(Present, Missing));
      } else {
        assert y.value == r2[D.IndexOf(r2, r1[i].0)].1;
        var sub := NodeDiffOf(h1, r1[i].1, h2, y.value, Depth(h1));
        if sub.Err? { return Err(sub.error); }
        if sub.value != [] {
          acc := D.Put(acc, r1[i].0, Nested(sub.value));
        }
      }
    }
    ghost var left := acc;
    for j := 0 to |r2|
      invariant RefsRight(r1, r2, 0, left) == RefsRight(r1, r2, j, acc)
    {
      if !D.Has(r1, r2[j].0) {
        acc := D.Put(acc, r2[j].0, Pair(Missing, Present));
      }
    }
    return Ok(acc);
  }

  /** `Comparator(dt1, dt2)`: the two trees and the report, None until
      `get_diff` runs. */
  class Comparator {
    const dt1: DeviceTree
    const dt2: DeviceTree
    var diff: Option<Report>

    constructor(t1: DeviceTree, t2: DeviceTree)
      ensures dt1 == t1 && dt2 == t2 && diff.None?
    {
      dt1 := t1;
      dt2 := t2;
      diff := None;
    }

    /** `missing_nodes()`: the paths of the first tree the second lacks, and
        the reverse. The source lists them in set order. */
    method MissingNodes() returns (r: Result<(set<string>, set<string>)>)
      requires dt1.Valid() && dt2.Valid()
      ensures r.Err? <==> PathRows(dt1.heap, dt1.entries).Err? || PathRows(dt2.heap, dt2.entries).Err?
      ensures r.Ok? ==> forall p ::
        && (p in r.value.0 <==> HasPath(dt1.State(), p) && !HasPath(dt2.State(), p))
        && (p in r.value.1 <==> HasPath(dt2.State(), p) && !HasPath(dt1.State(), p))
    {
      var p1 := dt1.NodePaths();
      if p1.Err? { return Err(p1.error); }
      var p2 := dt2.NodePaths();
      if p2.Err? { return Err(p2.error); }
      return Ok((p1.value - p2.value, p2.value - p1.value));
    }

    /** `_cleanup_diff()` */
    method CleanupDiff() returns (r: Outcome)
      modifies this
      ensures diff == Cleanup(old(diff)).report && r == Cleanup(old(diff)).outcome
    {
      if diff.None? { return Fail(TypeError); }
      var rp := diff.value;
      if rp.root.None? { return Fail(KeyError); }
      var rt := rp.root.value;
      if D.Has(rt, "nodes") && Len(D.Get(rt, "nodes")) == 0 {
        rt := D.Del(rt, "nodes");
      }
      var root := if rt == [] then None else Some(rt);
      diff := Some(rp.(root := root));
      if rp.refNodes.None? { return Fail(KeyError); }
      var rf := rp.refNodes.value;
      diff := Some(rp.(root := root, refNodes := if rf == [] then None else Some(rf)));
      return Pass;
    }

    /** `get_diff()`. When the comparison raises, the model does not say
        how much of the report the source had filled in. */
    method GetDiff() returns (r: Outcome)
      requires dt1.Valid() && dt2.Valid()
      modifies this
      ensures var rep := ReportOf(dt1.State(), dt2.State(), dt1.filename, dt2.filename);
        && (rep.Ok? ==> r == Pass && diff == Some(rep.value))
        && (rep.Err? ==> r == Fail(rep.error))
    {
      var x1 := dt1.GetNodeFromTuple(RootTuple);
      var x2 := dt2.GetNodeFromTuple(RootTuple);
      diff := Some(Report((dt1.filename, dt2.filename), Some([]), None));
      if x1.None? || x2.None? { return Fail(AttributeError); }
      var h1 := dt1.heap;
      var h2 := dt2.heap;
      var n1 := h1[x1.value];
      var n2 := h2[x2.value];
      var root := PropDiffsOf(n1.props, n2.props);
      var left := KidsLeftOf(h1, h2, n1.children, n2.children, false, Depth(h1));
      if left.Err? { return Fail(left.error); }
      var nodes := KidsRightOf(h1, h2, n1.children, n2.children, left.value);
      if nodes.Err? { return Fail(nodes.error); }
      root := D.Put(root, "nodes", Children(nodes.value));
      diff := Some(Report((dt1.filename, dt2.filename), Some(root), None));
      var r1 := dt1.NodesBy(ByRef);
      var r2 := dt2.NodesBy(ByRef);
      var refs := RefDiffsOf(h1, h2, r1, r2);
      if refs.Err? { return Fail(refs.error); }
      diff := Some(Report((dt1.filename, dt2.filename), Some(root), Some(refs.value)));
      r := CleanupDiff();
    }
  }
}
