/** The merge passes over the registry: `merge_refs` folds every
    `&label { ... }` block into the node carrying the label, `merge_paths`
    folds entries sharing a path into the first of them, `merge` runs both,
    and the earlier one-pass `merge_by_handle` folds every group of entries
    sharing a label or reference into its first labelled member. */
module Merging {
  import opened Wrappers
  import opened Nodes
  import opened Trees
  import opened Registry
  import D = ODicts

  /** The registry and the arena of nodes it points into. */
  datatype Arena = Arena(heap: Heap, entries: seq<Entry>)

  predicate Sound(a: Arena) {
    Closed(a.heap) && PropsOk(a.heap) && Increasing(a.entries) && Registered(a.heap, a.entries)
  }

  /** Where a pass stopped: the arena at that point and whether it raised. */
  datatype Step = Step(arena: Arena, outcome: Outcome)

  /** `parent.join(child)` */
  function Splice(h: Heap, p: NodeId, c: NodeId): (r: Heap)
    requires p in h && c in h && Closed(h) && PropsOk(h)
    ensures r.Keys == h.Keys && Closed(r) && PropsOk(r)
    ensures forall y | y in h :: r[y].ref == h[y].ref && r[y].nodename == h[y].nodename
  {
    JoinClosed(h, p, c);
    JoinHeap(h, p, c).value
  }

  /** `child.ref = None; parent.join(child)` when `clear` is set (in
      `merge_refs`), a plain `parent.join(child)` otherwise. */
  function Fold(h: Heap, p: NodeId, c: NodeId, clear: bool): (r: Heap)
    requires p in h && c in h && Closed(h) && PropsOk(h)
    ensures r.Keys == h.Keys && Closed(r) && PropsOk(r)
    ensures r[c].ref == (if clear then None else h[c].ref)
    ensures forall y | y in h && y != c :: r[y].ref == h[y].ref
  {
    if !clear then Splice(h, p, c)
    else
      var h1 := h[c := h[c].(ref := None)];
      ClosedUpdate(h, c, h1[c]);
      PropsUpdate(h, c, h1[c]);
      Splice(h1, p, c)
  }

  /** Replacing a node by one with the same properties keeps the property
      lists well formed. */
  lemma PropsUpdate(h: Heap, y: NodeId, r: NodeRec)
    requires PropsOk(h) && y in h && r.props == h[y].props
    ensures PropsOk(h[y := r])
  {
  }

  lemma RegisteredWithout(h: Heap, es: seq<Entry>, ks: set<nat>)
    requires Registered(h, es)
    ensures Registered(h, Without(es, ks))
  {
    var w := Without(es, ks);
    forall i | 0 <= i < |w| ensures w[i].id in h {
      assert w[i] in w;
      var j :| 0 <= j < |es| && es[j] == w[i];
    }
  }

  lemma PoppedSound(a: Arena, k: nat)
    requires Sound(a) && Pop(a.entries, k).Ok?
    ensures Pop(a.entries, k).value.0 in a.heap
    ensures Increasing(Pop(a.entries, k).value.1) && Registered(a.heap, Pop(a.entries, k).value.1)
  {
    PopIsWithout(a.entries, k);
    WithoutIncreasing(a.entries, {k});
    RegisteredWithout(a.heap, a.entries, {k});
    var j := Slot(a.entries, k).value;
    assert a.entries[j].id in a.heap;
  }

  lemma AtSound(a: Arena, k: nat)
    requires Sound(a) && At(a.entries, k).Ok?
    ensures At(a.entries, k).value in a.heap
  {
    var j :| 0 <= j < |a.entries| && a.entries[j] == Entry(k, At(a.entries, k).value);
  }

  // ----- merge_refs -----

  /** The registry side of the inner loop of `merge_refs`: the handles of
      the group still registered are popped in turn, the others skipped. */
  function PopAll(es: seq<Entry>, idx: seq<nat>, n: nat): (r: seq<Entry>)
    requires n <= |idx|
    ensures forall e | e in r :: e in es
    decreases n
  {
    if n == 0 then es
    else
      PopOne(PopAll(es, idx, n - 1), idx[n - 1])
  }

  /** One `pop(k, None)`: the registry without `k` when `k` is there. */
  function PopOne(es: seq<Entry>, k: nat): (r: seq<Entry>)
    ensures forall e | e in r :: e in es
  {
    match Pop(es, k)
    case Err(_) => es
    case Ok(popped) => PopIsIn(es, k); popped.1
  }

  lemma PopIsIn(es: seq<Entry>, k: nat)
    requires Pop(es, k).Ok?
    ensures forall e | e in Pop(es, k).value.1 :: e in es
    ensures exists e | e in es :: e.id == Pop(es, k).value.0
  {
    var j := Slot(es, k).value;
    assert es[j] in es;
    forall e | e in Pop(es, k).value.1 ensures e in es {
      assert e in es[..j] || e in es[j + 1..];
    }
  }

  /** The nodes popped, in order. */
  function Popped(es: seq<Entry>, idx: seq<nat>, n: nat): (r: seq<NodeId>)
    requires n <= |idx|
    ensures forall c | c in r :: exists e | e in es :: e.id == c
    decreases n
  {
    if n == 0 then []
    else
      var r := PopAll(es, idx, n - 1);
      var front := Popped(es, idx, n - 1);
      match Pop(r, idx[n - 1])
      case Err(_) => front
      case Ok(popped) => PopIsIn(r, idx[n - 1]); front + [popped.0]
  }

  /** The arena side: each popped node loses its reference and is joined
      into the labelled node. */
  function FoldAll(h: Heap, p: NodeId, cs: seq<NodeId>, clear: bool): (r: Heap)
    requires p in h && Closed(h) && PropsOk(h) && forall c | c in cs :: c in h
    ensures r.Keys == h.Keys && Closed(r) && PropsOk(r)
    decreases |cs|
  {
    if cs == [] then h
    else
      assert forall c | c in cs[..|cs| - 1] :: c in cs;
      Fold(FoldAll(h, p, cs[..|cs| - 1], clear), p, cs[|cs| - 1], clear)
  }

  /** Every node the inner loop folds has its reference cleared ... */
  lemma {:induction false} FoldAllClears(h: Heap, p: NodeId, cs: seq<NodeId>, c: NodeId)
    requires p in h && Closed(h) && PropsOk(h) && (forall c | c in cs :: c in h) && c in cs
    ensures FoldAll(h, p, cs, true)[c].ref == None
    decreases |cs|
  {
    var front := cs[..|cs| - 1];
    var last := cs[|cs| - 1];
    assert forall c | c in front :: c in cs;
    if c != last {
      assert c in front by { assert cs == front + [last]; }
      FoldAllClears(h, p, front, c);
    }
  }

  /** ... and no other node's reference changes. */
  lemma {:induction false} FoldAllKeeps(h: Heap, p: NodeId, cs: seq<NodeId>, clear: bool, y: NodeId)
    requires p in h && Closed(h) && PropsOk(h) && (forall c | c in cs :: c in h) && y in h && (clear ==> y !in cs)
    ensures FoldAll(h, p, cs, clear)[y].ref == h[y].ref
    decreases |cs|
  {
    if cs != [] {
      var front := cs[..|cs| - 1];
      assert forall c | c in front :: c in cs;
      FoldAllKeeps(h, p, front, clear, y);
    }
  }

  /** A node whose reference is already cleared stays so through a fold. */
  lemma FoldAllKeepsCleared(h: Heap, p: NodeId, cs: seq<NodeId>, clear: bool, y: NodeId)
    requires p in h && Closed(h) && PropsOk(h) && (forall c | c in cs :: c in h) && y in h && h[y].ref == None
    ensures FoldAll(h, p, cs, clear)[y].ref == None
  {
    if clear && y in cs { FoldAllClears(h, p, cs, y); } else { FoldAllKeeps(h, p, cs, clear, y); }
  }

  function Members(idx: seq<nat>, n: nat): set<nat>
    requires n <= |idx|
  {
    set i | 0 <= i < n :: idx[i]
  }

  lemma MembersStep(idx: seq<nat>, n: nat)
    requires 0 < n <= |idx|
    ensures Members(idx, n) == Members(idx, n - 1) + {idx[n - 1]}
  {
  }

  lemma WithoutAbsent(es: seq<Entry>, ks: set<nat>, k: nat)
    requires forall j | 0 <= j < |Without(es, ks)| :: Without(es, ks)[j].key != k
    ensures Without(es, ks + {k}) == Without(es, ks)
  {
    WithoutTwice(es, ks, {k});
    WithoutNothing(Without(es, ks), {k});
  }

  /** The inner loop pops exactly the group's registered handles. */
  lemma {:induction false} PopAllWithout(es: seq<Entry>, idx: seq<nat>, n: nat)
    requires Increasing(es) && n <= |idx|
    ensures PopAll(es, idx, n) == Without(es, Members(idx, n))
    decreases n
  {
    if n == 0 {
      assert Members(idx, 0) == {};
      WithoutEmpty(es);
    } else {
      var ks := Members(idx, n - 1);
      var k := idx[n - 1];
      PopAllWithout(es, idx, n - 1);
      PopOneWithout(es, ks, k);
      MembersStep(idx, n);
      calc {
        PopAll(es, idx, n);
        PopOne(PopAll(es, idx, n - 1), k);
        PopOne(Without(es, ks), k);
        Without(es, ks + {k});
      }
    }
  }

  /** Popping one more handle from a registry with some handles removed
      removes that handle too. */
  lemma PopOneWithout(es: seq<Entry>, ks: set<nat>, k: nat)
    requires Increasing(es)
    ensures PopOne(Without(es, ks), k) == Without(es, ks + {k})
  {
    if Pop(Without(es, ks), k).Ok? {
      PopWithout(es, ks, k);
    } else {
      WithoutAbsent(es, ks, k);
    }
  }

  lemma MembersAll(idx: seq<nat>)
    ensures Members(idx, |idx|) == set i | i in idx
  {
    forall x | x in idx ensures x in Members(idx, |idx|) {
      var i :| 0 <= i < |idx| && idx[i] == x;
    }
  }

  lemma WithoutEmpty(es: seq<Entry>)
    ensures Without(es, {}) == es
  {
    WithoutNothing(es, {});
  }

  /** The nodes popped are exactly those registered under the group's
      handles. */
  lemma {:induction false} PoppedNodes(es: seq<Entry>, idx: seq<nat>, n: nat, j: nat)
    requires Increasing(es) && n <= |idx| && j < |es| && es[j].key in Members(idx, n)
    ensures es[j].id in Popped(es, idx, n)
    decreases n
  {
    if n > 0 {
      var k := idx[n - 1];
      if es[j].key in Members(idx, n - 1) {
        PoppedNodes(es, idx, n - 1, j);
      } else {
        assert es[j].key == k;
        PopAllWithout(es, idx, n - 1);
        var r := PopAll(es, idx, n - 1);
        assert es[j] in r;
        var t :| 0 <= t < |r| && r[t] == es[j];
        WithoutIncreasing(es, Members(idx, n - 1));
        SlotOf(r, t);
        assert Pop(r, k).value.0 == es[j].id;
      }
    }
  }

  /** The handles `merge_refs` removes from the registry in its first `n`
      groups: those of every group whose reference is somebody's label. */
  function Folded(refs: Groups, labels: Groups, n: nat): set<nat>
    requires n <= |refs|
  {
    if n == 0 then {}
    else
      var here := if D.Has(labels, refs[n - 1].0) then Members(refs[n - 1].1, |refs[n - 1].1|) else {};
      Folded(refs, labels, n - 1) + here
  }

  /** Membership in `Folded`, one group at a time. */
  predicate IsFolded(refs: Groups, labels: Groups, n: nat, k: nat)
    requires n <= |refs|
  {
    n > 0 && (IsFolded(refs, labels, n - 1, k) || (D.Has(labels, refs[n - 1].0) && k in refs[n - 1].1))
  }

  lemma {:induction false} IsFoldedSpec(refs: Groups, labels: Groups, n: nat, k: nat)
    requires n <= |refs|
    ensures IsFolded(refs, labels, n, k) <==> k in Folded(refs, labels, n)
    decreases n
  {
    if n > 0 {
      IsFoldedSpec(refs, labels, n - 1, k);
      MembersAll(refs[n - 1].1);
    }
  }

  /** One batch of joins: the nodes `cs` are folded into `p`, their
      references cleared first when `clear` is set. */
  datatype Absorption = Absorption(p: NodeId, cs: seq<NodeId>, clear: bool)

  /** The registry side of a pass: the entries left, whether it raised, and
      the joins it performed, in order. */
  datatype Ledger = Ledger(entries: seq<Entry>, outcome: Outcome, folds: seq<Absorption>)

  /** Every node a join names is registered in `es`. */
  predicate Drawn(es: seq<Entry>, f: Absorption) {
    (exists e | e in es :: e.id == f.p) && forall c | c in f.cs :: exists e | e in es :: e.id == c
  }

  /** The first `n` groups of `merge_refs`, on the registry: a reference
      that is nobody's label is left alone; otherwise exactly one entry may
      carry the label, and every registered index of the group is popped
      and joined into that entry's node. */
  function RefLedger(es: seq<Entry>, refs: Groups, labels: Groups, n: nat): (r: Ledger)
    requires n <= |refs|
    ensures forall e | e in r.entries :: e in es
    ensures forall f | f in r.folds :: Drawn(es, f) && f.clear
    decreases n
  {
    if n == 0 then Ledger(es, Pass, [])
    else
      var l := RefLedger(es, refs, labels, n - 1);
      var r := refs[n - 1].0;
      var idx := refs[n - 1].1;
      if l.outcome.Fail? || !D.Has(labels, r) then l
      else if |D.Get(labels, r)| != 1 then Ledger(l.entries, Fail(AssertionError), l.folds)
      else match At(l.entries, D.Get(labels, r)[0])
        case Err(e) => Ledger(l.entries, Fail(e), l.folds)
        case Ok(p) =>
          var f := Absorption(p, Popped(l.entries, idx, |idx|), true);
          assert Drawn(es, f) by {
            var j :| 0 <= j < |l.entries| && l.entries[j] == Entry(D.Get(labels, r)[0], p);
            assert l.entries[j] in es;
            forall c | c in f.cs ensures exists e | e in es :: e.id == c {
              var e :| e in l.entries && e.id == c;
            }
          }
          Ledger(PopAll(l.entries, idx, |idx|), Pass, l.folds + [f])
  }

  /** Each node of a join plan is in the heap. */
  predicate InHeap(h: Heap, fs: seq<Absorption>) {
    forall f | f in fs :: f.p in h && forall c | c in f.cs :: c in h
  }

  lemma DrawnInHeap(h: Heap, es: seq<Entry>, fs: seq<Absorption>)
    requires Registered(h, es) && forall f | f in fs :: Drawn(es, f)
    ensures InHeap(h, fs)
  {
    forall f | f in fs ensures f.p in h && forall c | c in f.cs :: c in h {
      var e :| e in es && e.id == f.p;
      forall c | c in f.cs ensures c in h {
        var e' :| e' in es && e'.id == c;
      }
    }
  }

  /** The arena side: the joins of a plan, in order, each one clearing the
      child's reference first. */
  function ApplyFolds(h: Heap, fs: seq<Absorption>): (r: Heap)
    requires Closed(h) && PropsOk(h) && InHeap(h, fs)
    ensures r.Keys == h.Keys && Closed(r) && PropsOk(r)
    decreases |fs|
  {
    if fs == [] then h
    else
      var front := fs[..|fs| - 1];
      var f := fs[|fs| - 1];
      assert forall g | g in front :: g in fs;
      assert f in fs;
      FoldAll(ApplyFolds(h, front), f.p, f.cs, f.clear)
  }

  /** `_node_indexes_by_ref()` and `_node_indexes_by_handle()` */
  function RefIndexes(a: Arena): Groups
    requires Registered(a.heap, a.entries)
  {
    Group(Rows(RefTags, a.heap, a.entries))
  }

  function LabelIndexes(a: Arena): Groups
    requires Registered(a.heap, a.entries)
  {
    Group(Rows(HandleTags, a.heap, a.entries))
  }

  /** `merge_refs`: the registry pass, and its joins applied to the arena. */
  function MergeRefs(a: Arena): (s: Step)
    requires Sound(a)
    ensures Sound(s.arena) && s.arena.heap.Keys == a.heap.Keys
  {
    var refs := RefIndexes(a);
    var l := RefLedger(a.entries, refs, LabelIndexes(a), |refs|);
    DrawnInHeap(a.heap, a.entries, l.folds);
    RefLedgerSound(a.entries, refs, LabelIndexes(a), |refs|);
    RegisteredSub(a.heap, a.entries, l.entries);
    Step(Arena(ApplyFolds(a.heap, l.folds), l.entries), l.outcome)
  }

  lemma RegisteredSub(h: Heap, es: seq<Entry>, sub: seq<Entry>)
    requires Registered(h, es) && forall e | e in sub :: e in es
    ensures Registered(h, sub)
  {
    forall i | 0 <= i < |sub| ensures sub[i].id in h {
      assert sub[i] in sub;
      var j :| 0 <= j < |es| && es[j] == sub[i];
    }
  }

  /** When the pass completes, exactly the folded handles have left the
      registry, and the remaining entries keep their order. */
  lemma {:induction false} RefLedgerRegistry(es: seq<Entry>, refs: Groups, labels: Groups, n: nat)
    requires Increasing(es) && n <= |refs| && RefLedger(es, refs, labels, n).outcome == Pass
    ensures RefLedger(es, refs, labels, n).entries == Without(es, Folded(refs, labels, n))
    decreases n
  {
    if n == 0 {
      WithoutEmpty(es);
    } else {
      var l := RefLedger(es, refs, labels, n - 1);
      RefLedgerRegistry(es, refs, labels, n - 1);
      var idx := refs[n - 1].1;
      if D.Has(labels, refs[n - 1].0) {
        WithoutIncreasing(es, Folded(refs, labels, n - 1));
        PopAllWithout(l.entries, idx, |idx|);
        WithoutTwice(es, Folded(refs, labels, n - 1), Members(idx, |idx|));
      } else {
        assert Folded(refs, labels, n) == Folded(refs, labels, n - 1);
      }
    }
  }

  /** The registry stays strictly increasing, whatever the outcome. */
  lemma {:induction false} RefLedgerSound(es: seq<Entry>, refs: Groups, labels: Groups, n: nat)
    requires Increasing(es) && n <= |refs|
    ensures Increasing(RefLedger(es, refs, labels, n).entries)
    decreases n
  {
    if n > 0 {
      var l := RefLedger(es, refs, labels, n - 1);
      RefLedgerSound(es, refs, labels, n - 1);
      var idx := refs[n - 1].1;
      PopAllWithout(l.entries, idx, |idx|);
      WithoutIncreasing(l.entries, Members(idx, |idx|));
    }
  }

  /** The only errors are the duplicate-label assertion and a labelled
      node that has already left the registry; a completed pass found
      exactly one node for every label it used, and a failed assertion
      points at a label carried by several nodes. */
  lemma {:induction false} RefLedgerOutcome(es: seq<Entry>, refs: Groups, labels: Groups, n: nat)
    requires n <= |refs|
    ensures RefLedger(es, refs, labels, n).outcome in {Pass, Fail(AssertionError), Fail(KeyError)}
    ensures RefLedger(es, refs, labels, n).outcome == Pass ==>
      forall i | 0 <= i < n && D.Has(labels, refs[i].0) :: |D.Get(labels, refs[i].0)| == 1
    ensures RefLedger(es, refs, labels, n).outcome == Fail(AssertionError) ==>
      exists i | 0 <= i < n :: D.Has(labels, refs[i].0) && |D.Get(labels, refs[i].0)| != 1
    decreases n
  {
    if n > 0 {
      RefLedgerOutcome(es, refs, labels, n - 1);
    }
  }

  /** An entry whose handle no group folded is still registered. */
  lemma RefLedgerKeeps(es: seq<Entry>, refs: Groups, labels: Groups, n: nat, e: Entry)
    requires Increasing(es) && n <= |refs| && RefLedger(es, refs, labels, n).outcome == Pass
    requires e in es && !IsFolded(refs, labels, n, e.key)
    ensures e in RefLedger(es, refs, labels, n).entries
  {
    IsFoldedSpec(refs, labels, n, e.key);
    RefLedgerRegistry(es, refs, labels, n);
  }

  /** A completed group that used a label appends one batch of joins: the
      nodes it popped, folded into the node still registered under the
      one handle that carries the label. */
  lemma RefLedgerLast(es: seq<Entry>, refs: Groups, labels: Groups, n: nat)
    requires 0 < n <= |refs| && RefLedger(es, refs, labels, n).outcome == Pass && D.Has(labels, refs[n - 1].0)
    ensures RefLedger(es, refs, labels, n - 1).outcome == Pass
    ensures |D.Get(labels, refs[n - 1].0)| == 1
    ensures At(RefLedger(es, refs, labels, n - 1).entries, D.Get(labels, refs[n - 1].0)[0]).Ok?
    ensures RefLedger(es, refs, labels, n).folds == RefLedger(es, refs, labels, n - 1).folds +
      [Absorption(At(RefLedger(es, refs, labels, n - 1).entries, D.Get(labels, refs[n - 1].0)[0]).value,
        Popped(RefLedger(es, refs, labels, n - 1).entries, refs[n - 1].1, |refs[n - 1].1|), true)]
  {
  }

  /** The group that first folds a handle joins its node. */
  lemma RefLedgerJoinsNew(es: seq<Entry>, refs: Groups, labels: Groups, n: nat, e: Entry)
    requires Increasing(es) && 0 < n <= |refs| && RefLedger(es, refs, labels, n).outcome == Pass
    requires e in es && !IsFolded(refs, labels, n - 1, e.key)
    requires D.Has(labels, refs[n - 1].0) && e.key in refs[n - 1].1
    ensures e.id in RefLedger(es, refs, labels, n).folds[|RefLedger(es, refs, labels, n).folds| - 1].cs
  {
    RefLedgerLast(es, refs, labels, n);
    var l := RefLedger(es, refs, labels, n - 1);
    var idx := refs[n - 1].1;
    RefLedgerKeeps(es, refs, labels, n - 1, e);
    RefLedgerSound(es, refs, labels, n - 1);
    var t :| 0 <= t < |l.entries| && l.entries[t] == e;
    MembersAll(idx);
    PoppedNodes(l.entries, idx, |idx|, t);
  }

  /** Every entry under a folded handle is among the joined children. */
  lemma {:induction false} RefLedgerJoins(es: seq<Entry>, refs: Groups, labels: Groups, n: nat, e: Entry)
    requires Increasing(es) && n <= |refs| && RefLedger(es, refs, labels, n).outcome == Pass
    requires e in es && IsFolded(refs, labels, n, e.key)
    ensures exists i | 0 <= i < |RefLedger(es, refs, labels, n).folds| :: e.id in RefLedger(es, refs, labels, n).folds[i].cs
    decreases n
  {
    var l := RefLedger(es, refs, labels, n - 1);
    var fs := RefLedger(es, refs, labels, n).folds;
    if IsFolded(refs, labels, n - 1, e.key) {
      RefLedgerJoins(es, refs, labels, n - 1, e);
      var i :| 0 <= i < |l.folds| && e.id in l.folds[i].cs;
      assert fs[i] == l.folds[i];
    } else {
      RefLedgerJoinsNew(es, refs, labels, n, e);
      assert e.id in fs[|fs| - 1].cs;
    }
  }

  /** A node among the children of some join ends with its reference cleared. */
  lemma {:induction false} ApplyFoldsClears(h: Heap, fs: seq<Absorption>, i: nat, c: NodeId)
    requires Closed(h) && PropsOk(h) && InHeap(h, fs) && i < |fs| && fs[i].clear && c in fs[i].cs
    ensures ApplyFolds(h, fs)[c].ref == None
    decreases |fs|
  {
    var front := fs[..|fs| - 1];
    var f := fs[|fs| - 1];
    assert forall g | g in front :: g in fs;
    assert f in fs;
    var g0 := ApplyFolds(h, front);
    assert f.p in g0 && forall x | x in f.cs :: x in g0;
    if i == |fs| - 1 {
      FoldAllClears(g0, f.p, f.cs, c);
    } else {
      assert front[i] == fs[i];
      ApplyFoldsClears(h, front, i, c);
      FoldAllKeepsCleared(g0, f.p, f.cs, f.clear, c);
    }
  }

  /** A node that no clearing join takes as a child keeps its reference. */
  lemma {:induction false} ApplyFoldsKeeps(h: Heap, fs: seq<Absorption>, y: NodeId)
    requires Closed(h) && PropsOk(h) && InHeap(h, fs) && y in h && forall f | f in fs :: f.clear ==> y !in f.cs
    ensures ApplyFolds(h, fs)[y].ref == h[y].ref
    decreases |fs|
  {
    if fs != [] {
      var front := fs[..|fs| - 1];
      var f := fs[|fs| - 1];
      assert forall g | g in front :: g in fs;
      assert f in fs;
      ApplyFoldsKeeps(h, front, y);
      var g0 := ApplyFolds(h, front);
      assert f.p in g0 && y in g0 && forall x | x in f.cs :: x in g0;
      FoldAllKeeps(g0, f.p, f.cs, f.clear, y);
    }
  }

  /** `merge_refs` end to end: on completion the folded handles are gone
      from the registry and each node they named has its reference
      cleared. */
  lemma MergeRefsSpec(a: Arena, e: Entry)
    requires Sound(a) && MergeRefs(a).outcome == Pass
    requires e in a.entries && IsFolded(RefIndexes(a), LabelIndexes(a), |RefIndexes(a)|, e.key)
    ensures MergeRefs(a).arena.entries == Without(a.entries, Folded(RefIndexes(a), LabelIndexes(a), |RefIndexes(a)|))
    ensures MergeRefs(a).arena.heap[e.id].ref == None
  {
    var refs := RefIndexes(a);
    var labels := LabelIndexes(a);
    var l := RefLedger(a.entries, refs, labels, |refs|);
    RefLedgerRegistry(a.entries, refs, labels, |refs|);
    RefLedgerJoins(a.entries, refs, labels, |refs|, e);
    DrawnInHeap(a.heap, a.entries, l.folds);
    var i :| 0 <= i < |l.folds| && e.id in l.folds[i].cs;
    assert l.folds[i] in l.folds;
    ApplyFoldsClears(a.heap, l.folds, i, e.id);
  }

  /** Group `n` of `merge_refs` on the arena: when its reference is a
      label, the nodes it popped are joined, each with its reference
      cleared first, into the node registered under the label's handle;
      any other group leaves the arena as it was. */
  lemma MergeRefsGroup(a: Arena, n: nat)
    requires Sound(a) && 0 < n <= |RefIndexes(a)|
    requires RefLedger(a.entries, RefIndexes(a), LabelIndexes(a), n).outcome == Pass
    ensures var refs := RefIndexes(a); var labels := LabelIndexes(a);
      var l0 := RefLedger(a.entries, refs, labels, n - 1);
      var l := RefLedger(a.entries, refs, labels, n);
      && InHeap(a.heap, l0.folds) && InHeap(a.heap, l.folds)
      && (!D.Has(labels, refs[n - 1].0) ==> ApplyFolds(a.heap, l.folds) == ApplyFolds(a.heap, l0.folds))
      && (D.Has(labels, refs[n - 1].0) ==>
            && |D.Get(labels, refs[n - 1].0)| == 1
            && At(l0.entries, D.Get(labels, refs[n - 1].0)[0]).Ok?
            && var p := At(l0.entries, D.Get(labels, refs[n - 1].0)[0]).value;
               var cs := Popped(l0.entries, refs[n - 1].1, |refs[n - 1].1|);
               && p in ApplyFolds(a.heap, l0.folds) && (forall c | c in cs :: c in ApplyFolds(a.heap, l0.folds))
               && ApplyFolds(a.heap, l.folds) == FoldAll(ApplyFolds(a.heap, l0.folds), p, cs, true))
  {
    var refs := RefIndexes(a);
    var labels := LabelIndexes(a);
    var l0 := RefLedger(a.entries, refs, labels, n - 1);
    var l := RefLedger(a.entries, refs, labels, n);
    DrawnInHeap(a.heap, a.entries, l0.folds);
    DrawnInHeap(a.heap, a.entries, l.folds);
    if D.Has(labels, refs[n - 1].0) {
      RefLedgerLast(a.entries, refs, labels, n);
      ApplyFoldsSnoc(a.heap, l0.folds, l.folds[|l.folds| - 1]);
    }
  }

  /** One more join in a plan folds into the heap the earlier joins left. */
  lemma ApplyFoldsSnoc(h: Heap, fs: seq<Absorption>, f: Absorption)
    requires Closed(h) && PropsOk(h) && InHeap(h, fs + [f])
    ensures InHeap(h, fs) && f.p in ApplyFolds(h, fs) && (forall c | c in f.cs :: c in ApplyFolds(h, fs))
    ensures ApplyFolds(h, fs + [f]) == FoldAll(ApplyFolds(h, fs), f.p, f.cs, f.clear)
  {
    var g := fs + [f];
    assert g[..|g| - 1] == fs;
    assert g[|g| - 1] == f;
    assert InHeap(h, fs) by {
      forall k | k in fs ensures k.p in h && forall c | c in k.cs :: c in h {
        assert k in g;
      }
    }
    assert f in g;
  }

  // ----- merge_paths -----

  /** Only the groups that hold more than one node, in their order. */
  function Multi(g: Groups): (r: Groups)
    ensures forall x | x in r :: x in g && |x.1| > 1
    ensures forall x | x in g && |x.1| > 1 :: x in r
    decreases |g|
  {
    if g == [] then []
    else
      var front := g[..|g| - 1];
      var last := g[|g| - 1];
      assert forall x | x in front :: x in g;
      assert g == front + [last];
      Multi(front) + (if |last.1| > 1 then [last] else [])
  }

  /** The inner loop of `merge_paths`: each index is popped in turn, and a
      missing one raises `KeyError`, stopping the loop. */
  datatype Pops = Pops(entries: seq<Entry>, cs: seq<NodeId>, outcome: Outcome)

  /** The `i`-th of `cs` is the node `es` stores under the `i`-th of `ks`,
      stated one element at a time (see `NamedSpec`). */
  predicate Named(es: seq<Entry>, ks: seq<nat>, cs: seq<NodeId>)
    decreases |cs|
  {
    && |cs| <= |ks|
    && (cs == [] || (Named(es, ks, cs[..|cs| - 1]) && Entry(ks[|cs| - 1], cs[|cs| - 1]) in es))
  }

  lemma {:induction false} NamedSpec(es: seq<Entry>, ks: seq<nat>, cs: seq<NodeId>)
    ensures Named(es, ks, cs) <==> |cs| <= |ks| && forall i | 0 <= i < |cs| :: Entry(ks[i], cs[i]) in es
    decreases |cs|
  {
    if cs != [] {
      var front := cs[..|cs| - 1];
      NamedSpec(es, ks, front);
      assert forall i | 0 <= i < |front| :: front[i] == cs[i];
    }
  }

  /** `Named` survives a larger registry. */
  lemma NamedGrows(es: seq<Entry>, more: seq<Entry>, ks: seq<nat>, cs: seq<NodeId>)
    requires Named(es, ks, cs) && forall e | e in es :: e in more
    ensures Named(more, ks, cs)
  {
    NamedSpec(es, ks, cs);
    NamedSpec(more, ks, cs);
  }

  function PopEach(es: seq<Entry>, ks: seq<nat>, n: nat): (r: Pops)
    requires n <= |ks|
    ensures r.outcome == Pass || r.outcome == Fail(KeyError)
    ensures |r.cs| <= n && (r.outcome == Pass ==> |r.cs| == n)
    ensures forall e | e in r.entries :: e in es
    ensures Named(es, ks, r.cs)
    decreases n
  {
    if n == 0 then Pops(es, [], Pass)
    else
      var r := PopEach(es, ks, n - 1);
      if r.outcome.Fail? then r
      else match Pop(r.entries, ks[n - 1])
        case Err(e) => Pops(r.entries, r.cs, Fail(e))
        case Ok(popped) =>
          PopIsIn(r.entries, ks[n - 1]);
          PopEntry(r.entries, ks[n - 1]);
          var cs := r.cs + [popped.0];
          assert cs[..|cs| - 1] == r.cs;
          Pops(popped.1, cs, Pass)
  }

  /** With strictly increasing handles, removing other handles does not
      change what a handle maps to. */
  lemma AtWithout(es: seq<Entry>, ks: set<nat>, k: nat)
    requires Increasing(es) && At(Without(es, ks), k).Ok?
    ensures At(es, k) == At(Without(es, ks), k)
  {
    var w := Without(es, ks);
    var v := At(w, k).value;
    var j :| 0 <= j < |w| && w[j] == Entry(k, v);
    assert w[j] in w;
    var i :| 0 <= i < |es| && es[i] == Entry(k, v);
    SlotOf(es, i);
  }


  /** A completed inner loop removed exactly its indexes ... */
  lemma {:induction false} PopEachRegistry(es: seq<Entry>, ks: seq<nat>, n: nat)
    requires Increasing(es) && n <= |ks| && PopEach(es, ks, n).outcome == Pass
    ensures PopEach(es, ks, n).entries == Without(es, Members(ks, n))
    decreases n
  {
    if n == 0 {
      assert Members(ks, 0) == {};
      WithoutEmpty(es);
    } else {
      var r := PopEach(es, ks, n - 1);
      var k := ks[n - 1];
      assert r.outcome == Pass && Pop(r.entries, k).Ok?;
      assert PopEach(es, ks, n).entries == Pop(r.entries, k).value.1;
      PopEachRegistry(es, ks, n - 1);
      MembersStep(ks, n);
      PopWithout(es, Members(ks, n - 1), k);
    }
  }

  /** The indexes `merge_paths` drops from the registry in its first `n`
      groups: all but the first of each. */
  function Dropped(groups: Groups, n: nat): set<nat>
    requires n <= |groups|
  {
    if n == 0 then {}
    else
      var idx := groups[n - 1].1;
      var here := if idx == [] then {} else Members(idx[1..], |idx| - 1);
      Dropped(groups, n - 1) + here
  }

  /** The first `n` groups of `merge_paths`, on the registry: the first
      index of each group names the surviving node, and every other index
      is popped and joined into it, in order. */
  function PathLedger(es: seq<Entry>, groups: Groups, n: nat): Ledger
    requires n <= |groups|
    decreases n
  {
    if n == 0 then Ledger(es, Pass, [])
    else
      var l := PathLedger(es, groups, n - 1);
      var idx := groups[n - 1].1;
      if l.outcome.Fail? then l
      else if idx == [] then Ledger(l.entries, Fail(IndexError), l.folds)
      else match At(l.entries, idx[0])
        case Err(e) => Ledger(l.entries, Fail(e), l.folds)
        case Ok(p) =>
          var r := PopEach(l.entries, idx[1..], |idx| - 1);
          Ledger(r.entries, r.outcome, l.folds + [Absorption(p, r.cs, false)])
  }

  /** After the first `n` groups of `merge_paths` the registry has only
      shrunk, and every batch joins registered nodes. */
  predicate DrawnAfter(es: seq<Entry>, groups: Groups, n: nat)
    requires n <= |groups|
  {
    && (forall e | e in PathLedger(es, groups, n).entries :: e in es)
    && (forall f | f in PathLedger(es, groups, n).folds :: Drawn(es, f) && !f.clear)
  }

  lemma {:induction false} PathLedgerDrawn(es: seq<Entry>, groups: Groups, n: nat)
    requires n <= |groups|
    ensures DrawnAfter(es, groups, n)
    decreases n, 1
  {
    if n > 0 {
      PathLedgerDrawnBefore(es, groups, n);
      var l := PathLedger(es, groups, n - 1);
      var idx := groups[n - 1].1;
      if l.outcome == Pass && idx != [] && At(l.entries, idx[0]).Ok? {
        DrawnStep(es, l.entries, l.folds, idx, At(l.entries, idx[0]).value);
      }
    }
  }

  /** The induction hypothesis of `PathLedgerDrawn`, stated at `n`. */
  lemma PathLedgerDrawnBefore(es: seq<Entry>, groups: Groups, n: nat)
    requires 0 < n <= |groups|
    ensures DrawnAfter(es, groups, n - 1) == true
    decreases n, 0
  {
    PathLedgerDrawn(es, groups, n - 1);
  }

  /** One group's inner loop, from a registry drawn from `es`, keeps the
      registry drawn from `es` and adds a batch of registered nodes. */
  lemma DrawnStep(es: seq<Entry>, rest: seq<Entry>, folds: seq<Absorption>, idx: seq<nat>, p: NodeId)
    requires |idx| > 0 && At(rest, idx[0]) == Ok(p) && forall e | e in rest :: e in es
    requires forall f | f in folds :: Drawn(es, f) && !f.clear
    ensures forall e | e in PopEach(rest, idx[1..], |idx| - 1).entries :: e in es
    ensures forall f | f in folds + [Absorption(p, PopEach(rest, idx[1..], |idx| - 1).cs, false)] ::
      Drawn(es, f) && !f.clear
  {
    var r := PopEach(rest, idx[1..], |idx| - 1);
    var f := Absorption(p, r.cs, false);
    var j :| 0 <= j < |rest| && rest[j] == Entry(idx[0], p);
    assert rest[j] in rest;
    NamedSpec(rest, idx[1..], f.cs);
    forall c | c in f.cs ensures exists e | e in es :: e.id == c {
      var i :| 0 <= i < |f.cs| && f.cs[i] == c;
      assert Entry(idx[1..][i], c) in rest;
    }
    assert Drawn(es, f);
  }

  /** The registry stays strictly increasing, whatever the outcome. */
  lemma {:induction false} PopEachSound(es: seq<Entry>, ks: seq<nat>, n: nat)
    requires Increasing(es) && n <= |ks|
    ensures Increasing(PopEach(es, ks, n).entries)
    decreases n
  {
    if n > 0 {
      var r := PopEach(es, ks, n - 1);
      PopEachSound(es, ks, n - 1);
      if r.outcome == Pass && Pop(r.entries, ks[n - 1]).Ok? {
        PopIsWithout(r.entries, ks[n - 1]);
        WithoutIncreasing(r.entries, {ks[n - 1]});
      }
    }
  }

  lemma {:induction false} PathLedgerSound(es: seq<Entry>, groups: Groups, n: nat)
    requires Increasing(es) && n <= |groups|
    ensures Increasing(PathLedger(es, groups, n).entries)
    decreases n
  {
    if n > 0 {
      var l := PathLedger(es, groups, n - 1);
      PathLedgerSound(es, groups, n - 1);
      var idx := groups[n - 1].1;
      if idx != [] {
        PopEachSound(l.entries, idx[1..], |idx| - 1);
      }
    }
  }

  /** When the pass completes, exactly the dropped indexes have left the
      registry: the first index of every group stays. */
  predicate RegistryAfter(es: seq<Entry>, groups: Groups, n: nat)
    requires n <= |groups|
  {
    PathLedger(es, groups, n).outcome == Pass ==>
      PathLedger(es, groups, n).entries == Without(es, Dropped(groups, n))
  }

  lemma {:induction false} PathLedgerRegistry(es: seq<Entry>, groups: Groups, n: nat)
    requires Increasing(es) && n <= |groups|
    ensures RegistryAfter(es, groups, n)
    decreases n, 1
  {
    if n == 0 {
      WithoutEmpty(es);
    } else {
      PathLedgerRegistryBefore(es, groups, n);
      if PathLedger(es, groups, n).outcome == Pass {
        PathLedgerStep(es, groups, n);
        PathLedgerStepEntries(es, groups, n);
        var ks := groups[n - 1].1[1..];
        assert Dropped(groups, n) == Dropped(groups, n - 1) + Members(ks, |ks|);
        PopEachWithout(es, Dropped(groups, n - 1), ks);
      }
    }
  }

  /** The induction hypothesis of `PathLedgerRegistry`, stated at `n`. */
  lemma PathLedgerRegistryBefore(es: seq<Entry>, groups: Groups, n: nat)
    requires Increasing(es) && 0 < n <= |groups|
    ensures RegistryAfter(es, groups, n - 1) == true
    decreases n, 0
  {
    PathLedgerRegistry(es, groups, n - 1);
  }

  /** What a completed step of the outer loop leaves of the registry. */
  lemma PathLedgerStepEntries(es: seq<Entry>, groups: Groups, n: nat)
    requires 0 < n <= |groups| && PathLedger(es, groups, n).outcome == Pass
    ensures |groups[n - 1].1| > 0
    ensures PopEach(PathLedger(es, groups, n - 1).entries, groups[n - 1].1[1..], |groups[n - 1].1[1..]|).outcome == Pass
    ensures PathLedger(es, groups, n).entries
      == PopEach(PathLedger(es, groups, n - 1).entries, groups[n - 1].1[1..], |groups[n - 1].1[1..]|).entries
  {
  }

  /** An inner loop run on what is left of the registry after removing
      `d` leaves the registry without `d` and its indexes. */
  lemma PopEachWithout(es: seq<Entry>, d: set<nat>, ks: seq<nat>)
    requires Increasing(es) && PopEach(Without(es, d), ks, |ks|).outcome == Pass
    ensures PopEach(Without(es, d), ks, |ks|).entries == Without(es, d + Members(ks, |ks|))
  {
    WithoutIncreasing(es, d);
    PopEachRegistry(Without(es, d), ks, |ks|);
    WithoutTwice(es, d, Members(ks, |ks|));
  }

  /** A batch of joins made for one group of indexes: the node of the
      first index absorbs the nodes of the later ones, in order. */
  predicate Batch(es: seq<Entry>, idx: seq<nat>, f: Absorption) {
    && |idx| > 0
    && Entry(idx[0], f.p) in es
    && |f.cs| == |idx| - 1
    && Named(es, idx[1..], f.cs)
  }

  /** One completed step of the outer loop. */
  lemma PathLedgerStep(es: seq<Entry>, groups: Groups, n: nat)
    requires 0 < n <= |groups| && PathLedger(es, groups, n).outcome == Pass
    ensures PathLedger(es, groups, n - 1).outcome == Pass && |groups[n - 1].1| > 0
    ensures At(PathLedger(es, groups, n - 1).entries, groups[n - 1].1[0]).Ok?
    ensures PopEach(PathLedger(es, groups, n - 1).entries, groups[n - 1].1[1..], |groups[n - 1].1| - 1).outcome == Pass
    ensures PathLedger(es, groups, n).folds == PathLedger(es, groups, n - 1).folds + [Absorption(
      At(PathLedger(es, groups, n - 1).entries, groups[n - 1].1[0]).value,
      PopEach(PathLedger(es, groups, n - 1).entries, groups[n - 1].1[1..], |groups[n - 1].1| - 1).cs,
      false)]
  {
  }

  /** A completed inner loop over the later indexes of a group, from a
      registry drawn from `es`, makes the batch of that group. */
  lemma BatchOf(es: seq<Entry>, rest: seq<Entry>, idx: seq<nat>, p: NodeId)
    requires |idx| > 0 && At(rest, idx[0]) == Ok(p) && forall e | e in rest :: e in es
    requires PopEach(rest, idx[1..], |idx| - 1).outcome == Pass
    ensures Batch(es, idx, Absorption(p, PopEach(rest, idx[1..], |idx| - 1).cs, false))
  {
    var cs := PopEach(rest, idx[1..], |idx| - 1).cs;
    var j :| 0 <= j < |rest| && rest[j] == Entry(idx[0], p);
    assert rest[j] in rest;
    NamedGrows(rest, es, idx[1..], cs);
  }

  /** On completion the last batch of joins is the one of the last group. */
  lemma PathLedgerLast(es: seq<Entry>, groups: Groups, n: nat)
    requires 0 < n <= |groups| && PathLedger(es, groups, n).outcome == Pass
    ensures |PathLedger(es, groups, n).folds| == n
    ensures Batch(es, groups[n - 1].1, PathLedger(es, groups, n).folds[n - 1])
  {
    PathLedgerStep(es, groups, n);
    PathLedgerLength(es, groups, n);
    var l := PathLedger(es, groups, n - 1);
    var idx := groups[n - 1].1;
    assert |l.folds| == n - 1;
    PathLedgerDrawn(es, groups, n - 1);
    BatchOf(es, l.entries, idx, At(l.entries, idx[0]).value);
  }

  /** Batches made one group at a time line up with the groups. */
  lemma BatchesStep(es: seq<Entry>, groups: Groups, n: nat, gs: seq<Absorption>, f: Absorption)
    requires 0 < n <= |groups| && |gs| == n - 1
    requires forall i | 0 <= i < n - 1 :: Batch(es, groups[i].1, gs[i])
    requires Batch(es, groups[n - 1].1, f)
    ensures forall i | 0 <= i < n :: Batch(es, groups[i].1, (gs + [f])[i])
  {
    forall i | 0 <= i < n ensures Batch(es, groups[i].1, (gs + [f])[i]) {
      if i < n - 1 { assert (gs + [f])[i] == gs[i]; }
    }
  }

  /** After a completed run of the first `n` groups the `i`-th batch of
      joins is the one of the `i`-th group, for every group. */
  predicate JoinsAfter(es: seq<Entry>, groups: Groups, n: nat)
    requires n <= |groups|
  {
    PathLedger(es, groups, n).outcome == Pass ==>
      && |PathLedger(es, groups, n).folds| == n
      && forall i | 0 <= i < n :: Batch(es, groups[i].1, PathLedger(es, groups, n).folds[i])
  }

  lemma {:induction false} PathLedgerJoins(es: seq<Entry>, groups: Groups, n: nat)
    requires n <= |groups|
    ensures JoinsAfter(es, groups, n)
    decreases n, 1
  {
    if n > 0 {
      PathLedgerJoinsBefore(es, groups, n);
      if PathLedger(es, groups, n).outcome == Pass {
        PathLedgerStep(es, groups, n);
        PathLedgerLast(es, groups, n);
        var gs := PathLedger(es, groups, n - 1).folds;
        var f := PathLedger(es, groups, n).folds[n - 1];
        assert PathLedger(es, groups, n).folds == gs + [f];
        BatchesStep(es, groups, n, gs, f);
      }
    }
  }

  /** The induction hypothesis of `PathLedgerJoins`, stated at `n`. */
  lemma PathLedgerJoinsBefore(es: seq<Entry>, groups: Groups, n: nat)
    requires 0 < n <= |groups|
    ensures JoinsAfter(es, groups, n - 1) == true
    decreases n, 0
  {
    PathLedgerJoins(es, groups, n - 1);
  }

  /** A completed pass made one batch of joins per group. */
  lemma {:induction false} PathLedgerLength(es: seq<Entry>, groups: Groups, n: nat)
    requires n <= |groups| && PathLedger(es, groups, n).outcome == Pass
    ensures |PathLedger(es, groups, n).folds| == n
    ensures n > 0 ==> PathLedger(es, groups, n - 1).outcome == Pass
    ensures n > 0 ==> PathLedger(es, groups, n).folds[..n - 1] == PathLedger(es, groups, n - 1).folds
    decreases n
  {
    if n > 0 {
      PathLedgerLength(es, groups, n - 1);
    }
  }

  /** `_node_indexes_by_path()` restricted to shared paths. */
  function PathIndexes(a: Arena): Result<Groups>
    requires Registered(a.heap, a.entries) && Closed(a.heap)
  {
    var rows :- PathRows(a.heap, a.entries);
    Ok(Multi(Group(rows)))
  }

  /** `merge_paths` */
  function MergePaths(a: Arena): (s: Step)
    requires Sound(a)
    ensures Sound(s.arena) && s.arena.heap.Keys == a.heap.Keys
  {
    match PathIndexes(a)
    case Err(e) => Step(a, Fail(e))
    case Ok(groups) =>
      var l := PathLedger(a.entries, groups, |groups|);
      PathLedgerDrawn(a.entries, groups, |groups|);
      DrawnInHeap(a.heap, a.entries, l.folds);
      PathLedgerSound(a.entries, groups, |groups|);
      RegisteredSub(a.heap, a.entries, l.entries);
      Step(Arena(ApplyFolds(a.heap, l.folds), l.entries), l.outcome)
  }

  /** `merge`: references first, then shared paths. */
  function Merge(a: Arena): (s: Step)
    requires Sound(a)
    ensures Sound(s.arena) && s.arena.heap.Keys == a.heap.Keys
    ensures MergeRefs(a).outcome.Fail? ==> s == MergeRefs(a)
    ensures MergeRefs(a).outcome == Pass ==> s == MergePaths(MergeRefs(a).arena)
  {
    var s := MergeRefs(a);
    if s.outcome.Fail? then s else MergePaths(s.arena)
  }
}
