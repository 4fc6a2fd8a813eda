/** The earlier one-pass `merge_by_handle` of the single-handle device
    tree: every group of registry entries sharing a label or a reference
    is folded into its first labelled member, in ascending handle order;
    the other members' slots become `None`, and the registry is rebuilt
    without them. */
module ByHandle {
  import opened Wrappers
  import opened Nodes
  import opened Trees
  import opened Registry
  import opened Merging
  import D = ODicts

  lemma AtRegistered(h: Heap, es: seq<Entry>, k: nat)
    requires Registered(h, es) && At(es, k).Ok?
    ensures At(es, k).value in h
  {
    var j :| 0 <= j < |es| && es[j] == Entry(k, At(es, k).value);
  }

  /** The slot `k` still holds a node (it is registered and not yet
      overwritten by `None`). */
  predicate Live(es: seq<Entry>, dead: set<nat>, k: nat) {
    k !in dead && At(es, k).Ok?
  }

  /** The node in slot k carries a label. */
  predicate Labelled(h: Heap, es: seq<Entry>, k: nat)
    requires Registered(h, es) && At(es, k).Ok?
  {
    AtRegistered(h, es, k);
    h[At(es, k).value].handles != []
  }

  /** The slots from `j` on the search has passed over: live, unlabelled. */
  predicate Skipped(h: Heap, es: seq<Entry>, dead: set<nat>, idx: seq<nat>, j: nat, t: nat)
    requires Registered(h, es) && j <= t <= |idx|
  {
    forall i | j <= i < t :: Live(es, dead, idx[i]) && !Labelled(h, es, idx[i])
  }

  /** `top` is the member at some position `t` from `j` on that is live
      and labelled, with every member between `j` and `t` passed over. */
  predicate FirstLabelled(h: Heap, es: seq<Entry>, dead: set<nat>, idx: seq<nat>, j: nat, top: nat)
    requires Registered(h, es) && j <= |idx|
  {
    exists t | j <= t < |idx| ::
      idx[t] == top && Live(es, dead, top) && Labelled(h, es, top) && Skipped(h, es, dead, idx, j, t)
  }

  /** The first member of a handle group, from position `j` on, whose
      node carries a label: a slot already cleared raises
      AttributeError, and a group without a labelled member raises
      StopIteration. */
  function FindTop(h: Heap, es: seq<Entry>, dead: set<nat>, idx: seq<nat>, j: nat): (r: Result<nat>)
    requires Registered(h, es) && j <= |idx|
    ensures r.Ok? ==> FirstLabelled(h, es, dead, idx, j, r.value)
    ensures r == Err(StopIteration) <==> Skipped(h, es, dead, idx, j, |idx|)
    ensures r.Err? ==> r.error in {StopIteration, AttributeError, KeyError}
    decreases |idx| - j
  {
    if j == |idx| then Err(StopIteration)
    else if idx[j] in dead then Err(AttributeError)
    else if At(es, idx[j]).Err? then Err(KeyError)
    else if Labelled(h, es, idx[j]) then Ok(idx[j])
    else FindTop(h, es, dead, idx, j + 1)
  }

  /** The members of the group other than its anchor, in order. */
  function Others(idx: seq<nat>, top: nat, n: nat): (r: seq<nat>)
    requires n <= |idx|
    decreases n
  {
    if n == 0 then []
    else Others(idx, top, n - 1) + (if idx[n - 1] == top then [] else [idx[n - 1]])
  }

  /** The nodes of some registry entries, in order. */
  function IdsOf(js: seq<Entry>): (r: seq<NodeId>)
    ensures |r| == |js| && forall i | 0 <= i < |js| :: r[i] == js[i].id
    decreases |js|
  {
    if js == [] then [] else IdsOf(js[..|js| - 1]) + [js[|js| - 1].id]
  }

  /** The handles of some registry entries, in order. */
  function KeysOf(js: seq<Entry>): (r: seq<nat>)
    ensures |r| == |js| && forall i | 0 <= i < |js| :: r[i] == js[i].key
    decreases |js|
  {
    if js == [] then [] else KeysOf(js[..|js| - 1]) + [js[|js| - 1].key]
  }

  /** The handles of some registry entries, as a set. */
  function KeySet(js: seq<Entry>): set<nat>
    decreases |js|
  {
    if js == [] then {} else KeySet(js[..|js| - 1]) + {js[|js| - 1].key}
  }

  /** Where the inner loop stands: the slots set to `None` so far, the
      entries joined in this group, in order, and the outcome. */
  datatype Sweep = Sweep(dead: set<nat>, joined: seq<Entry>, outcome: Outcome)

  /** The first `n` steps of `for i in sorted(indexes)`, on the registry:
      every member other than the anchor is to be joined into the anchor
      and its slot set to `None`; a slot already `None` raises
      AttributeError in `join`. */
  function JoinEach(es: seq<Entry>, dead: set<nat>, top: nat, idx: seq<nat>, n: nat): (r: Sweep)
    requires n <= |idx|
    ensures forall e | e in r.joined :: e in es && e.key !in dead
    ensures r.dead == dead + KeySet(r.joined)
    ensures r.outcome == Pass ==> KeysOf(r.joined) == Others(idx, top, n)
    ensures r.outcome == Pass || r.outcome == Fail(AttributeError) || r.outcome == Fail(KeyError)
    decreases n
  {
    if n == 0 then Sweep(dead, [], Pass)
    else
      var s := JoinEach(es, dead, top, idx, n - 1);
      var k := idx[n - 1];
      if s.outcome.Fail? || k == top then s
      else if k in s.dead then Sweep(s.dead, s.joined, Fail(AttributeError))
      else match At(es, k)
        case Err(e) => Sweep(s.dead, s.joined, Fail(e))
        case Ok(c) =>
          var e := Entry(k, c);
          JoinStep(s.joined, e);
          assert Others(idx, top, n) == Others(idx, top, n - 1) + [k];
          Sweep(s.dead + {k}, s.joined + [e], Pass)
  }

  /** One more joined entry extends the handles by its handle. */
  lemma JoinStep(joined: seq<Entry>, e: Entry)
    ensures KeysOf(joined + [e]) == KeysOf(joined) + [e.key]
    ensures KeySet(joined + [e]) == KeySet(joined) + {e.key}
  {
    var all := joined + [e];
    assert all[..|all| - 1] == joined;
  }

  lemma FromRegistered(h: Heap, es: seq<Entry>, js: seq<Entry>)
    requires Registered(h, es) && forall e | e in js :: e in es
    ensures forall c | c in IdsOf(js) :: c in h
  {
    var cs := IdsOf(js);
    forall c | c in cs ensures c in h {
      var k :| 0 <= k < |cs| && cs[k] == c;
      assert js[k] in js;
      var i :| 0 <= i < |es| && es[i] == js[k];
    }
  }

  /** Where the outer loop stands: the arena's nodes, the slots set to
      `None`, the anchor of each group so far, the joins so far (one batch
      per group, the last one possibly cut short), and the outcome. */
  datatype Pass1 = Pass1(heap: Heap, dead: set<nat>, tops: seq<nat>, folds: seq<Absorption>, outcome: Outcome)

  /** The slots a completed run of the first `n` groups sets to `None`:
      every member of a group other than its anchor. */
  function Killed(groups: Groups, tops: seq<nat>, n: nat): set<nat>
    requires n <= |groups| && n <= |tops|
  {
    if n == 0 then {} else 
      var others := Others(groups[n - 1].1, tops[n - 1], |groups[n - 1].1|);
      Killed(groups, tops, n - 1) + Members(others, |others|)
  }

  /** The first `n` groups of `merge_by_handle`. */
  function HandleSweep(a: Arena, groups: Groups, n: nat): (r: Pass1)
    requires Sound(a) && n <= |groups|
    ensures r.heap.Keys == a.heap.Keys && Closed(r.heap) && PropsOk(r.heap)
    ensures InHeap(a.heap, r.folds) && r.heap == ApplyFolds(a.heap, r.folds)
    ensures r.outcome == Pass ==> |r.tops| == n && r.dead == Killed(groups, r.tops, n)
    decreases n
  {
    if n == 0 then Pass1(a.heap, {}, [], [], Pass)
    else
      var s := HandleSweep(a, groups, n - 1);
      var idx := groups[n - 1].1;
      if s.outcome.Fail? then s
      else
        RegisteredKeys(a.heap, s.heap, a.entries);
        match FindTop(s.heap, a.entries, s.dead, idx, 0)
        case Err(e) => Pass1(s.heap, s.dead, s.tops, s.folds, Fail(e))
        case Ok(top) =>
          AtRegistered(a.heap, a.entries, top);
          var p := At(a.entries, top).value;
          var j := JoinEach(a.entries, s.dead, top, idx, |idx|);
          FromRegistered(s.heap, a.entries, j.joined);
          var f := Absorption(p, IdsOf(j.joined), false);
          SweepStep(a.heap, s.heap, a.entries, s.folds, f);
          KillStep(groups, n, s.tops, s.dead, top, j);
          Pass1(FoldAll(s.heap, p, f.cs, false), j.dead, s.tops + [top], s.folds + [f], j.outcome)
  }

  lemma RegisteredKeys(h: Heap, g: Heap, es: seq<Entry>)
    requires Registered(h, es) && g.Keys == h.Keys
    ensures Registered(g, es)
  {
  }

  /** One more batch extends the plan applied to the arena. */
  lemma SweepStep(h0: Heap, h: Heap, es: seq<Entry>, folds: seq<Absorption>, f: Absorption)
    requires Closed(h0) && PropsOk(h0) && InHeap(h0, folds) && h == ApplyFolds(h0, folds)
    requires f.p in h && forall c | c in f.cs :: c in h
    ensures InHeap(h0, folds + [f])
    ensures ApplyFolds(h0, folds + [f]) == FoldAll(h, f.p, f.cs, f.clear)
  {
    InHeapSnoc(h0, folds, f);
    ApplyFoldsSnoc(h0, folds, f);
  }

  lemma InHeapSnoc(h0: Heap, folds: seq<Absorption>, f: Absorption)
    requires InHeap(h0, folds) && f.p in h0 && forall c | c in f.cs :: c in h0
    ensures InHeap(h0, folds + [f])
  {
  }

  /** Batch `f` joins, into the node registered under `top`, the nodes
      registered under the other members of the group, in order. */
  predicate Anchored(es: seq<Entry>, idx: seq<nat>, top: nat, f: Absorption) {
    var others := Others(idx, top, |idx|);
    && Entry(top, f.p) in es && !f.clear && |f.cs| == |others|
    && forall i | 0 <= i < |others| :: Entry(others[i], f.cs[i]) in es
  }

  /** What a completed run of the first `n` groups has done: one anchor
      taken from each group, one batch per group joining the other members
      into it, and exactly the other members' slots set to `None`. */
  predicate SweepAfter(a: Arena, groups: Groups, n: nat)
    requires Sound(a) && n <= |groups|
  {
    HandleSweep(a, groups, n).outcome == Pass ==>
      && |HandleSweep(a, groups, n).tops| == n && |HandleSweep(a, groups, n).folds| == n
      && forall g | 0 <= g < n :: HandleSweep(a, groups, n).tops[g] in groups[g].1 && Anchored(a.entries, groups[g].1, HandleSweep(a, groups, n).tops[g], HandleSweep(a, groups, n).folds[g])
  }

  lemma {:induction false} HandleSweepPass(a: Arena, groups: Groups, n: nat)
    requires Sound(a) && n <= |groups|
    ensures SweepAfter(a, groups, n)
    decreases n, 1
  {
    if n > 0 {
      HandleSweepPassBefore(a, groups, n);
      var s := HandleSweep(a, groups, n - 1);
      var idx := groups[n - 1].1;
      if s.outcome == Pass {
        RegisteredKeys(a.heap, s.heap, a.entries);
        var t := FindTop(s.heap, a.entries, s.dead, idx, 0);
        if t.Ok? {
          var top := t.value;
          var j := JoinEach(a.entries, s.dead, top, idx, |idx|);
          FromRegistered(s.heap, a.entries, j.joined);
          var f := Absorption(At(a.entries, top).value, IdsOf(j.joined), false);
          var r := HandleSweep(a, groups, n);
          assert r == Pass1(FoldAll(s.heap, f.p, f.cs, false), j.dead, s.tops + [top], s.folds + [f], j.outcome);
          if j.outcome == Pass {
            SweepPassStep(a.entries, groups, n, s.tops, s.folds, s.dead, top, j, f);
          }
        }
      }
    }
  }

  /** The state in which group `g` of a run comes up, rebuilt from the
      run's anchors and batches: the arena after the first `g` batches and
      the slots the first `g` groups set to `None`. There, `FindTop` picks
      `tops[g]`. */
  predicate PickedAt(a: Arena, groups: Groups, tops: seq<nat>, folds: seq<Absorption>, g: nat)
    requires Sound(a) && g < |groups| && g < |tops| && g <= |folds| && InHeap(a.heap, folds)
  {
    InHeapPrefix(a.heap, folds, g);
    var h := ApplyFolds(a.heap, folds[..g]);
    RegisteredKeys(a.heap, h, a.entries);
    FindTop(h, a.entries, Killed(groups, tops, g), groups[g].1, 0) == Ok(tops[g])
  }

  lemma InHeapPrefix(h: Heap, fs: seq<Absorption>, g: nat)
    requires InHeap(h, fs) && g <= |fs|
    ensures InHeap(h, fs[..g])
  {
    assert forall f | f in fs[..g] :: f in fs;
  }

  /** Every anchor of a completed run is the one `FindTop` picks when its
      group comes up. */
  predicate PicksAfter(a: Arena, groups: Groups, n: nat)
    requires Sound(a) && n <= |groups|
  {
    var r := HandleSweep(a, groups, n);
    r.outcome == Pass ==>
      && |r.folds| == n
      && forall g | 0 <= g < n :: PickedAt(a, groups, r.tops, r.folds, g)
  }

  lemma {:induction false} SweepPicks(a: Arena, groups: Groups, n: nat)
    requires Sound(a) && n <= |groups|
    ensures PicksAfter(a, groups, n)
    decreases n, 1
  {
    if n > 0 {
      SweepPicksBefore(a, groups, n);
      var s := HandleSweep(a, groups, n - 1);
      var idx := groups[n - 1].1;
      var r := HandleSweep(a, groups, n);
      if r.outcome == Pass {
        RegisteredKeys(a.heap, s.heap, a.entries);
        var top := FindTop(s.heap, a.entries, s.dead, idx, 0).value;
        var j := JoinEach(a.entries, s.dead, top, idx, |idx|);
        FromRegistered(s.heap, a.entries, j.joined);
        var f := Absorption(At(a.entries, top).value, IdsOf(j.joined), false);
        assert r == Pass1(FoldAll(s.heap, f.p, f.cs, false), j.dead, s.tops + [top], s.folds + [f], j.outcome);
        PicksStep(a, groups, n, s.tops, s.folds, s.heap, s.dead, top, f);
      }
    }
  }

  /** The anchor of group `g` of a completed run is the first member of
      the group, in ascending handle order, whose slot still holds a node
      and whose node is labelled when the group comes up: every member
      before it is live and unlabelled. */
  lemma AnchorFirst(a: Arena, groups: Groups, n: nat, g: nat)
    requires Sound(a) && g < n <= |groups| && HandleSweep(a, groups, n).outcome == Pass
    ensures var r := HandleSweep(a, groups, n);
      && |r.folds| == n && InHeap(a.heap, r.folds[..g])
      && var h := ApplyFolds(a.heap, r.folds[..g]); var dead := Killed(groups, r.tops, g); var idx := groups[g].1;
         && Registered(h, a.entries) && FirstLabelled(h, a.entries, dead, idx, 0, r.tops[g])
  {
    SweepPicks(a, groups, n);
    var r := HandleSweep(a, groups, n);
    assert PickedAt(a, groups, r.tops, r.folds, g);
    InHeapPrefix(a.heap, r.folds, g);
    var h := ApplyFolds(a.heap, r.folds[..g]);
    RegisteredKeys(a.heap, h, a.entries);
    var dead := Killed(groups, r.tops, g);
    assert FindTop(h, a.entries, dead, groups[g].1, 0) == Ok(r.tops[g]);
  }

  lemma {:induction false} SweepPicksBefore(a: Arena, groups: Groups, n: nat)
    requires Sound(a) && 0 < n <= |groups|
    ensures PicksAfter(a, groups, n - 1) == true
    decreases n, 0
  {
    SweepPicks(a, groups, n - 1);
  }

  /** One more group: the earlier picks stand, and the new anchor is the
      pick in the state the earlier groups left. */
  lemma {:induction false} PicksStep(a: Arena, groups: Groups, n: nat, tops: seq<nat>, folds: seq<Absorption>,
                                     h: Heap, dead: set<nat>, top: nat, f: Absorption)
    requires Sound(a) && 0 < n <= |groups| && |tops| == n - 1 && |folds| == n - 1
    requires InHeap(a.heap, folds) && InHeap(a.heap, folds + [f])
    requires h == ApplyFolds(a.heap, folds) && dead == Killed(groups, tops, n - 1) && Registered(h, a.entries)
    requires forall g | 0 <= g < n - 1 :: PickedAt(a, groups, tops, folds, g)
    requires FindTop(h, a.entries, dead, groups[n - 1].1, 0) == Ok(top)
    ensures forall g | 0 <= g < n :: PickedAt(a, groups, tops + [top], folds + [f], g)
  {
    forall g | 0 <= g < n ensures PickedAt(a, groups, tops + [top], folds + [f], g) {
      if g < n - 1 {
        assert PickedAt(a, groups, tops, folds, g);
      }
      PickedExtend(a, groups, tops, folds, top, f, g);
    }
  }

  lemma {:induction false} PickedExtend(a: Arena, groups: Groups, tops: seq<nat>, folds: seq<Absorption>,
                                        top: nat, f: Absorption, g: nat)
    requires Sound(a) && |tops| == |folds| < |groups| && g <= |tops|
    requires InHeap(a.heap, folds) && InHeap(a.heap, folds + [f])
    requires g < |tops| ==> PickedAt(a, groups, tops, folds, g)
    requires g == |tops| ==>
      && Registered(ApplyFolds(a.heap, folds), a.entries)
      && FindTop(ApplyFolds(a.heap, folds), a.entries, Killed(groups, tops, g), groups[g].1, 0) == Ok(top)
    ensures PickedAt(a, groups, tops + [top], folds + [f], g)
  {
    var tops' := tops + [top];
    var folds' := folds + [f];
    assert folds'[..g] == folds[..g];
    assert tops'[g] == if g < |tops| then tops[g] else top;
    KilledExtend(groups, tops, top, g);
    if g == |tops| {
      assert folds[..g] == folds;
    }
  }

  lemma HandleSweepPassBefore(a: Arena, groups: Groups, n: nat)
    requires Sound(a) && 0 < n <= |groups|
    ensures SweepAfter(a, groups, n - 1) == true
    decreases n, 0
  {
    HandleSweepPass(a, groups, n - 1);
  }

  /** One completed group: its anchor, its batch and its slots. */
  lemma SweepPassStep(es: seq<Entry>, groups: Groups, n: nat, tops: seq<nat>, folds: seq<Absorption>,
                      dead: set<nat>, top: nat, j: Sweep, f: Absorption)
    requires 0 < n <= |groups| && |tops| == n - 1 && |folds| == n - 1
    requires forall g | 0 <= g < n - 1 :: tops[g] in groups[g].1 && Anchored(es, groups[g].1, tops[g], folds[g])
    requires top in groups[n - 1].1
    requires j == JoinEach(es, dead, top, groups[n - 1].1, |groups[n - 1].1|) && j.outcome == Pass
    requires Entry(top, f.p) in es && !f.clear && f.cs == IdsOf(j.joined)
    ensures forall g | 0 <= g < n ::
      (tops + [top])[g] in groups[g].1 && Anchored(es, groups[g].1, (tops + [top])[g], (folds + [f])[g])
  {
    var idx := groups[n - 1].1;
    var others := Others(idx, top, |idx|);
    var tops' := tops + [top];
    assert tops'[n - 1] == top;
    assert KeysOf(j.joined) == others;
    forall i | 0 <= i < |others| ensures Entry(others[i], f.cs[i]) in es {
      assert j.joined[i] in j.joined;
    }
    assert Anchored(es, idx, top, f);
    var folds' := folds + [f];
    forall g | 0 <= g < n ensures tops'[g] in groups[g].1 && Anchored(es, groups[g].1, tops'[g], folds'[g]) {
      if g < n - 1 {
        assert tops'[g] == tops[g] && folds'[g] == folds[g];
      }
    }
  }

  /** A completed group sets exactly its members other than the anchor to `None`. */
  lemma KillStep(groups: Groups, n: nat, tops: seq<nat>, dead: set<nat>, top: nat, j: Sweep)
    requires 0 < n <= |groups| && |tops| == n - 1 && dead == Killed(groups, tops, n - 1)
    requires j.dead == dead + KeySet(j.joined)
    requires j.outcome == Pass ==> KeysOf(j.joined) == Others(groups[n - 1].1, top, |groups[n - 1].1|)
    ensures j.outcome == Pass ==> j.dead == Killed(groups, tops + [top], n)
  {
    if j.outcome == Pass {
      var idx := groups[n - 1].1;
      var others := Others(idx, top, |idx|);
      var tops' := tops + [top];
      KilledExtend(groups, tops, top, n - 1);
      KeySetOfKeys(j.joined);
      assert tops'[n - 1] == top;
      assert Killed(groups, tops', n) == Killed(groups, tops', n - 1) + Members(others, |others|);
    }
  }

  /** The slots of earlier groups do not depend on later anchors. */
  lemma {:induction false} KilledExtend(groups: Groups, tops: seq<nat>, x: nat, n: nat)
    requires n <= |groups| && n <= |tops|
    ensures Killed(groups, tops + [x], n) == Killed(groups, tops, n)
    decreases n
  {
    if n > 0 {
      KilledExtend(groups, tops, x, n - 1);
      assert (tops + [x])[n - 1] == tops[n - 1];
    }
  }

  lemma {:induction false} KeySetOfKeys(js: seq<Entry>)
    ensures KeySet(js) == Members(KeysOf(js), |js|)
    decreases |js|
  {
    if js != [] {
      var front := js[..|js| - 1];
      KeySetOfKeys(front);
      var ks := KeysOf(js);
      assert KeysOf(front) == ks[..|js| - 1];
      MembersStep(ks, |js|);
      assert Members(ks, |js| - 1) == Members(KeysOf(front), |front|);
    }
  }

  /** `merge_by_handle`, on the arena: the groups of
      `_node_indexes_by_refhandle()` with more than one member, folded in
      turn; the registry keeps every slot not set to `None`. */
  function MergeByHandle(a: Arena): (s: Step)
    requires Sound(a)
    ensures Sound(s.arena) && s.arena.heap.Keys == a.heap.Keys
  {
    var groups := Multi(Group(Rows(RefHandleTags, a.heap, a.entries)));
    var r := HandleSweep(a, groups, |groups|);
    WithoutIncreasing(a.entries, r.dead);
    RegisteredWithout(a.heap, a.entries, r.dead);
    RegisteredKeys(a.heap, r.heap, Without(a.entries, r.dead));
    Step(Arena(r.heap, Without(a.entries, r.dead)), r.outcome)
  }
}
