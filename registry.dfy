/** The node registry `_all_nodes` of a device tree and the indexes derived
    from it: by name, by reference, and the handle groups built with
    `defaultdict(list)`. */
module Registry {
  import opened Wrappers
  import opened Text
  import opened Signatures
  import opened Nodes
  import opened Trees
  import D = ODicts

  /** One item of `_all_nodes`: an integer handle and the node stored under
      it. The registry is the list of items in insertion order. */
  datatype Entry = Entry(key: nat, id: NodeId)

  /** Handles strictly increase in insertion order, since each new one is
      one more than the largest. */
  predicate Increasing(es: seq<Entry>) {
    forall i, j | 0 <= i < j < |es| :: es[i].key < es[j].key
  }

  predicate Registered(h: Heap, es: seq<Entry>) {
    forall i | 0 <= i < |es| :: es[i].id in h
  }

  // ----- add_node -----

  /** The largest key in the registry. */
  function MaxKey(es: seq<Entry>): (m: nat)
    requires |es| > 0
    ensures exists i | 0 <= i < |es| :: es[i].key == m
    ensures forall i | 0 <= i < |es| :: es[i].key <= m
  {
    if |es| == 1 then es[0].key
    else
      var m := MaxKey(es[..|es| - 1]);
      var last := es[|es| - 1].key;
      assert forall i | 0 <= i < |es| - 1 :: es[..|es| - 1][i] == es[i];
      if last > m then last else m
  }

  /** `add_node`: store under one more than the largest handle; `max` of an
      empty registry raises ValueError. */
  function Add(es: seq<Entry>, id: NodeId): (r: Result<(nat, seq<Entry>)>)
    ensures r.Err? <==> es == []
    ensures r.Err? ==> r.error == ValueError
    ensures r.Ok? ==> r.value.1 == es + [Entry(r.value.0, id)]
    ensures r.Ok? ==> forall i | 0 <= i < |es| :: es[i].key < r.value.0
    ensures r.Ok? && Increasing(es) ==> Increasing(r.value.1)
  {
    if es == [] then Err(ValueError)
    else
      var k := MaxKey(es) + 1;
      Ok((k, es + [Entry(k, id)]))
  }

  /** Where handle `k` sits in the registry. */
  function Slot(es: seq<Entry>, k: nat): (r: Option<nat>)
    ensures r.Some? ==> r.value < |es| && es[r.value].key == k && forall j | 0 <= j < r.value :: es[j].key != k
    ensures r.None? ==> forall j | 0 <= j < |es| :: es[j].key != k
  {
    if es == [] then None
    else if es[0].key == k then Some(0)
    else match Slot(es[1..], k)
      case None => None
      case Some(j) => Some(j + 1)
  }

  /** With distinct handles, an item is found at its own position. */
  lemma SlotOf(es: seq<Entry>, t: nat)
    requires Increasing(es) && t < |es|
    ensures Slot(es, es[t].key) == Some(t)
  {
    assert forall j | 0 <= j < |es| && j != t :: es[j].key != es[t].key;
  }

  /** `_all_nodes[k]`, KeyError when absent. */
  function At(es: seq<Entry>, k: nat): (r: Result<NodeId>)
    ensures r.Err? <==> forall j | 0 <= j < |es| :: es[j].key != k
    ensures r.Err? ==> r.error == KeyError
    ensures r.Ok? ==> exists j | 0 <= j < |es| :: es[j] == Entry(k, r.value)
  {
    match Slot(es, k)
    case None => Err(KeyError)
    case Some(j) => Ok(es[j].id)
  }

  /** `_all_nodes.pop(k)`, KeyError when absent. */
  function Pop(es: seq<Entry>, k: nat): (r: Result<(NodeId, seq<Entry>)>)
    ensures r.Err? <==> forall j | 0 <= j < |es| :: es[j].key != k
    ensures r.Err? ==> r.error == KeyError
    ensures r.Ok? ==> At(es, k) == Ok(r.value.0)
  {
    match Slot(es, k)
    case None => Err(KeyError)
    case Some(j) => Ok((es[j].id, es[..j] + es[j + 1..]))
  }

  /** A popped node is the one the registry stored under the handle. */
  lemma PopEntry(es: seq<Entry>, k: nat)
    requires Pop(es, k).Ok?
    ensures Entry(k, Pop(es, k).value.0) in es
  {
    var j := Slot(es, k).value;
    assert es[j] in es;
  }

  /** The registry without the handles in `ks`, order kept. */
  function Without(es: seq<Entry>, ks: set<nat>): (r: seq<Entry>)
    ensures forall e | e in r :: e in es && e.key !in ks
    ensures forall e | e in es && e.key !in ks :: e in r
  {
    if es == [] then []
    else (if es[0].key in ks then [] else [es[0]]) + Without(es[1..], ks)
  }

  lemma {:induction false} WithoutIncreasing(es: seq<Entry>, ks: set<nat>)
    requires Increasing(es)
    ensures Increasing(Without(es, ks))
  {
    if es != [] {
      var rest := es[1..];
      IncreasingTail(es);
      WithoutIncreasing(rest, ks);
      IncreasingCons(es[0], Without(rest, ks));
      if es[0].key in ks {
        assert Without(es, ks) == Without(rest, ks);
      }
    }
  }

  /** The tail of a strictly increasing registry is strictly increasing and
      above its head. */
  lemma IncreasingTail(es: seq<Entry>)
    requires Increasing(es) && es != []
    ensures Increasing(es[1..]) && forall e | e in es[1..] :: es[0].key < e.key
  {
    forall e | e in es[1..] ensures es[0].key < e.key {
      var i :| 0 <= i < |es[1..]| && es[1..][i] == e;
      assert es[i + 1] == e;
    }
  }

  lemma IncreasingCons(e: Entry, w: seq<Entry>)
    requires Increasing(w) && forall x | x in w :: e.key < x.key
    ensures Increasing([e] + w)
  {
    var a := [e] + w;
    forall i, j | 0 <= i < j < |a| ensures a[i].key < a[j].key {
      assert a[j] == w[j - 1];
      if i > 0 { assert a[i] == w[i - 1]; } else { assert w[j - 1] in w; }
    }
  }

  lemma {:induction false} WithoutNothing(es: seq<Entry>, ks: set<nat>)
    requires forall i | 0 <= i < |es| :: es[i].key !in ks
    ensures Without(es, ks) == es
  {
    if es != [] {
      WithoutNothing(es[1..], ks);
    }
  }

  lemma {:induction false} WithoutTwice(es: seq<Entry>, ks: set<nat>, more: set<nat>)
    ensures Without(Without(es, ks), more) == Without(es, ks + more)
  {
    if es != [] {
      var e := es[0];
      WithoutTwice(es[1..], ks, more);
      var w := Without(es[1..], ks);
      if e.key in ks {
        assert Without(es, ks) == w;
      } else {
        var a := [e] + w;
        assert Without(es, ks) == a;
        assert a[0] == e && a[1..] == w;
        assert Without(a, more) == (if e.key in more then [] else [e]) + Without(w, more);
      }
    }
  }

  /** Popping a handle from a registry with distinct handles filters it. */
  lemma {:induction false} RemoveSlot(es: seq<Entry>, k: nat, j: nat)
    requires Increasing(es) && j < |es| && es[j].key == k
    ensures es[..j] + es[j + 1..] == Without(es, {k})
  {
    var rest := es[1..];
    IncreasingTail(es);
    if j == 0 {
      forall i | 0 <= i < |rest| ensures rest[i].key !in {k} { assert rest[i] in rest; }
      WithoutNothing(rest, {k});
      assert es[..0] + es[1..] == rest;
    } else {
      assert rest[j - 1] == es[j];
      assert es[0].key != k;
      RemoveSlot(rest, k, j - 1);
      CutAfterHead(es, j, j - 1);
      WithoutKeep(es, {k});
    }
  }

  /** Cutting out position j > 0 keeps the head and cuts position i = j - 1
      from the tail. */
  lemma CutAfterHead(es: seq<Entry>, j: nat, i: nat)
    requires 0 < j < |es| && i == j - 1
    ensures es[..j] + es[j + 1..] == [es[0]] + (es[1..][..i] + es[1..][i + 1..])
  {
  }

  /** A head whose handle is not filtered stays in front. */
  lemma WithoutKeep(es: seq<Entry>, ks: set<nat>)
    requires es != [] && es[0].key !in ks
    ensures Without(es, ks) == [es[0]] + Without(es[1..], ks)
  {
  }

  lemma PopIsWithout(es: seq<Entry>, k: nat)
    requires Increasing(es) && Pop(es, k).Ok?
    ensures Pop(es, k).value.1 == Without(es, {k})
  {
    RemoveSlot(es, k, Slot(es, k).value);
  }

  /** Popping one more handle from a filtered registry filters it by one
      more handle. */
  lemma PopWithout(es: seq<Entry>, ks: set<nat>, k: nat)
    requires Increasing(es) && Pop(Without(es, ks), k).Ok?
    ensures Pop(Without(es, ks), k).value.1 == Without(es, ks + {k})
  {
    WithoutIncreasing(es, ks);
    PopIsWithout(Without(es, ks), k);
    WithoutTwice(es, ks, {k});
  }

  // ----- nodes_by_name, nodes_by_ref -----

  /** `str(reg)`: decimal for a parsed address, the text otherwise. */
  function RegStr(reg: Reg): (r: string)
    requires reg != NoReg
    ensures reg.TextReg? ==> r == reg.t
    ensures reg.IntReg? && reg.n >= 0 ==> r == DecDigits(reg.n)
  {
    match reg
    case IntReg(n) => PyStrInt(n)
    case TextReg(t) => t
  }

  /** The key of a node in `nodes_by_name`: nodename, then `@` and the
      address in decimal when it has one. Reference nodes have no key. */
  function NameKey(n: NodeRec): (r: Option<string>)
    ensures r.Some? <==> n.nodename.Some?
    ensures r.Some? && n.reg == NoReg ==> r.value == n.nodename.value
    ensures r.Some? && n.reg != NoReg ==> r.value == n.nodename.value + "@" + RegStr(n.reg)
  {
    match n.nodename
    case None => None
    case Some(nm) => Some(if n.reg == NoReg then nm else nm + "@" + RegStr(n.reg))
  }

  datatype Field = ByName | ByRef

  function IndexKey(f: Field, n: NodeRec): Option<string> {
    match f
    case ByName => NameKey(n)
    case ByRef => n.ref
  }

  /** `nodes_by_name` and `nodes_by_ref`: each registered node under its
      key, in registry order; a later node with the same key takes the
      earlier one's place. */
  function Index(f: Field, h: Heap, es: seq<Entry>): (r: D.ODict<string, NodeId>)
    requires Registered(h, es)
    ensures forall i | 0 <= i < |r| :: r[i].1 in h
  {
    if es == [] then []
    else
      var d := Index(f, h, es[..|es| - 1]);
      var e := es[|es| - 1];
      match IndexKey(f, h[e.id])
      case None => d
      case Some(k) => D.Put(d, k, e.id)
  }

  /** One more entry of the registry: `Index` of the longer prefix. */
  lemma IndexAt(f: Field, h: Heap, es: seq<Entry>, i: nat)
    requires Registered(h, es) && i < |es|
    ensures Registered(h, es[..i]) && Registered(h, es[..i + 1]) && es[i].id in h
    ensures Index(f, h, es[..i + 1]) == match IndexKey(f, h[es[i].id])
      case None => Index(f, h, es[..i])
      case Some(k) => D.Put(Index(f, h, es[..i]), k, es[i].id)
  {
    assert es[..i + 1][..i] == es[..i];
  }

  predicate Holds(f: Field, h: Heap, es: seq<Entry>, i: nat, k: string)
    requires Registered(h, es) && i < |es|
  {
    IndexKey(f, h[es[i].id]) == Some(k)
  }

  /** The `i`-th registry item is the last one with key `k`. */
  predicate LastHolder(f: Field, h: Heap, es: seq<Entry>, i: nat, k: string)
    requires Registered(h, es) && i < |es|
  {
    Holds(f, h, es, i, k) && forall j | i < j < |es| :: !Holds(f, h, es, j, k)
  }

  /** Reference definition: the position of the last registry item with key
      `k`, if any. */
  function LastWith(f: Field, h: Heap, es: seq<Entry>, k: string): (r: Option<nat>)
    requires Registered(h, es)
    ensures r.Some? ==> r.value < |es| && LastHolder(f, h, es, r.value, k)
    ensures r.None? ==> forall i | 0 <= i < |es| :: !Holds(f, h, es, i, k)
    decreases |es|
  {
    if es == [] then None
    else if Holds(f, h, es, |es| - 1, k) then Some(|es| - 1)
    else
      assert forall i | 0 <= i < |es| - 1 :: Holds(f, h, es[..|es| - 1], i, k) == Holds(f, h, es, i, k);
      LastWith(f, h, es[..|es| - 1], k)
  }

  /** Each key is present exactly when some registered node has it, and then
      names the last such node. */
  ghost predicate IndexCorrect(f: Field, h: Heap, es: seq<Entry>)
    requires Registered(h, es)
  {
    var d := Index(f, h, es);
    && D.UniqueKeys(d)
    && (forall k :: D.Has(d, k) <==> LastWith(f, h, es, k).Some?)
    && (forall k | D.Has(d, k) :: LastWith(f, h, es, k).Some? && D.Get(d, k) == es[LastWith(f, h, es, k).value].id)
  }

  lemma {:induction false} IndexSpec(f: Field, h: Heap, es: seq<Entry>)
    requires Registered(h, es)
    ensures IndexCorrect(f, h, es)
    decreases |es|, 1
  {
    if es != [] {
      IndexSpecBefore(f, h, es);
      IndexStep(f, h, es);
    }
  }

  /** The induction hypothesis of `IndexSpec`, on all but the last item. */
  lemma IndexSpecBefore(f: Field, h: Heap, es: seq<Entry>)
    requires Registered(h, es) && es != []
    ensures IndexCorrect(f, h, es[..|es| - 1]) == true
    decreases |es|, 0
  {
    IndexSpec(f, h, es[..|es| - 1]);
  }

  /** Filing the last item keeps the index correct. */
  lemma IndexStep(f: Field, h: Heap, es: seq<Entry>)
    requires Registered(h, es) && es != [] && IndexCorrect(f, h, es[..|es| - 1])
    ensures IndexCorrect(f, h, es)
  {
    var front := es[..|es| - 1];
    var n := |es| - 1;
    var d := Index(f, h, front);
    match IndexKey(f, h[es[n].id]) {
      case None =>
        assert forall k :: LastWith(f, h, es, k) == LastWith(f, h, front, k);
      case Some(k0) =>
        D.PutUnique(d, k0, es[n].id);
        assert LastWith(f, h, es, k0) == Some(n);
        assert forall k | k != k0 :: LastWith(f, h, es, k) == LastWith(f, h, front, k);
    }
  }

  // ----- default-dict groups -----

  type Groups = D.ODict<string, seq<nat>>

  /** `nodes[t].append(k)` on a `defaultdict(list)`. */
  function Append(g: Groups, t: string, k: nat): Groups {
    match D.Lookup(g, t)
    case None => g + [(t, [k])]
    case Some(l) => D.Put(g, t, l + [k])
  }

  /** The inner loop: append `k` under each tag in turn. */
  function AppendAll(g: Groups, tags: seq<string>, k: nat): Groups
    decreases |tags|
  {
    if tags == [] then g else Append(AppendAll(g, tags[..|tags| - 1], k), tags[|tags| - 1], k)
  }

  /** One row per registry item: its handle and the tags it is filed under. */
  type Row = (nat, seq<string>)

  /** A whole `_node_indexes_by_*` loop. */
  function Group(rows: seq<Row>): Groups
  {
    if rows == [] then [] else AppendAll(Group(rows[..|rows| - 1]), rows[|rows| - 1].1, rows[|rows| - 1].0)
  }

  /** Reference definition: the handles filed under `t`, in row order, once
      per occurrence of `t` among a row's tags. */
  function TagHits(tags: seq<string>, t: string, k: nat): seq<nat>
  {
    if tags == [] then [] else TagHits(tags[..|tags| - 1], t, k) + (if tags[|tags| - 1] == t then [k] else [])
  }

  function Hits(rows: seq<Row>, t: string): seq<nat>
  {
    if rows == [] then [] else Hits(rows[..|rows| - 1], t) + TagHits(rows[|rows| - 1].1, t, rows[|rows| - 1].0)
  }

  function Extend(o: Option<seq<nat>>, s: seq<nat>): Option<seq<nat>> {
    match o
    case None => if s == [] then None else Some(s)
    case Some(l) => Some(l + s)
  }

  lemma AppendSpec(g: Groups, t: string, k: nat)
    requires D.UniqueKeys(g)
    ensures D.UniqueKeys(Append(g, t, k))
    ensures forall u :: D.Lookup(Append(g, t, k), u) == Extend(D.Lookup(g, u), if u == t then [k] else [])
  {
    var r := Append(g, t, k);
    if D.Has(g, t) {
      D.PutUnique(g, t, D.Get(g, t) + [k]);
      forall u ensures D.Lookup(r, u) == Extend(D.Lookup(g, u), if u == t then [k] else []) {
        if u != t && D.Has(g, u) {
          assert D.Get(r, u) == D.Get(g, u);
          assert D.Get(g, u) + [] == D.Get(g, u);
        }
      }
    } else {
      assert r == g + [(t, [k])];
      AppendNew(g, t, k);
    }
  }

  lemma AppendNew(g: Groups, t: string, k: nat)
    requires D.UniqueKeys(g) && !D.Has(g, t)
    ensures D.UniqueKeys(g + [(t, [k])])
    ensures forall u :: D.Lookup(g + [(t, [k])], u) == Extend(D.Lookup(g, u), if u == t then [k] else [])
  {
    var r := g + [(t, [k])];
    assert forall i | 0 <= i < |g| :: r[i] == g[i];
    assert r[|g|].0 == t;
    forall u ensures D.Lookup(r, u) == Extend(D.Lookup(g, u), if u == t then [k] else []) {
      if u == t {
        assert D.Has(r, u);
        assert D.IndexOf(r, u) == |g|;
      } else if D.Has(g, u) {
        var i := D.IndexOf(g, u);
        assert r[i] == g[i];
        var m := D.IndexOf(r, u);
        assert m < |g| ==> r[m] == g[m];
        assert D.Get(g, u) + [] == D.Get(g, u);
      } else {
        forall j | 0 <= j < |r| ensures r[j].0 != u { if j < |g| { assert r[j] == g[j]; } }
      }
    }
  }

  lemma {:induction false} AppendAllSpec(g: Groups, tags: seq<string>, k: nat)
    requires D.UniqueKeys(g)
    ensures D.UniqueKeys(AppendAll(g, tags, k))
    ensures forall u :: D.Lookup(AppendAll(g, tags, k), u) == Extend(D.Lookup(g, u), TagHits(tags, u, k))
    decreases |tags|
  {
    if tags != [] {
      var front := tags[..|tags| - 1];
      var t := tags[|tags| - 1];
      AppendAllSpec(g, front, k);
      var g1 := AppendAll(g, front, k);
      AppendSpec(g1, t, k);
      forall u ensures D.Lookup(AppendAll(g, tags, k), u) == Extend(D.Lookup(g, u), TagHits(tags, u, k)) {
        ExtendTwice(D.Lookup(g, u), TagHits(front, u, k), if u == t then [k] else []);
      }
    } else {
      forall u ensures D.Lookup(g, u) == Extend(D.Lookup(g, u), []) {
        if D.Has(g, u) { assert D.Get(g, u) + [] == D.Get(g, u); }
      }
    }
  }

  lemma ExtendTwice(o: Option<seq<nat>>, s: seq<nat>, s2: seq<nat>)
    ensures Extend(Extend(o, s), s2) == Extend(o, s + s2)
  {
    if o.Some? { assert o.value + s + s2 == o.value + (s + s2); }
    else if s == [] { assert s + s2 == s2; }
  }

  /** A group exists exactly for the tags some row carries, and lists the
      handles of those rows in order. */
  lemma {:induction false} GroupSpec(rows: seq<Row>)
    ensures D.UniqueKeys(Group(rows))
    ensures forall t :: D.Lookup(Group(rows), t) == (if Hits(rows, t) == [] then None else Some(Hits(rows, t)))
  {
    if rows != [] {
      var front := rows[..|rows| - 1];
      var row := rows[|rows| - 1];
      GroupSpec(front);
      AppendAllSpec(Group(front), row.1, row.0);
      forall t ensures D.Lookup(Group(rows), t) == (if Hits(rows, t) == [] then None else Some(Hits(rows, t))) {
        assert D.Lookup(Group(front), t) == Extend(None, Hits(front, t));
        ExtendTwice(None, Hits(front, t), TagHits(row.1, t, row.0));
      }
    }
  }

  /** What each registered node is filed under. */
  datatype Tagging = RefTags | HandleTags | RefHandleTags

  function Tags(g: Tagging, n: NodeRec): (r: seq<string>)
    ensures g == RefTags ==> r == (if n.ref.Some? then [n.ref.value] else [])
    ensures g == HandleTags ==> r == n.handles
    ensures g == RefHandleTags ==> r == n.handles + (if n.ref.Some? then [n.ref.value] else [])
  {
    var refs := if n.ref.Some? then [n.ref.value] else [];
    match g
    case RefTags => refs
    case HandleTags => n.handles
    case RefHandleTags => n.handles + refs
  }

  function Rows(g: Tagging, h: Heap, es: seq<Entry>): (r: seq<Row>)
    requires Registered(h, es)
    ensures |r| == |es| && forall i | 0 <= i < |es| :: r[i] == (es[i].key, Tags(g, h[es[i].id]))
  {
    seq(|es|, i requires 0 <= i < |es| && Registered(h, es) => (es[i].key, Tags(g, h[es[i].id])))
  }

  /** The depth bound of every walk over the arena: one more than its size,
      so an acyclic parent chain never exhausts it. */
  function Depth(h: Heap): nat { |h| + 1 }

  /** The rows of `_node_indexes_by_path`; the first path that raises
      aborts the loop. */
  function PathRows(h: Heap, es: seq<Entry>): (r: Result<seq<Row>>)
    requires Registered(h, es) && Closed(h)
    ensures r.Ok? ==> |r.value| == |es| && forall i | 0 <= i < |es| ::
      Path(h, es[i].id, Depth(h)).Ok? && r.value[i] == (es[i].key, [Path(h, es[i].id, Depth(h)).value])
    ensures r.Err? ==> exists i | 0 <= i < |es| :: Path(h, es[i].id, Depth(h)) == Err(r.error)
  {
    if es == [] then Ok([])
    else
      var front :- PathRows(h, es[..|es| - 1]);
      var e := es[|es| - 1];
      var p :- Path(h, e.id, Depth(h));
      assert forall i | 0 <= i < |es| - 1 :: es[..|es| - 1][i] == es[i];
      Ok(front + [(e.key, [p])])
  }

  /** Rows with increasing handles give each group in increasing order, so
      `sorted(indexes)` in `merge_by_handle` is the group itself. */
  lemma {:induction false} HitsIncreasing(rows: seq<Row>, t: string)
    requires forall i, j | 0 <= i < j < |rows| :: rows[i].0 < rows[j].0
    ensures forall x | x in Hits(rows, t) :: exists i | 0 <= i < |rows| :: rows[i].0 == x
    ensures forall i, j | 0 <= i < j < |Hits(rows, t)| :: Hits(rows, t)[i] <= Hits(rows, t)[j]
  {
    if rows != [] {
      var front := rows[..|rows| - 1];
      var row := rows[|rows| - 1];
      HitsIncreasing(front, t);
      TagHitsConstant(row.1, t, row.0);
      var hf := Hits(front, t);
      forall x | x in hf ensures x < row.0 {
        var i :| 0 <= i < |front| && front[i].0 == x;
        assert rows[i] == front[i];
      }
      var th := TagHits(row.1, t, row.0);
      assert Hits(rows, t) == hf + th;
      forall i, j | 0 <= i < j < |hf + th| ensures (hf + th)[i] <= (hf + th)[j] {
        if j < |hf| {
        } else if i < |hf| {
          assert hf[i] in hf;
          assert th[j - |hf|] in th;
        } else {
          assert th[i - |hf|] in th && th[j - |hf|] in th;
        }
      }
      forall x | x in Hits(rows, t) ensures exists i | 0 <= i < |rows| :: rows[i].0 == x {
        if x in hf {
          var i :| 0 <= i < |front| && front[i].0 == x;
          assert rows[i] == front[i];
        } else {
          assert rows[|rows| - 1].0 == x;
        }
      }
    }
  }

  lemma {:induction false} TagHitsConstant(tags: seq<string>, t: string, k: nat)
    ensures forall x | x in TagHits(tags, t, k) :: x == k
  {
    if tags != [] { TagHitsConstant(tags[..|tags| - 1], t, k); }
  }

  // ----- get_node_from_tuple -----

  /** A node's address compared with a signature tuple's: a parsed address
      never equals the tuple's text. */
  predicate RegEquals(reg: Reg, t: Option<string>) {
    match reg
    case NoReg => t.None?
    case IntReg(_) => false
    case TextReg(s) => t == Some(s)
  }

  predicate Candidate(h: Heap, item: (string, NodeId), name: string, reg: Option<string>)
    requires item.1 in h
  {
    StartsWith(item.0, name) && RegEquals(h[item.1].reg, reg)
  }

  /** The first by-name item whose key starts with the name and whose node
      has the tuple's address. */
  function FirstCandidate(h: Heap, idx: D.ODict<string, NodeId>, name: string, reg: Option<string>): (r: Option<NodeId>)
    requires forall i | 0 <= i < |idx| :: idx[i].1 in h
    ensures r.Some? <==> exists i | 0 <= i < |idx| :: Candidate(h, idx[i], name, reg)
    ensures r.Some? ==> exists i | 0 <= i < |idx| :: (idx[i].1 == r.value && Candidate(h, idx[i], name, reg)
      && forall j | 0 <= j < i :: !Candidate(h, idx[j], name, reg))
  {
    if idx == [] then None
    else if Candidate(h, idx[0], name, reg) then Some(idx[0].1)
    else
      var r := FirstCandidate(h, idx[1..], name, reg);
      assert forall i | 1 <= i < |idx| :: idx[1..][i - 1] == idx[i];
      r
  }

  /** `get_node_from_tuple`: by name and address when the tuple has a name,
      by reference when it has only a reference, otherwise nothing. */
  function FromTuple(h: Heap, es: seq<Entry>, tup: SigTuple): (r: Option<NodeId>)
    requires Registered(h, es)
    ensures tup.nodename.None? && tup.ref.None? ==> r.None?
    ensures tup.nodename.Some? ==> r == FirstCandidate(h, Index(ByName, h, es), tup.nodename.value, tup.reg)
    ensures tup.nodename.None? && tup.ref.Some? ==> r == D.Lookup(Index(ByRef, h, es), tup.ref.value)
    ensures r.Some? ==> r.value in h
  {
    if tup.nodename.Some? then FirstCandidate(h, Index(ByName, h, es), tup.nodename.value, tup.reg)
    else if tup.ref.Some? then
      var idx := Index(ByRef, h, es);
      var r := D.Lookup(idx, tup.ref.value);
      assert r.Some? ==> idx[D.IndexOf(idx, tup.ref.value)].1 in h;
      r
    else None
  }

  /** A node whose address parsed as hex is never found by a tuple with a
      name, since the tuple's address is text. */
  lemma FromTupleMissesParsedAddress(h: Heap, es: seq<Entry>, tup: SigTuple, x: NodeId)
    requires Registered(h, es) && x in h && h[x].reg.IntReg? && tup.nodename.Some?
    ensures FromTuple(h, es, tup) != Some(x)
  {
  }
}
