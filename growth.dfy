/** The part of a device tree that the two builders change (the importer,
    which builds from source text, and the undictifier, which builds from
    nested dictionaries): the node arena, the registry and the identity the
    next node object gets. Both builders create nodes through `new_node`,
    modelled here once on plain values. */
module Growth {
  import opened Wrappers
  import opened Properties
  import opened Signatures
  import opened Nodes
  import opened Trees
  import opened Registry
  import opened DeviceTrees

  /** A tree's nodes, its registry and the next fresh identity. */
  datatype Store = Store(heap: Heap, entries: seq<Entry>, next: NodeId)

  /** Where a build stopped, and whether it raised. */
  datatype Built = Built(store: Store, outcome: Outcome)

  /** A node found or created, or the exception raised on the way. */
  datatype Made = Made(store: Store, node: Result<NodeId>)

  /** Links name nodes, the registry names nodes, and no node has an
      identity at or above the next fresh one. */
  predicate Tidy(st: Store) {
    Closed(st.heap) && Registered(st.heap, st.entries) && forall y | y in st.heap :: y < st.next
  }

  /** The registry b is the registry a with entries appended. */
  predicate Extends(a: seq<Entry>, b: seq<Entry>) {
    |a| <= |b| && b[..|a|] == a
  }

  /** No node of s1 is gone from s2, and s2's registry extends s1's. */
  predicate Grown(s1: Store, s2: Store) {
    s1.heap.Keys <= s2.heap.Keys && Extends(s1.entries, s2.entries) && s1.next <= s2.next
  }

  lemma GrownTrans(s1: Store, s2: Store, s3: Store)
    requires Grown(s1, s2) && Grown(s2, s3)
    ensures Grown(s1, s3)
  {
    assert s3.entries[..|s1.entries|] == s3.entries[..|s2.entries|][..|s1.entries|];
  }

  /** The store of a tree object. */
  function Snap(t: DeviceTree): Store
    reads t
  {
    Store(t.heap, t.entries, t.nextId)
  }

  /** Adding a childless node under a parent of the tree keeps links
      naming nodes. */
  lemma AdoptClosed(h: Heap, x: NodeId, n: NodeRec)
    requires Closed(h) && n.children == []
    requires n.parent.Some? ==> n.parent.value in h
    ensures Closed(Adopt(h, x, n))
  {
    var g := h[x := n];
    assert Closed(g);
    if n.parent.Some? {
      var p := n.parent.value;
      ClosedUpdate(g, p, g[p].(children := g[p].children + [x]));
    }
  }

  /** `new_node` with the record the node constructor builds (or the
      exception it raises): a parent that is not a node of the tree is
      refused with TypeError, otherwise the record is stored under the next
      fresh identity, appended to its parent's children and registered;
      an empty registry raises ValueError after the node is attached. */
  function Create(st: Store, rec: Result<NodeRec>, parent: Option<NodeId>): (m: Made)
    requires Tidy(st)
    requires rec.Ok? ==> rec.value.parent == parent && rec.value.children == []
    ensures Tidy(m.store) && Grown(st, m.store)
    ensures m.node.Ok? ==> m.node.value in m.store.heap
  {
    match rec
    case Err(e) => Made(st, Err(e))
    case Ok(n) =>
      if parent.Some? && parent.value !in st.heap then Made(st, Err(TypeError))
      else
        var h := Adopt(st.heap, st.next, n);
        match Add(st.entries, st.next)
        case Err(e) =>
          GrowStore(st, n, st.entries);
          Made(Store(h, st.entries, st.next + 1), Err(e))
        case Ok((_, es)) =>
          GrowStore(st, n, es);
          Made(Store(h, es, st.next + 1), Ok(st.next))
  }

  /** A node stored under the next identity, with the registry extended
      by entries for it, keeps a store tidy and grows it. */
  lemma GrowStore(st: Store, n: NodeRec, es: seq<Entry>)
    requires Tidy(st) && n.children == [] && (n.parent.Some? ==> n.parent.value in st.heap)
    requires es == st.entries || (|es| == |st.entries| + 1 && es[..|st.entries|] == st.entries && es[|st.entries|].id == st.next)
    ensures var s2 := Store(Adopt(st.heap, st.next, n), es, st.next + 1);
      Tidy(s2) && Grown(st, s2)
  {
    AdoptClosed(st.heap, st.next, n);
    var h := Adopt(st.heap, st.next, n);
    RegisteredGrows(st.heap, h, st.entries, es, st.next);
    assert st.entries[..|st.entries|] == st.entries;
  }

  /** A registry extended by entries for a new node names nodes of the
      heap that holds it. */
  lemma RegisteredGrows(h: Heap, g: Heap, es: seq<Entry>, more: seq<Entry>, x: NodeId)
    requires Registered(h, es) && g.Keys == h.Keys + {x}
    requires more == es || (|more| == |es| + 1 && more[..|es|] == es && more[|es|].id == x)
    ensures Registered(g, more)
  {
    forall i | 0 <= i < |more| ensures more[i].id in g {
      if i < |es| { assert more[i] == more[..|es|][i]; }
    }
  }

  /** What `new_node` does to the store: it fails exactly for a refused
      record, a parent outside the tree or an empty registry, and the
      registry is then as it was; otherwise the record is stored under the
      next fresh identity, its parent lists it last, and it is registered
      last under a handle above all others. Nothing else changes. */
  lemma CreateSpec(st: Store, rec: Result<NodeRec>, parent: Option<NodeId>)
    requires Tidy(st)
    requires rec.Ok? ==> rec.value.parent == parent && rec.value.children == []
    ensures var m := Create(st, rec, parent);
      && (m.node.Err? <==> rec.Err? || (parent.Some? && parent.value !in st.heap) || st.entries == [])
      && (m.node.Err? ==> m.store.entries == st.entries)
      && (forall y | y in st.heap && Some(y) != parent :: m.store.heap[y] == st.heap[y])
      && (parent.Some? && parent.value in st.heap && m.store.heap[parent.value] != st.heap[parent.value] ==>
            m.store.heap[parent.value] == st.heap[parent.value].(children := st.heap[parent.value].children + [st.next]))
    ensures var m := Create(st, rec, parent);
      m.node.Ok? ==>
        && m.node.value == st.next && st.next !in st.heap
        && m.store.heap.Keys == st.heap.Keys + {st.next}
        && m.store.heap[st.next] == rec.value
        && |m.store.entries| == |st.entries| + 1
        && m.store.entries[|st.entries|].id == st.next
        && (forall i | 0 <= i < |st.entries| :: st.entries[i].key < m.store.entries[|st.entries|].key)
        && (parent.Some? ==>
              m.store.heap[parent.value] == st.heap[parent.value].(children := st.heap[parent.value].children + [st.next]))
  {
  }

  /** A store change that follows `new_node` case by case is `Create`. */
  lemma CreateCases(st: Store, rec: Result<NodeRec>, parent: Option<NodeId>, s2: Store, r: Result<NodeId>)
    requires Tidy(st)
    requires rec.Ok? ==> rec.value.parent == parent && rec.value.children == []
    requires rec.Err? ==> r == Err(rec.error) && s2 == st
    requires rec.Ok? && parent.Some? && parent.value !in st.heap ==> r == Err(TypeError) && s2 == st
    requires rec.Ok? && (parent.Some? ==> parent.value in st.heap) ==>
      && s2.heap == Adopt(st.heap, st.next, rec.value) && s2.next == st.next + 1
      && (Add(st.entries, st.next).Ok? ==> r == Ok(st.next) && s2.entries == Add(st.entries, st.next).value.1)
      && (Add(st.entries, st.next).Err? ==> r == Err(ValueError) && s2.entries == st.entries)
    ensures Made(s2, r) == Create(st, rec, parent)
  {
  }

  /** `node.set_property(name, v)` on the store. */
  function SetAt(d: Dialect, st: Store, x: NodeId, name: string, v: Value): (r: Built)
    requires Tidy(st) && x in st.heap
    ensures Tidy(r.store) && r.store.heap.Keys == st.heap.Keys
    ensures r.store.entries == st.entries && r.store.next == st.next
    ensures r.store.heap[x] == st.heap[x].(props := r.store.heap[x].props)
    ensures forall y | y in st.heap && y != x :: r.store.heap[y] == st.heap[y]
  {
    var e := SetProperty(d, st.heap[x].props, name, v);
    ClosedUpdate(st.heap, x, st.heap[x].(props := e.props));
    Built(st.(heap := st.heap[x := st.heap[x].(props := e.props)]), e.outcome)
  }

  /** `new_node(parent, *tup)` on a current tree: the labels are the
      tuple's list. */
  method NewNodeFrom(t: DeviceTree, parent: Option<NodeId>, tup: SigTuple) returns (r: Result<NodeId>)
    requires t.Valid() && t.dialect == Current
    modifies t
    ensures t.Valid() && t.Fields() == old(t.Fields())
    ensures Made(Snap(t), r) == Create(old(Snap(t)), NewRecord(Current, parent, tup.nodename, tup.handles, tup.ref, tup.reg), parent)
  {
    ghost var st := Snap(t);
    var k := t.NewNode(parent, tup.nodename, LabelSeq(tup.handles), tup.ref, tup.reg);
    r := if k.Err? then Err(k.error) else Ok(k.value.1);
    CreateCases(st, NewRecord(Current, parent, tup.nodename, tup.handles, tup.ref, tup.reg), parent, Snap(t), r);
  }

  /** `new_node(parent, *tup)` on a single-handle tree. */
  method LegacyNewNodeFrom(t: DeviceTree, parent: Option<NodeId>, tup: LegacySig) returns (r: Result<NodeId>)
    requires t.Valid() && t.dialect == Legacy
    modifies t
    ensures t.Valid() && t.Fields() == old(t.Fields())
    ensures Made(Snap(t), r) == Create(old(Snap(t)), LegacyNewRecord(parent, tup.nodename, tup.handle, tup.ref, tup.reg), parent)
  {
    ghost var st := Snap(t);
    var k := t.LegacyNewNode(parent, tup.nodename, tup.handle, tup.ref, tup.reg);
    r := if k.Err? then Err(k.error) else Ok(k.value.1);
    CreateCases(st, LegacyNewRecord(parent, tup.nodename, tup.handle, tup.ref, tup.reg), parent, Snap(t), r);
  }
}
