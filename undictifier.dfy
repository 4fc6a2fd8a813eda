/** The dictionary importer, `dictify/undictifier.py`: it fills a
    single-handle tree from the nested dictionaries the dictifier exports
    (read from YAML elsewhere). A dictionary is a record here: a key the
    data leaves out is an absent (`None`) field. */
module Undictify {
  import opened Wrappers
  import opened Properties
  import opened Signatures
  import opened Nodes
  import opened Trees
  import opened Registry
  import opened DeviceTrees
  import opened Growth
  import Dictify
  import D = ODicts

  /** A `dtc_*` value: a list, or a single string that is wrapped into
      one. */
  datatype DirArg = DirList(items: seq<string>) | DirOne(item: string)

  /** One node's dictionary: a signature string, or the name fields one
      by one; the three directive lists; the status; the properties in
      order; the children in order. */
  datatype NodeData = NodeData(
    signature: Option<string>,
    nodename: Option<string>,
    handle: Option<string>,
    ref: Option<string>,
    reg: Option<string>,
    dtcInclude: Option<DirArg>,
    dtcDeleteProperty: Option<DirArg>,
    dtcDeleteNode: Option<DirArg>,
    status: Option<Value>,
    properties: seq<(string, Value)>,
    children: seq<NodeData>)

  /** The whole dictionary; `filename` may be present and `None`. */
  datatype TreeData = TreeData(
    dtsVersion: Option<int>,
    gccInclude: Option<seq<string>>,
    gccDefine: Option<D.ODict<string, Define>>,
    filename: Option<Option<string>>,
    nodes: seq<NodeData>)

  /** A directive list as stored: absent is empty, a list is kept, a
      single string becomes a list of one. */
  function Wrap(a: Option<DirArg>): (r: seq<string>)
    ensures a.None? ==> r == []
    ensures a.Some? && a.value.DirOne? ==> r == [a.value.item]
  {
    match a
    case None => []
    case Some(DirList(l)) => l
    case Some(DirOne(s)) => [s]
  }

  /** The tuple a dictionary names: parsed from `signature` when present
      (ValueError when nothing matches), else the four name fields. */
  function SigOf(nd: NodeData): (r: Result<LegacySig>)
    ensures nd.signature.None? ==> r == Ok(LegacySig(nd.nodename, nd.handle, nd.ref, nd.reg))
    ensures nd.signature.Some? ==> r == LegacyMakeSigTuple(nd.signature.value)
  {
    match nd.signature
    case Some(s) => LegacyMakeSigTuple(s)
    case None => Ok(LegacySig(nd.nodename, nd.handle, nd.ref, nd.reg))
  }

  /** The header `populate` writes: version 1, no includes, no defines and
      the file name `generated.dts` for a key left out. */
  function Populated(td: TreeData, special: D.ODict<string, string>): (r: Header)
    ensures r.dtsVersion == (if td.dtsVersion.Some? then td.dtsVersion.value else 1)
    ensures r.gccInclude == (if td.gccInclude.Some? then td.gccInclude.value else [])
    ensures r.gccDefine == (if td.gccDefine.Some? then td.gccDefine.value else [])
    ensures r.filename == (if td.filename.Some? then td.filename.value else Some("generated.dts"))
    ensures r.dtcSpecial == special
  {
    Header(td.filename.GetOr(Some("generated.dts")), td.dtsVersion.GetOr(1), td.gccInclude.GetOr([]),
           td.gccDefine.GetOr([]), special)
  }

  /** Nodes other than x are as they were. */
  predicate Keeps(h: Heap, g: Heap, x: NodeId) {
    forall z | z in h && z != x :: z in g && g[z] == h[z]
  }

  /** b is a with nodes appended that were not in h. */
  predicate MoreKids(a: seq<NodeId>, b: seq<NodeId>, h: Heap) {
    |a| <= |b| && b[..|a|] == a && forall j | |a| <= j < |b| :: b[j] !in h
  }

  lemma MoreKidsSame(a: seq<NodeId>, h: Heap)
    ensures MoreKids(a, a, h)
  {
    assert a[..|a|] == a;
  }

  lemma MoreKidsTrans(a: seq<NodeId>, b: seq<NodeId>, c: seq<NodeId>, h: Heap, g: Heap)
    requires MoreKids(a, b, h) && MoreKids(b, c, g) && h.Keys <= g.Keys
    requires forall j | |a| <= j < |b| :: b[j] !in h
    ensures MoreKids(a, c, h)
  {
    assert c[..|a|] == c[..|b|][..|a|];
    forall j | |a| <= j < |c| ensures c[j] !in h {
      if j < |b| { assert c[j] == c[..|b|][j]; }
    }
  }

  /** The three `dtc` lists of node x set from the dictionary. */
  function SetDirs(st: Store, x: NodeId, nd: NodeData): (r: Store)
    requires Tidy(st) && x in st.heap
    ensures Tidy(r) && r.heap.Keys == st.heap.Keys && r.entries == st.entries && r.next == st.next
    ensures r.heap == st.heap[x := st.heap[x].(includes := Wrap(nd.dtcInclude), deleteProps := Wrap(nd.dtcDeleteProperty),
                                              deleteNodes := Wrap(nd.dtcDeleteNode))]
  {
    var n := st.heap[x].(includes := Wrap(nd.dtcInclude), deleteProps := Wrap(nd.dtcDeleteProperty),
                         deleteNodes := Wrap(nd.dtcDeleteNode));
    ClosedUpdate(st.heap, x, n);
    st.(heap := st.heap[x := n])
  }

  /** The property loop of `undictify_node` from entry i on: each value
      is set under its name, and a value the factory refuses stops it. */
  function PropsFrom(st: Store, x: NodeId, ps: seq<(string, Value)>, i: nat): (r: Built)
    requires Tidy(st) && x in st.heap && i <= |ps|
    ensures PropsOnly(st, r.store, x)
    decreases |ps| - i
  {
    if i == |ps| then Built(st, Pass)
    else
      var b := SetAt(Legacy, st, x, ps[i].0, ps[i].1);
      if b.outcome.Fail? then b else PropsFrom(b.store, x, ps, i + 1)
  }

  /** The value the entries from i on give name n last, if any. */
  function LastFor(ps: seq<(string, Value)>, i: nat, n: string): (r: Option<Value>)
    requires i <= |ps|
    ensures r.Some? ==> exists k | i <= k < |ps| :: ps[k] == (n, r.value) && forall j | k < j < |ps| :: ps[j].0 != n
    ensures r.None? ==> forall k | i <= k < |ps| :: ps[k].0 != n
    decreases |ps| - i
  {
    if i == |ps| then None
    else match LastFor(ps, i + 1, n)
      case Some(v) => Some(v)
      case None => if ps[i].0 == n then Some(ps[i].1) else None
  }

  /** What setting the entries from i on in turn leaves for name n: a name
      no entry lists keeps its property; a name whose last entry is not a
      bool reports that value (`True` for None); a name whose last entry
      is `True` is present. */
  ghost predicate SetName(before: seq<Property>, after: seq<Property>, ps: seq<(string, Value)>, i: nat, n: string)
    requires i <= |ps|
  {
    && (LastFor(ps, i, n).None? ==> Lookup(after, n) == Lookup(before, n))
    && (LastFor(ps, i, n).Some? && !LastFor(ps, i, n).value.VBool? ==>
          Lookup(after, n).Some? && PropertyValue(Lookup(after, n).value) == Normalised(LastFor(ps, i, n).value))
    && (LastFor(ps, i, n) == Some(VBool(true)) ==> Lookup(after, n).Some?)
  }

  /** after is before with the entries from i on set in turn. */
  ghost predicate SetInTurn(before: seq<Property>, after: seq<Property>, ps: seq<(string, Value)>, i: nat)
    requires i <= |ps|
  {
    UniqueNames(after) && forall n :: SetName(before, after, ps, i, n)
  }

  /** Setting entry i on before and then the entries after it leaves,
      for each name, what setting the entries from i on in turn does. */
  lemma SetNameStep(before: seq<Property>, after: seq<Property>, ps: seq<(string, Value)>, i: nat, n: string)
    requires i < |ps| && UniqueNames(before)
    requires SetProperty(Legacy, before, ps[i].0, ps[i].1).outcome == Pass
    requires SetName(SetProperty(Legacy, before, ps[i].0, ps[i].1).props, after, ps, i + 1, n)
    ensures SetName(before, after, ps, i, n)
  {
    SetPropertySpec(Legacy, before, ps[i].0, ps[i].1);
    if LastFor(ps, i + 1, n).None? && n == ps[i].0 {
      assert LastFor(ps, i, n) == Some(ps[i].1);
    }
  }

  /** When the property loop of `undictify_node` completes, every entry
      has been set in turn on x. */
  lemma {:induction false} PropsFromSpec(st: Store, x: NodeId, ps: seq<(string, Value)>, i: nat)
    requires Tidy(st) && x in st.heap && i <= |ps| && UniqueNames(st.heap[x].props)
    ensures var r := PropsFrom(st, x, ps, i);
      r.outcome == Pass ==> SetInTurn(st.heap[x].props, r.store.heap[x].props, ps, i)
    decreases |ps| - i
  {
    if i < |ps| {
      var props := st.heap[x].props;
      var b := SetAt(Legacy, st, x, ps[i].0, ps[i].1);
      SetPropertySpec(Legacy, props, ps[i].0, ps[i].1);
      var r := PropsFrom(st, x, ps, i);
      if r.outcome == Pass {
        assert b.outcome == Pass && r == PropsFrom(b.store, x, ps, i + 1);
        PropsFromSpec(b.store, x, ps, i + 1);
        var after := r.store.heap[x].props;
        forall n ensures SetName(props, after, ps, i, n) {
          SetNameStep(props, after, ps, i, n);
        }
      }
    }
  }

  /** r is st with x holding the dictionary's directive lists, x's
      properties possibly changed, new nodes added and appended to x's
      children, and no other node of st changed. */
  predicate Filled(st: Store, r: Store, x: NodeId, nd: NodeData)
    requires x in st.heap
  {
    && Tidy(r) && Grown(st, r) && Keeps(st.heap, r.heap, x) && x in r.heap
    && r.heap[x] == st.heap[x].(includes := Wrap(nd.dtcInclude), deleteProps := Wrap(nd.dtcDeleteProperty),
                                deleteNodes := Wrap(nd.dtcDeleteNode), props := r.heap[x].props,
                                children := r.heap[x].children)
    && MoreKids(st.heap[x].children, r.heap[x].children, st.heap)
  }

  /** `undictify_node(x, nd)`: the directive lists, then the status
      (`okay` when left out), then the properties, then the children. It
      changes no node of the store but x and the nodes it creates; x keeps
      its names, address and parent, holds the dictionary's directive
      lists, and gets new children appended, one for each child entry
      when nothing raises. */
  function Fill(st: Store, x: NodeId, nd: NodeData): (r: Built)
    requires Tidy(st) && x in st.heap
    ensures Filled(st, r.store, x, nd)
    ensures r.outcome == Pass ==> |r.store.heap[x].children| == |st.heap[x].children| + |nd.children|
    decreases nd, |nd.children| + 1
  {
    var st1 := SetDirs(st, x, nd);
    var s := SetAt(Legacy, st1, x, "status", nd.status.GetOr(VStr("okay")));
    DirsThenProps(st, s.store, x, nd);
    if s.outcome.Fail? then s
    else
      var p := PropsFrom(s.store, x, nd.properties, 0);
      PropsOnlyTrans(st1, s.store, p.store, x);
      DirsThenProps(st, p.store, x, nd);
      if p.outcome.Fail? then p
      else
        var k := FillKids(p.store, x, nd, 0);
        FilledThen(st, p.store, k.store, x, nd);
        k
  }

  /** What `undictify_node` leaves in x's properties when nothing raises:
      the status is set first (`okay` when the dictionary has none), then
      every listed property in turn. A status the list does not name
      reports the status value when that is not a bool, and every other
      unlisted name keeps its property. */
  lemma FillProps(st: Store, x: NodeId, nd: NodeData)
    requires Tidy(st) && x in st.heap && UniqueNames(st.heap[x].props)
    ensures var r := Fill(st, x, nd); var sv := nd.status.GetOr(VStr("okay")); var after := r.store.heap[x].props;
      r.outcome == Pass ==>
        && SetInTurn(SetProperty(Legacy, st.heap[x].props, "status", sv).props, after, nd.properties, 0)
        && (LastFor(nd.properties, 0, "status").None? && !sv.VBool? ==>
              Lookup(after, "status").Some? && PropertyValue(Lookup(after, "status").value) == Normalised(sv))
        && (forall n | n != "status" && LastFor(nd.properties, 0, n).None? :: Lookup(after, n) == Lookup(st.heap[x].props, n))
  {
    var r := Fill(st, x, nd);
    if r.outcome == Pass {
      var sv := nd.status.GetOr(VStr("okay"));
      var st1 := SetDirs(st, x, nd);
      var s := SetAt(Legacy, st1, x, "status", sv);
      var e := SetProperty(Legacy, st.heap[x].props, "status", sv);
      SetPropertySpec(Legacy, st.heap[x].props, "status", sv);
      assert s.store.heap[x].props == e.props && s.outcome == e.outcome;
      assert s.outcome == Pass;
      var p := PropsFrom(s.store, x, nd.properties, 0);
      assert p.outcome == Pass;
      PropsFromSpec(s.store, x, nd.properties, 0);
      var k := FillKids(p.store, x, nd, 0);
      assert r == k;
      assert r.store.heap[x].props == p.store.heap[x].props;
      var after := r.store.heap[x].props;
      assert SetName(e.props, after, nd.properties, 0, "status");
      forall n | n != "status" && LastFor(nd.properties, 0, n).None?
        ensures Lookup(after, n) == Lookup(st.heap[x].props, n)
      {
        assert SetName(e.props, after, nd.properties, 0, n);
      }
    }
  }

  /** b is a with at most x's properties changed. */
  predicate PropsOnly(a: Store, b: Store, x: NodeId)
    requires x in a.heap
  {
    && Tidy(b) && b.heap.Keys == a.heap.Keys && b.entries == a.entries && b.next == a.next
    && (forall y | y in a.heap && y != x :: b.heap[y] == a.heap[y])
    && b.heap[x] == a.heap[x].(props := b.heap[x].props)
  }

  lemma PropsOnlyTrans(a: Store, b: Store, c: Store, x: NodeId)
    requires x in a.heap && PropsOnly(a, b, x) && PropsOnly(b, c, x)
    ensures PropsOnly(a, c, x)
  {
  }

  /** Setting the directive lists and then properties fills x with no
      child added. */
  lemma DirsThenProps(st: Store, p: Store, x: NodeId, nd: NodeData)
    requires Tidy(st) && x in st.heap && PropsOnly(SetDirs(st, x, nd), p, x)
    ensures Filled(st, p, x, nd) && p.heap[x].children == st.heap[x].children
  {
    MoreKidsSame(st.heap[x].children, st.heap);
  }

  /** Children appended after the directive lists are set. */
  lemma FilledThen(st: Store, p: Store, k: Store, x: NodeId, nd: NodeData)
    requires x in st.heap && Filled(st, p, x, nd) && p.heap[x].children == st.heap[x].children
    requires Appended(p, k, x)
    ensures Filled(st, k, x, nd)
  {
    GrownTrans(st, p, k);
  }

  /** r is st with nodes added and new children appended to x, and no
      other node of st changed. */
  predicate Appended(st: Store, r: Store, x: NodeId)
    requires x in st.heap
  {
    && Tidy(r) && Grown(st, r) && Keeps(st.heap, r.heap, x) && x in r.heap
    && r.heap[x] == st.heap[x].(children := r.heap[x].children)
    && MoreKids(st.heap[x].children, r.heap[x].children, st.heap)
  }

  lemma AppendedTrans(a: Store, b: Store, c: Store, x: NodeId)
    requires x in a.heap && Appended(a, b, x) && Appended(b, c, x)
    ensures Appended(a, c, x)
  {
    GrownTrans(a, b, c);
    MoreKidsTrans(a.heap[x].children, b.heap[x].children, c.heap[x].children, a.heap, b.heap);
  }

  /** `new_node(x, ...)` appends its node to x's children. */
  lemma CreateKid(st: Store, x: NodeId, rec: Result<NodeRec>)
    requires Tidy(st) && x in st.heap
    requires rec.Ok? ==> rec.value.parent == Some(x) && rec.value.children == []
    ensures var m := Create(st, rec, Some(x));
      && Appended(st, m.store, x)
      && (m.node.Ok? ==> m.node.value !in st.heap && m.store.heap[x].children == st.heap[x].children + [m.node.value])
  {
    var m := Create(st, rec, Some(x));
    CreateSpec(st, rec, Some(x));
    var a := st.heap[x].children;
    if m.store.heap[x] == st.heap[x] {
      MoreKidsSame(a, st.heap);
    } else {
      assert m.store.heap[x].children == a + [st.next];
      assert (a + [st.next])[..|a|] == a;
    }
  }

  /** Filling a new child y of x leaves x as it was. */
  lemma FillBeside(st: Store, m: Store, f: Store, x: NodeId, y: NodeId)
    requires x in st.heap && Appended(st, m, x) && y !in st.heap && y in m.heap
    requires Tidy(f) && Grown(m, f) && Keeps(m.heap, f.heap, y)
    ensures Appended(st, f, x) && f.heap[x] == m.heap[x]
  {
    GrownTrans(st, m, f);
  }

  /** The child loop of `undictify_node` from child entry i on: every
      child entry gets a new child of x, never an existing one. */
  function FillKids(st: Store, x: NodeId, nd: NodeData, i: nat): (r: Built)
    requires Tidy(st) && x in st.heap && i <= |nd.children|
    ensures Appended(st, r.store, x)
    ensures r.outcome == Pass ==> |r.store.heap[x].children| == |st.heap[x].children| + |nd.children| - i
    decreases nd, |nd.children| - i
  {
    MoreKidsSame(st.heap[x].children, st.heap);
    if i == |nd.children| then Built(st, Pass)
    else
      var child := nd.children[i];
      assert child in nd.children;
      match SigOf(child)
      case Err(e) => Built(st, Fail(e))
      case Ok(sig) =>
        var rec := LegacyNewRecord(Some(x), sig.nodename, sig.handle, sig.ref, sig.reg);
        var m := Create(st, rec, Some(x));
        CreateKid(st, x, rec);
        if m.node.Err? then Built(m.store, Fail(m.node.error))
        else
          var y := m.node.value;
          var f := Fill(m.store, y, child);
          FillBeside(st, m.store, f.store, x, y);
          if f.outcome.Fail? then f
          else
            var rest := FillKids(f.store, x, nd, i + 1);
            AppendedTrans(st, f.store, rest.store, x);
            rest
  }

  /** The node a top-level dictionary is filled into: the node
      `get_node_from_tuple` finds, or a new parentless node. */
  function TopOf(st: Store, sig: LegacySig): (m: Made)
    requires Tidy(st)
    ensures Tidy(m.store) && Grown(st, m.store)
    ensures m.node.Ok? ==> m.node.value in m.store.heap
  {
    match FromTuple(st.heap, st.entries, SigTuple(sig.nodename, HandleList(sig.handle), sig.ref, sig.reg))
    case Some(y) => Made(st, Ok(y))
    case None => Create(st, LegacyNewRecord(None, sig.nodename, sig.handle, sig.ref, sig.reg), None)
  }

  /** `populate` fills the node the registry finds for a top-level
      dictionary, and creates nothing then; otherwise it fills a new
      parentless node with the dictionary's name fields and address,
      registered last under a handle above all others. Creation fails
      only with the constructor's NodeSignatureError or the ValueError of
      an empty registry, and then registers nothing. */
  lemma TopOfSpec(st: Store, sig: LegacySig)
    requires Tidy(st)
    ensures var found := FromTuple(st.heap, st.entries, SigTuple(sig.nodename, HandleList(sig.handle), sig.ref, sig.reg));
      var m := TopOf(st, sig);
      && (found.Some? ==> m == Made(st, Ok(found.value)))
      && (found.None? && m.node.Ok? ==>
            && m.node.value !in st.heap && m.store.heap[m.node.value].parent.None?
            && m.store.heap[m.node.value].nodename == sig.nodename
            && m.store.heap[m.node.value].handles == HandleList(sig.handle)
            && m.store.heap[m.node.value].ref == sig.ref
            && m.store.heap[m.node.value].reg == RawReg(sig.reg)
            && |m.store.entries| == |st.entries| + 1
            && m.store.entries[|st.entries|].id == m.node.value
            && forall i | 0 <= i < |st.entries| :: st.entries[i].key < m.store.entries[|st.entries|].key)
      && (found.None? && m.node.Err? ==>
            m.store.entries == st.entries && (m.node.error.NodeSignatureError? || m.node.error == ValueError))
  {
    CreateSpec(st, LegacyNewRecord(None, sig.nodename, sig.handle, sig.ref, sig.reg), None);
  }

  /** The node loop of `populate` from entry i on. */
  function NodesFrom(st: Store, ns: seq<NodeData>, i: nat): (r: Built)
    requires Tidy(st) && i <= |ns|
    ensures Tidy(r.store) && Grown(st, r.store)
    decreases |ns| - i
  {
    if i == |ns| then Built(st, Pass)
    else
      match SigOf(ns[i])
      case Err(e) => Built(st, Fail(e))
      case Ok(sig) =>
        var m := TopOf(st, sig);
        if m.node.Err? then Built(m.store, Fail(m.node.error))
        else
          var f := Fill(m.store, m.node.value, ns[i]);
          GrownTrans(st, m.store, f.store);
          if f.outcome.Fail? then f
          else
            var rest := NodesFrom(f.store, ns, i + 1);
            GrownTrans(st, f.store, rest.store);
            rest
  }

  /** One top-level entry of `populate` whose tuple is made. */
  lemma NodesFromAt(st: Store, ns: seq<NodeData>, i: nat, sig: LegacySig)
    requires Tidy(st) && i < |ns| && SigOf(ns[i]) == Ok(sig)
    ensures var m := TopOf(st, sig);
      NodesFrom(st, ns, i) ==
        if m.node.Err? then Built(m.store, Fail(m.node.error))
        else
          var f := Fill(m.store, m.node.value, ns[i]);
          if f.outcome.Fail? then f else NodesFrom(f.store, ns, i + 1)
  {
  }

  // ----- what comes back from an export -----

  /** A node address as the dictionary holds it: single-handle trees keep
      the address text as written. */
  function RegText(reg: Reg): Option<string> {
    match reg
    case TextReg(t) => Some(t)
    case _ => None
  }

  /** A `dtc_*` entry of an exported dictionary. */
  function ArgOf(l: Option<seq<string>>): Option<DirArg> {
    match l case None => None case Some(x) => Some(DirList(x))
  }

  /** The dictionary an exported node dictionary reads back as, without
      its properties. */
  function NodeDataOf(nd: Dictify.NodeDict): (r: NodeData)
    ensures |r.children| == |nd.children|
  {
    NodeData(None, nd.nodename, nd.handle, nd.ref, RegText(nd.reg), ArgOf(nd.dtcInclude),
             ArgOf(nd.dtcDeleteProperty), ArgOf(nd.dtcDeleteNode), None, [],
             seq(|nd.children|, i requires 0 <= i < |nd.children| => NodeDataOf(nd.children[i])))
  }

  /** The dictionary an export reads back as. */
  function TreeDataOf(e: Dictify.Export): TreeData {
    TreeData(Some(e.dtsVersion), Some(e.gccInclude), Some(e.gccDefine), Some(e.filename),
             seq(|e.nodes|, i requires 0 <= i < |e.nodes| => NodeDataOf(e.nodes[i])))
  }

  /** The header `populate` writes from what `generate` exported is the
      exported tree's header: file name, version, includes and defines
      come back. */
  lemma HeaderRoundTrip(e: Dictify.Export, special: D.ODict<string, string>)
    ensures Populated(TreeDataOf(e), special) == Header(e.filename, e.dtsVersion, e.gccInclude, e.gccDefine, special)
  {
  }

  /** A directive list the exporter writes (left out when empty) is the
      list `undictify_node` stores. */
  lemma DirectivesRoundTrip(l: seq<string>)
    ensures Wrap(ArgOf(Dictify.Present(l))) == l
  {
  }

  /** A node exported by `generate` and filled back keeps its three
      directive lists and gets one new child per exported child. */
  lemma FillExported(st: Store, x: NodeId, n: NodeRec, nd: Dictify.NodeDict)
    requires Tidy(st) && x in st.heap
    requires nd.dtcInclude == Dictify.Present(n.includes) && nd.dtcDeleteNode == Dictify.Present(n.deleteNodes)
    requires nd.dtcDeleteProperty == Dictify.Present(n.deleteProps)
    ensures var r := Fill(st, x, NodeDataOf(nd)); var m := r.store.heap[x];
      && m.includes == n.includes && m.deleteNodes == n.deleteNodes && m.deleteProps == n.deleteProps
      && (r.outcome == Pass ==> |m.children| == |st.heap[x].children| + |nd.children|)
  {
    DirectivesRoundTrip(n.includes);
    DirectivesRoundTrip(n.deleteNodes);
    DirectivesRoundTrip(n.deleteProps);
  }

  // ----- the undictifier object -----

  /** `UnDictifier(dt, data)`: the dictionary and the single-handle tree
      it fills. */
  class UnDictifier {
    const data: TreeData
    const dt: DeviceTree

    ghost predicate Valid()
      reads dt
    {
      dt.Valid() && dt.dialect == Legacy
    }

    constructor(t: DeviceTree, d: TreeData)
      ensures data == d && dt == t
    {
      data := d;
      dt := t;
    }

    /** `populate()`: the header fields with their defaults, then each
        top-level dictionary into the node the registry finds for it or a
        new parentless node. */
    method Populate() returns (r: Outcome)
      requires Valid()
      modifies dt
      ensures Valid() && dt.Fields() == Populated(data, old(dt.dtcSpecial))
      ensures Built(Snap(dt), r) == NodesFrom(old(Snap(dt)), data.nodes, 0)
    {
      dt.dtsVersion := data.dtsVersion.GetOr(1);
      dt.gccInclude := data.gccInclude.GetOr([]);
      dt.gccDefine := data.gccDefine.GetOr([]);
      dt.filename := data.filename.GetOr(Some("generated.dts"));
      r := PopulateNodes();
    }

    /** The node loop of `populate`. */
    method PopulateNodes() returns (r: Outcome)
      requires Valid()
      modifies dt
      ensures Valid() && dt.Fields() == old(dt.Fields())
      ensures Built(Snap(dt), r) == NodesFrom(old(Snap(dt)), data.nodes, 0)
    {
      ghost var st0 := Snap(dt);
      var ns := data.nodes;
      for i := 0 to |ns|
        invariant Valid() && dt.Fields() == old(dt.Fields())
        invariant NodesFrom(Snap(dt), ns, i) == NodesFrom(st0, ns, 0)
      {
        var sig := SigOf(ns[i]);
        if sig.Err? {
          return Fail(sig.error);
        }
        NodesFromAt(Snap(dt), ns, i, sig.value);
        var made := FindOrCreate(sig.value);
        if made.Err? {
          return Fail(made.error);
        }
        r := UndictifyNode(made.value, ns[i]);
        if r.Fail? {
          return;
        }
      }
      return Pass;
    }

    /** The lookup-or-create step of `populate`. */
    method FindOrCreate(sig: LegacySig) returns (r: Result<NodeId>)
      requires Valid()
      modifies dt
      ensures Valid() && dt.Fields() == old(dt.Fields())
      ensures Made(Snap(dt), r) == TopOf(old(Snap(dt)), sig)
    {
      var node := dt.GetNodeFromTuple(SigTuple(sig.nodename, HandleList(sig.handle), sig.ref, sig.reg));
      if node.Some? {
        return Ok(node.value);
      }
      r := LegacyNewNodeFrom(dt, None, sig);
    }

    /** `undictify_node(x, nd)`. */
    method UndictifyNode(x: NodeId, nd: NodeData) returns (r: Outcome)
      requires Valid() && x in dt.heap
      modifies dt
      ensures Valid() && dt.Fields() == old(dt.Fields())
      ensures Built(Snap(dt), r) == Fill(old(Snap(dt)), x, nd)
      decreases nd, 1
    {
      dt.SetNodeDirectives(x, Wrap(nd.dtcInclude), Wrap(nd.dtcDeleteNode), Wrap(nd.dtcDeleteProperty));
      r := dt.SetNodeProperty(x, "status", nd.status.GetOr(VStr("okay")));
      if r.Fail? { return; }
      r := SetProperties(x, nd.properties);
      if r.Fail? { return; }
      r := UndictifyChildren(x, nd);
    }

    /** The property loop of `undictify_node`. */
    method SetProperties(x: NodeId, ps: seq<(string, Value)>) returns (r: Outcome)
      requires Valid() && x in dt.heap
      modifies dt
      ensures Valid() && dt.Fields() == old(dt.Fields()) && x in dt.heap
      ensures Built(Snap(dt), r) == PropsFrom(old(Snap(dt)), x, ps, 0)
    {
      ghost var st0 := Snap(dt);
      for i := 0 to |ps|
        invariant Valid() && dt.Fields() == old(dt.Fields()) && x in dt.heap
        invariant PropsFrom(Snap(dt), x, ps, i) == PropsFrom(st0, x, ps, 0)
      {
        r := dt.SetNodeProperty(x, ps[i].0, ps[i].1);
        if r.Fail? { return; }
      }
      return Pass;
    }

    /** The child loop of `undictify_node`: always a new child. */
    method UndictifyChildren(x: NodeId, nd: NodeData) returns (r: Outcome)
      requires Valid() && x in dt.heap
      modifies dt
      ensures Valid() && dt.Fields() == old(dt.Fields())
      ensures Built(Snap(dt), r) == FillKids(old(Snap(dt)), x, nd, 0)
      decreases nd, 0
    {
      ghost var st0 := Snap(dt);
      for i := 0 to |nd.children|
        invariant Valid() && dt.Fields() == old(dt.Fields()) && x in dt.heap
        invariant FillKids(Snap(dt), x, nd, i) == FillKids(st0, x, nd, 0)
      {
        var child := nd.children[i];
        assert child in nd.children;
        var sig := SigOf(child);
        if sig.Err? {
          return Fail(sig.error);
        }
        var made := LegacyNewNodeFrom(dt, Some(x), sig.value);
        if made.Err? {
          return Fail(made.error);
        }
        r := UndictifyNode(made.value, child);
        if r.Fail? {
          return;
        }
      }
      return Pass;
    }
  }
}
