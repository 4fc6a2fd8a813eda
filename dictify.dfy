/** The export of a single-handle (dtsgen) tree into nested dictionaries,
    `dtsgen/dictify/dictifier.py`. A node's dictionary is a record here:
    a key the source leaves out is an absent (`None`) field. */
module Dictify {
  import opened Wrappers
  import opened Properties
  import opened Nodes
  import opened Trees
  import opened Registry
  import opened Merging
  import opened DeviceTrees
  import TreeGraphs
  import D = ODicts

  /** The dictionary `dictify_node` builds: the name fields that are not
      `None`, the directive lists that are not empty, the properties by
      name, and the children by position when there are any; an empty
      `children` stands for the key left out. */
  datatype NodeDict = NodeDict(
    nodename: Option<string>,
    handle: Option<string>,
    ref: Option<string>,
    reg: Reg,
    dtcInclude: Option<seq<string>>,
    dtcDeleteNode: Option<seq<string>>,
    dtcDeleteProperty: Option<seq<string>>,
    properties: seq<Property>,
    children: seq<NodeDict>)

  /** The single `handle` of a dtsgen node: its first label. */
  function FirstLabel(hs: seq<string>): (r: Option<string>)
    ensures r.None? <==> hs == []
    ensures r.Some? ==> r.value == hs[0]
  {
    if hs == [] then None else Some(hs[0])
  }

  /** A directive list, kept only when it is not empty. */
  function Present(l: seq<string>): (r: Option<seq<string>>)
    ensures r.None? <==> l == []
    ensures r.Some? ==> r.value == l
  {
    if l == [] then None else Some(l)
  }

  /** `dictify_node(x)`: the walk stops with Diverges after `fuel` levels,
      where the source would recurse without end on a cyclic tree. */
  function DictifyNode(h: Heap, x: NodeId, fuel: nat): (r: Result<NodeDict>)
    requires x in h && Closed(h)
    ensures r.Err? ==> r.error == Diverges
    decreases fuel, 0
  {
    if fuel == 0 then Err(Diverges)
    else
      var n := h[x];
      var kids :- DictifyChildren(h, n.children, 0, fuel - 1);
      Ok(NodeDict(n.nodename, FirstLabel(n.handles), n.ref, n.reg,
                  Present(n.includes), Present(n.deleteNodes), Present(n.deleteProps),
                  n.props, kids))
  }

  /** The `children` loop of `dictify_node` from child i on. */
  function DictifyChildren(h: Heap, cs: seq<NodeId>, i: nat, fuel: nat): (r: Result<seq<NodeDict>>)
    requires i <= |cs| && (forall c | c in cs :: c in h) && Closed(h)
    ensures r.Err? ==> r.error == Diverges
    ensures r.Ok? ==> |r.value| == |cs| - i
    decreases fuel, 1, |cs| - i
  {
    if i == |cs| then Ok([])
    else
      var d :- DictifyNode(h, cs[i], fuel);
      var rest :- DictifyChildren(h, cs, i + 1, fuel);
      Ok([d] + rest)
  }

  /** The children loop finishes exactly when every child's export does. */
  lemma {:induction false} DictifyChildrenAt(h: Heap, cs: seq<NodeId>, i: nat, fuel: nat)
    requires i <= |cs| && (forall c | c in cs :: c in h) && Closed(h)
    ensures DictifyChildren(h, cs, i, fuel).Ok? <==> forall k | i <= k < |cs| :: DictifyNode(h, cs[k], fuel).Ok?
    decreases |cs| - i
  {
    if i < |cs| {
      var r := DictifyChildren(h, cs, i, fuel);
      var d := DictifyNode(h, cs[i], fuel);
      var rest := DictifyChildren(h, cs, i + 1, fuel);
      DictifyChildrenAt(h, cs, i + 1, fuel);
      if d.Ok? && rest.Ok? {
        assert r == Ok([d.value] + rest.value);
      } else {
        assert r.Err?;
      }
    }
  }

  /** `dictify_node` keeps each of the node's fields under its own key:
      the names as they are, the directive lists when they are not
      empty, and the properties in order. */
  lemma DictifyNodeFields(h: Heap, x: NodeId, fuel: nat)
    requires x in h && Closed(h) && DictifyNode(h, x, fuel).Ok?
    ensures var n := h[x]; var nd := DictifyNode(h, x, fuel).value;
      && nd.nodename == n.nodename && nd.ref == n.ref && nd.reg == n.reg
      && (nd.handle.Some? <==> n.handles != [])
      && (nd.handle.Some? ==> nd.handle.value == n.handles[0])
      && (nd.dtcInclude.Some? <==> n.includes != [])
      && (nd.dtcDeleteNode.Some? <==> n.deleteNodes != [])
      && (nd.dtcDeleteProperty.Some? <==> n.deleteProps != [])
      && nd.properties == n.props
  {
  }

  /** ... and `children` exactly when there are children, child k under
      key k. */
  lemma DictifyNodeKids(h: Heap, x: NodeId, fuel: nat, k: nat)
    requires x in h && Closed(h) && DictifyNode(h, x, fuel).Ok?
    ensures |DictifyNode(h, x, fuel).value.children| == |h[x].children|
    ensures k < |h[x].children| ==>
      && DictifyNode(h, h[x].children[k], fuel - 1).Ok?
      && DictifyNode(h, x, fuel).value.children[k] == DictifyNode(h, h[x].children[k], fuel - 1).value
  {
    DictifyUnfold(h, x, fuel);
    if k < |h[x].children| {
      DictifyChildAt(h, h[x].children, 0, fuel - 1, k);
    }
  }

  lemma {:induction false} DictifyChildAt(h: Heap, cs: seq<NodeId>, i: nat, fuel: nat, k: nat)
    requires i <= k < |cs| && (forall c | c in cs :: c in h) && Closed(h)
    requires DictifyChildren(h, cs, i, fuel).Ok?
    ensures DictifyNode(h, cs[k], fuel).Ok?
    ensures DictifyChildren(h, cs, i, fuel).value[k - i] == DictifyNode(h, cs[k], fuel).value
    decreases k - i
  {
    var d := DictifyNode(h, cs[i], fuel);
    assert d.Ok?;
    var rest := DictifyChildren(h, cs, i + 1, fuel);
    assert DictifyChildren(h, cs, i, fuel) == Ok([d.value] + rest.value);
    if k > i {
      DictifyChildAt(h, cs, i + 1, fuel, k);
    }
  }

  /** The children of an export are the children loop's output. */
  lemma DictifyUnfold(h: Heap, x: NodeId, fuel: nat)
    requires x in h && Closed(h) && DictifyNode(h, x, fuel).Ok?
    ensures fuel > 0 && DictifyChildren(h, h[x].children, 0, fuel - 1).Ok?
    ensures DictifyNode(h, x, fuel).value.children == DictifyChildren(h, h[x].children, 0, fuel - 1).value
  {
  }

  /** The export succeeds exactly when every child's export does. */
  lemma DictifyNodeOk(h: Heap, x: NodeId, fuel: nat)
    requires x in h && Closed(h)
    ensures DictifyNode(h, x, fuel).Ok? <==>
      fuel > 0 && forall k | 0 <= k < |h[x].children| :: DictifyNode(h, h[x].children[k], fuel - 1).Ok?
  {
    if fuel > 0 {
      DictifyChildrenAt(h, h[x].children, 0, fuel - 1);
    }
  }

  // ----- every node exported once -----

  /** The number of node dictionaries in an export. */
  function Count(nd: NodeDict): nat {
    1 + CountAll(nd.children)
  }

  function CountAll(ks: seq<NodeDict>): nat {
    if ks == [] then 0 else Count(ks[0]) + CountAll(ks[1..])
  }

  /** The export holds one dictionary for each node the walk reaches. */
  lemma {:induction false} DictifyCount(h: Heap, x: NodeId, fuel: nat)
    requires x in h && Closed(h) && DictifyNode(h, x, fuel).Ok?
    ensures Count(DictifyNode(h, x, fuel).value) == TreeGraphs.Size(h, x, fuel)
    decreases fuel, 0
  {
    ChildrenCount(h, h[x].children, 0, fuel - 1);
  }

  lemma {:induction false} ChildrenCount(h: Heap, cs: seq<NodeId>, i: nat, fuel: nat)
    requires i <= |cs| && (forall c | c in cs :: c in h) && Closed(h) && DictifyChildren(h, cs, i, fuel).Ok?
    ensures CountAll(DictifyChildren(h, cs, i, fuel).value) == TreeGraphs.SizeFrom(h, cs, i, fuel)
    decreases fuel, 1, |cs| - i
  {
    if i < |cs| {
      var d := DictifyNode(h, cs[i], fuel).value;
      var rest := DictifyChildren(h, cs, i + 1, fuel).value;
      DictifyCount(h, cs[i], fuel);
      ChildrenCount(h, cs, i + 1, fuel);
      assert ([d] + rest)[1..] == rest;
    }
  }

  // ----- acyclic trees -----

  /** On an acyclic tree a node's export never gives up when the fuel
      reaches below the deepest node. */
  lemma {:induction false} DictifyEnds(h: Heap, x: NodeId, fuel: nat)
    requires Acyclic(h) && x in h && fuel + Height(h, x) > |h|
    ensures DictifyNode(h, x, fuel).Ok?
    decreases fuel, 0
  {
    DictifyKidsEnd(h, x, 0, fuel - 1);
  }

  lemma {:induction false} DictifyKidsEnd(h: Heap, x: NodeId, i: nat, fuel: nat)
    requires Acyclic(h) && x in h && i <= |h[x].children| && fuel + Height(h, x) >= |h|
    ensures DictifyChildren(h, h[x].children, i, fuel).Ok?
    decreases fuel, 1, |h[x].children| - i
  {
    var cs := h[x].children;
    if i < |cs| {
      ChildHeight(h, x, cs[i]);
      DictifyEnds(h, cs[i], fuel);
      DictifyKidsEnd(h, x, i + 1, fuel);
    }
  }

  /** With the depth bound every node of an acyclic tree is exported. */
  lemma DictifyAcyclic(h: Heap, x: NodeId)
    requires Acyclic(h) && x in h
    ensures DictifyNode(h, x, Depth(h)).Ok?
  {
    DictifyEnds(h, x, Depth(h));
  }

  /** `generate` on an acyclic tree writes the root and every ref node. */
  lemma ExportAcyclic(a: Arena)
    requires Sound(a) && Acyclic(a.heap)
    ensures ExportNodes(a).outcome == Pass
  {
    var h := a.heap;
    var refs := Index(ByRef, h, a.entries);
    forall k | 0 <= k < |refs| ensures DictifyNode(h, refs[k].1, Depth(h)).Ok? {
      DictifyAcyclic(h, refs[k].1);
    }
    assert RefsExport(h, refs, 0);
    RefNodesPass(h, refs, 0);
    var byName := Index(ByName, h, a.entries);
    if D.Has(byName, "/") {
      assert byName[D.IndexOf(byName, "/")].1 in h;
      DictifyAcyclic(h, D.Get(byName, "/"));
    }
  }

  // ----- generate -----

  /** The dictionary `generate` fills. */
  datatype Export = Export(filename: Option<string>, gccInclude: seq<string>, gccDefine: D.ODict<string, Define>,
                           dtsVersion: int, nodes: seq<NodeDict>)

  /** The `nodes` entries written so far, and whether the loop raised. */
  datatype Exported = Exported(nodes: seq<NodeDict>, outcome: Outcome)

  /** The ref-node entries from ref i on, up to the first that raises. */
  function RefNodes(h: Heap, refs: D.ODict<string, NodeId>, i: nat): (r: Exported)
    requires i <= |refs| && Closed(h) && forall k | 0 <= k < |refs| :: refs[k].1 in h
    decreases |refs| - i
  {
    if i == |refs| then Exported([], Pass)
    else
      match DictifyNode(h, refs[i].1, Depth(h))
      case Err(e) => Exported([], Fail(e))
      case Ok(nd) =>
        var rest := RefNodes(h, refs, i + 1);
        Exported([nd] + rest.nodes, rest.outcome)
  }

  /** `data['nodes']`: the root under key 0 when the tree has one, then
      each ref node under the next key. */
  function ExportNodes(a: Arena): (r: Exported)
    requires Sound(a)
  {
    var h := a.heap;
    var refs := Index(ByRef, h, a.entries);
    match D.Lookup(Index(ByName, h, a.entries), "/")
    case None => RefNodes(h, refs, 0)
    case Some(root) =>
      assert root in h by { var byName := Index(ByName, h, a.entries); assert byName[D.IndexOf(byName, "/")].1 in h; }
      match DictifyNode(h, root, Depth(h))
      case Err(e) => Exported([], Fail(e))
      case Ok(nd) =>
        var rest := RefNodes(h, refs, 0);
        Exported([nd] + rest.nodes, rest.outcome)
  }

  /** The loop over the ref nodes finishes exactly when no export from
      ref i on raises, and then raises only Diverges. */
  lemma {:induction false} RefNodesPass(h: Heap, refs: D.ODict<string, NodeId>, i: nat)
    requires i <= |refs| && Closed(h) && forall k | 0 <= k < |refs| :: refs[k].1 in h
    ensures RefNodes(h, refs, i).outcome == Pass <==> RefsExport(h, refs, i)
    ensures RefNodes(h, refs, i).outcome.Fail? ==> RefNodes(h, refs, i).outcome.error == Diverges
    ensures RefNodes(h, refs, i).outcome == Pass ==> |RefNodes(h, refs, i).nodes| == |refs| - i
    decreases |refs| - i
  {
    if i < |refs| {
      RefNodesPass(h, refs, i + 1);
    }
  }

  /** Every ref node from i on is exported without raising. */
  predicate RefsExport(h: Heap, refs: D.ODict<string, NodeId>, i: nat)
    requires Closed(h) && forall k | 0 <= k < |refs| :: refs[k].1 in h
  {
    forall k | i <= k < |refs| :: DictifyNode(h, refs[k].1, Depth(h)).Ok?
  }

  /** Entry k of the loop's output is the export of ref node k. */
  lemma {:induction false} RefNodesNth(h: Heap, refs: D.ODict<string, NodeId>, i: nat, k: nat)
    requires i <= k < |refs| && Closed(h) && forall j | 0 <= j < |refs| :: refs[j].1 in h
    requires RefNodes(h, refs, i).outcome == Pass
    ensures k - i < |RefNodes(h, refs, i).nodes|
    ensures DictifyNode(h, refs[k].1, Depth(h)).Ok?
    ensures RefNodes(h, refs, i).nodes[k - i] == DictifyNode(h, refs[k].1, Depth(h)).value
    decreases k - i
  {
    var d := DictifyNode(h, refs[i].1, Depth(h));
    assert d.Ok?;
    var rest := RefNodes(h, refs, i + 1);
    assert RefNodes(h, refs, i) == Exported([d.value] + rest.nodes, rest.outcome);
    if k > i {
      RefNodesNth(h, refs, i + 1, k);
    }
  }

  lemma RefNodesAt(h: Heap, refs: D.ODict<string, NodeId>)
    requires Closed(h) && forall k | 0 <= k < |refs| :: refs[k].1 in h
    requires RefNodes(h, refs, 0).outcome == Pass
    ensures |RefNodes(h, refs, 0).nodes| == |refs|
    ensures forall k | 0 <= k < |refs| ::
      DictifyNode(h, refs[k].1, Depth(h)).Ok? && RefNodes(h, refs, 0).nodes[k] == DictifyNode(h, refs[k].1, Depth(h)).value
  {
    RefNodesPass(h, refs, 0);
    forall k | 0 <= k < |refs|
      ensures DictifyNode(h, refs[k].1, Depth(h)).Ok? && RefNodes(h, refs, 0).nodes[k] == DictifyNode(h, refs[k].1, Depth(h)).value
    {
      RefNodesNth(h, refs, 0, k);
    }
  }

  /** When nothing raises, the root is entry 0 if the tree has one, and
      each ref node, in the by-ref order, takes the next consecutive key. */
  lemma ExportLayout(a: Arena)
    requires Sound(a) && ExportNodes(a).outcome == Pass
    ensures var byName := Index(ByName, a.heap, a.entries);
      var refs := Index(ByRef, a.heap, a.entries);
      var off := if D.Has(byName, "/") then 1 else 0;
      var nodes := ExportNodes(a).nodes;
      && |nodes| == off + |refs|
      && (D.Has(byName, "/") ==>
            && D.Get(byName, "/") in a.heap
            && DictifyNode(a.heap, D.Get(byName, "/"), Depth(a.heap)).Ok?
            && nodes[0] == DictifyNode(a.heap, D.Get(byName, "/"), Depth(a.heap)).value)
      && forall k | 0 <= k < |refs| ::
           DictifyNode(a.heap, refs[k].1, Depth(a.heap)).Ok? &&
           nodes[off + k] == DictifyNode(a.heap, refs[k].1, Depth(a.heap)).value
  {
    var refs := Index(ByRef, a.heap, a.entries);
    RefNodesAt(a.heap, refs);
    var byName := Index(ByName, a.heap, a.entries);
    if D.Has(byName, "/") { assert byName[D.IndexOf(byName, "/")].1 in a.heap; }
  }

  /** `Dictifier(dt)`: the tree and the dictionary `generate` fills, which
      stays empty (`None`) until then. The YAML file name is not part of
      this model. */
  class Dictifier {
    const dt: DeviceTree
    var data: Option<Export>

    constructor(t: DeviceTree)
      ensures dt == t && data.None?
    {
      dt := t;
      data := None;
    }

    /** `generate()`: the header fields, then the root and the ref nodes.
        A node whose export raises stops the loop, with the entries made
        before it kept. */
    method Generate() returns (r: Outcome)
      requires dt.Valid()
      modifies this
      ensures var e := ExportNodes(dt.State());
        && r == e.outcome
        && data == Some(Export(dt.filename, dt.gccInclude, dt.gccDefine, dt.dtsVersion, e.nodes))
    {
      var h := dt.heap;
      ghost var a := dt.State();
      var byName := dt.NodesBy(ByName);
      var refs := dt.NodesBy(ByRef);
      var nodes: seq<NodeDict> := [];
      var root := D.Lookup(byName, "/");
      if root.Some? {
        assert byName[D.IndexOf(byName, "/")].1 in h;
        var nd := DictifyNode(h, root.value, Depth(h));
        if nd.Err? {
          data := Some(Export(dt.filename, dt.gccInclude, dt.gccDefine, dt.dtsVersion, []));
          return Fail(nd.error);
        }
        nodes := [nd.value];
      }
      assert ExportNodes(a) == Exported(nodes + RefNodes(h, refs, 0).nodes, RefNodes(h, refs, 0).outcome);
      var more;
      more, r := ExportRefs(h, refs);
      nodes := nodes + more;
      data := Some(Export(dt.filename, dt.gccInclude, dt.gccDefine, dt.dtsVersion, nodes));
    }
  }

  /** The loop of `generate` over the ref nodes: the entries it writes
      before the first export that raises, and whether one raised. */
  method ExportRefs(h: Heap, refs: D.ODict<string, NodeId>) returns (nodes: seq<NodeDict>, r: Outcome)
    requires Closed(h) && forall k | 0 <= k < |refs| :: refs[k].1 in h
    ensures Exported(nodes, r) == RefNodes(h, refs, 0)
  {
    nodes := [];
    var i := 0;
    while i < |refs|
      invariant 0 <= i <= |refs|
      invariant RefNodes(h, refs, 0) == Exported(nodes + RefNodes(h, refs, i).nodes, RefNodes(h, refs, i).outcome)
    {
      var nd := DictifyNode(h, refs[i].1, Depth(h));
      if nd.Err? {
        assert nodes + [] == nodes;
        return nodes, Fail(nd.error);
      }
      assert nodes + RefNodes(h, refs, i).nodes == (nodes + [nd.value]) + RefNodes(h, refs, i + 1).nodes;
      nodes := nodes + [nd.value];
      i := i + 1;
    }
    assert nodes + [] == nodes;
    return nodes, Pass;
  }
}
