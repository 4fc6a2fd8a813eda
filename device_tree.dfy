/** The device tree object: the registry of nodes under integer handles,
    the file-level fields, and the operations that query, grow, merge and
    print it. One class serves the current tree (`pyDtsTool/device_tree.py`),
    the single-handle tree of `dtsgen/device_tree.py` and the legacy tree
    of `device_tree/device_tree.py`; the dialect picks the node
    constructor. */
module DeviceTrees {
  import opened Wrappers
  import opened Text
  import opened Properties
  import opened Signatures
  import opened Nodes
  import opened Trees
  import opened Registry
  import opened Merging
  import opened Printing
  import opened ByHandle
  import D = ODicts

  /** A `gcc_define` value: a flag, `None`, text or a number. */
  datatype Define = DefBool(b: bool) | DefNone | DefStr(s: string) | DefInt(n: int)

  /** A value passed where a file name is expected. */
  datatype FileArg = FileName(name: string) | NotAString

  /** The labels argument of `new_node`: one string of `: `-separated
      labels, or a list. */
  datatype Labels = LabelText(text: string) | LabelSeq(labels: seq<string>)

  function LabelList(l: Labels): (r: seq<string>)
    ensures l.LabelSeq? ==> r == l.labels
  {
    match l
    case LabelText(s) => Split(s, ": ")
    case LabelSeq(ls) => ls
  }

  /** The fields of a tree other than its nodes. */
  datatype Header = Header(filename: Option<string>, dtsVersion: int, gccInclude: seq<string>,
                           gccDefine: D.ODict<string, Define>, dtcSpecial: D.ODict<string, string>)

  /** A fresh tree's root record: `/`, no labels, reference or address,
      no parent, no children, and (legacy) `status = "okay"`. */
  function RootRecord(d: Dialect): NodeRec {
    NodeRec(Some("/"), [], None, NoReg, if d == Legacy then [Property("status", PStr("okay"))] else [],
            [], None, [], [], [])
  }

  /** The root record is what `Node(nodename='/')` builds. */
  lemma RootRecordBuilt(d: Dialect)
    ensures NewRecord(d, None, Some("/"), [], None, None) == Ok(RootRecord(d))
  {
    RootValidates();
    var rg := if d == Current then ParseReg(None) else RawReg(None);
    assert rg == NoReg;
    assert RegProps(d, rg) == [];
    var pre: seq<Property> := if d == Legacy then [Property("status", PStr("okay"))] else [];
    assert pre + RegProps(d, rg) == pre;
  }

  /** `/` is a valid node name. */
  lemma RootValidates()
    ensures Validate(Some("/"), [], None) == Pass
  {
    assert !IsSpace('/');
    assert LStrip("/") == "/";
    assert RStrip("/") == "/";
  }

  /** A new record under a fresh id, listed last by its parent; no other
      node changes. */
  function Adopt(h: Heap, x: NodeId, n: NodeRec): (r: Heap)
    requires n.parent.Some? ==> n.parent.value in h
    ensures r.Keys == h.Keys + {x}
    ensures x !in h ==> r[x] == n
    ensures n.parent.Some? && x !in h ==> r[n.parent.value].children == h[n.parent.value].children + [x]
    ensures forall y | y in h && y != x && Some(y) != n.parent :: r[y] == h[y]
  {
    var g := h[x := n];
    match n.parent
    case None => g
    case Some(p) => g[p := g[p].(children := g[p].children + [x])]
  }

  /** Adding a childless record under a fresh id keeps the arena well formed. */
  lemma AdoptSound(a: Arena, x: NodeId, n: NodeRec)
    requires Sound(a) && x !in a.heap && n.children == []
    requires n.parent.Some? ==> n.parent.value in a.heap
    requires UniqueNames(n.props) && forall p | p in n.props :: WellFormed(p.value)
    ensures Sound(Arena(Adopt(a.heap, x, n), a.entries))
  {
    var g := a.heap[x := n];
    assert Closed(g);
    if n.parent.Some? {
      var p := n.parent.value;
      ClosedUpdate(g, p, g[p].(children := g[p].children + [x]));
      PropsUpdate(g, p, g[p].(children := g[p].children + [x]));
    }
  }

  /** Adding a node keeps every parent and child link in agreement. */
  lemma AdoptLinked(h: Heap, x: NodeId, n: NodeRec)
    requires Closed(h) && Linked(h) && x !in h && n.children == []
    requires n.parent.Some? ==> n.parent.value in h
    ensures Closed(Adopt(h, x, n)) && Linked(Adopt(h, x, n))
  {
    var g := Adopt(h, x, n);
    forall y | y in g
      ensures g[y].parent.Some? ==> g[y].parent.value in g && y in g[g[y].parent.value].children
      ensures forall c | c in g[y].children :: c in g && g[c].parent == Some(y)
      ensures NoDup(g[y].children)
    {
      AdoptLinkedAt(h, x, n, y);
    }
  }

  /** The links of one node after adding a node. */
  lemma AdoptLinkedAt(h: Heap, x: NodeId, n: NodeRec, y: NodeId)
    requires Closed(h) && Linked(h) && x !in h && n.children == []
    requires n.parent.Some? ==> n.parent.value in h
    requires y in Adopt(h, x, n)
    ensures var g := Adopt(h, x, n);
      && (g[y].parent.Some? ==> g[y].parent.value in g && y in g[g[y].parent.value].children)
      && (forall c | c in g[y].children :: c in g && g[c].parent == Some(y))
      && NoDup(g[y].children)
  {
    var g := Adopt(h, x, n);
    if y != x {
      assert g[y].parent == h[y].parent;
      if Some(y) == n.parent {
        assert g[y].children == h[y].children + [x];
        NoDupSnoc(h[y].children, x);
        forall c | c in g[y].children ensures c in g && g[c].parent == Some(y) {
          if c != x { assert c in h[y].children; }
        }
      } else {
        assert g[y].children == h[y].children;
      }
      if h[y].parent.Some? {
        var q := h[y].parent.value;
        assert y in h[q].children;
      }
    }
  }

  // ----- __str__ -----

  /** The package a tree belongs to; it names itself in the banner. */
  datatype Edition = PyDtsTool | DtsGen

  /** The comment banner every printed tree starts with. */
  function Banner(e: Edition): seq<string> {
    ["/*********************************************/",
    "/* " + (if e == PyDtsTool then "pyDtsTool" else "PyDeviceTree") + " by Altium                    */",
    "/* Copyright (c) 2020 Altium, Inc            */",
    "/* Contact: Keith Lee <keith.lee@altium.com> */",
    "/*********************************************/",
    ""]
  }

  /** One `dtc_special` item: skipped for `dts-v…` keys, otherwise
      `/k/ v;` with the semicolon added when missing, and a blank line. */
  function SpecialLine(k: string, v: string): string {
    if StartsWith(k, "dts-v") then ""
    else "/" + k + "/ " + (if EndsWith(v, ";") then v else v + ";") + "\n\n"
  }

  function SpecialsText(sp: D.ODict<string, string>): string {
    if sp == [] then "" else SpecialsText(sp[..|sp| - 1]) + SpecialLine(sp[|sp| - 1].0, sp[|sp| - 1].1)
  }

  /** An include taken verbatim when it starts with `<`, quoted otherwise. */
  function IncludeDirective(inc: string): string {
    if StartsWith(inc, "<") then "#include " + inc + "\n" else "#include \"" + inc + "\"\n"
  }

  function IncludesText(incs: seq<string>): string {
    if incs == [] then "" else IncludesText(incs[..|incs| - 1]) + IncludeDirective(incs[|incs| - 1])
  }

  /** The text after a define's name: nothing for a flag or a missing
      value, otherwise a space and the value as Python's str shows it. */
  function DefineValue(v: Define): string {
    match v
    case DefBool(_) => ""
    case DefNone => ""
    case DefStr(s) => " " + s
    case DefInt(n) => " " + PyStrInt(n)
  }

  /** `#define NAME`, then the value unless it is a flag or `None`. */
  function DefineLine(name: string, v: Define): string {
    "#define " + name + DefineValue(v) + "\n"
  }

  function DefinesText(defs: D.ODict<string, Define>): string {
    if defs == [] then "" else DefinesText(defs[..|defs| - 1]) + DefineLine(defs[|defs| - 1].0, defs[|defs| - 1].1)
  }

  /** Everything before the nodes: banner, version, specials, includes,
      defines, each section followed by a blank line. */
  function Preamble(e: Edition, hd: Header): string {
    Join(Banner(e), "\n") + "\n/dts-v" + PyStrInt(hd.dtsVersion) + "/;\n\n"
      + SpecialsText(hd.dtcSpecial) + IncludesText(hd.gccInclude) + "\n" + DefinesText(hd.gccDefine) + "\n"
  }

  /** `acc` in front of a result's text. */
  function Prefixed(acc: string, r: Result<string>): Result<string> {
    match r
    case Ok(s) => Ok(acc + s)
    case Err(e) => Err(e)
  }

  /** The reference nodes, each printed between newlines; the first that
      cannot be printed raises. */
  function RefsText(d: Dialect, h: Heap, refs: D.ODict<string, NodeId>): (r: Result<string>)
    requires (forall i | 0 <= i < |refs| :: refs[i].1 in h) && Closed(h) && PropsOk(h)
  {
    if refs == [] then Ok("")
    else
      var t :- PrintNode(d, h, refs[0].1, 0, Depth(h));
      assert forall i | 0 <= i < |refs| - 1 :: refs[1..][i] == refs[i + 1];
      Prefixed("\n" + t + "\n", RefsText(d, h, refs[1..]))
  }

  /** The root: the by-name entry `/`, if any, printed and followed by a newline. */
  function RootText(d: Dialect, a: Arena): (r: Result<string>)
    requires Sound(a)
  {
    var byName := Index(ByName, a.heap, a.entries);
    match D.Lookup(byName, "/")
    case None => Ok("")
    case Some(x) =>
      assert byName[D.IndexOf(byName, "/")].1 in a.heap;
      var t :- PrintNode(d, a.heap, x, 0, Depth(a.heap));
      Ok(t + "\n")
  }

  /** The whole printed file. */
  function TreeText(d: Dialect, e: Edition, hd: Header, a: Arena): (r: Result<string>)
    requires Sound(a)
  {
    var root :- RootText(d, a);
    Prefixed(Preamble(e, hd) + root, RefsText(d, a.heap, Index(ByRef, a.heap, a.entries)))
  }

  // ----- node paths -----

  /** An error met by a prefix of the registry is the error of the whole
      `_node_indexes_by_path` loop. */
  lemma {:induction false} PathRowsErr(h: Heap, es: seq<Entry>, k: nat)
    requires Registered(h, es) && Closed(h) && k <= |es| && PathRows(h, es[..k]).Err?
    ensures PathRows(h, es) == PathRows(h, es[..k])
    decreases |es|
  {
    if k < |es| {
      var front := es[..|es| - 1];
      assert front[..k] == es[..k];
      PathRowsErr(h, front, k);
    } else {
      assert es[..k] == es;
    }
  }

  /** The `path` loop's walk, finished, is the path. */
  lemma WalkIsPath(h: Heap, x: NodeId)
    requires x in h && Closed(h)
    ensures PathWalk(h, x, Depth(h), "").Err? ==> Path(h, x, Depth(h)) == PathWalk(h, x, Depth(h), "")
    ensures PathWalk(h, x, Depth(h), "").Ok? ==> Path(h, x, Depth(h)) == Ok(RemoveChar(PathWalk(h, x, Depth(h), "").value, ' '))
  {
    PathWalkSpec(h, x, Depth(h), "");
    if RawPath(h, x, Depth(h)).Ok? {
      assert RawPath(h, x, Depth(h)).value + "" == RawPath(h, x, Depth(h)).value;
    }
  }

  /** One more item of the `_node_indexes_by_path` loop. */
  lemma PathRowsStep(h: Heap, es: seq<Entry>, i: nat, rows: seq<Row>)
    requires Registered(h, es) && Closed(h) && i < |es| && PathRows(h, es[..i]) == Ok(rows)
    ensures Path(h, es[i].id, Depth(h)).Err? ==> PathRows(h, es[..i + 1]) == Err(Path(h, es[i].id, Depth(h)).error)
    ensures Path(h, es[i].id, Depth(h)).Ok? ==> PathRows(h, es[..i + 1]) == Ok(rows + [(es[i].key, [Path(h, es[i].id, Depth(h)).value])])
  {
    assert es[..i + 1][..i] == es[..i];
  }

  /** Grouping one more row appends its tags. */
  lemma GroupSnoc(rows: seq<Row>, row: Row)
    ensures Group(rows + [row]) == AppendAll(Group(rows), row.1, row.0)
  {
    assert (rows + [row])[..|rows|] == rows;
  }

  /** A handle is filed under a tag exactly when some row carries it. */
  lemma {:induction false} HitsNonEmpty(rows: seq<Row>, t: string)
    ensures Hits(rows, t) != [] <==> exists i | 0 <= i < |rows| :: t in rows[i].1
    decreases |rows|
  {
    if rows != [] {
      var front := rows[..|rows| - 1];
      var row := rows[|rows| - 1];
      HitsNonEmpty(front, t);
      TagHitsNonEmpty(row.1, t, row.0);
      if exists i | 0 <= i < |front| :: t in front[i].1 {
        var i :| 0 <= i < |front| && t in front[i].1;
        assert rows[i] == front[i];
      }
      if exists i | 0 <= i < |rows| :: t in rows[i].1 {
        var i :| 0 <= i < |rows| && t in rows[i].1;
        if i < |front| { assert front[i] == rows[i]; }
      }
    }
  }

  lemma {:induction false} TagHitsNonEmpty(tags: seq<string>, t: string, k: nat)
    ensures TagHits(tags, t, k) != [] <==> t in tags
    decreases |tags|
  {
    if tags != [] {
      var front := tags[..|tags| - 1];
      TagHitsNonEmpty(front, t, k);
      assert tags == front + [tags[|tags| - 1]];
    }
  }

  /** The keys of a group map. */
  function KeySetOf(g: Groups): (r: set<string>)
    ensures forall t :: t in r <==> D.Has(g, t)
  {
    set i | 0 <= i < |g| :: g[i].0
  }

  /** `_node_indexes_by_path().keys()` are exactly the paths of the
      registered nodes. */
  lemma PathKeys(h: Heap, es: seq<Entry>)
    requires Registered(h, es) && Closed(h) && PathRows(h, es).Ok?
    ensures forall p :: p in KeySetOf(Group(PathRows(h, es).value)) <==>
      exists i | 0 <= i < |es| :: Path(h, es[i].id, Depth(h)) == Ok(p)
  {
    var rows := PathRows(h, es).value;
    GroupSpec(rows);
    forall p ensures p in KeySetOf(Group(rows)) <==> exists i | 0 <= i < |es| :: Path(h, es[i].id, Depth(h)) == Ok(p) {
      HitsNonEmpty(rows, p);
      assert D.Has(Group(rows), p) <==> D.Lookup(Group(rows), p).Some?;
      if exists i | 0 <= i < |rows| :: p in rows[i].1 {
        var i :| 0 <= i < |rows| && p in rows[i].1;
        assert rows[i].1 == [Path(h, es[i].id, Depth(h)).value];
      }
      if exists i | 0 <= i < |es| :: Path(h, es[i].id, Depth(h)) == Ok(p) {
        var i :| 0 <= i < |es| && Path(h, es[i].id, Depth(h)) == Ok(p);
        assert p in rows[i].1;
      }
    }
  }

  // ----- node edits -----

  /** `set_parent` keeps ids closed and property lists well formed. */
  lemma ReparentSound(h: Heap, x: NodeId, p: NodeId)
    requires x in h && p in h && Closed(h) && PropsOk(h) && Reparent(h, x, p).Ok?
    ensures Closed(Reparent(h, x, p).value) && PropsOk(Reparent(h, x, p).value)
  {
    var d := Detach(h, x);
    if h[x].parent.Some? {
      var q := h[x].parent.value;
      var kids := RemoveFirst(h[q].children, x);
      forall c | c in kids ensures c in h {
        assert c in multiset(kids);
      }
      ClosedUpdate(h, q, h[q].(children := kids));
      PropsUpdate(h, q, h[q].(children := kids));
    }
    var d2 := d[x := d[x].(parent := Some(p))];
    ClosedUpdate(d, x, d[x].(parent := Some(p)));
    PropsUpdate(d, x, d[x].(parent := Some(p)));
    ClosedUpdate(d2, p, d2[p].(children := d2[p].children + [x]));
    PropsUpdate(d2, p, d2[p].(children := d2[p].children + [x]));
  }

  /** A node's property list replaced by another with unique names and
      factory-built values. */
  lemma PropsReplaced(h: Heap, y: NodeId, props: seq<Property>)
    requires Closed(h) && PropsOk(h) && y in h
    requires UniqueNames(props) && forall q | q in props :: WellFormed(q.value)
    ensures Closed(h[y := h[y].(props := props)]) && PropsOk(h[y := h[y].(props := props)])
  {
    ClosedUpdate(h, y, h[y].(props := props));
  }

  /** `extend_property_list` keeps names unique and stores only
      factory-built values. */
  lemma ExtendKeepsOk(d: Dialect, props: seq<Property>, name: string, items: seq<Value>)
    requires UniqueNames(props) && forall q | q in props :: WellFormed(q.value)
    ensures UniqueNames(ExtendPropertyList(d, props, name, items).props)
    ensures forall q | q in ExtendPropertyList(d, props, name, items).props :: WellFormed(q.value)
  {
    var e := ExtendPropertyList(d, props, name, items);
    match IndexOf(props, name) {
      case None =>
        if NewProperty(d, name, VList(items)).Ok? {
          AppendUnique(props, NewProperty(d, name, VList(items)).value);
        }
      case Some(i) =>
        var prev := props[i].value;
        if TypeMatch(prev, VList(items)) {
          var np := NewProperty(Current, name, VList(PropertyValue(prev).items + items));
          if np.Ok? {
            ReplaceUnique(props, i, np.value);
            forall q | q in e.props ensures WellFormed(q.value) {
              if q != np.value {
                var j :| 0 <= j < |e.props| && e.props[j] == q;
                assert props[j] == q;
              }
            }
          }
        } else if items != [] && !(d == Legacy && prev.PBool?) && TypeMatch(prev, items[0]) {
          SetPropertySpec(d, props, name, VList(items + [PropertyValue(prev)]));
          forall q | q in e.props ensures WellFormed(q.value) {
            SetPropertyWellFormed(d, props, name, VList(items + [PropertyValue(prev)]), q);
          }
        }
    }
  }

  /** One more item of each section loop of `__str__`. */
  lemma SpecialsStep(sp: D.ODict<string, string>, i: nat)
    requires i < |sp|
    ensures SpecialsText(sp[..i + 1]) == SpecialsText(sp[..i]) + SpecialLine(sp[i].0, sp[i].1)
  {
    assert sp[..i + 1][..i] == sp[..i];
  }

  lemma IncludesStep(incs: seq<string>, i: nat)
    requires i < |incs|
    ensures IncludesText(incs[..i + 1]) == IncludesText(incs[..i]) + IncludeDirective(incs[i])
  {
    assert incs[..i + 1][..i] == incs[..i];
  }

  lemma DefinesStep(defs: D.ODict<string, Define>, i: nat)
    requires i < |defs|
    ensures DefinesText(defs[..i + 1]) == DefinesText(defs[..i]) + DefineLine(defs[i].0, defs[i].1)
  {
    assert defs[..i + 1][..i] == defs[..i];
  }

  /** Text put in front twice is put in front once. */
  lemma PrefixedTwice(a: string, b: string, r: Result<string>)
    ensures Prefixed(a, Prefixed(b, r)) == Prefixed(a + b, r)
  {
    if r.Ok? {
      assert a + (b + r.value) == a + b + r.value;
    }
  }

  /** One more reference node of the `__str__` loop. */
  lemma RefsStep(d: Dialect, h: Heap, refs: D.ODict<string, NodeId>, i: nat, acc: string)
    requires (forall k | 0 <= k < |refs| :: refs[k].1 in h) && Closed(h) && PropsOk(h) && i < |refs|
    ensures PrintNode(d, h, refs[i].1, 0, Depth(h)).Err? ==>
      Prefixed(acc, RefsText(d, h, refs[i..])) == Err(PrintNode(d, h, refs[i].1, 0, Depth(h)).error)
    ensures PrintNode(d, h, refs[i].1, 0, Depth(h)).Ok? ==>
      Prefixed(acc, RefsText(d, h, refs[i..])) ==
      Prefixed(acc + ("\n" + PrintNode(d, h, refs[i].1, 0, Depth(h)).value + "\n"), RefsText(d, h, refs[i + 1..]))
  {
    assert refs[i..][0] == refs[i];
    assert refs[i..][1..] == refs[i + 1..];
    if PrintNode(d, h, refs[i].1, 0, Depth(h)).Ok? {
      PrefixedTwice(acc, "\n" + PrintNode(d, h, refs[i].1, 0, Depth(h)).value + "\n", RefsText(d, h, refs[i + 1..]));
    }
  }

  /** The loop has no reference node left. */
  lemma RefsDone(d: Dialect, h: Heap, refs: D.ODict<string, NodeId>, acc: string)
    requires (forall k | 0 <= k < |refs| :: refs[k].1 in h) && Closed(h) && PropsOk(h)
    ensures Prefixed(acc, RefsText(d, h, refs[|refs|..])) == Ok(acc)
  {
    assert refs[|refs|..] == [];
    assert acc + "" == acc;
  }

  /** The preamble from its three section texts. */
  lemma PreambleOf(e: Edition, hd: Header, specials: string, includes: string, defines: string)
    requires specials == SpecialsText(hd.dtcSpecial) && includes == IncludesText(hd.gccInclude)
    requires defines == DefinesText(hd.gccDefine)
    ensures Preamble(e, hd) == Join(Banner(e), "\n") + "\n/dts-v" + PyStrInt(hd.dtsVersion) + "/;\n\n"
      + specials + includes + "\n" + defines + "\n"
  {
  }

  /** The printed file once the root's text is known. */
  lemma TreeTextOf(d: Dialect, e: Edition, hd: Header, a: Arena, root: Result<string>)
    requires Sound(a) && root == RootText(d, a)
    ensures root.Err? ==> TreeText(d, e, hd, a) == Err(root.error)
    ensures root.Ok? ==> TreeText(d, e, hd, a) == Prefixed(Preamble(e, hd) + root.value, RefsText(d, a.heap, Index(ByRef, a.heap, a.entries)))
  {
  }

  // ----- the printed file, line by line -----

  /** The `dtc_special` items' lines, in order. */
  function SpecialLines(sp: D.ODict<string, string>): (r: seq<string>)
    ensures |r| == |sp|
  {
    seq(|sp|, k requires 0 <= k < |sp| => SpecialLine(sp[k].0, sp[k].1))
  }

  /** The `#include` lines, in order. */
  function IncludeLines(incs: seq<string>): (r: seq<string>)
    ensures |r| == |incs|
  {
    seq(|incs|, k requires 0 <= k < |incs| => IncludeDirective(incs[k]))
  }

  /** The `#define` lines, in order. */
  function DefineLines(defs: D.ODict<string, Define>): (r: seq<string>)
    ensures |r| == |defs|
  {
    seq(|defs|, k requires 0 <= k < |defs| => DefineLine(defs[k].0, defs[k].1))
  }

  lemma {:induction false} SpecialsLines(sp: D.ODict<string, string>)
    ensures SpecialsText(sp) == Concat(SpecialLines(sp))
    decreases |sp|
  {
    if sp != [] {
      var front := sp[..|sp| - 1];
      SpecialsLines(front);
      assert SpecialLines(sp) == SpecialLines(front) + [SpecialLine(sp[|sp| - 1].0, sp[|sp| - 1].1)];
      ConcatSnoc(SpecialLines(front), SpecialLine(sp[|sp| - 1].0, sp[|sp| - 1].1));
    }
  }

  lemma {:induction false} IncludesLines(incs: seq<string>)
    ensures IncludesText(incs) == Concat(IncludeLines(incs))
    decreases |incs|
  {
    if incs != [] {
      var front := incs[..|incs| - 1];
      IncludesLines(front);
      assert IncludeLines(incs) == IncludeLines(front) + [IncludeDirective(incs[|incs| - 1])];
      ConcatSnoc(IncludeLines(front), IncludeDirective(incs[|incs| - 1]));
    }
  }

  lemma {:induction false} DefinesLines(defs: D.ODict<string, Define>)
    ensures DefinesText(defs) == Concat(DefineLines(defs))
    decreases |defs|
  {
    if defs != [] {
      var front := defs[..|defs| - 1];
      DefinesLines(front);
      DefineLinesSnoc(defs);
      ConcatSnoc(DefineLines(front), DefineLine(defs[|defs| - 1].0, defs[|defs| - 1].1));
    }
  }

  lemma DefineLinesSnoc(defs: D.ODict<string, Define>)
    requires defs != []
    ensures DefineLines(defs) == DefineLines(defs[..|defs| - 1]) + [DefineLine(defs[|defs| - 1].0, defs[|defs| - 1].1)]
  {
    var front := defs[..|defs| - 1];
    var a := DefineLines(defs);
    var b := DefineLines(front) + [DefineLine(defs[|defs| - 1].0, defs[|defs| - 1].1)];
    forall k | 0 <= k < |a| ensures a[k] == b[k] {
      if k < |front| { assert front[k] == defs[k]; }
    }
  }

  /** The preamble in order: the banner, the version line and a blank
      line, one line per special item, one `#include` per include, a blank
      line, one `#define` per define, and a blank line. */
  lemma PreambleLines(e: Edition, hd: Header)
    ensures Preamble(e, hd)
      == Join(Banner(e), "\n") + "\n/dts-v" + PyStrInt(hd.dtsVersion) + "/;\n\n"
         + Concat(SpecialLines(hd.dtcSpecial)) + Concat(IncludeLines(hd.gccInclude)) + "\n"
         + Concat(DefineLines(hd.gccDefine)) + "\n"
  {
    SpecialsLines(hd.dtcSpecial);
    IncludesLines(hd.gccInclude);
    DefinesLines(hd.gccDefine);
  }

  /** Each reference node's print, between newlines, in registry order. */
  function RefBlocks(d: Dialect, h: Heap, refs: D.ODict<string, NodeId>): (r: seq<string>)
    requires (forall i | 0 <= i < |refs| :: refs[i].1 in h) && Closed(h) && PropsOk(h)
    ensures |r| == |refs|
  {
    seq(|refs|, k requires 0 <= k < |refs| => "\n" + Printed(PrintNode(d, h, refs[k].1, 0, Depth(h))) + "\n")
  }

  /** One step of the reference loop: the first node's print, then the rest. */
  lemma RefsTextHead(d: Dialect, h: Heap, refs: D.ODict<string, NodeId>)
    requires (forall i | 0 <= i < |refs| :: refs[i].1 in h) && Closed(h) && PropsOk(h) && refs != []
    ensures forall i | 0 <= i < |refs[1..]| :: refs[1..][i].1 in h
    ensures var first := PrintNode(d, h, refs[0].1, 0, Depth(h));
      RefsText(d, h, refs)
        == if first.Ok? then Prefixed("\n" + first.value + "\n", RefsText(d, h, refs[1..])) else Err(first.error)
  {
    assert forall i | 0 <= i < |refs| - 1 :: refs[1..][i] == refs[i + 1];
  }

  lemma RefBlocksHead(d: Dialect, h: Heap, refs: D.ODict<string, NodeId>)
    requires (forall i | 0 <= i < |refs| :: refs[i].1 in h) && Closed(h) && PropsOk(h) && refs != []
    requires forall i | 0 <= i < |refs[1..]| :: refs[1..][i].1 in h
    ensures RefBlocks(d, h, refs)
        == ["\n" + Printed(PrintNode(d, h, refs[0].1, 0, Depth(h))) + "\n"] + RefBlocks(d, h, refs[1..])
  {
    var a := RefBlocks(d, h, refs);
    var b := ["\n" + Printed(PrintNode(d, h, refs[0].1, 0, Depth(h))) + "\n"] + RefBlocks(d, h, refs[1..]);
    forall k | 0 <= k < |a| ensures a[k] == b[k] {
      if k > 0 { assert refs[1..][k - 1] == refs[k]; }
    }
  }

  /** Every one of the reference nodes prints. */
  predicate AllPrint(d: Dialect, h: Heap, refs: D.ODict<string, NodeId>)
    requires (forall i | 0 <= i < |refs| :: refs[i].1 in h) && Closed(h) && PropsOk(h)
  {
    forall k | 0 <= k < |refs| :: PrintNode(d, h, refs[k].1, 0, Depth(h)).Ok?
  }

  /** The reference nodes print exactly when each of them does, and then
      as their blocks in order. */
  lemma {:induction false} RefsTextLines(d: Dialect, h: Heap, refs: D.ODict<string, NodeId>)
    requires (forall i | 0 <= i < |refs| :: refs[i].1 in h) && Closed(h) && PropsOk(h)
    ensures RefsText(d, h, refs).Ok? <==> AllPrint(d, h, refs)
    ensures RefsText(d, h, refs).Ok? ==> RefsText(d, h, refs).value == Concat(RefBlocks(d, h, refs))
    decreases |refs|
  {
    if refs != [] {
      RefsTextHead(d, h, refs);
      RefBlocksHead(d, h, refs);
      var tail := refs[1..];
      RefsTextLines(d, h, tail);
      var first := PrintNode(d, h, refs[0].1, 0, Depth(h));
      if first.Ok? {
        var blocks := RefBlocks(d, h, refs);
        assert Concat(blocks) == blocks[0] + Concat(blocks[1..]);
        assert blocks[1..] == RefBlocks(d, h, tail);
        if AllPrint(d, h, tail) {
          forall k | 0 <= k < |refs| ensures PrintNode(d, h, refs[k].1, 0, Depth(h)).Ok? {
            if k > 0 { assert refs[k] == tail[k - 1]; }
          }
        } else {
          var k :| 0 <= k < |tail| && !PrintNode(d, h, tail[k].1, 0, Depth(h)).Ok?;
          assert refs[k + 1] == tail[k];
        }
      }
    }
  }

  /** Reference node k is the first that cannot be printed, and it
      raises e. */
  predicate FirstFailure(d: Dialect, h: Heap, refs: D.ODict<string, NodeId>, k: nat, e: Error)
    requires (forall i | 0 <= i < |refs| :: refs[i].1 in h) && Closed(h) && PropsOk(h) && k < |refs|
  {
    PrintNode(d, h, refs[k].1, 0, Depth(h)) == Err(e) && forall j | 0 <= j < k :: PrintNode(d, h, refs[j].1, 0, Depth(h)).Ok?
  }

  /** A reference loop that fails stops at its first node that cannot
      print, with that node's error. */
  lemma {:induction false} RefsTextFirstError(d: Dialect, h: Heap, refs: D.ODict<string, NodeId>)
    requires (forall i | 0 <= i < |refs| :: refs[i].1 in h) && Closed(h) && PropsOk(h)
    requires RefsText(d, h, refs).Err?
    ensures exists k | 0 <= k < |refs| :: FirstFailure(d, h, refs, k, RefsText(d, h, refs).error)
    decreases |refs|
  {
    RefsTextHead(d, h, refs);
    var first := PrintNode(d, h, refs[0].1, 0, Depth(h));
    var e := RefsText(d, h, refs).error;
    if first.Ok? {
      var tail := refs[1..];
      RefsTextFirstError(d, h, tail);
      assert RefsText(d, h, tail).error == e;
      var k :| 0 <= k < |tail| && FirstFailure(d, h, tail, k, e);
      assert refs[k + 1] == tail[k];
      forall j | 0 <= j < k + 1 ensures PrintNode(d, h, refs[j].1, 0, Depth(h)).Ok? {
        if j > 0 {
          assert refs[j] == tail[j - 1];
          assert 0 <= j - 1 < k;
        }
      }
      assert FirstFailure(d, h, refs, k + 1, e);
    } else {
      assert FirstFailure(d, h, refs, 0, e);
    }
  }

  /** The printed file in order: the preamble, the root's text, then each
      reference node's block; it prints exactly when the root and every
      reference node do. */
  lemma TreeTextLines(d: Dialect, e: Edition, hd: Header, a: Arena)
    requires Sound(a)
    ensures var refs := Index(ByRef, a.heap, a.entries);
      && (forall i | 0 <= i < |refs| :: refs[i].1 in a.heap)
      && (TreeText(d, e, hd, a).Ok?
          <==> RootText(d, a).Ok? && AllPrint(d, a.heap, refs))
      && (TreeText(d, e, hd, a).Ok? ==>
            TreeText(d, e, hd, a).value == Preamble(e, hd) + RootText(d, a).value + Concat(RefBlocks(d, a.heap, refs)))
  {
    var refs := Index(ByRef, a.heap, a.entries);
    RefsTextLines(d, a.heap, refs);
    var root := RootText(d, a);
    var rest := RefsText(d, a.heap, refs);
    assert TreeText(d, e, hd, a) == if root.Ok? then Prefixed(Preamble(e, hd) + root.value, rest) else Err(root.error);
    PrefixedParts(Preamble(e, hd), root, rest, TreeText(d, e, hd, a));
  }

  /** A text made of a preamble, a first part and a rest prints exactly
      when both parts do, as their concatenation. */
  lemma PrefixedParts(pre: string, first: Result<string>, rest: Result<string>, whole: Result<string>)
    requires whole == if first.Ok? then Prefixed(pre + first.value, rest) else Err(first.error)
    ensures whole.Ok? <==> first.Ok? && rest.Ok?
    ensures whole.Ok? ==> whole.value == pre + first.value + rest.value
  {
  }

  /** The inner loop of the index builders: `k` appended under each tag. */
  method AppendEach(g: Groups, tags: seq<string>, k: nat) returns (r: Groups)
    ensures r == AppendAll(g, tags, k)
  {
    r := g;
    for j := 0 to |tags|
      invariant r == AppendAll(g, tags[..j], k)
    {
      assert tags[..j + 1][..j] == tags[..j];
      r := Append(r, tags[j], k);
    }
    assert tags[..|tags|] == tags;
  }

  /** A fresh tree's arena is well formed. */
  lemma FreshSound(d: Dialect)
    ensures Sound(Arena(map[0 := RootRecord(d)], [Entry(0, 0)]))
  {
    var h := map[0 := RootRecord(d)];
    assert Closed(h);
    assert UniqueNames(h[0].props);
  }

  /** `join` keeps the arena well formed. */
  lemma JoinSound(s: Arena, a: NodeId, b: NodeId)
    requires Sound(s) && a in s.heap && b in s.heap
    ensures JoinHeap(s.heap, a, b).Ok?
    ensures Sound(Arena(JoinHeap(s.heap, a, b).value, s.entries)) && JoinHeap(s.heap, a, b).value.Keys == s.heap.Keys
  {
    JoinClosed(s.heap, a, b);
  }

  /** The loop of `nodes_by_name` and `nodes_by_ref`, over the registry
      in order. */
  method IndexEntries(f: Field, h: Heap, es: seq<Entry>) returns (r: D.ODict<string, NodeId>)
    requires Registered(h, es)
    ensures r == Index(f, h, es)
  {
    r := [];
    for i := 0 to |es|
      invariant Registered(h, es[..i])
      invariant r == Index(f, h, es[..i])
    {
      IndexAt(f, h, es, i);
      var e := es[i];
      match IndexKey(f, h[e.id]) {
        case None =>
        case Some(k) => r := D.Put(r, k, e.id);
      }
    }
    assert es[..|es|] == es;
  }

  class DeviceTree {
    const dialect: Dialect
    const edition: Edition
    var filename: Option<string>
    var dtsVersion: int
    var gccInclude: seq<string>
    var gccDefine: D.ODict<string, Define>
    var dtcSpecial: D.ODict<string, string>
    /** The node objects, by identity. */
    var heap: Heap
    /** `_all_nodes`, in insertion order. */
    var entries: seq<Entry>
    /** The identity the next node object gets. */
    var nextId: NodeId

    ghost predicate Valid()
      reads this
    {
      Sound(Arena(heap, entries)) && forall x | x in heap :: x < nextId
    }

    function State(): Arena
      reads this
    {
      Arena(heap, entries)
    }

    function Fields(): Header
      reads this
    {
      Header(filename, dtsVersion, gccInclude, gccDefine, dtcSpecial)
    }

    /** `DeviceTree()`: no file name, version 1, nothing included, defined
        or special, and the root `/` as the only node, under handle 0. */
    constructor(d: Dialect, e: Edition)
      ensures Valid() && dialect == d && edition == e
      ensures Fields() == Header(None, 1, [], [], [])
      ensures heap == map[0 := RootRecord(d)] && entries == [Entry(0, 0)] && nextId == 1
    {
      FreshSound(d);
      dialect := d;
      edition := e;
      filename := None;
      dtsVersion := 1;
      gccInclude := [];
      gccDefine := [];
      dtcSpecial := [];
      heap := map[0 := RootRecord(d)];
      entries := [Entry(0, 0)];
      nextId := 1;
    }

    /** `new_devicetree`: a fresh tree named after a string; anything else
        raises TypeError. */
    static method NewDeviceTree(d: Dialect, e: Edition, name: FileArg) returns (r: Result<DeviceTree>)
      ensures r.Err? <==> name.NotAString?
      ensures r.Err? ==> r.error == TypeError
      ensures r.Ok? ==> fresh(r.value) && r.value.Valid() && r.value.dialect == d && r.value.edition == e
      ensures r.Ok? ==> r.value.Fields() == Header(Some(name.name), 1, [], [], [])
      ensures r.Ok? ==> r.value.heap == map[0 := RootRecord(d)] && r.value.entries == [Entry(0, 0)]
    {
      var t := new DeviceTree(d, e);
      if name.NotAString? { return Err(TypeError); }
      t.filename := Some(name.name);
      return Ok(t);
    }

    // ----- indexes -----

    /** `nodes_by_name` and `nodes_by_ref`. */
    method NodesBy(f: Field) returns (r: D.ODict<string, NodeId>)
      requires Valid()
      ensures r == Index(f, heap, entries)
    {
      r := IndexEntries(f, heap, entries);
    }

    /** `_node_indexes_by_ref`, `_node_indexes_by_handle` and the
        single-handle `_node_indexes_by_refhandle`: each handle appended
        under every tag its node carries. */
    method IndexesBy(g: Tagging) returns (r: Groups)
      requires Valid()
      ensures r == Group(Rows(g, heap, entries))
    {
      var rows := Rows(g, heap, entries);
      r := [];
      for i := 0 to |entries|
        invariant r == Group(rows[..i])
      {
        var e := entries[i];
        var tags := Tags(g, heap[e.id]);
        assert rows[i] == (e.key, tags);
        GroupSnoc(rows[..i], rows[i]);
        assert rows[..i + 1] == rows[..i] + [rows[i]];
        r := AppendEach(r, tags, e.key);
      }
      assert rows[..|entries|] == rows;
    }

    /** `path`: walk up the parents, putting each segment and a slash in
        front, then drop the spaces. The model stops after `Depth(heap)`
        steps, where the original walk would never end on a parent cycle. */
    method NodePath(x: NodeId) returns (r: Result<string>)
      requires Valid() && x in heap
      ensures r == Path(heap, x, Depth(heap))
    {
      ghost var w := PathWalk(heap, x, Depth(heap), "");
      WalkIsPath(heap, x);
      var n: Option<NodeId> := Some(x);
      var acc := "";
      var fuel := Depth(heap);
      while n.Some?
        invariant n.Some? ==> n.value in heap && PathWalk(heap, n.value, fuel, acc) == w
        invariant n.None? ==> w == Ok(acc)
        decreases fuel, if n.Some? then 1 else 0
      {
        if fuel == 0 { return Err(Diverges); }
        var seg := Segment(heap[n.value]);
        if seg.Err? { return Err(seg.error); }
        acc := seg.value + "/" + acc;
        n := heap[n.value].parent;
        fuel := fuel - 1;
      }
      r := Ok(RemoveChar(acc, ' '));
    }

    /** `_node_indexes_by_path`: every registered handle under its node's
        path; a path that raises aborts the loop. */
    method IndexesByPath() returns (r: Result<Groups>)
      requires Valid()
      ensures PathRows(heap, entries).Err? ==> r == Err(PathRows(heap, entries).error)
      ensures PathRows(heap, entries).Ok? ==> r == Ok(Group(PathRows(heap, entries).value))
    {
      var g: Groups := [];
      ghost var rows: seq<Row> := [];
      for i := 0 to |entries|
        invariant PathRows(heap, entries[..i]) == Ok(rows) && g == Group(rows)
      {
        var e := entries[i];
        var p := NodePath(e.id);
        if p.Err? {
          PathRowsStep(heap, entries, i, rows);
          PathRowsErr(heap, entries, i + 1);
          return Err(p.error);
        }
        PathRowsStep(heap, entries, i, rows);
        GroupSnoc(rows, (e.key, [p.value]));
        rows := rows + [(e.key, [p.value])];
        assert [p.value][..0] == [];
        g := Append(g, p.value, e.key);
      }
      assert entries[..|entries|] == entries;
      return Ok(g);
    }

    /** `node_paths`: the distinct paths of the registered nodes. */
    method NodePaths() returns (r: Result<set<string>>)
      requires Valid()
      ensures r.Err? <==> PathRows(heap, entries).Err?
      ensures r.Ok? ==> forall p :: p in r.value <==> exists i | 0 <= i < |entries| :: Path(heap, entries[i].id, Depth(heap)) == Ok(p)
    {
      var g := IndexesByPath();
      if g.Err? { return Err(g.error); }
      PathKeys(heap, entries);
      return Ok(KeySetOf(g.value));
    }

    /** `get_node_from_tuple`: the first by-name item whose key starts with
        the name and whose node has the tuple's address, else the by-ref
        item, else nothing. */
    method GetNodeFromTuple(tup: SigTuple) returns (r: Option<NodeId>)
      requires Valid()
      ensures r == FromTuple(heap, entries, tup)
    {
      if tup.nodename.Some? {
        var byName := NodesBy(ByName);
        var name := tup.nodename.value;
        r := None;
        var i := 0;
        while i < |byName| && r.None?
          invariant 0 <= i <= |byName|
          invariant r.None? ==> FirstCandidate(heap, byName, name, tup.reg) == FirstCandidate(heap, byName[i..], name, tup.reg)
          invariant r.Some? ==> r == FirstCandidate(heap, byName, name, tup.reg)
        {
          if Candidate(heap, byName[i], name, tup.reg) {
            r := Some(byName[i].1);
          } else {
            assert byName[i..][1..] == byName[i + 1..];
          }
          i := i + 1;
        }
      } else if tup.ref.Some? {
        var byRef := NodesBy(ByRef);
        r := D.Lookup(byRef, tup.ref.value);
      } else {
        r := None;
      }
    }

    // ----- growing the registry -----

    /** `add_node`: register a node under one more than the largest handle. */
    method AddNode(x: NodeId) returns (r: Result<nat>)
      requires Valid() && x in heap
      modifies this
      ensures Valid() && heap == old(heap) && nextId == old(nextId) && Fields() == old(Fields())
      ensures Add(old(entries), x).Ok? ==> r == Ok(Add(old(entries), x).value.0) && entries == Add(old(entries), x).value.1
      ensures Add(old(entries), x).Err? ==> r == Err(ValueError) && entries == old(entries)
    {
      var a := Add(entries, x);
      if a.Err? { return Err(a.error); }
      entries := a.value.1;
      return Ok(a.value.0);
    }

    /** `Node(parent, …)`: validate the signature, refuse a parent that is
        not a node of this tree, then build the record and append it to
        its parent's children. */
    method Construct(rec: Result<NodeRec>, parent: Option<NodeId>) returns (r: Result<NodeId>)
      requires Valid()
      requires rec.Ok? ==> rec.value.parent == parent && rec.value.children == []
      requires rec.Ok? ==> UniqueNames(rec.value.props) && forall p | p in rec.value.props :: WellFormed(p.value)
      modifies this
      ensures Valid() && entries == old(entries) && Fields() == old(Fields())
      ensures rec.Err? ==> r == Err(rec.error) && heap == old(heap) && nextId == old(nextId)
      ensures rec.Ok? && parent.Some? && parent.value !in old(heap) ==>
                r == Err(TypeError) && heap == old(heap) && nextId == old(nextId)
      ensures rec.Ok? && (parent.Some? ==> parent.value in old(heap)) ==>
                r == Ok(old(nextId)) && heap == Adopt(old(heap), old(nextId), rec.value) && nextId == old(nextId) + 1
    {
      if rec.Err? { return Err(rec.error); }
      if parent.Some? && parent.value !in heap { return Err(TypeError); }
      var x := nextId;
      AdoptSound(State(), x, rec.value);
      heap := Adopt(heap, x, rec.value);
      nextId := nextId + 1;
      return Ok(x);
    }

    /** `new_node`: split a label string on `: `, construct the node, and
        register it. A node whose registration fails stays attached to its
        parent, as in the source. */
    method NewNode(parent: Option<NodeId>, nodename: Option<string>, labels: Labels, ref: Option<string>, reg: Option<string>)
      returns (r: Result<(nat, NodeId)>)
      requires Valid() && dialect == Current
      modifies this
      ensures Valid() && Fields() == old(Fields())
      ensures var rec := NewRecord(Current, parent, nodename, LabelList(labels), ref, reg);
        && (rec.Err? ==> r == Err(rec.error) && heap == old(heap) && entries == old(entries) && nextId == old(nextId))
        && (rec.Ok? && parent.Some? && parent.value !in old(heap) ==>
              r == Err(TypeError) && heap == old(heap) && entries == old(entries) && nextId == old(nextId))
        && (rec.Ok? && (parent.Some? ==> parent.value in old(heap)) ==>
              && heap == Adopt(old(heap), old(nextId), rec.value) && nextId == old(nextId) + 1
              && (Add(old(entries), old(nextId)).Ok? ==>
                    r == Ok((Add(old(entries), old(nextId)).value.0, old(nextId))) && entries == Add(old(entries), old(nextId)).value.1)
              && (Add(old(entries), old(nextId)).Err? ==> r == Err(ValueError) && entries == old(entries)))
    {
      var rec := NewRecord(Current, parent, nodename, LabelList(labels), ref, reg);
      var x := Construct(rec, parent);
      if x.Err? { return Err(x.error); }
      var k := AddNode(x.value);
      if k.Err? { return Err(k.error); }
      return Ok((k.value, x.value));
    }

    /** The single-handle `new_node(parent, nodename, handle, ref, reg)` of
        the dtsgen tree, over the legacy constructor, which starts with
        `status = "okay"`; the legacy tree's four-argument `new_node` is the
        case `reg == None`. */
    method LegacyNewNode(parent: Option<NodeId>, nodename: Option<string>, handle: Option<string>, ref: Option<string>,
                         reg: Option<string>)
      returns (r: Result<(nat, NodeId)>)
      requires Valid() && dialect == Legacy
      modifies this
      ensures Valid() && Fields() == old(Fields())
      ensures var rec := LegacyNewRecord(parent, nodename, handle, ref, reg);
        && (rec.Err? ==> r == Err(rec.error) && heap == old(heap) && entries == old(entries) && nextId == old(nextId))
        && (rec.Ok? && parent.Some? && parent.value !in old(heap) ==>
              r == Err(TypeError) && heap == old(heap) && entries == old(entries) && nextId == old(nextId))
        && (rec.Ok? && (parent.Some? ==> parent.value in old(heap)) ==>
              && heap == Adopt(old(heap), old(nextId), rec.value) && nextId == old(nextId) + 1
              && (Add(old(entries), old(nextId)).Ok? ==>
                    r == Ok((Add(old(entries), old(nextId)).value.0, old(nextId))) && entries == Add(old(entries), old(nextId)).value.1)
              && (Add(old(entries), old(nextId)).Err? ==> r == Err(ValueError) && entries == old(entries)))
    {
      var rec := LegacyNewRecord(parent, nodename, handle, ref, reg);
      var x := Construct(rec, parent);
      if x.Err? { return Err(x.error); }
      var k := AddNode(x.value);
      if k.Err? { return Err(k.error); }
      return Ok((k.value, x.value));
    }
    // ----- node edits -----

    /** `node.set_parent(p)`: leave the old parent's child list, point at
        `p`, and join the end of its child list; ValueError when the old
        parent does not list the node. */
    method SetParent(x: NodeId, p: NodeId) returns (r: Outcome)
      requires Valid() && x in heap && p in heap
      modifies this
      ensures Valid() && entries == old(entries) && Fields() == old(Fields()) && nextId == old(nextId)
      ensures Reparent(old(heap), x, p).Err? ==> r == Fail(ValueError) && heap == old(heap)
      ensures Reparent(old(heap), x, p).Ok? ==> r == Pass && heap == Reparent(old(heap), x, p).value
    {
      var g := Reparent(heap, x, p);
      if g.Err? { return Fail(g.error); }
      ReparentSound(heap, x, p);
      heap := g.value;
      return Pass;
    }

    /** `node.set_property(name, value)` */
    method SetNodeProperty(x: NodeId, name: string, v: Value) returns (r: Outcome)
      requires Valid() && x in heap
      modifies this
      ensures Valid() && entries == old(entries) && Fields() == old(Fields()) && nextId == old(nextId)
      ensures var e := SetProperty(dialect, old(heap)[x].props, name, v);
        r == e.outcome && heap == old(heap)[x := old(heap)[x].(props := e.props)]
    {
      var e := SetProperty(dialect, heap[x].props, name, v);
      SetPropertySpec(dialect, heap[x].props, name, v);
      forall q | q in e.props ensures WellFormed(q.value) {
        SetPropertyWellFormed(dialect, heap[x].props, name, v, q);
      }
      PropsReplaced(heap, x, e.props);
      heap := heap[x := heap[x].(props := e.props)];
      return e.outcome;
    }

    /** `node.dtc[key].append(value)`: KeyError for a key other than the
        three directive lists. */
    method AddNodeDirective(x: NodeId, key: string, value: string) returns (r: Outcome)
      requires Valid() && x in heap
      modifies this
      ensures Valid() && entries == old(entries) && Fields() == old(Fields()) && nextId == old(nextId)
      ensures AddDirective(old(heap)[x], key, value).Err? ==> r == Fail(KeyError) && heap == old(heap)
      ensures AddDirective(old(heap)[x], key, value).Ok? ==>
                r == Pass && heap == old(heap)[x := AddDirective(old(heap)[x], key, value).value]
    {
      var n := AddDirective(heap[x], key, value);
      if n.Err? { return Fail(n.error); }
      ClosedUpdate(heap, x, n.value);
      heap := heap[x := n.value];
      return Pass;
    }

    /** Assigning all three `dtc` lists of a node at once. */
    method SetNodeDirectives(x: NodeId, includes: seq<string>, deleteNodes: seq<string>, deleteProps: seq<string>)
      requires Valid() && x in heap
      modifies this
      ensures Valid() && entries == old(entries) && Fields() == old(Fields()) && nextId == old(nextId)
      ensures heap == old(heap)[x := old(heap)[x].(includes := includes, deleteNodes := deleteNodes, deleteProps := deleteProps)]
    {
      var n := heap[x].(includes := includes, deleteNodes := deleteNodes, deleteProps := deleteProps);
      ClosedUpdate(heap, x, n);
      heap := heap[x := n];
    }

    /** `node.unset_property(name)` */
    method UnsetNodeProperty(x: NodeId, name: string)
      requires Valid() && x in heap
      modifies this
      ensures Valid() && entries == old(entries) && Fields() == old(Fields()) && nextId == old(nextId)
      ensures heap == old(heap)[x := old(heap)[x].(props := UnsetProperty(old(heap)[x].props, name))]
    {
      var props := UnsetProperty(heap[x].props, name);
      UnsetPropertySpec(heap[x].props, name);
      assert forall q | q in props :: q in heap[x].props;
      PropsReplaced(heap, x, props);
      heap := heap[x := heap[x].(props := props)];
    }

    /** `node.extend_property_list(name, value_list)` */
    method ExtendNodeProperty(x: NodeId, name: string, items: seq<Value>) returns (r: Outcome)
      requires Valid() && x in heap
      modifies this
      ensures Valid() && entries == old(entries) && Fields() == old(Fields()) && nextId == old(nextId)
      ensures var e := ExtendPropertyList(dialect, old(heap)[x].props, name, items);
        r == e.outcome && heap == old(heap)[x := old(heap)[x].(props := e.props)]
    {
      var e := ExtendPropertyList(dialect, heap[x].props, name, items);
      ExtendKeepsOk(dialect, heap[x].props, name, items);
      PropsReplaced(heap, x, e.props);
      heap := heap[x := heap[x].(props := e.props)];
      return e.outcome;
    }

    /** `a.join(b)`: labels, properties and children of `b` taken over by `a`. */
    method JoinNodes(a: NodeId, b: NodeId)
      requires Valid() && a in heap && b in heap
      modifies this
      ensures Valid() && entries == old(entries) && Fields() == old(Fields()) && nextId == old(nextId)
      ensures JoinHeap(old(heap), a, b).Ok? && heap == JoinHeap(old(heap), a, b).value
    {
      JoinSound(State(), a, b);
      heap := JoinHeap(heap, a, b).value;
    }
    // ----- merging -----

    /** `merge_refs` */
    method MergeRefs() returns (r: Outcome)
      requires Valid()
      modifies this
      ensures Valid() && Fields() == old(Fields()) && nextId == old(nextId)
      ensures State() == Merging.MergeRefs(old(State())).arena && r == Merging.MergeRefs(old(State())).outcome
    {
      var s := Merging.MergeRefs(State());
      heap, entries := s.arena.heap, s.arena.entries;
      return s.outcome;
    }

    /** `merge_paths` */
    method MergePaths() returns (r: Outcome)
      requires Valid()
      modifies this
      ensures Valid() && Fields() == old(Fields()) && nextId == old(nextId)
      ensures State() == Merging.MergePaths(old(State())).arena && r == Merging.MergePaths(old(State())).outcome
    {
      var s := Merging.MergePaths(State());
      heap, entries := s.arena.heap, s.arena.entries;
      return s.outcome;
    }

    /** `merge`: `merge_refs`, then, unless it raised, `merge_paths`. */
    method Merge() returns (r: Outcome)
      requires Valid()
      modifies this
      ensures Valid() && Fields() == old(Fields()) && nextId == old(nextId)
      ensures State() == Merging.Merge(old(State())).arena && r == Merging.Merge(old(State())).outcome
    {
      r := MergeRefs();
      if r.Fail? { return; }
      r := MergePaths();
    }

    /** The single-handle `merge_by_handle` */
    method MergeByHandle() returns (r: Outcome)
      requires Valid()
      modifies this
      ensures Valid() && Fields() == old(Fields()) && nextId == old(nextId)
      ensures State() == ByHandle.MergeByHandle(old(State())).arena && r == ByHandle.MergeByHandle(old(State())).outcome
    {
      var s := ByHandle.MergeByHandle(State());
      heap, entries := s.arena.heap, s.arena.entries;
      return s.outcome;
    }

    // ----- __str__ -----

    /** The special-directive lines of `__str__`. */
    method SpecialsPart() returns (text: string)
      ensures text == SpecialsText(dtcSpecial)
    {
      text := "";
      for i := 0 to |dtcSpecial|
        invariant text == SpecialsText(dtcSpecial[..i])
      {
        SpecialsStep(dtcSpecial, i);
        var (k, v) := dtcSpecial[i];
        var line := "";
        if !StartsWith(k, "dts-v") {
          if !EndsWith(v, ";") {
            v := v + ";";
          }
          line := "/" + k + "/ " + v + "\n\n";
        }
        assert line == SpecialLine(dtcSpecial[i].0, dtcSpecial[i].1);
        text := text + line;
      }
      assert dtcSpecial[..|dtcSpecial|] == dtcSpecial;
    }

    /** The `#include` lines of `__str__`. */
    method IncludesPart() returns (text: string)
      ensures text == IncludesText(gccInclude)
    {
      text := "";
      for i := 0 to |gccInclude|
        invariant text == IncludesText(gccInclude[..i])
      {
        IncludesStep(gccInclude, i);
        var inc := gccInclude[i];
        var line;
        if StartsWith(inc, "<") {
          line := "#include " + inc + "\n";
        } else {
          line := "#include \"" + inc + "\"\n";
        }
        text := text + line;
      }
      assert gccInclude[..|gccInclude|] == gccInclude;
    }

    /** The `#define` lines of `__str__`. */
    method DefinesPart() returns (text: string)
      ensures text == DefinesText(gccDefine)
    {
      text := "";
      for i := 0 to |gccDefine|
        invariant text == DefinesText(gccDefine[..i])
      {
        DefinesStep(gccDefine, i);
        var (name, val) := gccDefine[i];
        var suffix := "";
        if !val.DefBool? && !val.DefNone? {
          suffix := " " + (if val.DefStr? then val.s else PyStrInt(val.n));
        }
        assert suffix == DefineValue(val);
        text := text + ("#define " + name + suffix + "\n");
      }
      assert gccDefine[..|gccDefine|] == gccDefine;
    }

    /** The reference nodes of `__str__`, after `text`. */
    method RefsPart(text: string) returns (r: Result<string>)
      requires Valid()
      ensures r == Prefixed(text, RefsText(dialect, heap, Index(ByRef, heap, entries)))
    {
      var byRef := NodesBy(ByRef);
      ghost var w := Prefixed(text, RefsText(dialect, heap, byRef));
      var acc := text;
      for i := 0 to |byRef|
        invariant Prefixed(acc, RefsText(dialect, heap, byRef[i..])) == w
      {
        RefsStep(dialect, heap, byRef, i, acc);
        var t := PrintNode(dialect, heap, byRef[i].1, 0, Depth(heap));
        if t.Err? { return Err(t.error); }
        acc := acc + ("\n" + t.value + "\n");
      }
      RefsDone(dialect, heap, byRef, acc);
      return Ok(acc);
    }

    /** The root of `__str__`: the by-name entry `/`, if any, printed. */
    method RootPart() returns (r: Result<string>)
      requires Valid()
      ensures r == RootText(dialect, State())
    {
      var byName := NodesBy(ByName);
      match D.Lookup(byName, "/") {
        case None => r := Ok("");
        case Some(x) =>
          assert byName[D.IndexOf(byName, "/")].1 in heap;
          var t := PrintNode(dialect, heap, x, 0, Depth(heap));
          if t.Err? { return Err(t.error); }
          r := Ok(t.value + "\n");
      }
    }

    /** `__str__`: banner, version, specials, includes, defines, the root
        and then the reference nodes, as `TreeText` describes. */
    method ToText() returns (r: Result<string>)
      requires Valid()
      ensures r == TreeText(dialect, edition, Fields(), State())
    {
      var specials := SpecialsPart();
      var includes := IncludesPart();
      var defines := DefinesPart();
      var pre := Join(Banner(edition), "\n") + "\n/dts-v" + PyStrInt(dtsVersion) + "/;\n\n"
        + specials + includes + "\n" + defines + "\n";
      PreambleOf(edition, Fields(), specials, includes, defines);
      var root := RootPart();
      TreeTextOf(dialect, edition, Fields(), State(), root);
      if root.Err? { return Err(root.error); }
      r := RefsPart(pre + root.value);
    }
  }
}
