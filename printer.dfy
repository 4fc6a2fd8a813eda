/** The recursive DTS printer of a node and its subtree, as functions on
    the arena. */
module Printing {
  import opened Wrappers
  import opened Text
  import opened Properties
  import opened Signatures
  import opened Nodes
  import opened Trees

  /** The node's tab: `soft_tabs` is set and `tab_size` is 4. */
  const NodeTab: string := Tab(true)

  /** `list.index`: the first position holding `x`. */
  function FirstIndex(s: seq<string>, x: string): (r: nat)
    requires x in s
    ensures r < |s| && s[r] == x && forall j | 0 <= j < r :: s[j] != x
  {
    if s[0] == x then 0 else 1 + FirstIndex(s[1..], x)
  }

  /** One `/include/` line, followed by a blank line when the value's first
      position is the list's last. */
  function IncludeLine(tab: string, indent: nat, incs: seq<string>, j: nat): string
    requires j < |incs|
  {
    Repeat(tab, indent) + "/include/ \"" + incs[j] + "\"\n"
      + (if FirstIndex(incs, incs[j]) == |incs| - 1 then "\n" else "")
  }

  /** The lines of the first `k` includes. */
  function IncludeText(tab: string, indent: nat, incs: seq<string>, k: nat): string
    requires k <= |incs|
  {
    if k == 0 then "" else IncludeText(tab, indent, incs, k - 1) + IncludeLine(tab, indent, incs, k - 1)
  }

  /** The include lines without any blank line. */
  function PlainIncludes(tab: string, indent: nat, incs: seq<string>): string {
    if incs == [] then ""
    else PlainIncludes(tab, indent, incs[..|incs| - 1]) + Repeat(tab, indent) + "/include/ \"" + incs[|incs| - 1] + "\"\n"
  }

  /** With distinct includes, the include block is followed by exactly one
      blank line. */
  lemma IncludeBlankLine(tab: string, indent: nat, incs: seq<string>)
    requires NoDup(incs) && |incs| > 0
    ensures IncludeText(tab, indent, incs, |incs|) == PlainIncludes(tab, indent, incs) + "\n"
  {
    var j := |incs| - 1;
    PlainPrefix(tab, indent, incs, j);
    var line := Repeat(tab, indent) + "/include/ \"" + incs[j] + "\"\n";
    LastIndex(incs, j);
    assert IncludeLine(tab, indent, incs, j) == line + "\n";
    assert incs[..j] == incs[..|incs| - 1];
    assert PlainIncludes(tab, indent, incs) == PlainIncludes(tab, indent, incs[..j]) + line;
  }

  /** In a list without duplicates, `index` finds each value at its own
      position. */
  lemma LastIndex(incs: seq<string>, j: nat)
    requires NoDup(incs) && j < |incs|
    ensures FirstIndex(incs, incs[j]) == j
  {
    var r := FirstIndex(incs, incs[j]);
  }

  /** Before the last include, no line carries a blank line. */
  lemma {:induction false} PlainPrefix(tab: string, indent: nat, incs: seq<string>, k: nat)
    requires NoDup(incs) && k < |incs|
    ensures IncludeText(tab, indent, incs, k) == PlainIncludes(tab, indent, incs[..k])
  {
    if k > 0 {
      PlainPrefix(tab, indent, incs, k - 1);
      LastIndex(incs, k - 1);
      assert incs[..k][..k - 1] == incs[..k - 1];
      assert incs[..k][k - 1] == incs[k - 1];
    }
  }

  /** As written, a repeated last include leaves no blank line, since
      `index` finds its first position. */
  lemma RepeatedIncludeNoBlankLine(tab: string)
    ensures IncludeText(tab, 0, ["a", "a"], 2) == PlainIncludes(tab, 0, ["a", "a"])
  {
    var incs := ["a", "a"];
    var line := Repeat(tab, 0) + "/include/ \"" + "a" + "\"\n";
    assert FirstIndex(incs, "a") == 0;
    assert IncludeLine(tab, 0, incs, 0) == line;
    assert IncludeLine(tab, 0, incs, 1) == line;
    assert IncludeText(tab, 0, incs, 1) == "" + line;
    assert incs[..1] == ["a"];
    assert ["a"][..0] == [];
    assert PlainIncludes(tab, 0, ["a"]) == "" + line;
  }

  /** The `/key/ value;` lines of one directive list. */
  function DirectiveText(tab: string, indent: nat, key: string, vs: seq<string>): string {
    if vs == [] then ""
    else DirectiveText(tab, indent, key, vs[..|vs| - 1]) + Repeat(tab, indent) + "/" + key + "/ " + vs[|vs| - 1] + ";\n"
  }

  /** The property lines: each property's `print(indent)` and a newline. */
  function PropText(d: Dialect, tab: string, indent: nat, props: seq<Property>): (r: Result<string>)
    requires forall p | p in props :: WellFormed(p.value)
  {
    if props == [] then Ok("")
    else
      assert forall p | p in props[..|props| - 1] :: p in props;
      var front :- PropText(d, tab, indent, props[..|props| - 1]);
      var last :- Print(d, props[|props| - 1], tab, indent);
      Ok(front + last + "\n")
  }

  predicate Unprintable(d: Dialect, p: Property) {
    p.value.PIntList? || (d == Legacy && p.value.PStrList?)
  }

  lemma PrintFails(d: Dialect, p: Property, tab: string, indent: nat)
    requires WellFormed(p.value)
    ensures Print(d, p, tab, indent).Err? <==> Unprintable(d, p)
    ensures Print(d, p, tab, indent).Err? ==> Print(d, p, tab, indent).error == TypeError
  {
    if !p.value.PIntList? && !p.value.PTupleList? && !p.value.PStrList? {
      assert Inline(d, p).Ok?;
    }
  }

  /** The failure facts of the property lines. */
  ghost predicate PropFailure(d: Dialect, tab: string, indent: nat, props: seq<Property>)
    requires forall p | p in props :: WellFormed(p.value)
  {
    && (PropText(d, tab, indent, props).Err? <==> exists i | 0 <= i < |props| :: Unprintable(d, props[i]))
    && (PropText(d, tab, indent, props).Err? ==> PropText(d, tab, indent, props).error == TypeError)
  }

  /** The property lines fail exactly when some property cannot print. */
  lemma {:induction false} PropTextFails(d: Dialect, tab: string, indent: nat, props: seq<Property>)
    requires forall p | p in props :: WellFormed(p.value)
    ensures PropText(d, tab, indent, props).Err? <==> exists i | 0 <= i < |props| :: Unprintable(d, props[i])
    ensures PropText(d, tab, indent, props).Err? ==> PropText(d, tab, indent, props).error == TypeError
  {
    PropFailureHolds(d, tab, indent, props);
  }

  lemma {:induction false} PropFailureHolds(d: Dialect, tab: string, indent: nat, props: seq<Property>)
    requires forall p | p in props :: WellFormed(p.value)
    ensures PropFailure(d, tab, indent, props)
    decreases |props|
  {
    if props != [] {
      var front := props[..|props| - 1];
      var last := props[|props| - 1];
      assert forall p | p in front :: p in props;
      PropFailureHolds(d, tab, indent, front);
      PropFailureStep(d, tab, indent, props, front, last);
    }
  }

  /** One more property: the failure facts carry over. */
  lemma PropFailureStep(d: Dialect, tab: string, indent: nat, props: seq<Property>, front: seq<Property>, last: Property)
    requires props != [] && front == props[..|props| - 1] && last == props[|props| - 1]
    requires forall p | p in props :: WellFormed(p.value)
    requires forall p | p in front :: WellFormed(p.value)
    requires PropFailure(d, tab, indent, front)
    ensures PropFailure(d, tab, indent, props)
  {
    assert last in props;
    PrintFails(d, last, tab, indent);
    assert forall i | 0 <= i < |front| :: front[i] == props[i];
    if exists i | 0 <= i < |props| :: Unprintable(d, props[i]) {
      var i :| 0 <= i < |props| && Unprintable(d, props[i]);
      if i < |front| { assert Unprintable(d, front[i]); }
    }
  }

  /** `print(indent)` of a node: the include lines, `signature {`, the
      delete directives, the properties and the children one level deeper,
      and `};`. The legacy printer has no leading newline, includes or
      directives. */
  function PrintNode(d: Dialect, h: Heap, x: NodeId, indent: nat, fuel: nat): (r: Result<string>)
    requires x in h && Closed(h) && PropsOk(h)
    decreases fuel, 0, 0
  {
    if fuel == 0 then Err(Diverges)
    else
      var n := h[x];
      var sig :- if d == Current then Signature(n) else LegacySignature(n);
      assert forall p | p in n.props :: WellFormed(p.value);
      var props :- PropText(d, NodeTab, indent + 1, n.props);
      var kids :- ChildText(d, h, n.children, indent + 1, fuel - 1);
      Ok(NodeText(d, n, indent, sig, props, kids))
  }

  /** The printed node put together from its signature, property lines and
      child lines. */
  function NodeText(d: Dialect, n: NodeRec, indent: nat, sig: string, props: string, kids: string): string {
    Opening(d, n, indent, sig) + Directives(d, n, indent) + props + kids + Closing(indent)
  }

  /** Up to the `signature {` line: the current printer starts with a
      newline and the include lines. */
  function Opening(d: Dialect, n: NodeRec, indent: nat, sig: string): string {
    Head(d, n, indent) + Repeat(NodeTab, indent) + sig + " {\n"
  }

  function Head(d: Dialect, n: NodeRec, indent: nat): string {
    if d == Current then "\n" + IncludeText(NodeTab, indent, n.includes, |n.includes|) else ""
  }

  /** The delete directives, one level deeper (current printer only). */
  function Directives(d: Dialect, n: NodeRec, indent: nat): string {
    if d == Current then
      DirectiveText(NodeTab, indent + 1, "delete-node", n.deleteNodes)
        + DirectiveText(NodeTab, indent + 1, "delete-property", n.deleteProps)
    else ""
  }

  function Closing(indent: nat): string {
    Repeat(NodeTab, indent) + "};"
  }

  /** The child lines: each child's text and a newline. */
  function ChildText(d: Dialect, h: Heap, cs: seq<NodeId>, indent: nat, fuel: nat): (r: Result<string>)
    requires (forall c | c in cs :: c in h) && Closed(h) && PropsOk(h)
    decreases fuel, 1, |cs|
  {
    if cs == [] then Ok("")
    else
      assert forall c | c in cs[..|cs| - 1] :: c in cs;
      var front :- ChildText(d, h, cs[..|cs| - 1], indent, fuel);
      var last :- PrintNode(d, h, cs[|cs| - 1], indent, fuel);
      Ok(front + last + "\n")
  }

  /** The legacy `__str__`: signature, the properties at one level, `};`. */
  function LegacyNodeText(n: NodeRec): (r: Result<string>)
    requires forall p | p in n.props :: WellFormed(p.value)
  {
    var sig :- LegacySignature(n);
    var props :- PropText(Legacy, NodeTab, 1, n.props);
    Ok(sig + " {\n" + props + "};")
  }

  /** Five pieces put together start with the first and end with the last. */
  lemma Framed(a: string, b: string, c: string, d: string, e: string)
    ensures StartsWith(a + b + c + d + e, a) && EndsWith(a + b + c + d + e, e)
  {
    var s := a + b + c + d + e;
    assert s[..|a|] == a;
    assert s[|s| - |e|..] == e;
  }

  /** A printed node is its parts put together. */
  lemma PrintNodeText(d: Dialect, h: Heap, x: NodeId, indent: nat, fuel: nat)
    requires x in h && Closed(h) && PropsOk(h) && PrintNode(d, h, x, indent, fuel).Ok?
    ensures fuel > 0
    ensures var n := h[x];
      var sig := (if d == Current then Signature(n) else LegacySignature(n)).value;
      && PropText(d, NodeTab, indent + 1, n.props).Ok?
      && ChildText(d, h, n.children, indent + 1, fuel - 1).Ok?
      && PrintNode(d, h, x, indent, fuel).value
         == NodeText(d, n, indent, sig, PropText(d, NodeTab, indent + 1, n.props).value,
                     ChildText(d, h, n.children, indent + 1, fuel - 1).value)
  {
  }

  lemma NodeTextShape(d: Dialect, n: NodeRec, indent: nat, sig: string, props: string, kids: string)
    ensures StartsWith(NodeText(d, n, indent, sig, props, kids), Opening(d, n, indent, sig))
    ensures EndsWith(NodeText(d, n, indent, sig, props, kids), Closing(indent))
  {
    Framed(Opening(d, n, indent, sig), Directives(d, n, indent), props, kids, Closing(indent));
  }

  /** The layout of a printed node: (current) a leading newline and the
      include block, then the signature line at the node's indent; the text
      ends with `};` at the same indent. */
  lemma PrintNodeShape(d: Dialect, h: Heap, x: NodeId, indent: nat, fuel: nat)
    requires x in h && Closed(h) && PropsOk(h) && PrintNode(d, h, x, indent, fuel).Ok?
    ensures var sig := (if d == Current then Signature(h[x]) else LegacySignature(h[x])).value;
      && StartsWith(PrintNode(d, h, x, indent, fuel).value, Opening(d, h[x], indent, sig))
      && EndsWith(PrintNode(d, h, x, indent, fuel).value, Closing(indent))
  {
    PrintNodeText(d, h, x, indent, fuel);
    var n := h[x];
    var sig := (if d == Current then Signature(n) else LegacySignature(n)).value;
    NodeTextShape(d, n, indent, sig, PropText(d, NodeTab, indent + 1, n.props).value,
                  ChildText(d, h, n.children, indent + 1, fuel - 1).value);
  }

  /** A node whose property cannot print makes the whole print fail with
      TypeError once its signature prints. */
  lemma PrintNodeFails(d: Dialect, h: Heap, x: NodeId, indent: nat, fuel: nat, p: Property)
    requires x in h && Closed(h) && PropsOk(h) && fuel > 0
    requires (if d == Current then Signature(h[x]) else LegacySignature(h[x])).Ok?
    requires p in h[x].props && Unprintable(d, p)
    ensures PrintNode(d, h, x, indent, fuel) == Err(TypeError)
  {
    var i :| 0 <= i < |h[x].props| && h[x].props[i] == p;
    PropTextFails(d, NodeTab, indent + 1, h[x].props);
  }

  /** On an acyclic tree the print of a node never gives up when the fuel
      reaches below the deepest node: it fails only where a signature or a
      property cannot print. */
  lemma {:induction false} PrintEnds(d: Dialect, h: Heap, x: NodeId, indent: nat, fuel: nat)
    requires x in h && PropsOk(h) && Acyclic(h) && fuel + Height(h, x) > |h|
    ensures PrintNode(d, h, x, indent, fuel) != Err(Diverges)
    decreases fuel, 0
  {
    var n := h[x];
    forall c | c in n.children ensures fuel - 1 + Height(h, c) > |h| {
      ChildHeight(h, x, c);
    }
    ChildTextEnds(d, h, n.children, indent + 1, fuel - 1);
    PrintStepEnds(d, h, x, indent, fuel);
  }

  /** A print gives up only where its children's print does. */
  lemma PrintStepEnds(d: Dialect, h: Heap, x: NodeId, indent: nat, fuel: nat)
    requires x in h && Closed(h) && PropsOk(h) && fuel > 0
    requires ChildText(d, h, h[x].children, indent + 1, fuel - 1) != Err(Diverges)
    ensures PrintNode(d, h, x, indent, fuel) != Err(Diverges)
  {
    SignatureNotDiverges(d, h[x]);
    PropTextNotDiverges(d, NodeTab, indent + 1, h[x].props);
  }

  lemma {:induction false} ChildTextEnds(d: Dialect, h: Heap, cs: seq<NodeId>, indent: nat, fuel: nat)
    requires (forall c | c in cs :: c in h) && PropsOk(h) && Acyclic(h)
    requires forall c | c in cs :: fuel + Height(h, c) > |h|
    ensures ChildText(d, h, cs, indent, fuel) != Err(Diverges)
    decreases fuel, 1, |cs|
  {
    if cs != [] {
      assert forall c | c in cs[..|cs| - 1] :: c in cs;
      ChildTextEnds(d, h, cs[..|cs| - 1], indent, fuel);
      PrintEnds(d, h, cs[|cs| - 1], indent, fuel);
    }
  }

  lemma SignatureNotDiverges(d: Dialect, n: NodeRec)
    ensures (if d == Current then Signature(n) else LegacySignature(n)) != Err(Diverges)
  {
  }

  lemma {:induction false} PropTextNotDiverges(d: Dialect, tab: string, indent: nat, props: seq<Property>)
    requires forall p | p in props :: WellFormed(p.value)
    ensures PropText(d, tab, indent, props) != Err(Diverges)
  {
    if PropText(d, tab, indent, props).Err? {
      PropTextFails(d, tab, indent, props);
    }
  }

  // ----- the printed node, line by line -----

  /** The text of a print that succeeded. */
  function Printed(r: Result<string>): string {
    if r.Ok? then r.value else ""
  }

  /** Each property's own print, in order. */
  function PropPrints(d: Dialect, tab: string, indent: nat, props: seq<Property>): (r: seq<string>)
    requires forall p | p in props :: WellFormed(p.value)
    ensures |r| == |props|
  {
    seq(|props|, k requires 0 <= k < |props| => Printed(Print(d, props[k], tab, indent)))
  }

  /** Each child's own print, in order. */
  function ChildPrints(d: Dialect, h: Heap, cs: seq<NodeId>, indent: nat, fuel: nat): (r: seq<string>)
    requires (forall c | c in cs :: c in h) && Closed(h) && PropsOk(h)
    ensures |r| == |cs|
    decreases |cs|
  {
    if cs == [] then []
    else
      var front := cs[..|cs| - 1];
      assert forall c | c in front :: c in cs;
      ChildPrints(d, h, front, indent, fuel) + [Printed(PrintNode(d, h, cs[|cs| - 1], indent, fuel))]
  }

  /** Entry k of the child prints is child k's print. */
  lemma {:induction false} ChildPrintsAt(d: Dialect, h: Heap, cs: seq<NodeId>, indent: nat, fuel: nat, k: nat)
    requires (forall c | c in cs :: c in h) && Closed(h) && PropsOk(h) && k < |cs|
    ensures ChildPrints(d, h, cs, indent, fuel)[k] == Printed(PrintNode(d, h, cs[k], indent, fuel))
    decreases |cs|
  {
    var front := cs[..|cs| - 1];
    assert forall c | c in front :: c in cs;
    if k < |front| {
      ChildPrintsAt(d, h, front, indent, fuel, k);
      assert front[k] == cs[k];
    }
  }

  /** The prints of all but the last property, then the last one's. */
  lemma PropPrintsSnoc(d: Dialect, tab: string, indent: nat, props: seq<Property>)
    requires (forall p | p in props :: WellFormed(p.value)) && props != []
    ensures forall p | p in props[..|props| - 1] :: WellFormed(p.value)
    ensures PropPrints(d, tab, indent, props)
            == PropPrints(d, tab, indent, props[..|props| - 1]) + [Printed(Print(d, props[|props| - 1], tab, indent))]
  {
    var front := props[..|props| - 1];
    assert forall p | p in front :: p in props;
    var a := PropPrints(d, tab, indent, props);
    var b := PropPrints(d, tab, indent, front) + [Printed(Print(d, props[|props| - 1], tab, indent))];
    forall k | 0 <= k < |a| ensures a[k] == b[k] {
      if k < |front| { assert front[k] == props[k]; }
    }
  }

  /** The prints of all but the last child, then the last one's. */
  lemma ChildPrintsSnoc(d: Dialect, h: Heap, cs: seq<NodeId>, indent: nat, fuel: nat)
    requires (forall c | c in cs :: c in h) && Closed(h) && PropsOk(h) && cs != []
    ensures forall c | c in cs[..|cs| - 1] :: c in h
    ensures ChildPrints(d, h, cs, indent, fuel)
            == ChildPrints(d, h, cs[..|cs| - 1], indent, fuel) + [Printed(PrintNode(d, h, cs[|cs| - 1], indent, fuel))]
  {
    assert forall c | c in cs[..|cs| - 1] :: c in cs;
  }

  /** The property lines are the properties' prints in order, each
      followed by a newline. */
  lemma {:induction false} PropTextLines(d: Dialect, tab: string, indent: nat, props: seq<Property>)
    requires (forall p | p in props :: WellFormed(p.value)) && PropText(d, tab, indent, props).Ok?
    ensures forall k | 0 <= k < |props| :: Print(d, props[k], tab, indent).Ok?
    ensures PropText(d, tab, indent, props).value == JoinTerminated(PropPrints(d, tab, indent, props), "\n")
    decreases |props|
  {
    if props != [] {
      PropPrintsSnoc(d, tab, indent, props);
      var front := props[..|props| - 1];
      var last := Print(d, props[|props| - 1], tab, indent);
      PropTextLines(d, tab, indent, front);
      assert PropText(d, tab, indent, props).value == PropText(d, tab, indent, front).value + last.value + "\n";
      JoinTerminatedSnoc(PropPrints(d, tab, indent, front), last.value, "\n");
      forall k | 0 <= k < |props|
        ensures Print(d, props[k], tab, indent).Ok?
      {
        if k < |front| {
          assert props[k] == front[k];
        }
      }
    }
  }

  /** Child text that succeeded: the front's text, the last child's print
      and a newline. */
  lemma ChildTextStep(d: Dialect, h: Heap, cs: seq<NodeId>, indent: nat, fuel: nat)
    requires (forall c | c in cs :: c in h) && Closed(h) && PropsOk(h) && cs != []
    requires ChildText(d, h, cs, indent, fuel).Ok?
    ensures forall c | c in cs[..|cs| - 1] :: c in h
    ensures ChildText(d, h, cs[..|cs| - 1], indent, fuel).Ok? && PrintNode(d, h, cs[|cs| - 1], indent, fuel).Ok?
    ensures ChildText(d, h, cs, indent, fuel).value
            == ChildText(d, h, cs[..|cs| - 1], indent, fuel).value + PrintNode(d, h, cs[|cs| - 1], indent, fuel).value + "\n"
  {
    assert forall c | c in cs[..|cs| - 1] :: c in cs;
  }

  /** The child lines are the children's prints in order, each followed
      by a newline. */
  lemma {:induction false} ChildTextLines(d: Dialect, h: Heap, cs: seq<NodeId>, indent: nat, fuel: nat)
    requires (forall c | c in cs :: c in h) && Closed(h) && PropsOk(h) && ChildText(d, h, cs, indent, fuel).Ok?
    ensures forall k | 0 <= k < |cs| :: PrintNode(d, h, cs[k], indent, fuel).Ok?
    ensures ChildText(d, h, cs, indent, fuel).value == JoinTerminated(ChildPrints(d, h, cs, indent, fuel), "\n")
    decreases |cs|
  {
    if cs != [] {
      ChildPrintsSnoc(d, h, cs, indent, fuel);
      ChildTextStep(d, h, cs, indent, fuel);
      var front := cs[..|cs| - 1];
      var last := PrintNode(d, h, cs[|cs| - 1], indent, fuel);
      ChildTextLines(d, h, front, indent, fuel);
      JoinTerminatedSnoc(ChildPrints(d, h, front, indent, fuel), last.value, "\n");
      forall k | 0 <= k < |cs|
        ensures PrintNode(d, h, cs[k], indent, fuel).Ok?
      {
        if k < |front| {
          assert cs[k] == front[k];
          assert PrintNode(d, h, front[k], indent, fuel).Ok?;
        } else {
          assert k == |cs| - 1;
        }
      }
    }
  }

  /** A printed node, in order: (current printer) a blank line and the
      include lines; the `signature {` line; the delete directives; each
      property's print on its own line; each child's print one level
      deeper, followed by a newline; and `};` at the node's indent. */
  lemma PrintNodeLines(d: Dialect, h: Heap, x: NodeId, indent: nat, fuel: nat)
    requires x in h && Closed(h) && PropsOk(h) && fuel > 0 && PrintNode(d, h, x, indent, fuel).Ok?
    ensures var n := h[x];
      var sig := (if d == Current then Signature(n) else LegacySignature(n)).value;
      PrintNode(d, h, x, indent, fuel).value
        == NodeText(d, n, indent, sig,
                    JoinTerminated(PropPrints(d, NodeTab, indent + 1, n.props), "\n"),
                    JoinTerminated(ChildPrints(d, h, n.children, indent + 1, fuel - 1), "\n"))
  {
    var sig := (if d == Current then Signature(h[x]) else LegacySignature(h[x])).value;
    PrintNodeText(d, h, x, indent, fuel);
    NodeLines(d, h, x, indent, fuel - 1, sig);
    calc {
      PrintNode(d, h, x, indent, fuel).value;
      NodeText(d, h[x], indent, sig, PropText(d, NodeTab, indent + 1, h[x].props).value,
               ChildText(d, h, h[x].children, indent + 1, fuel - 1).value);
      NodeText(d, h[x], indent, sig,
               JoinTerminated(PropPrints(d, NodeTab, indent + 1, h[x].props), "\n"),
               JoinTerminated(ChildPrints(d, h, h[x].children, indent + 1, fuel - 1), "\n"));
    }
  }

  /** The property and child lines of a node whose parts printed. */
  lemma NodeLines(d: Dialect, h: Heap, x: NodeId, indent: nat, fuel: nat, sig: string)
    requires x in h && Closed(h) && PropsOk(h)
    requires PropText(d, NodeTab, indent + 1, h[x].props).Ok? && ChildText(d, h, h[x].children, indent + 1, fuel).Ok?
    ensures NodeText(d, h[x], indent, sig, PropText(d, NodeTab, indent + 1, h[x].props).value,
                     ChildText(d, h, h[x].children, indent + 1, fuel).value)
            == NodeText(d, h[x], indent, sig,
                        JoinTerminated(PropPrints(d, NodeTab, indent + 1, h[x].props), "\n"),
                        JoinTerminated(ChildPrints(d, h, h[x].children, indent + 1, fuel), "\n"))
  {
    PropTextLines(d, NodeTab, indent + 1, h[x].props);
    ChildTextLines(d, h, h[x].children, indent + 1, fuel);
  }
}
