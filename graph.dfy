/** The box-drawing outline of a tree (`pyDtsTool/graph/tree_graph.py`):
    the root `/` on the first line, then every node below it on a line of
    its own, drawn with `├` for a child that has later siblings and `└` for
    the last child, and `│` continuing the branch of an earlier sibling. */
module TreeGraphs {
  import opened Wrappers
  import opened Text
  import opened Nodes
  import opened Trees
  import opened Registry
  import opened Merging
  import D = ODicts

  const Vert: char := '\U{2502}'
  const Tee: char := '\U{251c}'
  const End: char := '\U{2514}'

  /** The marker in front of child i of n children. */
  function Marker(i: nat, n: nat): char {
    if i == n - 1 then End else Tee
  }

  /** `add_child_to_tree`'s first two lines: the node name, and for a node
      with an address `@` and the node name again. A node without a name
      makes the concatenation raise TypeError. */
  function Label(n: NodeRec): (r: Result<string>)
    ensures r.Err? <==> n.nodename.None?
    ensures r.Ok? ==> StartsWith(r.value, n.nodename.value)
  {
    match n.nodename
    case None => Err(TypeError)
    case Some(nm) =>
      var s := nm + (if n.reg != NoReg then "@" + nm else "");
      assert s[..|nm|] == nm;
      Ok(s)
  }

  /** A named node's label is its name alone when it has no address, and
      otherwise its name, `@` and its name again (the address itself is
      never printed). */
  lemma LabelRepeatsName(n: NodeRec)
    requires n.nodename.Some?
    ensures var nm := n.nodename.value; var r := Label(n);
      && r.Ok?
      && (n.reg == NoReg ==> r.value == nm)
      && (n.reg != NoReg <==> |r.value| == 2 * |nm| + 1)
      && (n.reg != NoReg ==> r.value[|nm|] == '@' && r.value[|nm| + 1..] == nm)
  {
    var nm := n.nodename.value;
    if n.reg != NoReg {
      assert (nm + "@" + nm)[|nm| + 1..] == nm;
    }
  }

  /** `add_child_to_tree(x, depth, pre)`: the label, then each child on a
      new line. The walk stops with Diverges after `fuel` levels. */
  function Subtree(h: Heap, x: NodeId, pre: string, fuel: nat): (r: Result<string>)
    requires x in h && Closed(h)
    decreases fuel, 0
  {
    if fuel == 0 then Err(Diverges)
    else
      var name :- Label(h[x]);
      var rest :- Branches(h, h[x].children, 0, pre, fuel - 1);
      Ok(name + rest)
  }

  /** The loop of `add_child_to_tree` from child i on: `\n`, the prefix, a
      tab and the marker, then the child's own outline, whose prefix grows
      by a tab and a space for the last child and by a tab and `│` for the
      others. */
  function Branches(h: Heap, cs: seq<NodeId>, i: nat, pre: string, fuel: nat): (r: Result<string>)
    requires i <= |cs| && (forall c | c in cs :: c in h) && Closed(h)
    decreases fuel, 1, |cs| - i
  {
    if i == |cs| then Ok("")
    else
      var grow := if i == |cs| - 1 then "\t " else "\t" + [Vert];
      var sub :- Subtree(h, cs[i], pre + grow, fuel);
      var tail :- Branches(h, cs, i + 1, pre, fuel);
      Ok("\n" + pre + "\t" + [Marker(i, |cs|)] + sub + tail)
  }

  /** The loop of `treegraph` from root child i on: the marker, the child's
      outline (prefix `│` for all but the last, the default space for the
      last), and a newline. */
  function RootBranches(h: Heap, cs: seq<NodeId>, i: nat, fuel: nat): (r: Result<string>)
    requires i <= |cs| && (forall c | c in cs :: c in h) && Closed(h)
    decreases |cs| - i
  {
    if i == |cs| then Ok("")
    else
      var pre := if i == |cs| - 1 then " " else [Vert];
      var sub :- Subtree(h, cs[i], pre, fuel);
      var tail :- RootBranches(h, cs, i + 1, fuel);
      Ok([Marker(i, |cs|)] + sub + "\n" + tail)
  }

  /** `treegraph(dt)`: the node `nodes_by_name['/']` (KeyError when there is
      none), then `/` and a newline and the outline of its children. */
  function TreeGraph(a: Arena): (r: Result<string>)
    requires Sound(a)
  {
    var byName := Index(ByName, a.heap, a.entries);
    if !D.Has(byName, "/") then Err(KeyError)
    else
      var root := D.Get(byName, "/");
      assert byName[D.IndexOf(byName, "/")].1 in a.heap;
      var rest :- RootBranches(a.heap, a.heap[root].children, 0, Depth(a.heap));
      Ok("/\n" + rest)
  }

  // ----- one line per node -----

  /** The number of line breaks in s. */
  function Breaks(s: string): nat {
    if s == [] then 0 else (if s[0] == '\n' then 1 else 0) + Breaks(s[1..])
  }

  lemma {:induction false} BreaksAppend(a: string, b: string)
    ensures Breaks(a + b) == Breaks(a) + Breaks(b)
  {
    if a != [] {
      assert (a + b)[0] == a[0] && (a + b)[1..] == a[1..] + b;
      BreaksAppend(a[1..], b);
    } else {
      assert a + b == b;
    }
  }

  predicate OneLine(s: string) {
    forall k | 0 <= k < |s| :: s[k] != '\n'
  }

  lemma {:induction false} OneLineBreaks(s: string)
    requires OneLine(s)
    ensures Breaks(s) == 0
  {
    if s != [] {
      assert OneLine(s[1..]) by { forall k | 0 <= k < |s| - 1 ensures s[1..][k] == s[k + 1] { } }
      OneLineBreaks(s[1..]);
    }
  }

  /** No node name holds a line break. */
  predicate NamesOneLine(h: Heap) {
    forall x | x in h && h[x].nodename.Some? :: OneLine(h[x].nodename.value)
  }

  /** The number of nodes the walk reaches from x within `fuel` levels. */
  function Size(h: Heap, x: NodeId, fuel: nat): nat
    requires x in h && Closed(h)
    decreases fuel, 0
  {
    if fuel == 0 then 0 else 1 + SizeFrom(h, h[x].children, 0, fuel - 1)
  }

  function SizeFrom(h: Heap, cs: seq<NodeId>, i: nat, fuel: nat): nat
    requires i <= |cs| && (forall c | c in cs :: c in h) && Closed(h)
    decreases fuel, 1, |cs| - i
  {
    if i == |cs| then 0 else Size(h, cs[i], fuel) + SizeFrom(h, cs, i + 1, fuel)
  }

  lemma LabelOneLine(h: Heap, x: NodeId)
    requires x in h && NamesOneLine(h) && Label(h[x]).Ok?
    ensures Breaks(Label(h[x]).value) == 0
  {
    var nm := h[x].nodename.value;
    var s := Label(h[x]).value;
    assert OneLine(s) by {
      forall k | 0 <= k < |s| ensures s[k] != '\n' {
        if k < |nm| { assert s[k] == nm[k]; }
        else if k > |nm| { assert s[k] == nm[k - |nm| - 1]; }
      }
    }
    OneLineBreaks(s);
  }

  /** Every node of a subtree other than its top starts a line of its own:
      the outline has one line break less than the subtree has nodes. */
  lemma {:induction false} SubtreeLines(h: Heap, x: NodeId, pre: string, fuel: nat)
    requires x in h && Closed(h) && NamesOneLine(h) && OneLine(pre)
    requires Subtree(h, x, pre, fuel).Ok?
    ensures Breaks(Subtree(h, x, pre, fuel).value) + 1 == Size(h, x, fuel)
    decreases fuel, 0
  {
    var name := Label(h[x]).value;
    var rest := Branches(h, h[x].children, 0, pre, fuel - 1).value;
    LabelOneLine(h, x);
    BranchesLines(h, h[x].children, 0, pre, fuel - 1);
    BreaksAppend(name, rest);
  }

  lemma {:induction false} BranchesLines(h: Heap, cs: seq<NodeId>, i: nat, pre: string, fuel: nat)
    requires i <= |cs| && (forall c | c in cs :: c in h) && Closed(h) && NamesOneLine(h) && OneLine(pre)
    requires Branches(h, cs, i, pre, fuel).Ok?
    ensures Breaks(Branches(h, cs, i, pre, fuel).value) == SizeFrom(h, cs, i, fuel)
    decreases fuel, 1, |cs| - i
  {
    if i < |cs| {
      var grow := if i == |cs| - 1 then "\t " else "\t" + [Vert];
      var sub := Subtree(h, cs[i], pre + grow, fuel).value;
      var tail := Branches(h, cs, i + 1, pre, fuel).value;
      var head := "\n" + pre + "\t" + [Marker(i, |cs|)];
      assert OneLine(pre + grow) by {
        forall k | 0 <= k < |pre + grow| ensures (pre + grow)[k] != '\n' {
          if k < |pre| { assert (pre + grow)[k] == pre[k]; }
        }
      }
      SubtreeLines(h, cs[i], pre + grow, fuel);
      BranchesLines(h, cs, i + 1, pre, fuel);
      assert Breaks(head) == 1 by {
        assert head == "\n" + (pre + "\t" + [Marker(i, |cs|)]);
        assert OneLine(pre + "\t" + [Marker(i, |cs|)]) by {
          var q := pre + "\t" + [Marker(i, |cs|)];
          forall k | 0 <= k < |q| ensures q[k] != '\n' {
            if k < |pre| { assert q[k] == pre[k]; }
          }
        }
        OneLineBreaks(pre + "\t" + [Marker(i, |cs|)]);
        BreaksAppend("\n", pre + "\t" + [Marker(i, |cs|)]);
      }
      BreaksAppend(head, sub);
      BreaksAppend(head + sub, tail);
    }
  }

  lemma {:induction false} RootBranchesLines(h: Heap, cs: seq<NodeId>, i: nat, fuel: nat)
    requires i <= |cs| && (forall c | c in cs :: c in h) && Closed(h) && NamesOneLine(h)
    requires RootBranches(h, cs, i, fuel).Ok?
    ensures Breaks(RootBranches(h, cs, i, fuel).value) == SizeFrom(h, cs, i, fuel)
    decreases |cs| - i
  {
    if i < |cs| {
      var pre := if i == |cs| - 1 then " " else [Vert];
      var sub := Subtree(h, cs[i], pre, fuel).value;
      var tail := RootBranches(h, cs, i + 1, fuel).value;
      var m := [Marker(i, |cs|)];
      SubtreeLines(h, cs[i], pre, fuel);
      RootBranchesLines(h, cs, i + 1, fuel);
      assert Breaks(m) == 0;
      assert Breaks("\n") == 1;
      BreaksAppend(m, sub);
      BreaksAppend(m + sub, "\n");
      BreaksAppend(m + sub + "\n", tail);
    }
  }

  /** The outline has one line per node of the tree: the root's line and a
      line for each node the walk reaches below it. */
  lemma TreeGraphLines(a: Arena)
    requires Sound(a) && NamesOneLine(a.heap) && TreeGraph(a).Ok?
    ensures var byName := Index(ByName, a.heap, a.entries);
      && D.Has(byName, "/") && D.Get(byName, "/") in a.heap
      && Breaks(TreeGraph(a).value) == 1 + SizeFrom(a.heap, a.heap[D.Get(byName, "/")].children, 0, Depth(a.heap))
  {
    var byName := Index(ByName, a.heap, a.entries);
    assert byName[D.IndexOf(byName, "/")].1 in a.heap;
    var root := D.Get(byName, "/");
    RootBranchesLines(a.heap, a.heap[root].children, 0, Depth(a.heap));
    BreaksAppend("/\n", RootBranches(a.heap, a.heap[root].children, 0, Depth(a.heap)).value);
  }

  // ----- the drawing -----

  /** Each nested child's line: a line break, the prefix, a tab and `└`
      for the last child or `├` for the others. */
  lemma BranchShape(h: Heap, cs: seq<NodeId>, i: nat, pre: string, fuel: nat)
    requires i < |cs| && (forall c | c in cs :: c in h) && Closed(h)
    requires Branches(h, cs, i, pre, fuel).Ok?
    ensures var grow := if i == |cs| - 1 then "\t " else "\t" + [Vert];
      && Subtree(h, cs[i], pre + grow, fuel).Ok?
      && StartsWith(Branches(h, cs, i, pre, fuel).value,
                    "\n" + pre + "\t" + [if i == |cs| - 1 then End else Tee] + Subtree(h, cs[i], pre + grow, fuel).value)
  {
    var grow := if i == |cs| - 1 then "\t " else "\t" + [Vert];
    var p := "\n" + pre + "\t" + [Marker(i, |cs|)] + Subtree(h, cs[i], pre + grow, fuel).value;
    var s := Branches(h, cs, i, pre, fuel).value;
    assert s == p + Branches(h, cs, i + 1, pre, fuel).value;
    assert s[..|p|] == p;
  }

  /** Each root child's entry: `└` for the last and `├` for the others,
      its outline (drawn with the prefix `│` unless it is the last), and a
      line break. */
  lemma RootBranchShape(h: Heap, cs: seq<NodeId>, i: nat, fuel: nat)
    requires i < |cs| && (forall c | c in cs :: c in h) && Closed(h)
    requires RootBranches(h, cs, i, fuel).Ok?
    ensures var pre := if i == |cs| - 1 then " " else [Vert];
      && Subtree(h, cs[i], pre, fuel).Ok?
      && StartsWith(RootBranches(h, cs, i, fuel).value,
                    [if i == |cs| - 1 then End else Tee] + Subtree(h, cs[i], pre, fuel).value + "\n")
  {
    var pre := if i == |cs| - 1 then " " else [Vert];
    var p := [Marker(i, |cs|)] + Subtree(h, cs[i], pre, fuel).value + "\n";
    var s := RootBranches(h, cs, i, fuel).value;
    assert s == p + RootBranches(h, cs, i + 1, fuel).value;
    assert s[..|p|] == p;
  }

  /** The root children's entries each end with a line break, so the whole
      outline does. */
  lemma {:induction false} RootBranchesEnd(h: Heap, cs: seq<NodeId>, i: nat, fuel: nat)
    requires i < |cs| && (forall c | c in cs :: c in h) && Closed(h)
    requires RootBranches(h, cs, i, fuel).Ok?
    ensures EndsWith(RootBranches(h, cs, i, fuel).value, "\n")
    decreases |cs| - i
  {
    var pre := if i == |cs| - 1 then " " else [Vert];
    var p := [Marker(i, |cs|)] + Subtree(h, cs[i], pre, fuel).value + "\n";
    var t := RootBranches(h, cs, i + 1, fuel).value;
    assert RootBranches(h, cs, i, fuel).value == p + t;
    if i + 1 < |cs| {
      RootBranchesEnd(h, cs, i + 1, fuel);
      assert (p + t)[|p + t| - 1] == t[|t| - 1];
    } else {
      assert t == [];
      assert (p + t)[|p + t| - 1] == p[|p| - 1];
    }
    assert |"\n"| == 1;
  }

  /** The outline starts with `/` and a line break; with root children it
      ends with a line break. */
  lemma TreeGraphShape(a: Arena)
    requires Sound(a) && TreeGraph(a).Ok?
    ensures StartsWith(TreeGraph(a).value, "/\n")
    ensures var byName := Index(ByName, a.heap, a.entries);
      && D.Has(byName, "/") && D.Get(byName, "/") in a.heap
      && (a.heap[D.Get(byName, "/")].children != [] ==> EndsWith(TreeGraph(a).value, "\n"))
  {
    var byName := Index(ByName, a.heap, a.entries);
    assert byName[D.IndexOf(byName, "/")].1 in a.heap;
    var root := D.Get(byName, "/");
    var cs := a.heap[root].children;
    var rest := RootBranches(a.heap, cs, 0, Depth(a.heap)).value;
    assert TreeGraph(a).value[..2] == "/\n";
    if cs != [] {
      RootBranchesEnd(a.heap, cs, 0, Depth(a.heap));
      var s := TreeGraph(a).value;
      assert s[|s| - 1] == rest[|rest| - 1];
    }
  }

  /** A tree without the root `/` in its by-name index has no outline. */
  lemma TreeGraphNeedsRoot(a: Arena)
    requires Sound(a) && !D.Has(Index(ByName, a.heap, a.entries), "/")
    ensures TreeGraph(a) == Err(KeyError)
  {
  }

  // ----- acyclic trees -----

  /** On an acyclic tree the outline never gives up when the fuel reaches
      below the deepest node: it fails only at a node without a name. */
  lemma {:induction false} SubtreeEnds(h: Heap, x: NodeId, pre: string, fuel: nat)
    requires x in h && Acyclic(h) && fuel + Height(h, x) > |h|
    ensures Subtree(h, x, pre, fuel) != Err(Diverges)
    decreases fuel, 0
  {
    forall c | c in h[x].children ensures fuel - 1 + Height(h, c) > |h| {
      ChildHeight(h, x, c);
    }
    BranchesEnd(h, h[x].children, 0, pre, fuel - 1);
  }

  lemma {:induction false} BranchesEnd(h: Heap, cs: seq<NodeId>, i: nat, pre: string, fuel: nat)
    requires i <= |cs| && (forall c | c in cs :: c in h) && Acyclic(h)
    requires forall c | c in cs :: fuel + Height(h, c) > |h|
    ensures Branches(h, cs, i, pre, fuel) != Err(Diverges)
    decreases fuel, 1, |cs| - i
  {
    if i < |cs| {
      var grow := if i == |cs| - 1 then "\t " else "\t" + [Vert];
      SubtreeEnds(h, cs[i], pre + grow, fuel);
      BranchesEnd(h, cs, i + 1, pre, fuel);
    }
  }

  lemma {:induction false} RootBranchesEnds(h: Heap, cs: seq<NodeId>, i: nat, fuel: nat)
    requires i <= |cs| && (forall c | c in cs :: c in h) && Acyclic(h)
    requires forall c | c in cs :: fuel + Height(h, c) > |h|
    ensures RootBranches(h, cs, i, fuel) != Err(Diverges)
    decreases |cs| - i
  {
    if i < |cs| {
      var pre := if i == |cs| - 1 then " " else [Vert];
      SubtreeEnds(h, cs[i], pre, fuel);
      RootBranchesEnds(h, cs, i + 1, fuel);
    }
  }

  /** `treegraph` of an acyclic tree raises only for a missing root or a
      node without a name. */
  lemma TreeGraphEnds(a: Arena)
    requires Sound(a) && Acyclic(a.heap)
    ensures TreeGraph(a) != Err(Diverges)
  {
    var byName := Index(ByName, a.heap, a.entries);
    if D.Has(byName, "/") {
      assert byName[D.IndexOf(byName, "/")].1 in a.heap;
      var cs := a.heap[D.Get(byName, "/")].children;
      assert forall c | c in cs :: c in a.heap;
      RootBranchesEnds(a.heap, cs, 0, Depth(a.heap));
    }
  }
}
