/** The node arena: every node object is a record under an id, children are
    id sequences and the parent an optional id. This module specifies the
    operations that follow or rewrite those links (`set_parent`, `join`,
    `path`) as functions on the arena and proves the link invariant they
    keep. */
module Trees {
  import opened Wrappers
  import opened Text
  import opened Properties
  import opened Signatures
  import opened Nodes

  type Heap = map<NodeId, NodeRec>

  predicate NoDup<T(==)>(s: seq<T>) {
    forall i, j | 0 <= i < j < |s| :: s[i] != s[j]
  }

  /** Every id a node refers to names a node. */
  predicate Closed(h: Heap) {
    forall x | x in h ::
      && (h[x].parent.Some? ==> h[x].parent.value in h)
      && (forall c | c in h[x].children :: c in h)
  }

  /** Parent and child links agree: a node is listed once by its parent, and
      every listed child points back. */
  predicate Linked(h: Heap)
    requires Closed(h)
  {
    forall x | x in h ::
      && (h[x].parent.Some? ==> x in h[h[x].parent.value].children)
      && (forall c | c in h[x].children :: h[c].parent == Some(x))
      && NoDup(h[x].children)
  }

  /** Property lists as the node operations leave them. */
  predicate PropsOk(h: Heap) {
    forall x | x in h :: UniqueNames(h[x].props) && forall p | p in h[x].props :: WellFormed(p.value)
  }

  predicate Consistent(h: Heap) {
    Closed(h) && Linked(h) && PropsOk(h)
  }

  // ----- set_parent -----

  /** `list.remove`: drop the first occurrence. */
  function RemoveFirst(s: seq<NodeId>, x: NodeId): (r: seq<NodeId>)
    requires x in s
    ensures |r| == |s| - 1
    ensures multiset(r) == multiset(s) - multiset{x}
  {
    if s[0] == x then
      assert s == [s[0]] + s[1..];
      s[1..]
    else
      assert s == [s[0]] + s[1..];
      [s[0]] + RemoveFirst(s[1..], x)
  }

  lemma {:induction false} RemoveFirstNoDup(s: seq<NodeId>, x: NodeId)
    requires x in s && NoDup(s)
    ensures NoDup(RemoveFirst(s, x))
    ensures forall y :: y in RemoveFirst(s, x) <==> y in s && y != x
  {
    NoDupTail(s);
    if s[0] != x {
      assert x in s[1..];
      RemoveFirstNoDup(s[1..], x);
      NoDupCons(s[0], RemoveFirst(s[1..], x));
    }
  }

  /** The tail of a list without duplicates has none and lacks the head. */
  lemma NoDupTail(s: seq<NodeId>)
    requires NoDup(s) && s != []
    ensures NoDup(s[1..]) && s[0] !in s[1..]
    ensures forall y :: y in s <==> y == s[0] || y in s[1..]
  {
    assert s == [s[0]] + s[1..];
  }

  lemma NoDupCons(c: NodeId, t: seq<NodeId>)
    requires NoDup(t) && c !in t
    ensures NoDup([c] + t)
  {
    var a := [c] + t;
    forall i, j | 0 <= i < j < |a| ensures a[i] != a[j] {
      assert a[j] == t[j - 1];
      if i > 0 { assert a[i] == t[i - 1]; }
    }
  }

  /** The first half of `set_parent`: leave the old parent's child list. */
  function Detach(h: Heap, x: NodeId): (r: Heap)
    requires x in h && Closed(h)
    requires h[x].parent.Some? ==> x in h[h[x].parent.value].children
    ensures r.Keys == h.Keys
  {
    match h[x].parent
    case None => h
    case Some(q) => h[q := h[q].(children := RemoveFirst(h[q].children, x))]
  }

  /** The second half: point at the new parent and join the end of its
      child list. */
  function Attach(h: Heap, x: NodeId, p: NodeId): (r: Heap)
    requires x in h && p in h
    ensures r.Keys == h.Keys
  {
    var h2 := h[x := h[x].(parent := Some(p))];
    h2[p := h2[p].(children := h2[p].children + [x])]
  }

  /** `set_parent`; `list.remove` raises ValueError when the old parent does
      not list the node. */
  function Reparent(h: Heap, x: NodeId, p: NodeId): (r: Result<Heap>)
    requires x in h && p in h && Closed(h)
    ensures r.Ok? ==> r.value.Keys == h.Keys
  {
    if h[x].parent.Some? && x !in h[h[x].parent.value].children then Err(ValueError)
    else Ok(Attach(Detach(h, x), x, p))
  }

  /** All links agree except that one node is listed by nobody and its own
      parent pointer is free. */
  predicate LinkedBut(h: Heap, x: NodeId)
    requires Closed(h)
  {
    forall y | y in h ::
      && (y != x && h[y].parent.Some? ==> y in h[h[y].parent.value].children)
      && (forall c | c in h[y].children :: c != x && h[c].parent == Some(y))
      && NoDup(h[y].children)
  }

  lemma DetachSpec(h: Heap, x: NodeId)
    requires x in h && Closed(h) && Linked(h)
    ensures Closed(Detach(h, x)) && LinkedBut(Detach(h, x), x)
    ensures forall y | y in h :: Detach(h, x)[y] == h[y].(children := Detach(h, x)[y].children)
    ensures forall y | y in h && Some(y) != h[x].parent :: Detach(h, x)[y].children == h[y].children
  {
    match h[x].parent {
      case None =>
        assert forall y | y in h :: forall c | c in h[y].children :: h[c].parent == Some(y);
      case Some(q) =>
        DetachSome(h, x, q);
    }
  }

  lemma DetachSome(h: Heap, x: NodeId, q: NodeId)
    requires x in h && Closed(h) && Linked(h) && h[x].parent == Some(q)
    ensures Closed(Detach(h, x)) && LinkedBut(Detach(h, x), x)
    ensures forall y | y in h :: Detach(h, x)[y] == h[y].(children := Detach(h, x)[y].children)
    ensures forall y | y in h && y != q :: Detach(h, x)[y].children == h[y].children
  {
    forall y | y in h
      ensures var h1 := Detach(h, x);
        && (h1[y].parent.Some? ==> h1[y].parent.value in h1)
        && (y != x && h1[y].parent.Some? ==> y in h1[h1[y].parent.value].children)
        && (forall c | c in h1[y].children :: c in h1 && c != x && h1[c].parent == Some(y))
        && NoDup(h1[y].children)
        && h1[y] == h[y].(children := h1[y].children)
        && (y != q ==> h1[y].children == h[y].children)
    {
      DetachNode(h, x, q, y);
    }
  }

  /** The links of one node after `Detach`. */
  lemma DetachNode(h: Heap, x: NodeId, q: NodeId, y: NodeId)
    requires x in h && Closed(h) && Linked(h) && h[x].parent == Some(q) && y in h
    ensures var h1 := Detach(h, x);
      && (h1[y].parent.Some? ==> h1[y].parent.value in h1)
      && (y != x && h1[y].parent.Some? ==> y in h1[h1[y].parent.value].children)
      && (forall c | c in h1[y].children :: c in h1 && c != x && h1[c].parent == Some(y))
      && NoDup(h1[y].children)
      && h1[y] == h[y].(children := h1[y].children)
      && (y != q ==> h1[y].children == h[y].children)
  {
    var h1 := Detach(h, x);
    assert h1 == h[q := h[q].(children := RemoveFirst(h[q].children, x))];
    RemoveFirstNoDup(h[q].children, x);
    if y != x && h1[y].parent.Some? {
      assert y in h[h[y].parent.value].children;
    }
    forall c | c in h1[y].children ensures c in h1 && c != x && h1[c].parent == Some(y) {
      assert c in h[y].children;
    }
  }

  lemma AttachSpec(h: Heap, x: NodeId, p: NodeId)
    requires x in h && p in h && Closed(h) && LinkedBut(h, x)
    ensures Closed(Attach(h, x, p)) && Linked(Attach(h, x, p))
    ensures forall y | y in h :: x in Attach(h, x, p)[y].children <==> y == p
  {
    forall y | y in h
      ensures var g := Attach(h, x, p);
        && (g[y].parent.Some? ==> g[y].parent.value in g && y in g[g[y].parent.value].children)
        && (forall c | c in g[y].children :: c in g && g[c].parent == Some(y))
        && NoDup(g[y].children)
        && (x in g[y].children <==> y == p)
    {
      AttachNode(h, x, p, y);
    }
  }

  /** The links of one node after `Attach`. */
  lemma AttachNode(h: Heap, x: NodeId, p: NodeId, y: NodeId)
    requires x in h && p in h && Closed(h) && LinkedBut(h, x) && y in h
    ensures var g := Attach(h, x, p);
      && (g[y].parent.Some? ==> g[y].parent.value in g && y in g[g[y].parent.value].children)
      && (forall c | c in g[y].children :: c in g && g[c].parent == Some(y))
      && NoDup(g[y].children)
      && (x in g[y].children <==> y == p)
  {
    AttachFields(h, x, p);
    var g := Attach(h, x, p);
    forall c | c in g[y].children ensures c in g && g[c].parent == Some(y) {
      if c != x { assert c in h[y].children; }
    }
    if y == p {
      NoDupSnoc(h[p].children, x);
    }
    if y != x && g[y].parent.Some? {
      assert y in h[h[y].parent.value].children;
    }
  }

  lemma NoDupSnoc(t: seq<NodeId>, c: NodeId)
    requires NoDup(t) && c !in t
    ensures NoDup(t + [c])
  {
    var a := t + [c];
    forall i, j | 0 <= i < j < |a| ensures a[i] != a[j] {
      assert a[i] == t[i];
      if j < |t| { assert a[j] == t[j]; }
    }
  }

  lemma AttachFields(h: Heap, x: NodeId, p: NodeId)
    requires x in h && p in h
    ensures Attach(h, x, p)[p].children == h[p].children + [x]
    ensures forall y | y in h ::
      Attach(h, x, p)[y] == h[y].(children := Attach(h, x, p)[y].children, parent := Attach(h, x, p)[y].parent)
    ensures forall y | y in h && y != p :: Attach(h, x, p)[y].children == h[y].children
    ensures forall y | y in h :: Attach(h, x, p)[y].parent == if y == x then Some(p) else h[y].parent
  {
  }

  /** Re-parenting keeps the arena consistent; afterwards the node is listed
      by the new parent (last) and by no other node, and nothing but the
      two child lists and the node's parent changes. */
  lemma ReparentSpec(h: Heap, x: NodeId, p: NodeId)
    requires x in h && p in h && Consistent(h)
    ensures Reparent(h, x, p).Ok?
    ensures var g := Reparent(h, x, p).value;
      && Consistent(g)
      && g[x].parent == Some(p)
      && g[p].children[|g[p].children| - 1] == x
      && (forall y | y in g :: x in g[y].children <==> y == p)
      && (forall y | y in g && y != x :: g[y].parent == h[y].parent)
      && (forall y | y in g :: g[y].props == h[y].props && g[y].handles == h[y].handles)
      && (forall y | y in g && y != p && Some(y) != h[x].parent :: g[y].children == h[y].children)
  {
    DetachSpec(h, x);
    var h1 := Detach(h, x);
    AttachSpec(h1, x, p);
    AttachFields(h1, x, p);
    var g := Attach(h1, x, p);
    assert Reparent(h, x, p) == Ok(g);
    assert forall y | y in g :: g[y].props == h[y].props && g[y].handles == h[y].handles;
    assert PropsOk(g);
  }

  // ----- join -----

  /** The label loop of `join`: each label of the joined node not yet
      present is appended. */
  function AddLabels(labels: seq<string>, more: seq<string>): (r: seq<string>)
    decreases |more|
  {
    if more == [] then labels
    else
      var r := AddLabels(labels, more[..|more| - 1]);
      if more[|more| - 1] in r then r else r + [more[|more| - 1]]
  }

  /** The labels grow by exactly the new ones, each once. */
  lemma {:induction false} AddLabelsSpec(labels: seq<string>, more: seq<string>)
    ensures labels <= AddLabels(labels, more)
    ensures forall l :: l in AddLabels(labels, more) <==> l in labels || l in more
    ensures NoDup(labels) ==> NoDup(AddLabels(labels, more))
    decreases |more|
  {
    if more != [] {
      var front := more[..|more| - 1];
      AddLabelsSpec(labels, front);
      assert more == front + [more[|more| - 1]];
    }
  }

  /** The property loop of `join`: `set_property` with the value of each
      property of the joined node, in order. */
  function SetAll(props: seq<Property>, more: seq<Property>): (r: Result<seq<Property>>)
    decreases |more|
  {
    if more == [] then Ok(props)
    else
      var r :- SetAll(props, more[..|more| - 1]);
      var p := more[|more| - 1];
      var e := SetProperty(Current, r, p.name, PropertyValue(p.value));
      if e.outcome.Fail? then Err(e.outcome.error) else Ok(e.props)
  }

  /** What a name holds after `join`: the joined node's value, except that a
      bool (which reports True) leaves an existing property alone. */
  function JoinedValue(mine: Option<PValue>, theirs: Option<PValue>): Option<PValue> {
    match theirs
    case None => mine
    case Some(v) => if v.PBool? && mine.Some? then mine else theirs
  }

  lemma LookupSnoc(s: seq<Property>, p: Property, n: string)
    ensures Lookup(s + [p], n) == if n == p.name then Some(p.value) else Lookup(s, n)
  {
    assert (s + [p])[..|s|] == s;
  }

  lemma LookupWellFormed(s: seq<Property>, n: string)
    requires forall p | p in s :: WellFormed(p.value)
    ensures Lookup(s, n).Some? ==> WellFormed(Lookup(s, n).value)
  {
    if Lookup(s, n).Some? {
      assert s[IndexOf(s, n).value] in s;
    }
  }

  /** One `set_property` step with a well-formed property's own value. */
  lemma SetOneSpec(props: seq<Property>, p: Property)
    requires UniqueNames(props) && WellFormed(p.value)
    requires forall q | q in props :: WellFormed(q.value)
    ensures var e := SetProperty(Current, props, p.name, PropertyValue(p.value));
      && e.outcome == Pass && UniqueNames(e.props)
      && (forall q | q in e.props :: WellFormed(q.value))
      && Lookup(e.props, p.name) == JoinedValue(Lookup(props, p.name), Some(p.value))
      && forall n | n != p.name :: Lookup(e.props, n) == Lookup(props, n)
  {
    var v := PropertyValue(p.value);
    var e := SetProperty(Current, props, p.name, v);
    NewPropertyOfPropertyValue(Current, p);
    SetPropertySpec(Current, props, p.name, v);
    match IndexOf(props, p.name) {
      case None =>
      case Some(i) =>
        assert props[i] in props;
        if !v.VBool? && TypeMatch(props[i].value, v) {
          var np := NewProperty(Current, p.name, v);
          assert np.Ok?;
        }
    }
    assert e.outcome == Pass;
    forall q | q in e.props ensures WellFormed(q.value) {
      SetPropertyWellFormed(Current, props, p.name, v, q);
    }
    if !(Lookup(props, p.name).Some? && v.VBool?) {
      var w := Lookup(e.props, p.name).value;
      LookupWellFormed(e.props, p.name);
      assert PropertyValue(w) == PropertyValue(p.value);
      PropertyValueInjective(w, p.value);
    }
  }

  /** `set_property` only ever stores factory-built properties. */
  lemma SetPropertyWellFormed(d: Dialect, props: seq<Property>, name: string, v: Value, q: Property)
    requires forall r | r in props :: WellFormed(r.value)
    requires q in SetProperty(d, props, name, v).props
    ensures WellFormed(q.value)
  {
    match IndexOf(props, name) {
      case None =>
      case Some(i) =>
        var rest := RemoveAt(props, i);
        assert forall r | r in rest :: r in props;
        if !v.VBool? && TypeMatch(props[i].value, v) {
          var e := SetProperty(d, props, name, v);
          if e.props != props {
            var k :| 0 <= k < |e.props| && e.props[k] == q;
            if k != i { assert q == props[k]; }
          }
        }
    }
  }

  /** The property loop of `join` never raises on well-formed properties,
      keeps names unique, and leaves every name holding its joined value. */
  ghost predicate SetAllOk(props: seq<Property>, more: seq<Property>) {
    && SetAll(props, more).Ok?
    && UniqueNames(SetAll(props, more).value)
    && (forall q | q in SetAll(props, more).value :: WellFormed(q.value))
    && forall n :: Lookup(SetAll(props, more).value, n) == JoinedValue(Lookup(props, n), Lookup(more, n))
  }

  lemma {:induction false} SetAllSpec(props: seq<Property>, more: seq<Property>)
    requires UniqueNames(props) && UniqueNames(more)
    requires forall q | q in props :: WellFormed(q.value)
    requires forall q | q in more :: WellFormed(q.value)
    ensures SetAllOk(props, more)
    decreases |more|, 1
  {
    if more != [] {
      SetAllBefore(props, more);
      SetAllStep(props, more, SetAll(props, more[..|more| - 1]).value);
    }
  }

  /** The induction hypothesis of `SetAllSpec`, on all but the last property. */
  lemma SetAllBefore(props: seq<Property>, more: seq<Property>)
    requires UniqueNames(props) && UniqueNames(more) && more != []
    requires forall q | q in props :: WellFormed(q.value)
    requires forall q | q in more :: WellFormed(q.value)
    ensures SetAllOk(props, more[..|more| - 1]) == true
    decreases |more|, 0
  {
    var front := more[..|more| - 1];
    assert forall q | q in front :: q in more;
    SetAllSpec(props, front);
  }

  /** One more property of the joined node, set on the list built so far. */
  lemma SetAllStep(props: seq<Property>, more: seq<Property>, r: seq<Property>)
    requires UniqueNames(more) && more != [] && forall q | q in more :: WellFormed(q.value)
    requires UniqueNames(r) && forall q | q in r :: WellFormed(q.value)
    requires forall n :: Lookup(r, n) == JoinedValue(Lookup(props, n), Lookup(more[..|more| - 1], n))
    ensures var e := SetProperty(Current, r, more[|more| - 1].name, PropertyValue(more[|more| - 1].value));
      && e.outcome == Pass && UniqueNames(e.props)
      && (forall q | q in e.props :: WellFormed(q.value))
      && forall n :: Lookup(e.props, n) == JoinedValue(Lookup(props, n), Lookup(more, n))
  {
    var front := more[..|more| - 1];
    var p := more[|more| - 1];
    assert more == front + [p];
    assert p in more;
    SetOneSpec(r, p);
    forall n ensures Lookup(SetProperty(Current, r, p.name, PropertyValue(p.value)).props, n)
      == JoinedValue(Lookup(props, n), Lookup(more, n)) {
      LookupSnoc(front, p, n);
      if n == p.name {
        assert Lookup(front, n).None? by {
          forall j | 0 <= j < |front| ensures front[j].name != n { assert more[j] == front[j]; }
        }
      }
    }
  }

  /** One turn of the child loop of `join`: a child not yet listed is
      appended and re-pointed at the receiving node. */
  function MoveChild(g: Heap, a: NodeId, c: NodeId): (r: Heap)
    requires a in g && c in g
    ensures r.Keys == g.Keys
  {
    if c in g[a].children then g
    else
      var g1 := g[a := g[a].(children := g[a].children + [c])];
      g1[c := g1[c].(parent := Some(a))]
  }

  /** The child loop of `join`. */
  function MoveChildren(h: Heap, a: NodeId, cs: seq<NodeId>): (r: Heap)
    requires a in h && forall c | c in cs :: c in h
    ensures r.Keys == h.Keys
    decreases |cs|
  {
    if cs == [] then h
    else
      assert forall c | c in cs[..|cs| - 1] :: c in cs;
      MoveChild(MoveChildren(h, a, cs[..|cs| - 1]), a, cs[|cs| - 1])
  }

  /** The arena after moving children the receiver does not list yet: they
      are appended to its list and point at it. */
  function Moved(h: Heap, a: NodeId, cs: seq<NodeId>): (r: Heap)
    requires a in h
    ensures r.Keys == h.Keys
  {
    map y | y in h :: h[y].(children := if y == a then h[a].children + cs else h[y].children,
                            parent := if y in cs then Some(a) else h[y].parent)
  }

  /** The child loop does exactly that when the moved children are distinct
      and new to the receiver. */
  lemma {:induction false} MoveChildrenSpec(h: Heap, a: NodeId, cs: seq<NodeId>)
    requires a in h && (forall c | c in cs :: c in h) && NoDup(cs)
    requires forall c | c in cs :: c !in h[a].children
    ensures MoveChildren(h, a, cs) == Moved(h, a, cs)
    decreases |cs|
  {
    if cs == [] {
      assert h[a].children + cs == h[a].children;
      forall y | y in h ensures Moved(h, a, cs)[y] == h[y] { }
      assert Moved(h, a, cs) == h;
    } else {
      var front := cs[..|cs| - 1];
      var c := cs[|cs| - 1];
      assert cs == front + [c];
      assert forall y | y in front :: y in cs;
      MoveChildrenSpec(h, a, front);
      assert c !in front;
      MoveStep(h, a, front, c);
    }
  }

  lemma MoveStep(h: Heap, a: NodeId, front: seq<NodeId>, c: NodeId)
    requires a in h && c in h && c !in front && c !in h[a].children
    ensures MoveChild(Moved(h, a, front), a, c) == Moved(h, a, front + [c])
  {
    var m := Moved(h, a, front);
    var g := MoveChild(m, a, c);
    var cs := front + [c];
    assert c !in m[a].children;
    forall y | y in h ensures g[y] == Moved(h, a, cs)[y] {
      assert y in cs <==> y in front || y == c;
    }
    assert g == Moved(h, a, cs);
  }

  /** `join(next)`: labels, then properties, then children, then the
      joined node's child list is emptied. */
  function JoinHeap(h: Heap, a: NodeId, b: NodeId): (r: Result<Heap>)
    requires a in h && b in h && Closed(h)
  {
    var props :- SetAll(h[a].props, h[b].props);
    Ok(Absorb(h, a, b, props))
  }

  /** The arena once the receiver's new property list is known. */
  function Absorb(h: Heap, a: NodeId, b: NodeId, props: seq<Property>): (r: Heap)
    requires a in h && b in h && Closed(h)
    ensures r.Keys == h.Keys
  {
    var h1 := h[a := h[a].(handles := AddLabels(h[a].handles, h[b].handles), props := props)];
    var h2 := MoveChildren(h1, a, h[b].children);
    h2[b := h2[b].(children := [])]
  }

  /** Same links as the consistent arena it was edited from. */
  predicate SameLinks(h: Heap, h1: Heap) {
    h1.Keys == h.Keys && forall y | y in h :: h1[y].children == h[y].children && h1[y].parent == h[y].parent
  }

  /** The arena `join` leaves: children moved, the joined node emptied. */
  function Spliced(h1: Heap, a: NodeId, b: NodeId, cs: seq<NodeId>): (r: Heap)
    requires a in h1 && b in h1
    ensures r.Keys == h1.Keys
  {
    var m := Moved(h1, a, cs);
    m[b := m[b].(children := [])]
  }

  /** The links of the spliced arena, field by field. */
  lemma SplicedFields(h1: Heap, a: NodeId, b: NodeId, cs: seq<NodeId>)
    requires a in h1 && b in h1 && a != b
    ensures var g := Spliced(h1, a, b, cs);
      && (forall y | y in h1 :: g[y].children == (if y == a then h1[a].children + cs else if y == b then [] else h1[y].children))
      && (forall y | y in h1 :: g[y].parent == (if y in cs then Some(a) else h1[y].parent))
      && (forall y | y in h1 :: g[y].props == h1[y].props && g[y].handles == h1[y].handles)
      && (forall y | y in h1 && y != a && y != b && y !in cs :: g[y] == h1[y])
  {
  }

  /** Links after moving all of `b`'s children to `a` and emptying `b`. */
  predicate Relinked(h: Heap, g: Heap, a: NodeId, b: NodeId)
    requires a in h && b in h
  {
    && g.Keys == h.Keys
    && (forall y | y in h :: g[y].children == (if y == a then h[a].children + h[b].children else if y == b then [] else h[y].children))
    && (forall y | y in h :: g[y].parent == (if y in h[b].children then Some(a) else h[y].parent))
  }

  lemma RelinkedNode(h: Heap, g: Heap, a: NodeId, b: NodeId, y: NodeId)
    requires a in h && b in h && a != b && Closed(h) && Linked(h) && Relinked(h, g, a, b) && y in g
    requires forall c | c in h[b].children :: c !in h[a].children
    ensures (g[y].parent.Some? ==> g[y].parent.value in g) && (forall c | c in g[y].children :: c in g)
    ensures (g[y].parent.Some? ==> y in g[g[y].parent.value].children)
    ensures (forall c | c in g[y].children :: g[c].parent == Some(y))
  {
    var cs := h[b].children;
    if y !in cs && g[y].parent.Some? {
      var q := g[y].parent.value;
      assert y in h[q].children;
      assert q != b;
    }
    if y == a {
      forall c | c in g[a].children ensures c in g && g[c].parent == Some(a) {
        if c !in cs { assert c in h[a].children; }
      }
    } else if y != b {
      forall c | c in g[y].children ensures c in g && g[c].parent == Some(y) {
        assert c in h[y].children;
        assert h[c].parent == Some(y);
      }
    }
  }

  /** Moving all of one node's children to another and emptying its list
      keeps the links consistent. */
  lemma RelinkedLinked(h: Heap, g: Heap, a: NodeId, b: NodeId)
    requires a in h && b in h && a != b && Closed(h) && Linked(h) && Relinked(h, g, a, b)
    ensures Closed(g) && Linked(g)
  {
    var cs := h[b].children;
    assert forall c | c in cs :: c !in h[a].children by {
      forall c | c in cs ensures c !in h[a].children {
        assert h[c].parent == Some(b);
      }
    }
    assert NoDup(g[a].children) by {
      var s := g[a].children;
      assert s == h[a].children + cs;
      forall i, j | 0 <= i < j < |s| ensures s[i] != s[j] {
        if i < |h[a].children| <= j {
          assert s[j] in cs;
          assert s[i] in h[a].children;
        }
      }
    }
    forall y | y in g
      ensures (g[y].parent.Some? ==> g[y].parent.value in g) && (forall c | c in g[y].children :: c in g)
    {
      RelinkedNode(h, g, a, b, y);
    }
    forall y | y in g
      ensures (g[y].parent.Some? ==> y in g[g[y].parent.value].children)
      ensures (forall c | c in g[y].children :: g[c].parent == Some(y))
      ensures NoDup(g[y].children)
    {
      RelinkedNode(h, g, a, b, y);
    }
  }

  /** The receiver's record after `join`, before its children move. */
  function Receiver(h: Heap, a: NodeId, b: NodeId): (r: NodeRec)
    requires a in h && b in h && UniqueNames(h[a].props) && UniqueNames(h[b].props)
    requires forall q | q in h[a].props :: WellFormed(q.value)
    requires forall q | q in h[b].props :: WellFormed(q.value)
  {
    SetAllSpec(h[a].props, h[b].props);
    h[a].(handles := AddLabels(h[a].handles, h[b].handles), props := SetAll(h[a].props, h[b].props).value)
  }

  /** The arena `join` leaves, in closed form. */
  function Joined(h: Heap, a: NodeId, b: NodeId): (r: Heap)
    requires a in h && b in h && a != b && Consistent(h)
  {
    Spliced(h[a := Receiver(h, a, b)], a, b, h[b].children)
  }

  lemma JoinIsJoined(h: Heap, a: NodeId, b: NodeId)
    requires a in h && b in h && a != b && Consistent(h)
    ensures JoinHeap(h, a, b) == Ok(Joined(h, a, b))
  {
    SetAllSpec(h[a].props, h[b].props);
    var h1 := h[a := Receiver(h, a, b)];
    assert forall c | c in h[b].children :: c !in h1[a].children by {
      forall c | c in h[b].children ensures c !in h1[a].children {
        assert h[c].parent == Some(b);
      }
    }
    MoveChildrenSpec(h1, a, h[b].children);
  }

  lemma JoinedConsistent(h: Heap, a: NodeId, b: NodeId)
    requires a in h && b in h && a != b && Consistent(h)
    ensures Consistent(Joined(h, a, b))
  {
    JoinedLinks(h, a, b);
    JoinedProps(h, a, b);
  }

  lemma JoinedLinks(h: Heap, a: NodeId, b: NodeId)
    requires a in h && b in h && a != b && Consistent(h)
    ensures Closed(Joined(h, a, b)) && Linked(Joined(h, a, b))
  {
    var h1 := h[a := Receiver(h, a, b)];
    var cs := h[b].children;
    assert SameLinks(h, h1);
    SplicedFields(h1, a, b, cs);
    RelinkedLinked(h, Joined(h, a, b), a, b);
  }

  lemma JoinedProps(h: Heap, a: NodeId, b: NodeId)
    requires a in h && b in h && a != b && Consistent(h)
    ensures PropsOk(Joined(h, a, b))
  {
    SetAllSpec(h[a].props, h[b].props);
    var h1 := h[a := Receiver(h, a, b)];
    var g := Joined(h, a, b);
    SplicedFields(h1, a, b, h[b].children);
    forall y | y in g ensures UniqueNames(g[y].props) && forall p | p in g[y].props :: WellFormed(p.value) {
      assert g[y].props == h1[y].props;
    }
  }

  /** `join` on a consistent arena succeeds and keeps it consistent. The
      receiver gains the new labels, every property name holds its joined
      value, and all of the joined node's children move to the receiver in
      order. The joined node keeps no children, and no node outside the
      two and the moved children changes. */
  lemma JoinSpec(h: Heap, a: NodeId, b: NodeId)
    requires a in h && b in h && a != b && Consistent(h)
    ensures JoinHeap(h, a, b).Ok?
    ensures var g := JoinHeap(h, a, b).value;
      && g.Keys == h.Keys
      && Consistent(g)
      && g[a].handles == AddLabels(h[a].handles, h[b].handles)
      && (forall n :: Lookup(g[a].props, n) == JoinedValue(Lookup(h[a].props, n), Lookup(h[b].props, n)))
      && g[a].children == h[a].children + h[b].children
      && g[b].children == []
      && (forall c | c in h[b].children :: g[c].parent == Some(a))
      && (forall y | y in h && y != a && y != b && y !in h[b].children :: g[y] == h[y])
  {
    JoinIsJoined(h, a, b);
    JoinedConsistent(h, a, b);
    SetAllSpec(h[a].props, h[b].props);
    SplicedFields(h[a := Receiver(h, a, b)], a, b, h[b].children);
  }

  /** Moving children keeps ids closed and touches nothing but child lists
      and parent pointers. */
  lemma {:induction false} MoveChildrenClosed(h: Heap, a: NodeId, cs: seq<NodeId>)
    requires a in h && Closed(h) && forall c | c in cs :: c in h
    ensures var g := MoveChildren(h, a, cs);
      && Closed(g)
      && forall y | y in h :: g[y] == h[y].(children := g[y].children, parent := g[y].parent)
    decreases |cs|
  {
    if cs != [] {
      var front := cs[..|cs| - 1];
      assert forall c | c in front :: c in cs;
      MoveChildrenClosed(h, a, front);
      var g := MoveChildren(h, a, front);
      MoveChildClosed(g, a, cs[|cs| - 1]);
    }
  }

  lemma MoveChildClosed(g: Heap, a: NodeId, c: NodeId)
    requires a in g && c in g && Closed(g)
    ensures var r := MoveChild(g, a, c);
      && Closed(r)
      && forall y | y in g :: r[y] == g[y].(children := r[y].children, parent := r[y].parent)
  {
    if c !in g[a].children {
      var g1 := g[a := g[a].(children := g[a].children + [c])];
      ClosedUpdate(g, a, g1[a]);
      ClosedUpdate(g1, c, g1[c].(parent := Some(a)));
    }
  }

  /** Splicing keeps ids closed; beyond child lists and parent pointers only
      the receiver's labels and properties change. */
  lemma AbsorbClosed(h: Heap, a: NodeId, b: NodeId, props: seq<Property>)
    requires a in h && b in h && Closed(h)
    ensures var g := Absorb(h, a, b, props);
      && Closed(g)
      && g[a] == h[a].(handles := AddLabels(h[a].handles, h[b].handles), props := props,
                       children := g[a].children, parent := g[a].parent)
      && forall y | y in h && y != a :: g[y] == h[y].(children := g[y].children, parent := g[y].parent)
  {
    var h1 := h[a := h[a].(handles := AddLabels(h[a].handles, h[b].handles), props := props)];
    ClosedUpdate(h, a, h1[a]);
    MoveChildrenClosed(h1, a, h[b].children);
    var h2 := MoveChildren(h1, a, h[b].children);
    ClosedUpdate(h2, b, h2[b].(children := []));
    var g := Absorb(h, a, b, props);
    assert g == h2[b := h2[b].(children := [])];
    forall y | y in h && y != a ensures g[y] == h[y].(children := g[y].children, parent := g[y].parent) {
      assert h2[y] == h1[y].(children := h2[y].children, parent := h2[y].parent);
    }
  }

  /** Replacing one record by one whose links name nodes keeps ids closed. */
  lemma ClosedUpdate(h: Heap, y: NodeId, r: NodeRec)
    requires Closed(h) && y in h
    requires r.parent.Some? ==> r.parent.value in h
    requires forall c | c in r.children :: c in h
    ensures Closed(h[y := r])
  {
  }

  /** Joining, even a node into itself, succeeds on well-formed property
      lists, keeps ids closed and property lists well formed, and changes no
      node's names, address or directives. */
  lemma JoinClosed(h: Heap, a: NodeId, b: NodeId)
    requires a in h && b in h && Closed(h) && PropsOk(h)
    ensures JoinHeap(h, a, b).Ok?
    ensures var g := JoinHeap(h, a, b).value;
      && g.Keys == h.Keys && Closed(g) && PropsOk(g)
      && forall y | y in h ::
           && g[y].nodename == h[y].nodename && g[y].ref == h[y].ref && g[y].reg == h[y].reg
           && g[y].includes == h[y].includes && g[y].deleteNodes == h[y].deleteNodes
           && g[y].deleteProps == h[y].deleteProps
           && (y != a ==> g[y].props == h[y].props && g[y].handles == h[y].handles)
  {
    SetAllSpec(h[a].props, h[b].props);
    var props := SetAll(h[a].props, h[b].props).value;
    AbsorbClosed(h, a, b, props);
    var g := Absorb(h, a, b, props);
    forall y | y in g ensures UniqueNames(g[y].props) && forall q | q in g[y].props :: WellFormed(q.value) {
      if y != a { assert g[y].props == h[y].props; }
    }
  }

  // ----- path -----

  /** What `path` writes for one node: its path name, or its signature when
      it has none (a reference node). */
  function Segment(n: NodeRec): (r: Result<string>)
    ensures n.nodename.Some? ==> r == Ok(n.nodename.value + AtPart(RegText(n.reg)))
    ensures n.nodename.None? && n.reg == NoReg ==> r == Signature(n)
  {
    var pn :- Pathname(n);
    match pn
    case Some(t) => Ok(t)
    case None => Signature(n)
  }

  /** `path` before the spaces are removed: the segments from the root
      down, each followed by `/`. The walk gives up after `fuel` steps,
      where the original walk would never end on a parent cycle. */
  function RawPath(h: Heap, x: NodeId, fuel: nat): (r: Result<string>)
    requires x in h && Closed(h)
    decreases fuel
  {
    if fuel == 0 then Err(Diverges)
    else
      var seg :- Segment(h[x]);
      match h[x].parent
      case None => Ok(seg + "/")
      case Some(q) => var up :- RawPath(h, q, fuel - 1); Ok(up + seg + "/")
  }

  /** `path` */
  function Path(h: Heap, x: NodeId, fuel: nat): (r: Result<string>)
    requires x in h && Closed(h)
  {
    var raw :- RawPath(h, x, fuel);
    Ok(RemoveChar(raw, ' '))
  }

  /** The walk of the `path` loop: `acc` is the part below the current node. */
  function PathWalk(h: Heap, n: NodeId, fuel: nat, acc: string): (r: Result<string>)
    requires n in h && Closed(h)
    decreases fuel
  {
    if fuel == 0 then Err(Diverges)
    else
      var seg :- Segment(h[n]);
      match h[n].parent
      case None => Ok(seg + "/" + acc)
      case Some(q) => PathWalk(h, q, fuel - 1, seg + "/" + acc)
  }

  /** A result with `acc` appended to its text. */
  function Followed(r: Result<string>, acc: string): Result<string> {
    match r
    case Ok(p) => Ok(p + acc)
    case Err(e) => Err(e)
  }

  /** The loop computes the recursive definition. */
  lemma {:induction false} PathWalkSpec(h: Heap, n: NodeId, fuel: nat, acc: string)
    requires n in h && Closed(h)
    ensures PathWalk(h, n, fuel, acc) == Followed(RawPath(h, n, fuel), acc)
    decreases fuel
  {
    if fuel > 0 && Segment(h[n]).Ok? && h[n].parent.Some? {
      var seg := Segment(h[n]).value;
      var q := h[n].parent.value;
      PathWalkSpec(h, q, fuel - 1, seg + "/" + acc);
      if RawPath(h, q, fuel - 1).Ok? {
        var up := RawPath(h, q, fuel - 1).value;
        assert up + (seg + "/" + acc) == up + seg + "/" + acc;
      }
    } else if fuel > 0 && Segment(h[n]).Ok? {
      var seg := Segment(h[n]).value;
      assert seg + "/" + acc == (seg + "/") + acc;
    }
  }

  /** A child's path is its parent's path followed by its own segment and a
      slash, spaces removed. */
  lemma PathOfChild(h: Heap, x: NodeId, fuel: nat)
    requires x in h && Closed(h) && h[x].parent.Some? && Segment(h[x]).Ok?
    requires Path(h, h[x].parent.value, fuel).Ok?
    ensures Path(h, x, fuel + 1) == Ok(Path(h, h[x].parent.value, fuel).value + RemoveChar(Segment(h[x]).value + "/", ' '))
  {
    var up := RawPath(h, h[x].parent.value, fuel).value;
    var seg := Segment(h[x]).value;
    assert up + seg + "/" == up + (seg + "/");
    RemoveCharAppend(up, seg + "/", ' ');
  }

  /** The root `/` has path `//`. */
  lemma RootPath(h: Heap, x: NodeId, fuel: nat)
    requires x in h && Closed(h) && fuel > 0
    requires h[x].parent.None? && h[x].nodename == Some("/") && h[x].reg == NoReg
    ensures Path(h, x, fuel) == Ok("//")
  {
    assert AtPart(RegText(NoReg)) == "";
    assert "/" + "" == "/";
    assert Segment(h[x]) == Ok("/");
    assert "/" + "/" == "//";
    assert RawPath(h, x, fuel) == Ok("//");
    RemoveCharFree("//", ' ');
  }

  // ----- acyclic arenas -----

  /** The number of parent links from `x` up to a node without a parent,
      when there are at most `n` of them. */
  function Up(h: Heap, x: NodeId, n: nat): (r: Option<nat>)
    requires x in h && Closed(h)
    ensures r.Some? ==> r.value <= n
    ensures r == Some(0) <==> h[x].parent.None?
    decreases n
  {
    match h[x].parent
    case None => Some(0)
    case Some(q) =>
      if n == 0 then None
      else match Up(h, q, n - 1)
        case None => None
        case Some(k) => Some(k + 1)
  }

  /** A tree without cycles: links agree, and every parent chain reaches
      a node without a parent. A chain that never comes back to a node
      has fewer links than there are nodes, hence the bound `|h|`. */
  predicate Acyclic(h: Heap) {
    && Closed(h) && Linked(h)
    && forall x | x in h :: Up(h, x, |h|).Some?
  }

  /** The height of a node in an acyclic tree: its number of ancestors. */
  function Height(h: Heap, x: NodeId): (r: nat)
    requires Acyclic(h) && x in h
    ensures r <= |h|
  {
    Up(h, x, |h|).value
  }

  /** A longer bound counts the same links. */
  lemma {:induction false} UpMono(h: Heap, x: NodeId, n: nat, m: nat)
    requires x in h && Closed(h) && n <= m && Up(h, x, n).Some?
    ensures Up(h, x, m) == Up(h, x, n)
    decreases n
  {
    if h[x].parent.Some? {
      UpMono(h, h[x].parent.value, n - 1, m - 1);
    }
  }

  /** A child sits one level below its parent. */
  lemma ChildHeight(h: Heap, x: NodeId, c: NodeId)
    requires Acyclic(h) && x in h && c in h[x].children
    ensures Height(h, c) == Height(h, x) + 1
  {
    assert h[c].parent == Some(x);
    var k := Up(h, x, |h| - 1).value;
    UpMono(h, x, |h| - 1, |h|);
  }

  /** A node with a parent sits one level below it. */
  lemma ParentHeight(h: Heap, x: NodeId)
    requires Acyclic(h) && x in h && h[x].parent.Some?
    ensures h[x].parent.value in h && Height(h, x) == Height(h, h[x].parent.value) + 1
  {
    var q := h[x].parent.value;
    UpMono(h, q, |h| - 1, |h|);
  }

  /** With more steps than the node has ancestors, `path` never gives up. */
  lemma {:induction false} RawPathEnds(h: Heap, x: NodeId, fuel: nat)
    requires Acyclic(h) && x in h && fuel > Height(h, x)
    ensures RawPath(h, x, fuel) != Err(Diverges)
    decreases fuel
  {
    if Segment(h[x]).Ok? && h[x].parent.Some? {
      ParentHeight(h, x);
      RawPathEnds(h, h[x].parent.value, fuel - 1);
    }
  }

  /** ... so on an acyclic tree `path` with one step more than there are
      nodes stops only at a node that has no path segment. */
  lemma PathEnds(h: Heap, x: NodeId)
    requires Acyclic(h) && x in h
    ensures Path(h, x, |h| + 1) != Err(Diverges)
  {
    RawPathEnds(h, x, |h| + 1);
  }
}
