/** `merge_dict`, the recursive dictionary merge of both importers: a fresh
    dictionary holding the first input's keys, in order, then the second's
    new keys. */
module DictMerge {
  import opened Wrappers
  import opened Text
  import opened ODicts
  import opened Properties
  import Scanner

  /** The Python values a merge meets. Dictionary keys are strings. */
  datatype Obj =
    | ODict(items: seq<(string, Obj)>)
    | OList(elems: seq<Obj>)
    | OStr(s: string)
    | OInt(i: int)
    | OBool(b: bool)
    | ONone

  // ----- str() and repr() -----

  /** A value as text: a string as it is, anything else as its repr. */
  function Show(o: Obj): string
  {
    if o.OStr? then o.s else Repr(o)
  }

  /** `repr(v)`, with strings always in single quotes. */
  function Repr(o: Obj): string
    decreases o, 1
  {
    match o
    case ODict(items) => "{" + ItemsRepr(o, 0) + "}"
    case OList(elems) => "[" + ElemsRepr(o, 0) + "]"
    case OStr(s) => "'" + s + "'"
    case OInt(i) => PyStrInt(i)
    case OBool(b) => if b then "True" else "False"
    case ONone => "None"
  }

  function ItemsRepr(o: Obj, i: nat): string
    requires o.ODict? && i <= |o.items|
    decreases o, 0, |o.items| - i
  {
    if i == |o.items| then ""
    else
      assert o.items[i] in o.items;
      (if i == 0 then "" else ", ") + "'" + o.items[i].0 + "': " + Repr(o.items[i].1) + ItemsRepr(o, i + 1)
  }

  function ElemsRepr(o: Obj, i: nat): string
    requires o.OList? && i <= |o.elems|
    decreases o, 0, |o.elems| - i
  {
    if i == |o.elems| then ""
    else
      assert o.elems[i] in o.elems;
      (if i == 0 then "" else ", ") + Repr(o.elems[i]) + ElemsRepr(o, i + 1)
  }

  // ----- merge_dict -----

  /** `merge_dict(d1, d2)`: `.keys()` on something that is not a dictionary
      raises AttributeError. */
  function MergeDict(d1: Obj, d2: Obj): (r: Result<Obj>)
    ensures r.Ok? ==> r.value.ODict?
    decreases d1, 1
  {
    if !d1.ODict? || !d2.ODict? then Err(AttributeError)
    else
      var m :- MergeEntries(d1, 0, d2.items);
      Ok(ODict(m + Scanner.Fresh(d1.items, d2.items)))
  }

  /** The first loop, from the `i`-th key of `d1` on: a shared key takes the
      merged value, any other keeps `d1`'s; the first failing key stops it. */
  function MergeEntries(d1: Obj, i: nat, y: seq<(string, Obj)>): (r: Result<seq<(string, Obj)>>)
    requires d1.ODict? && i <= |d1.items|
    ensures r.Ok? ==> |r.value| == |d1.items| - i
    ensures r.Ok? ==> forall k | 0 <= k < |r.value| :: r.value[k].0 == d1.items[i + k].0
    decreases d1, 0, |d1.items| - i
  {
    if i == |d1.items| then Ok([])
    else
      var key := d1.items[i].0;
      assert d1.items[i] in d1.items;
      var v :- if Has(y, key) then MergeValue(d1.items[i].1, Get(y, key)) else Ok(d1.items[i].1);
      var rest :- MergeEntries(d1, i + 1, y);
      Ok([(key, v)] + rest)
  }

  /** The value of a key both dictionaries hold: dictionaries merge, lists
      concatenate (a list and anything else raise TypeError), a string
      becomes `a | b`, and any other value gives way to the second. */
  function MergeValue(a: Obj, b: Obj): (r: Result<Obj>)
    decreases a, 2
  {
    match a
    case ODict(_) => MergeDict(a, b)
    case OList(x) => if b.OList? then Ok(OList(x + b.elems)) else Err(TypeError)
    case OStr(s) => Ok(OStr(s + " | " + Show(b)))
    case _ => Ok(b)
  }

  // ----- properties -----

  /** Only the two failures the source can raise. */
  lemma {:induction false} MergeErrors(d1: Obj, d2: Obj)
    ensures MergeDict(d1, d2).Err? ==> MergeDict(d1, d2).error in {AttributeError, TypeError}
    decreases d1, 1
  {
    if d1.ODict? && d2.ODict? {
      EntriesErrors(d1, 0, d2.items);
    }
  }

  lemma {:induction false} EntriesErrors(d1: Obj, i: nat, y: seq<(string, Obj)>)
    requires d1.ODict? && i <= |d1.items|
    ensures MergeEntries(d1, i, y).Err? ==> MergeEntries(d1, i, y).error in {AttributeError, TypeError}
    decreases d1, 0, |d1.items| - i
  {
    if i < |d1.items| {
      var key := d1.items[i].0;
      assert d1.items[i] in d1.items;
      if Has(y, key) && d1.items[i].1.ODict? {
        MergeErrors(d1.items[i].1, Get(y, key));
      }
      EntriesErrors(d1, i + 1, y);
    }
  }

  /** A key of `y` is new to `x` exactly when `Fresh` keeps it. */
  lemma {:induction false} FreshHas<V>(x: seq<(string, V)>, y: seq<(string, V)>, k: string)
    ensures Has(Scanner.Fresh(x, y), k) <==> Has(y, k) && !Has(x, k)
    ensures Has(Scanner.Fresh(x, y), k) ==> Get(Scanner.Fresh(x, y), k) == Get(y, k)
  {
    if y != [] {
      FreshHas(x, y[1..], k);
      var f := Scanner.Fresh(x, y);
      var t := Scanner.Fresh(x, y[1..]);
      HasTail(y, k);
      if Has(x, y[0].0) {
        assert f == t;
      } else {
        assert f == [y[0]] + t;
        HasTail(f, k);
        assert f[1..] == t;
      }
    }
  }

  /** Looking a key up in a non-empty association list: the head, or else
      the tail. */
  lemma HasTail<V>(y: seq<(string, V)>, k: string)
    requires y != []
    ensures Has(y, k) <==> y[0].0 == k || Has(y[1..], k)
    ensures Has(y, k) && y[0].0 != k ==> Get(y, k) == Get(y[1..], k)
    ensures y[0].0 == k ==> Get(y, k) == y[0].1
  {
    if Has(y, k) && y[0].0 != k {
      var j :| 0 <= j < |y| && y[j].0 == k;
      assert y[1..][j - 1].0 == k;
    }
    if Has(y[1..], k) {
      var j :| 0 <= j < |y[1..]| && y[1..][j].0 == k;
      assert y[j + 1].0 == k;
    }
  }

  /** The merged keys are the first dictionary's, in order, then the
      second's new ones, in order. */
  lemma MergeKeys(d1: Obj, d2: Obj)
    requires MergeDict(d1, d2).Ok?
    ensures d1.ODict? && d2.ODict?
    ensures Keys(MergeDict(d1, d2).value.items) == Keys(d1.items) + Keys(Scanner.Fresh(d1.items, d2.items))
  {
    var m := MergeEntries(d1, 0, d2.items).value;
    assert Keys(m) == Keys(d1.items);
  }

  /** A key is in the merge exactly when it is in either input. */
  lemma MergeHas(d1: Obj, d2: Obj, k: string)
    requires MergeDict(d1, d2).Ok?
    ensures d1.ODict? && d2.ODict?
    ensures Has(MergeDict(d1, d2).value.items, k) <==> Has(d1.items, k) || Has(d2.items, k)
  {
    var m := MergeEntries(d1, 0, d2.items).value;
    var f := Scanner.Fresh(d1.items, d2.items);
    FreshHas(d1.items, d2.items, k);
    AppendHas(m, f, k);
    assert Has(m, k) <==> Has(d1.items, k) by {
      if Has(d1.items, k) {
        var j := IndexOf(d1.items, k);
        assert m[j].0 == k;
      }
    }
  }

  lemma AppendHas<V>(m: seq<(string, V)>, f: seq<(string, V)>, k: string)
    ensures Has(m + f, k) <==> Has(m, k) || Has(f, k)
    ensures Has(m, k) ==> Get(m + f, k) == Get(m, k)
    ensures !Has(m, k) && Has(f, k) ==> Get(m + f, k) == Get(f, k)
  {
    var s := m + f;
    if Has(s, k) {
      var j := IndexOf(s, k);
      if j < |m| { assert m[j].0 == k; } else { assert f[j - |m|].0 == k; }
    }
    if Has(m, k) {
      var j := IndexOf(m, k);
      assert s[j].0 == k;
      assert IndexOf(s, k) == j;
    }
    if !Has(m, k) && Has(f, k) {
      var j := IndexOf(f, k);
      assert s[|m| + j].0 == k;
      var i := IndexOf(s, k);
      assert i == |m| + j;
    }
  }

  /** Where the first loop puts the `i + j`-th key of `d1`, and with what. */
  lemma {:induction false} EntriesAt(d1: Obj, i: nat, y: seq<(string, Obj)>, j: nat)
    requires d1.ODict? && i + j < |d1.items| && MergeEntries(d1, i, y).Ok?
    ensures Has(y, d1.items[i + j].0) ==> MergeValue(d1.items[i + j].1, Get(y, d1.items[i + j].0)).Ok?
    ensures var e := d1.items[i + j];
      MergeEntries(d1, i, y).value[j].1
        == if Has(y, e.0) then MergeValue(e.1, Get(y, e.0)).value else e.1
    decreases j
  {
    assert d1.items[i] in d1.items;
    if j > 0 {
      EntriesAt(d1, i + 1, y, j - 1);
    }
  }

  /** A failing shared key makes the whole merge fail. */
  lemma {:induction false} EntriesFail(d1: Obj, i: nat, y: seq<(string, Obj)>, j: nat)
    requires d1.ODict? && i + j < |d1.items| && Has(y, d1.items[i + j].0)
    requires MergeValue(d1.items[i + j].1, Get(y, d1.items[i + j].0)).Err?
    ensures MergeEntries(d1, i, y).Err?
    decreases j
  {
    assert d1.items[i] in d1.items;
    if j > 0 {
      EntriesFail(d1, i + 1, y, j - 1);
    }
  }

  /** The value under every key of the merge: the shared-key rule, or the
      one input that holds it. */
  lemma MergeGet(d1: Obj, d2: Obj, k: string)
    requires MergeDict(d1, d2).Ok? && (Has(d1.items, k) || Has(d2.items, k))
    ensures d1.ODict? && d2.ODict? && Has(MergeDict(d1, d2).value.items, k)
    ensures var r := MergeDict(d1, d2).value.items;
      && (Has(d1.items, k) && Has(d2.items, k) ==>
            MergeValue(Get(d1.items, k), Get(d2.items, k)) == Ok(Get(r, k)))
      && (Has(d1.items, k) && !Has(d2.items, k) ==> Get(r, k) == Get(d1.items, k))
      && (!Has(d1.items, k) && Has(d2.items, k) ==> Get(r, k) == Get(d2.items, k))
  {
    MergeHas(d1, d2, k);
    var m := MergeEntries(d1, 0, d2.items).value;
    var f := Scanner.Fresh(d1.items, d2.items);
    assert MergeDict(d1, d2).value.items == m + f;
    FreshHas(d1.items, d2.items, k);
    if Has(d1.items, k) {
      var j := IndexOf(d1.items, k);
      assert m[j].0 == k;
      assert IndexOf(m, k) == j by {
        forall t | 0 <= t < j ensures m[t].0 != k { assert m[t].0 == d1.items[t].0; }
      }
      EntriesAt(d1, 0, d2.items, j);
      AppendHas(m, f, k);
    } else {
      assert !Has(m, k);
      AppendHas(m, f, k);
    }
  }

  /** The merge fails whenever a shared key's values cannot be merged. */
  lemma SharedClash(d1: Obj, d2: Obj, k: string)
    requires d1.ODict? && d2.ODict? && Has(d1.items, k) && Has(d2.items, k)
    requires MergeValue(Get(d1.items, k), Get(d2.items, k)).Err?
    ensures MergeDict(d1, d2).Err?
  {
    EntriesFail(d1, 0, d2.items, IndexOf(d1.items, k));
  }

  /** Merging the empty dictionary into a dictionary gives it back. */
  lemma MergeIntoEmpty(d: Obj)
    requires d.ODict?
    ensures MergeDict(ODict([]), d) == Ok(d)
  {
    FreshFromEmpty(d.items);
    assert [] + d.items == d.items;
  }

  lemma {:induction false} FreshFromEmpty<V>(y: seq<(string, V)>)
    ensures Scanner.Fresh([], y) == y
  {
    if y != [] {
      FreshFromEmpty(y[1..]);
      assert [y[0]] + y[1..] == y;
    }
  }

  /** Merging the empty dictionary into a dictionary changes nothing. */
  lemma MergeWithEmpty(d: Obj)
    requires d.ODict?
    ensures MergeDict(d, ODict([])) == Ok(d)
  {
    EntriesEmpty(d, 0);
    assert d.items[0..] == d.items;
    assert d.items + [] == d.items;
  }

  lemma {:induction false} EntriesEmpty(d: Obj, i: nat)
    requires d.ODict? && i <= |d.items|
    ensures MergeEntries(d, i, []) == Ok(d.items[i..])
    decreases |d.items| - i
  {
    if i < |d.items| {
      EntriesEmpty(d, i + 1);
      assert [d.items[i]] + d.items[i + 1..] == d.items[i..];
    }
  }

  // ----- the scanner's blocks are such dictionaries -----

  const SelfKey := "self"
  const SubnodesKey := "subnodes"

  /** `{'self': lines, 'subnodes': {sig: block, …}}` */
  function Encode(b: Scanner.Block): (r: Obj)
    decreases b, 1
  {
    ODict([(SelfKey, OList(Strs(b.lines))), (SubnodesKey, ODict(EncodeSubs(b, 0)))])
  }

  function Strs(lines: seq<string>): (r: seq<Obj>)
    ensures |r| == |lines| && forall i | 0 <= i < |lines| :: r[i] == OStr(lines[i])
  {
    seq(|lines|, i requires 0 <= i < |lines| => OStr(lines[i]))
  }

  /** The child blocks of `b` from position `i` on, encoded. */
  function EncodeSubs(b: Scanner.Block, i: nat): (r: seq<(string, Obj)>)
    requires i <= |b.subnodes|
    ensures |r| == |b.subnodes| - i
    ensures forall k | 0 <= k < |r| :: r[k].0 == b.subnodes[i + k].0
    decreases b, 0, |b.subnodes| - i
  {
    if i == |b.subnodes| then []
    else
      assert b.subnodes[i] in b.subnodes;
      [(b.subnodes[i].0, Encode(b.subnodes[i].1))] + EncodeSubs(b, i + 1)
  }

  function EncodeAll(subs: seq<(string, Scanner.Block)>): (r: seq<(string, Obj)>)
    ensures |r| == |subs|
  {
    EncodeSubs(Scanner.Block([], subs), 0)
  }

  /** Encoding commutes with position and lookup. */
  lemma {:induction false} EncodeAt(b: Scanner.Block, i: nat, j: nat)
    requires i + j < |b.subnodes|
    ensures EncodeSubs(b, i)[j] == (b.subnodes[i + j].0, Encode(b.subnodes[i + j].1))
    decreases j
  {
    if j > 0 { EncodeAt(b, i + 1, j - 1); }
  }

  /** The encoding of a sequence of children does not depend on the block
      that holds them. */
  lemma EncodeSame(a: Scanner.Block, b: Scanner.Block)
    requires a.subnodes == b.subnodes
    ensures EncodeSubs(a, 0) == EncodeSubs(b, 0)
  {
    forall j | 0 <= j < |a.subnodes| ensures EncodeSubs(a, 0)[j] == EncodeSubs(b, 0)[j] {
      EncodeAt(a, 0, j);
      EncodeAt(b, 0, j);
    }
  }

  lemma EncodeLookup(subs: seq<(string, Scanner.Block)>, k: string)
    ensures Has(EncodeAll(subs), k) <==> Has(subs, k)
    ensures Has(subs, k) ==> Get(EncodeAll(subs), k) == Encode(Get(subs, k))
  {
    var b := Scanner.Block([], subs);
    var e := EncodeAll(subs);
    forall j | 0 <= j < |subs| ensures e[j] == (subs[j].0, Encode(subs[j].1)) { EncodeAt(b, 0, j); }
    if Has(subs, k) {
      var j := IndexOf(subs, k);
      assert e[j].0 == k;
      assert IndexOf(e, k) == j;
    }
    if Has(e, k) {
      var j := IndexOf(e, k);
      assert subs[j].0 == k;
    }
  }

  lemma {:induction false} EncodeFresh(x: seq<(string, Scanner.Block)>, y: seq<(string, Scanner.Block)>)
    ensures Scanner.Fresh(EncodeAll(x), EncodeAll(y)) == EncodeAll(Scanner.Fresh(x, y))
  {
    var ey := EncodeAll(y);
    if y != [] {
      EncodeFresh(x, y[1..]);
      EncodeLookup(x, y[0].0);
      EncodeAt(Scanner.Block([], y), 0, 0);
      EncodeTail(y);
      var f := Scanner.Fresh(x, y);
      var t := Scanner.Fresh(x, y[1..]);
      if Has(x, y[0].0) {
        assert f == t;
      } else {
        assert f == [y[0]] + t;
        EncodeTail(f);
        assert f[1..] == t;
        EncodeAt(Scanner.Block([], f), 0, 0);
        assert EncodeAll(f) == [EncodeAll(f)[0]] + EncodeAll(f)[1..];
      }
    }
  }

  lemma EncodeTail(y: seq<(string, Scanner.Block)>)
    requires y != []
    ensures EncodeAll(y)[1..] == EncodeAll(y[1..])
  {
    forall j | 0 <= j < |y| - 1 ensures EncodeAll(y)[1..][j] == EncodeAll(y[1..])[j] {
      EncodeAt(Scanner.Block([], y), 0, j + 1);
      EncodeAt(Scanner.Block([], y[1..]), 0, j);
    }
  }

  /** The scanner's block merge is `merge_dict` on the blocks' dictionaries. */
  lemma {:induction false} MergeBlockEncoded(a: Scanner.Block, b: Scanner.Block)
    ensures MergeDict(Encode(a), Encode(b)) == Ok(Encode(Scanner.MergeBlock(a, b)))
    decreases a, 1
  {
    var m := Scanner.MergeBlock(a, b);
    var sa := ODict(EncodeSubs(a, 0));
    var sb := ODict(EncodeSubs(b, 0));
    EncodeSame(a, Scanner.Block([], a.subnodes));
    EncodeSame(b, Scanner.Block([], b.subnodes));
    EncodeSame(m, Scanner.Block([], m.subnodes));
    assert MergeValue(sa, sb) == Ok(ODict(EncodeAll(m.subnodes))) by {
      SubsMerged(a, 0, b.subnodes);
      EncodeFresh(a.subnodes, b.subnodes);
      EncodeAppend(Scanner.MergeSubsFrom(a, 0, b.subnodes), Scanner.Fresh(a.subnodes, b.subnodes));
    }
    assert Strs(a.lines) + Strs(b.lines) == Strs(m.lines);
    MergePair(OList(Strs(a.lines)), sa, OList(Strs(b.lines)), sb, OList(Strs(m.lines)), ODict(EncodeAll(m.subnodes)));
  }

  /** `merge_dict` on two dictionaries with the keys `self` and `subnodes`
      in that order merges the two values of each key. */
  lemma MergePair(x1: Obj, x2: Obj, y1: Obj, y2: Obj, v1: Obj, v2: Obj)
    requires MergeValue(x1, y1) == Ok(v1) && MergeValue(x2, y2) == Ok(v2)
    ensures MergeDict(ODict([(SelfKey, x1), (SubnodesKey, x2)]), ODict([(SelfKey, y1), (SubnodesKey, y2)]))
      == Ok(ODict([(SelfKey, v1), (SubnodesKey, v2)]))
  {
    var ea := ODict([(SelfKey, x1), (SubnodesKey, x2)]);
    var y := [(SelfKey, y1), (SubnodesKey, y2)];
    assert SelfKey != SubnodesKey by { assert SelfKey[1] != SubnodesKey[1]; }
    assert Has(y, SelfKey) && Get(y, SelfKey) == y1 by {
      assert y[0].0 == SelfKey;
      assert IndexOf(y, SelfKey) == 0;
    }
    assert Has(y, SubnodesKey) && Get(y, SubnodesKey) == y2 by {
      assert y[1].0 == SubnodesKey;
      assert IndexOf(y, SubnodesKey) == 1;
    }
    assert MergeEntries(ea, 2, y) == Ok([]);
    EntryStep(ea, 1, y, v2, []);
    assert [(ea.items[1].0, v2)] + [] == [(SubnodesKey, v2)];
    EntryStep(ea, 0, y, v1, [(SubnodesKey, v2)]);
    assert [(ea.items[0].0, v1)] + [(SubnodesKey, v2)] == [(SelfKey, v1), (SubnodesKey, v2)];
    assert Scanner.Fresh(ea.items, y) == [] by {
      assert Has(ea.items, y[0].0) && Has(ea.items, y[1..][0].0);
      assert y[1..][1..] == [];
      assert Scanner.Fresh(ea.items, y[1..]) == [];
    }
    assert [(SelfKey, v1), (SubnodesKey, v2)] + [] == [(SelfKey, v1), (SubnodesKey, v2)];
  }

  /** One step of the first loop of `merge_dict`: a key of the first
      dictionary that the second also holds takes the merged value. */
  lemma EntryStep(d1: Obj, i: nat, y: seq<(string, Obj)>, v: Obj, rest: seq<(string, Obj)>)
    requires d1.ODict? && i < |d1.items| && Has(y, d1.items[i].0)
    requires MergeValue(d1.items[i].1, Get(y, d1.items[i].0)) == Ok(v)
    requires MergeEntries(d1, i + 1, y) == Ok(rest)
    ensures MergeEntries(d1, i, y) == Ok([(d1.items[i].0, v)] + rest)
  {
  }

  /** Both keys of a block's dictionary are in the other block's. */
  lemma EncodeKeysFixed(a: Scanner.Block, b: Scanner.Block)
    ensures Scanner.Fresh(Encode(a).items, Encode(b).items) == []
  {
    var x := Encode(a).items;
    var e := Encode(b).items;
    assert x[0].0 == SelfKey && x[1].0 == SubnodesKey;
    assert e[0].0 == SelfKey && e[1].0 == SubnodesKey;
    assert Has(x, e[0].0) && Has(x, e[1..][0].0);
    assert e[1..][1..] == [];
    assert Scanner.Fresh(x, e[1..]) == [];
  }

  lemma EncodeAppend(x: seq<(string, Scanner.Block)>, y: seq<(string, Scanner.Block)>)
    ensures EncodeAll(x + y) == EncodeAll(x) + EncodeAll(y)
  {
    var s := x + y;
    forall j | 0 <= j < |s| ensures EncodeAll(s)[j] == (EncodeAll(x) + EncodeAll(y))[j] {
      EncodeAt(Scanner.Block([], s), 0, j);
      if j < |x| {
        EncodeAt(Scanner.Block([], x), 0, j);
      } else {
        EncodeAt(Scanner.Block([], y), 0, j - |x|);
      }
    }
  }

  /** The first loop over the children dictionary of `a` is the scanner's
      merge of the children. */
  lemma {:induction false} SubsMerged(a: Scanner.Block, i: nat, y: seq<(string, Scanner.Block)>)
    requires i <= |a.subnodes|
    ensures MergeEntries(ODict(EncodeSubs(a, 0)), i, EncodeAll(y))
      == Ok(EncodeAll(Scanner.MergeSubsFrom(a, i, y)))
    decreases a, 0, |a.subnodes| - i
  {
    var sa := ODict(EncodeSubs(a, 0));
    var r := Scanner.MergeSubsFrom(a, i, y);
    if i < |a.subnodes| {
      var e := a.subnodes[i];
      assert e in a.subnodes;
      EncodeAt(a, 0, i);
      assert sa.items[i] == (e.0, Encode(e.1));
      EncodeLookup(y, e.0);
      SubsMerged(a, i + 1, y);
      if Has(y, e.0) {
        MergeBlockEncoded(e.1, Get(y, e.0));
      }
      var v := if Has(y, e.0) then Scanner.MergeBlock(e.1, Get(y, e.0)) else e.1;
      assert r == [(e.0, v)] + Scanner.MergeSubsFrom(a, i + 1, y);
      EncodeAt(Scanner.Block([], r), 0, 0);
      EncodeTail(r);
      assert r[1..] == Scanner.MergeSubsFrom(a, i + 1, y);
      assert EncodeAll(r) == [EncodeAll(r)[0]] + EncodeAll(r)[1..];
    }
  }

  /** The current scanner stores `merge_dict(subnode_lines.get(sig, {}), new)`:
      what `Record` stores under the signature is that merge. */
  lemma RecordMerges(subs: seq<(string, Scanner.Block)>, sig: string, b: Scanner.Block)
    requires UniqueKeys(subs)
    ensures var stored := if Has(subs, sig) then Encode(Get(subs, sig)) else ODict([]);
      MergeDict(stored, Encode(b)) == Ok(Encode(Get(Scanner.Record(Current, subs, sig, b), sig)))
  {
    Scanner.RecordSpec(Current, subs, sig, b);
    if Has(subs, sig) {
      MergeBlockEncoded(Get(subs, sig), b);
    } else {
      MergeIntoEmpty(Encode(b));
    }
  }
}
