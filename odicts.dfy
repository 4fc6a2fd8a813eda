/** Python dictionaries as insertion-ordered association lists. */
module ODicts {
  import opened Wrappers

  type ODict<K, V> = seq<(K, V)>

  function Keys<K, V>(d: ODict<K, V>): (r: seq<K>)
    ensures |r| == |d| && forall i | 0 <= i < |d| :: r[i] == d[i].0
  {
    seq(|d|, i requires 0 <= i < |d| => d[i].0)
  }

  predicate UniqueKeys<K(==), V>(d: ODict<K, V>) {
    forall i, j | 0 <= i < j < |d| :: d[i].0 != d[j].0
  }

  predicate Has<K(==), V>(d: ODict<K, V>, k: K) {
    exists i | 0 <= i < |d| :: d[i].0 == k
  }

  /** Position of key k (its first occurrence). */
  function IndexOf<K(==), V>(d: ODict<K, V>, k: K): (i: nat)
    requires Has(d, k)
    ensures i < |d| && d[i].0 == k && forall j | 0 <= j < i :: d[j].0 != k
  {
    if d[0].0 == k then 0 else
      assert Has(d[1..], k) by { var j :| 0 <= j < |d| && d[j].0 == k; assert d[1..][j - 1].0 == k; }
      1 + IndexOf(d[1..], k)
  }

  /** d[k] */
  function Get<K(==), V>(d: ODict<K, V>, k: K): V
    requires Has(d, k)
  {
    d[IndexOf(d, k)].1
  }

  /** d.get(k) */
  function Lookup<K(==), V>(d: ODict<K, V>, k: K): (r: Option<V>)
    ensures r.Some? <==> Has(d, k)
  {
    if Has(d, k) then Some(Get(d, k)) else None
  }

  /** d[k] = v: an existing key keeps its position, a new key goes last. */
  function Put<K(==), V>(d: ODict<K, V>, k: K, v: V): ODict<K, V> {
    if Has(d, k) then d[IndexOf(d, k) := (k, v)] else d + [(k, v)]
  }

  /** del d[k] */
  function Del<K(==), V>(d: ODict<K, V>, k: K): (r: ODict<K, V>)
    requires Has(d, k)
  {
    var i := IndexOf(d, k);
    d[..i] + d[i + 1..]
  }

  lemma PutHas<K, V>(d: ODict<K, V>, k: K, v: V)
    ensures Has(Put(d, k, v), k)
  {
    if Has(d, k) { assert Put(d, k, v)[IndexOf(d, k)].0 == k; } else { assert Put(d, k, v)[|d|].0 == k; }
  }

  /** In a dictionary with distinct keys, each entry is what its key finds. */
  lemma GetAt<K, V>(d: ODict<K, V>, i: nat)
    requires UniqueKeys(d) && i < |d|
    ensures Has(d, d[i].0) && IndexOf(d, d[i].0) == i && Get(d, d[i].0) == d[i].1
  {
  }

  /** Storing a new key and deleting it again leaves the dictionary as it
      was. */
  lemma PutDel<K, V>(d: ODict<K, V>, k: K, v: V)
    requires !Has(d, k)
    ensures Has(Put(d, k, v), k) && Del(Put(d, k, v), k) == d
  {
    var r := d + [(k, v)];
    assert r[|d|].0 == k;
    assert IndexOf(r, k) == |d|;
    assert r[..|d|] == d;
  }

  predicate Distinct<K(==)>(ks: seq<K>) {
    forall i, j | 0 <= i < j < |ks| :: ks[i] != ks[j]
  }

  /** Storing entry e, when there is one, under key k. */
  function Step<K(==), V>(acc: ODict<K, V>, k: K, e: Option<V>): ODict<K, V> {
    match e case None => acc case Some(v) => Put(acc, k, v)
  }

  /** Storing, from position i on, each present entry under its key. */
  function Fold<K(==), V>(ks: seq<K>, es: seq<Option<V>>, i: nat, acc: ODict<K, V>): ODict<K, V>
    requires |ks| == |es| && i <= |ks|
    decreases |ks| - i
  {
    if i == |ks| then acc
    else Fold(ks, es, i + 1, Step(acc, ks[i], es[i]))
  }

  /** Whether k is none of the keys from position i on. */
  predicate Absent<K(==)>(ks: seq<K>, i: nat, k: K) {
    forall j | i <= j < |ks| :: ks[j] != k
  }

  /** One step of Fold: the key finds its entry, or what it found before
      when there is none, and every other key finds what it found before. */
  lemma StepLookup<K, V>(acc: ODict<K, V>, k: K, e: Option<V>)
    requires UniqueKeys(acc)
    ensures var next := Step(acc, k, e);
      && UniqueKeys(next)
      && Lookup(next, k) == (if e.Some? then e else Lookup(acc, k))
      && forall k' | k' != k :: Lookup(next, k') == Lookup(acc, k')
  {
    if e.Some? { PutUnique(acc, k, e.value); }
  }

  /** A step over distinct keys none of which the accumulator has leaves
      the remaining keys absent. */
  lemma FreshStep<K, V>(ks: seq<K>, i: nat, acc: ODict<K, V>, e: Option<V>)
    requires i < |ks| && Distinct(ks) && UniqueKeys(acc)
    requires forall j | i <= j < |ks| :: !Has(acc, ks[j])
    ensures UniqueKeys(Step(acc, ks[i], e))
    ensures forall j | i + 1 <= j < |ks| :: !Has(Step(acc, ks[i], e), ks[j])
  {
    StepLookup(acc, ks[i], e);
    forall j | i + 1 <= j < |ks| ensures !Has(Step(acc, ks[i], e), ks[j]) {
      assert ks[j] != ks[i];
      assert Lookup(Step(acc, ks[i], e), ks[j]) == Lookup(acc, ks[j]);
    }
  }

  lemma {:induction false} FoldUnique<K, V>(ks: seq<K>, es: seq<Option<V>>, i: nat, acc: ODict<K, V>)
    requires |ks| == |es| && i <= |ks| && UniqueKeys(acc)
    ensures UniqueKeys(Fold(ks, es, i, acc))
    decreases |ks| - i
  {
    if i < |ks| {
      StepLookup(acc, ks[i], es[i]);
      FoldUnique(ks, es, i + 1, Step(acc, ks[i], es[i]));
    }
  }

  /** A key none of whose positions from i on is visited finds what it
      found before. */
  lemma {:induction false} FoldOther<K, V>(ks: seq<K>, es: seq<Option<V>>, i: nat, acc: ODict<K, V>, k: K)
    requires |ks| == |es| && i <= |ks| && UniqueKeys(acc) && Absent(ks, i, k)
    ensures Lookup(Fold(ks, es, i, acc), k) == Lookup(acc, k)
    decreases |ks| - i
  {
    if i < |ks| {
      StepLookup(acc, ks[i], es[i]);
      FoldOther(ks, es, i + 1, Step(acc, ks[i], es[i]), k);
    }
  }

  /** With distinct keys, the key at position j finds its own entry, or
      what it found before when it has none. */
  lemma {:induction false} FoldKey<K, V>(ks: seq<K>, es: seq<Option<V>>, i: nat, acc: ODict<K, V>, j: nat)
    requires |ks| == |es| && i <= j < |ks| && Distinct(ks) && UniqueKeys(acc)
    ensures Lookup(Fold(ks, es, i, acc), ks[j]) == if es[j].Some? then es[j] else Lookup(acc, ks[j])
    decreases |ks| - i
  {
    var next := Step(acc, ks[i], es[i]);
    StepLookup(acc, ks[i], es[i]);
    if i == j {
      assert Absent(ks, i + 1, ks[i]);
      FoldOther(ks, es, i + 1, next, ks[i]);
    } else {
      assert ks[j] != ks[i];
      FoldKey(ks, es, i + 1, next, j);
    }
  }

  /** A recursion that, from each position on, stores that position's entry
      and goes on, and that yields its accumulator at the end, is the fold. */
  lemma {:induction false} FoldBy<K, V>(ks: seq<K>, es: seq<Option<V>>, f: (nat, ODict<K, V>) -> Result<ODict<K, V>>,
                                            j: nat, acc: ODict<K, V>)
    requires |ks| == |es| && j <= |ks|
    requires forall a :: f(|ks|, a) == Ok(a)
    requires forall i: nat, a | j <= i < |ks| :: f(i, a) == f(i + 1, Step(a, ks[i], es[i]))
    ensures f(j, acc) == Ok(Fold(ks, es, j, acc))
    decreases |ks| - j
  {
    if j < |ks| {
      FoldBy(ks, es, f, j + 1, Step(acc, ks[j], es[j]));
    }
  }

  /** Two folds into an empty dictionary: a key of the second that has an
      entry finds it, a key of the first finds its own entry unless the
      second stores one for it, any other key finds nothing. */
  lemma JoinLookup<K, V>(ks1: seq<K>, es1: seq<Option<V>>, ks2: seq<K>, es2: seq<Option<V>>)
    requires |ks1| == |es1| && |ks2| == |es2| && Distinct(ks1) && Distinct(ks2)
    ensures var n := Fold(ks2, es2, 0, Fold(ks1, es1, 0, []));
      && UniqueKeys(n)
      && (forall i | 0 <= i < |ks1| && (forall j | 0 <= j < |ks2| && ks2[j] == ks1[i] :: es2[j].None?) :: Lookup(n, ks1[i]) == es1[i])
      && (forall j | 0 <= j < |ks2| && es2[j].Some? :: Lookup(n, ks2[j]) == es2[j])
      && (forall k | Absent(ks1, 0, k) && Absent(ks2, 0, k) :: Lookup(n, k) == None)
  {
    var left := Fold(ks1, es1, 0, []);
    FoldUnique(ks1, es1, 0, []);
    FoldUnique(ks2, es2, 0, left);
    var n := Fold(ks2, es2, 0, left);
    forall j | 0 <= j < |ks2| && es2[j].Some? ensures Lookup(n, ks2[j]) == es2[j] {
      FoldKey(ks2, es2, 0, left, j);
    }
    forall i | 0 <= i < |ks1| && (forall j | 0 <= j < |ks2| && ks2[j] == ks1[i] :: es2[j].None?)
      ensures Lookup(n, ks1[i]) == es1[i]
    {
      FoldKey(ks1, es1, 0, [], i);
      if Absent(ks2, 0, ks1[i]) {
        FoldOther(ks2, es2, 0, left, ks1[i]);
      } else {
        var j :| 0 <= j < |ks2| && ks2[j] == ks1[i];
        FoldKey(ks2, es2, 0, left, j);
      }
    }
    forall k | Absent(ks1, 0, k) && Absent(ks2, 0, k) ensures Lookup(n, k) == None {
      FoldOther(ks1, es1, 0, [], k);
      FoldOther(ks2, es2, 0, left, k);
    }
  }

  lemma KeysDistinct<K, V>(d: ODict<K, V>)
    requires UniqueKeys(d)
    ensures Distinct(Keys(d))
  {
  }

  lemma HasKeys<K, V>(d: ODict<K, V>, k: K)
    ensures Has(d, k) <==> !Absent(Keys(d), 0, k)
  {
    if !Absent(Keys(d), 0, k) {
      var j :| 0 <= j < |d| && Keys(d)[j] == k;
      assert d[j].0 == k;
    }
  }

  lemma PutUnique<K, V>(d: ODict<K, V>, k: K, v: V)
    requires UniqueKeys(d)
    ensures UniqueKeys(Put(d, k, v)) && Has(Put(d, k, v), k) && Get(Put(d, k, v), k) == v
    ensures forall k' | k' != k :: Has(Put(d, k, v), k') == Has(d, k')
    ensures forall k' | k' != k && Has(d, k') :: Get(Put(d, k, v), k') == Get(d, k')
  {
    var r := Put(d, k, v);
    assert forall j | 0 <= j < |d| && d[j].0 != k :: r[j] == d[j];
    if Has(d, k) {
      assert r[IndexOf(d, k)].0 == k;
    } else {
      assert r[|d|].0 == k;
    }
    forall k' | k' != k && Has(d, k') ensures Has(r, k') && Get(r, k') == Get(d, k') {
      var j := IndexOf(d, k');
      assert r[j] == d[j];
      var m := IndexOf(r, k');
      assert m < |d| ==> r[m] == d[m];
    }
  }

  lemma DelUnique<K, V>(d: ODict<K, V>, k: K)
    requires UniqueKeys(d) && Has(d, k)
    ensures UniqueKeys(Del(d, k)) && !Has(Del(d, k), k)
    ensures forall k' | k' != k :: Has(Del(d, k), k') == Has(d, k')
  {
    var i := IndexOf(d, k);
    var r := Del(d, k);
    assert forall j | 0 <= j < |r| :: r[j] == (if j < i then d[j] else d[j + 1]);
    forall k' | k' != k && Has(d, k') ensures Has(r, k') {
      var j :| 0 <= j < |d| && d[j].0 == k';
      if j < i { assert r[j].0 == k'; } else { assert r[j - 1].0 == k'; }
    }
  }

  /** Deleting a key leaves every other key's value where it was. */
  lemma DelLookup<K, V>(d: ODict<K, V>, k: K)
    requires UniqueKeys(d) && Has(d, k)
    ensures Lookup(Del(d, k), k) == None
    ensures forall k' | k' != k :: Lookup(Del(d, k), k') == Lookup(d, k')
  {
    DelUnique(d, k);
    var i := IndexOf(d, k);
    var r := Del(d, k);
    forall k' | k' != k && Has(d, k') ensures Get(r, k') == Get(d, k') {
      var j := IndexOf(d, k');
      GetAt(d, j);
      if j < i {
        assert r[j] == d[j];
        GetAt(r, j);
      } else {
        assert r[j - 1] == d[j];
        GetAt(r, j - 1);
      }
    }
  }
}
