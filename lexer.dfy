/** `parse_property`, the lexer of a property's right-hand side: a quoted
    string, an angle-bracketed tuple of tokens or a `__MACRO__`, each
    optionally followed by a comma and more elements. Both importers carry
    the same lexer. */
module Lexer {
  import opened Wrappers
  import opened Text
  import opened Properties
  import Comments

  // ----- the element pattern -----

  /** The alternative of the element pattern that matched. */
  datatype Kind = Quoted | Angled | Macro

  /** A hit of the element pattern in a text: the element spans
      `start..stop` and `comma` says whether a comma follows it. */
  datatype Hit = Hit(start: nat, stop: nat, kind: Kind, comma: bool)

  /** The class `[^"\v]`. */
  predicate InQuotes(c: char) { c != '"' && c != Comments.VTab }

  /** The class `[^>]`. */
  predicate InAngles(c: char) { c != '>' }

  /** The character classes the element pattern repeats. */
  datatype Class = NoQuote | NoAngle | WordChar

  predicate InClass(cl: Class, c: char) {
    match cl
    case NoQuote => InQuotes(c)
    case NoAngle => InAngles(c)
    case WordChar => IsWord(c)
  }

  /** How many characters of `s` from `from` on are in the class: what a
      greedy `[...]*` consumes. */
  function Run(s: string, from: nat, cl: Class): (n: nat)
    requires from <= |s|
    ensures from + n <= |s|
    decreases |s| - from
  {
    if from == |s| || !InClass(cl, s[from]) then 0 else 1 + Run(s, from + 1, cl)
  }

  /** The run consists of class characters and stops at the end or at a
      character outside the class. */
  lemma {:induction false} RunFacts(s: string, from: nat, cl: Class)
    requires from <= |s|
    ensures forall k | from <= k < from + Run(s, from, cl) :: InClass(cl, s[k])
    ensures from + Run(s, from, cl) == |s| || !InClass(cl, s[from + Run(s, from, cl)])
    decreases |s| - from
  {
    if from < |s| && InClass(cl, s[from]) {
      RunFacts(s, from + 1, cl);
    }
  }

  /** ... and is determined by that. */
  lemma {:induction false} RunIs(s: string, from: nat, cl: Class, n: nat)
    requires from + n <= |s|
    requires forall k | from <= k < from + n :: InClass(cl, s[k])
    requires from + n == |s| || !InClass(cl, s[from + n])
    ensures Run(s, from, cl) == n
    decreases n
  {
    if n > 0 {
      RunIs(s, from + 1, cl, n - 1);
    }
  }

  /** `"[^"\v]*"` at `p`: where it ends. */
  function QuotedEnd(s: string, p: nat): (r: Option<nat>)
    requires p < |s|
    ensures r.Some? ==> p + 2 <= r.value <= |s|
  {
    if s[p] != '"' then None
    else
      var j := p + 1 + Run(s, p + 1, NoQuote);
      if j < |s| && s[j] == '"' then Some(j + 1) else None
  }

  /** `<[^>]*>` at `p`: where it ends. */
  function AngledEnd(s: string, p: nat): (r: Option<nat>)
    requires p < |s|
    ensures r.Some? ==> p + 2 <= r.value <= |s|
  {
    if s[p] != '<' then None
    else
      var j := p + 1 + Run(s, p + 1, NoAngle);
      if j < |s| then Some(j + 1) else None
  }

  /** The last `__` in `s[lo..hi]`: the greedy `\w*` of the macro pattern
      gives back characters until two underscores follow it. */
  function LastDouble(s: string, lo: nat, hi: nat): (r: Option<nat>)
    requires lo <= hi <= |s|
    ensures r.Some? ==> lo <= r.value && r.value + 2 <= hi && s[r.value] == '_' && s[r.value + 1] == '_'
    decreases hi - lo
  {
    if hi < lo + 2 then None
    else if s[hi - 2] == '_' && s[hi - 1] == '_' then Some(hi - 2)
    else LastDouble(s, lo, hi - 1)
  }

  /** No `__` follows the one `LastDouble` finds, and none is there when
      it finds none. */
  lemma {:induction false} LastDoubleIsLast(s: string, lo: nat, hi: nat)
    requires lo <= hi <= |s|
    ensures LastDouble(s, lo, hi).Some? ==>
      forall k | LastDouble(s, lo, hi).value < k && k + 2 <= hi :: !(s[k] == '_' && s[k + 1] == '_')
    ensures LastDouble(s, lo, hi).None? ==> forall k | lo <= k && k + 2 <= hi :: !(s[k] == '_' && s[k + 1] == '_')
    decreases hi - lo
  {
    if hi >= lo + 2 && !(s[hi - 2] == '_' && s[hi - 1] == '_') {
      LastDoubleIsLast(s, lo, hi - 1);
    }
  }

  /** `__\w*__` at `p`: where it ends. */
  function MacroEnd(s: string, p: nat): (r: Option<nat>)
    requires p < |s|
    ensures r.Some? ==> p + 4 <= r.value <= |s|
  {
    if p + 1 < |s| && s[p] == '_' && s[p + 1] == '_' then
      var q := p + 2 + Run(s, p + 2, WordChar);
      match LastDouble(s, p + 2, q)
      case Some(k) => Some(k + 2)
      case None => None
    else None
  }

  /** The element pattern at `p`, its alternatives tried in order. */
  function ElementAt(s: string, p: nat): (r: Option<(Kind, nat)>)
    requires p < |s|
    ensures r.Some? ==> p + 2 <= r.value.1 <= |s|
  {
    if QuotedEnd(s, p).Some? then Some((Quoted, QuotedEnd(s, p).value))
    else if AngledEnd(s, p).Some? then Some((Angled, AngledEnd(s, p).value))
    else if MacroEnd(s, p).Some? then Some((Macro, MacroEnd(s, p).value))
    else None
  }

  /** `prop_match.search(s)` from `p` on: the leftmost hit. */
  function Search(s: string, p: nat): (r: Option<Hit>)
    requires p <= |s|
    ensures r.Some? ==> p <= r.value.start && r.value.start + 2 <= r.value.stop <= |s|
    ensures r.Some? ==> r.value.comma == (r.value.stop < |s| && s[r.value.stop] == ',')
    decreases |s| - p
  {
    if p == |s| then None
    else
      match ElementAt(s, p)
      case Some((k, e)) => Some(Hit(p, e, k, e < |s| && s[e] == ','))
      case None => Search(s, p + 1)
  }

  /** An element as the first loop collects it: its text, and the
      alternative of the pattern that matched it. */
  datatype Piece = Piece(text: string, kind: Kind)

  /** The element a hit matched. */
  function Matched(s: string, h: Hit): Piece
    requires h.start <= h.stop <= |s|
  {
    Piece(s[h.start..h.stop], h.kind)
  }

  /** The text between the first and the last character. */
  function Inner(text: string): string {
    if |text| < 2 then [] else text[1..|text| - 1]
  }

  /** What the group dictionary gives for an element: the string between
      the quotes, the whitespace-split tokens between the angles, or the
      whole macro. */
  function PieceValue(p: Piece): Value {
    match p.kind
    case Quoted => VStr(Inner(p.text))
    case Angled => VTuple(SplitWs(Inner(p.text)))
    case Macro => VStr(p.text)
  }

  const Separators: set<char> := {' ', ','}

  /** A round of the first loop once the hit is known: the element's
      piece, and, when a comma follows it, the text from `cut` on stripped
      of spaces and commas. */
  function Round(t: string, h: Hit, cut: nat): (r: (Piece, Option<string>))
    requires h.start + 2 <= h.stop <= |t| && 0 < cut <= |t|
    ensures r.1.Some? ==> |r.1.value| < |t|
  {
    (Matched(t, h), if h.comma then Some(LStripChars(t[cut..], Separators)) else None)
  }

  /** One round of the first loop: the element found first, and the text
      left for the next round when a comma follows it. */
  function Next(t: string): (r: Option<(Piece, Option<string>)>)
    ensures r.Some? && r.value.1.Some? ==> |r.value.1.value| < |t|
  {
    match Search(t, 0)
    case None => None
    case Some(h) => Some(Round(t, h, h.stop))
  }

  /** The first loop: elements while a comma follows, the text cut after
      each element and stripped of spaces and commas. */
  function Pieces(t: string): (r: seq<Piece>)
    decreases |t|
  {
    match Next(t)
    case None => []
    case Some((p, None)) => [p]
    case Some((p, Some(n))) => [p] + Pieces(n)
  }

  /** One round of the first loop as the source writes it: the text left
      over is cut by the element's length from its start, not after the
      element. */
  function NextAsWritten(t: string): (r: Option<(Piece, Option<string>)>)
    ensures r.Some? && r.value.1.Some? ==> |r.value.1.value| < |t|
  {
    match Search(t, 0)
    case None => None
    case Some(h) => Some(Round(t, h, h.stop - h.start))
  }

  /** The first loop as the source writes it. */
  function PiecesAsWritten(t: string): (r: seq<Piece>)
    decreases |t|
  {
    match NextAsWritten(t)
    case None => []
    case Some((p, None)) => [p]
    case Some((p, Some(n))) => [p] + PiecesAsWritten(n)
  }

  function Texts(ps: seq<Piece>): (r: seq<string>)
    ensures |r| == |ps|
  {
    if ps == [] then [] else [ps[0].text] + Texts(ps[1..])
  }

  function Values(ps: seq<Piece>): (r: seq<Value>)
    ensures |r| == |ps|
  {
    if ps == [] then [] else [PieceValue(ps[0])] + Values(ps[1..])
  }

  /** The second loop: each collected text searched again and decoded. */
  function Redecoded(items: seq<string>): seq<Value>
  {
    if items == [] then []
    else
      var rest := Redecoded(items[1..]);
      match Search(items[0], 0)
      case None => rest
      case Some(h) => [PieceValue(Matched(items[0], h))] + rest
  }

  /** `parse_property(v)`: a list for two or more elements, the value of a
      single element, None for none. The first loop cuts each round's text
      by the element's length from the start of the text, as the source
      does. */
  function ParseValue(v: string): Value
  {
    var ps := PiecesAsWritten(Strip(v));
    if |ps| > 1 then VList(Redecoded(Texts(ps)))
    else if |ps| == 1 then PieceValue(ps[0])
    else VNone
  }

  /** `parse_property(v)` with the source's loops. */
  method ParseProperty(v: string) returns (r: Value)
    ensures r == ParseValue(v)
  {
    var list, last := CollectElements(Strip(v));
    if |list| > 1 {
      var items := RedecodeAll(list);
      r := VList(items);
    } else {
      r := last;
    }
  }

  /** The first loop of `parse_property`: the element texts, and the value
      of the last element (None when there is none). */
  method CollectElements(t: string) returns (list: seq<string>, last: Value)
    ensures list == Texts(PiecesAsWritten(t))
    ensures last == if PiecesAsWritten(t) == [] then VNone else PieceValue(PiecesAsWritten(t)[|PiecesAsWritten(t)| - 1])
  {
    var temp := t;
    ghost var all := PiecesAsWritten(t);
    ghost var done: seq<Piece> := [];
    ghost var rest := all;
    list := [];
    last := VNone;
    var more := true;
    while more
      invariant list == Texts(done) && done + rest == all
      invariant more ==> rest == PiecesAsWritten(temp)
      invariant !more ==> rest == []
      invariant done == [] ==> last == VNone
      invariant done != [] ==> last == PieceValue(done[|done| - 1])
      decreases if more then |temp| + 1 else 0
    {
      var step := NextAsWritten(temp);
      if step.None? {
        more := false;
      } else {
        var p := step.value.0;
        ghost var after := if step.value.1.Some? then PiecesAsWritten(step.value.1.value) else [];
        AsWrittenStep(temp);
        Shift(done, p, after, all);
        TextsSnoc(done, p);
        done := done + [p];
        rest := after;
        list := list + [p.text];
        last := PieceValue(p);
        if step.value.1.Some? {
          temp := step.value.1.value;
        } else {
          more := false;
        }
      }
    }
    assert done + [] == done;
  }

  lemma Shift<T>(done: seq<T>, p: T, after: seq<T>, all: seq<T>)
    requires done + ([p] + after) == all
    ensures (done + [p]) + after == all && (done + [p])[|done|] == p
  {
    assert done + ([p] + after) == (done + [p]) + after;
  }

  /** The second loop of `parse_property`. */
  method RedecodeAll(list: seq<string>) returns (items: seq<Value>)
    ensures items == Redecoded(list)
  {
    items := [];
    for i := 0 to |list|
      invariant items + Redecoded(list[i..]) == Redecoded(list)
    {
      var h := Search(list[i], 0);
      assert list[i..][1..] == list[i + 1..];
      if h.Some? {
        items := items + [PieceValue(Matched(list[i], h.value))];
      }
    }
    assert list[|list|..] == [];
    assert items + [] == items;
  }

  /** `Pieces` unfolded once. */
  lemma PiecesStep(t: string)
    ensures Next(t).None? ==> Pieces(t) == []
    ensures Next(t).Some? ==>
      Pieces(t) == [Next(t).value.0] + (if Next(t).value.1.Some? then Pieces(Next(t).value.1.value) else [])
  {
    if Next(t).Some? && Next(t).value.1.None? {
      assert [Next(t).value.0] + [] == [Next(t).value.0];
    }
  }

  lemma {:induction false} TextsSnoc(ps: seq<Piece>, p: Piece)
    ensures Texts(ps + [p]) == Texts(ps) + [p.text]
  {
    if ps != [] {
      assert (ps + [p])[1..] == ps[1..] + [p];
      TextsSnoc(ps[1..], p);
    }
  }

  // ----- the second loop decodes each text as the first did -----

  /** The hit `Search` reports is the element pattern matching at the
      hit's start, and no element starts before it. */
  lemma {:induction false} SearchElement(s: string, p: nat)
    requires p <= |s|
    ensures Search(s, p).Some? ==> var h := Search(s, p).value;
      h.start < |s| && ElementAt(s, h.start) == Some((h.kind, h.stop))
    ensures Search(s, p).Some? ==> forall k | p <= k < Search(s, p).value.start :: ElementAt(s, k).None?
    ensures Search(s, p).None? ==> forall k | p <= k < |s| :: ElementAt(s, k).None?
    decreases |s| - p
  {
    if p < |s| && ElementAt(s, p).None? {
      SearchElement(s, p + 1);
    }
  }

  lemma QuotedAlone(s: string, a: nat)
    requires a < |s| && QuotedEnd(s, a).Some?
    ensures var e := QuotedEnd(s, a).value; QuotedEnd(s[a..e], 0) == Some(e - a)
  {
    var e := QuotedEnd(s, a).value;
    var t := s[a..e];
    var j := e - 1;
    assert j == a + 1 + Run(s, a + 1, NoQuote) && s[j] == '"';
    RunFacts(s, a + 1, NoQuote);
    RunIs(t, 1, NoQuote, j - a - 1);
    assert t[0] == '"' && t[j - a] == '"';
  }

  lemma AngledAlone(s: string, a: nat)
    requires a < |s| && AngledEnd(s, a).Some?
    ensures var e := AngledEnd(s, a).value; AngledEnd(s[a..e], 0) == Some(e - a)
  {
    var e := AngledEnd(s, a).value;
    var t := s[a..e];
    var j := e - 1;
    assert j == a + 1 + Run(s, a + 1, NoAngle);
    RunFacts(s, a + 1, NoAngle);
    RunIs(t, 1, NoAngle, j - a - 1);
    assert t[0] == '<';
  }

  lemma MacroAlone(s: string, a: nat)
    requires a < |s| && MacroEnd(s, a).Some?
    ensures var e := MacroEnd(s, a).value; MacroEnd(s[a..e], 0) == Some(e - a)
  {
    var e := MacroEnd(s, a).value;
    var t := s[a..e];
    var q := a + 2 + Run(s, a + 2, WordChar);
    RunFacts(s, a + 2, WordChar);
    assert LastDouble(s, a + 2, q) == Some(e - 2);
    assert t[0] == '_' && t[1] == '_';
    RunIs(t, 2, WordChar, |t| - 2);
    assert t[|t| - 2] == s[e - 2] && t[|t| - 1] == s[e - 1];
  }

  /** An element cut out of its text is, on its own, the same element. */
  lemma ElementAlone(s: string, h: Hit)
    requires h.start < |s| && ElementAt(s, h.start) == Some((h.kind, h.stop))
    ensures h.start + 2 <= h.stop <= |s|
    ensures ElementAt(s[h.start..h.stop], 0) == Some((h.kind, h.stop - h.start))
  {
    var t := s[h.start..h.stop];
    match h.kind
    case Quoted =>
      QuotedAlone(s, h.start);
    case Angled =>
      AngledAlone(s, h.start);
      assert t[0] == '<';
    case Macro =>
      MacroAlone(s, h.start);
      assert t[0] == '_';
  }

  /** A text that is one element is found whole by `Search`. */
  lemma SearchWhole(u: string, k: Kind)
    requires 0 < |u| && ElementAt(u, 0) == Some((k, |u|))
    ensures Search(u, 0) == Some(Hit(0, |u|, k, false))
  {
  }

  /** A piece, searched again on its own, is found whole, as the same
      alternative. */
  predicate SelfDecodes(p: Piece) {
    Search(p.text, 0) == Some(Hit(0, |p.text|, p.kind, false))
  }

  predicate Redecodes(ps: seq<Piece>) {
    forall i | 0 <= i < |ps| :: SelfDecodes(ps[i])
  }

  /** The element `Search` finds, cut out, is found again on its own. */
  lemma HitAlone(t: string, h: Hit)
    requires Search(t, 0) == Some(h)
    ensures SelfDecodes(Matched(t, h))
  {
    SearchElement(t, 0);
    ElementAlone(t, h);
    SearchWhole(t[h.start..h.stop], h.kind);
  }

  /** The piece one round of the first loop cuts out decodes on its own. */
  lemma NextAlone(t: string)
    requires Next(t).Some?
    ensures SelfDecodes(Next(t).value.0)
  {
    HitAlone(t, Search(t, 0).value);
  }

  lemma {:induction false} PiecesRedecode(t: string)
    ensures Redecodes(Pieces(t))
    decreases |t|
  {
    PiecesStep(t);
    match Next(t)
    case None =>
    case Some((p, n)) =>
      NextAlone(t);
      if n.Some? {
        PiecesRedecode(n.value);
        var ps := Pieces(t);
        forall i | 0 <= i < |ps|
          ensures SelfDecodes(ps[i])
        {
          if i > 0 {
            assert ps[i] == Pieces(n.value)[i - 1];
          }
        }
      }
  }

  lemma {:induction false} RedecodedValues(ps: seq<Piece>)
    requires Redecodes(ps)
    ensures Redecoded(Texts(ps)) == Values(ps)
  {
    if ps != [] {
      assert Redecodes(ps[1..]) by {
        forall i | 0 <= i < |ps[1..]|
          ensures SelfDecodes(ps[1..][i])
        {
          assert ps[1..][i] == ps[i + 1];
        }
      }
      assert SelfDecodes(ps[0]);
      assert ps[0].text[0..|ps[0].text|] == ps[0].text;
      RedecodedValues(ps[1..]);
    }
  }

  /** The piece one round of the source's first loop cuts out decodes on
      its own too. */
  lemma NextAsWrittenAlone(t: string)
    requires NextAsWritten(t).Some?
    ensures SelfDecodes(NextAsWritten(t).value.0)
  {
    HitAlone(t, Search(t, 0).value);
  }

  lemma {:induction false} AsWrittenRedecode(t: string)
    ensures Redecodes(PiecesAsWritten(t))
    decreases |t|
  {
    AsWrittenStep(t);
    match NextAsWritten(t)
    case None =>
    case Some((p, n)) =>
      NextAsWrittenAlone(t);
      if n.Some? {
        AsWrittenRedecode(n.value);
        var ps := PiecesAsWritten(t);
        forall i | 0 <= i < |ps|
          ensures SelfDecodes(ps[i])
        {
          if i > 0 {
            assert ps[i] == PiecesAsWritten(n.value)[i - 1];
          }
        }
      }
  }

  /** The second loop of `parse_property` changes nothing: a list is the
      values of the elements the first loop found. */
  lemma ParseValueDirect(v: string)
    ensures var ps := PiecesAsWritten(Strip(v));
      ParseValue(v) == if |ps| > 1 then VList(Values(ps)) else if |ps| == 1 then PieceValue(ps[0]) else VNone
  {
    AsWrittenRedecode(Strip(v));
    RedecodedValues(PiecesAsWritten(Strip(v)));
  }

  // ----- the cut of the first loop -----

  /** Every round of the first loop finds its element at the very start of
      what is left. */
  predicate Aligned(t: string)
    decreases |t|
  {
    match Search(t, 0)
    case None => true
    case Some(h) => h.start == 0 && (h.comma ==> Aligned(LStripChars(t[h.stop..], Separators)))
  }

  /** Cutting by the element's length and cutting after the element agree
      whenever every element starts where the text left over starts. */
  lemma {:induction false} AsWrittenWhenAligned(t: string)
    requires Aligned(t)
    ensures PiecesAsWritten(t) == Pieces(t)
    decreases |t|
  {
    PiecesStep(t);
    AsWrittenStep(t);
    if Search(t, 0).Some? {
      var h := Search(t, 0).value;
      assert NextAsWritten(t) == Next(t) by {
        assert h.stop - h.start == h.stop;
      }
      var p := Matched(t, h);
      if h.comma {
        var rest := LStripChars(t[h.stop..], Separators);
        assert Aligned(rest);
        AsWrittenWhenAligned(rest);
        assert Next(t) == Some((p, Some(rest)));
        calc {
          PiecesAsWritten(t);
          [p] + PiecesAsWritten(rest);
          [p] + Pieces(rest);
          Pieces(t);
        }
      } else {
        assert Next(t) == Some((p, None));
      }
    }
  }

  /** No element starts at a character that opens none. */
  lemma NoElementAt(s: string, p: nat)
    requires p < |s| && s[p] != '"' && s[p] != '<' && s[p] != '_'
    ensures ElementAt(s, p).None?
  {
  }

  /** `PiecesAsWritten` unfolded once. */
  lemma AsWrittenStep(t: string)
    ensures NextAsWritten(t).None? ==> PiecesAsWritten(t) == []
    ensures NextAsWritten(t).Some? ==>
      PiecesAsWritten(t) == [NextAsWritten(t).value.0]
        + (if NextAsWritten(t).value.1.Some? then PiecesAsWritten(NextAsWritten(t).value.1.value) else [])
  {
    if NextAsWritten(t).Some? && NextAsWritten(t).value.1.None? {
      assert [NextAsWritten(t).value.0] + [] == [NextAsWritten(t).value.0];
    }
  }

  /** The first round of both versions of the first loop, once `Search`
      has found an element followed by a comma. */
  lemma FirstRound(t: string, a: nat, b: nat, k: Kind)
    requires Search(t, 0) == Some(Hit(a, b, k, true))
    ensures a + 2 <= b <= |t|
    ensures Pieces(t) == [Piece(t[a..b], k)] + Pieces(LStripChars(t[b..], Separators))
  {
    PiecesStep(t);
  }

  lemma FirstRoundAsWritten(t: string, a: nat, b: nat, k: Kind, u: string)
    requires Search(t, 0) == Some(Hit(a, b, k, true))
    requires b - a <= |t| && t[b - a..] == u && (u == [] || u[0] !in Separators)
    ensures a + 2 <= b <= |t|
    ensures PiecesAsWritten(t) == [Piece(t[a..b], k)] + PiecesAsWritten(u)
  {
    var h := Hit(a, b, k, true);
    assert LStripChars(u, Separators) == u;
    assert NextAsWritten(t) == Some((Matched(t, h), Some(u)));
    AsWrittenStep(t);
  }

  // ----- rendering elements and reading them back -----

  /** An element as a device tree source writes it. */
  datatype Elem = QuotedElem(inner: string) | AngledElem(inner: string) | MacroElem(name: string)

  /** An element the pattern reads back whole: no closing character
      inside, a macro name of word characters. */
  predicate Canonical(e: Elem) {
    match e
    case QuotedElem(i) => forall k | 0 <= k < |i| :: InQuotes(i[k])
    case AngledElem(i) => forall k | 0 <= k < |i| :: InAngles(i[k])
    case MacroElem(n) => forall k | 0 <= k < |n| :: IsWord(n[k])
  }

  function ElemKind(e: Elem): Kind {
    match e
    case QuotedElem(_) => Quoted
    case AngledElem(_) => Angled
    case MacroElem(_) => Macro
  }

  function ElemText(e: Elem): (r: string)
    ensures |r| >= 2
  {
    match e
    case QuotedElem(i) => "\"" + i + "\""
    case AngledElem(i) => "<" + i + ">"
    case MacroElem(n) => "__" + n + "__"
  }

  /** The value the group dictionary gives for an element. */
  function ElemValue(e: Elem): Value {
    match e
    case QuotedElem(i) => VStr(i)
    case AngledElem(i) => VTuple(SplitWs(i))
    case MacroElem(n) => VStr("__" + n + "__")
  }

  /** The characters of a text written at `p`. */
  lemma TextAt(s: string, p: nat, t: string)
    requires p + |t| <= |s| && s[p..p + |t|] == t
    ensures forall k | 0 <= k < |t| :: s[p + k] == t[k]
  {
    forall k | 0 <= k < |t| ensures s[p + k] == t[k] {
      assert s[p..p + |t|][k] == s[p + k];
    }
  }

  lemma QuotedAtText(s: string, p: nat, i: string)
    requires forall k | 0 <= k < |i| :: InQuotes(i[k])
    requires p + |i| + 2 <= |s| && s[p..p + |i| + 2] == "\"" + i + "\""
    ensures QuotedEnd(s, p) == Some(p + |i| + 2)
  {
    var t := "\"" + i + "\"";
    TextAt(s, p, t);
    assert s[p] == t[0] == '"';
    assert s[p + |i| + 1] == t[|i| + 1] == '"';
    forall k | p + 1 <= k < p + 1 + |i| ensures InQuotes(s[k]) {
      assert s[k] == t[k - p] == i[k - p - 1];
    }
    RunIs(s, p + 1, NoQuote, |i|);
  }

  lemma AngledAtText(s: string, p: nat, i: string)
    requires forall k | 0 <= k < |i| :: InAngles(i[k])
    requires p + |i| + 2 <= |s| && s[p..p + |i| + 2] == "<" + i + ">"
    ensures QuotedEnd(s, p).None? && AngledEnd(s, p) == Some(p + |i| + 2)
  {
    var t := "<" + i + ">";
    TextAt(s, p, t);
    assert s[p] == t[0] == '<';
    assert s[p + |i| + 1] == t[|i| + 1] == '>';
    forall k | p + 1 <= k < p + 1 + |i| ensures InAngles(s[k]) {
      assert s[k] == t[k - p] == i[k - p - 1];
    }
    RunIs(s, p + 1, NoAngle, |i|);
  }

  lemma MacroAtText(s: string, p: nat, n: string)
    requires forall k | 0 <= k < |n| :: IsWord(n[k])
    requires p + |n| + 4 <= |s| && s[p..p + |n| + 4] == "__" + n + "__"
    requires p + |n| + 4 == |s| || s[p + |n| + 4] == ','
    ensures QuotedEnd(s, p).None? && AngledEnd(s, p).None? && MacroEnd(s, p) == Some(p + |n| + 4)
  {
    var t := "__" + n + "__";
    var q := p + |n| + 4;
    TextAt(s, p, t);
    assert s[p] == t[0] == '_' && s[p + 1] == t[1] == '_';
    assert s[q - 2] == t[|n| + 2] == '_' && s[q - 1] == t[|n| + 3] == '_';
    forall k | p + 2 <= k < q ensures IsWord(s[k]) {
      if k < q - 2 {
        assert s[k] == t[k - p] == n[k - p - 2];
      }
    }
    RunIs(s, p + 2, WordChar, |n| + 2);
    assert LastDouble(s, p + 2, q) == Some(q - 2);
  }

  /** A canonical element written at `p` and followed by a comma or the
      end of the text is what the element pattern matches there. */
  lemma ElementAtText(s: string, p: nat, e: Elem)
    requires Canonical(e) && p + |ElemText(e)| <= |s| && s[p..p + |ElemText(e)|] == ElemText(e)
    requires p + |ElemText(e)| == |s| || s[p + |ElemText(e)|] == ','
    ensures ElementAt(s, p) == Some((ElemKind(e), p + |ElemText(e)|))
  {
    match e
    case QuotedElem(i) => QuotedAtText(s, p, i);
    case AngledElem(i) => AngledAtText(s, p, i);
    case MacroElem(n) => MacroAtText(s, p, n);
  }

  lemma InnerOf(c: char, i: string, d: char)
    ensures Inner([c] + i + [d]) == i
  {
    var w := [c] + i + [d];
    assert w[1..|w| - 1] == i;
  }

  /** The group dictionary gives an element's own value for its text. */
  lemma ElemPieceValue(e: Elem)
    ensures PieceValue(Piece(ElemText(e), ElemKind(e))) == ElemValue(e)
  {
    match e
    case QuotedElem(i) => InnerOf('"', i, '"');
    case AngledElem(i) => InnerOf('<', i, '>');
    case MacroElem(n) =>
  }

  /** `Search` passes over positions where no element starts. */
  lemma {:induction false} SearchSkips(s: string, p: nat, q: nat)
    requires p <= q <= |s|
    requires forall k | p <= k < q :: ElementAt(s, k).None?
    ensures Search(s, p) == Search(s, q)
    decreases q - p
  {
    if p < q {
      SearchSkips(s, p + 1, q);
    }
  }

  function ElemTexts(es: seq<Elem>): (r: seq<string>)
    ensures |r| == |es|
  {
    if es == [] then [] else [ElemText(es[0])] + ElemTexts(es[1..])
  }

  function ElemValues(es: seq<Elem>): (r: seq<Value>)
    ensures |r| == |es|
  {
    if es == [] then [] else [ElemValue(es[0])] + ElemValues(es[1..])
  }

  /** The elements written out, separated by ", ". */
  function Render(es: seq<Elem>): string {
    Join(ElemTexts(es), ", ")
  }

  /** The pieces the first loop should find in a rendering. */
  function Expected(es: seq<Elem>): (r: seq<Piece>)
    ensures |r| == |es|
  {
    if es == [] then [] else [Piece(ElemText(es[0]), ElemKind(es[0]))] + Expected(es[1..])
  }

  lemma {:induction false} ExpectedParts(es: seq<Elem>)
    ensures Texts(Expected(es)) == ElemTexts(es) && Values(Expected(es)) == ElemValues(es)
  {
    if es != [] {
      ExpectedParts(es[1..]);
      ElemPieceValue(es[0]);
    }
  }

  lemma RenderStep(es: seq<Elem>)
    requires es != []
    ensures Render(es) == ElemText(es[0]) + (if |es| > 1 then ", " + Render(es[1..]) else [])
  {
    assert ElemTexts(es)[1..] == ElemTexts(es[1..]);
    assert ElemTexts(es)[0] == ElemText(es[0]);
    if |es| == 1 {
      assert ElemText(es[0]) + [] == ElemText(es[0]);
    } else {
      assert ElemText(es[0]) + ", " + Render(es[1..]) == ElemText(es[0]) + (", " + Render(es[1..]));
    }
  }

  lemma {:induction false} ElemTextsAt(es: seq<Elem>)
    ensures forall i | 0 <= i < |es| :: ElemTexts(es)[i] == ElemText(es[i])
  {
    if es != [] {
      ElemTextsAt(es[1..]);
      forall i | 0 < i < |es| ensures ElemTexts(es)[i] == ElemText(es[i]) {
        assert ElemTexts(es)[i] == ElemTexts(es[1..])[i - 1];
      }
    }
  }

  /** A rendering starts with its first element's first character and ends
      with its last element's last character. */
  lemma RenderEnds(es: seq<Elem>)
    requires es != []
    ensures |Render(es)| >= 2 && Render(es)[0] == ElemText(es[0])[0]
    ensures Render(es)[|Render(es)| - 1] == ElemText(es[|es| - 1])[|ElemText(es[|es| - 1])| - 1]
  {
    var ts := ElemTexts(es);
    ElemTextsAt(es);
    JoinEnds(ts, ", ");
    var z := ElemText(es[|es| - 1]);
    assert ts[|ts| - 1] == z;
    if |es| > 1 {
      JoinLonger(ts, ", ");
    }
  }

  /** An element's text opens with `"`, `<` or `_`, none of them a
      separator or a space. */
  lemma ElemTextEnds(e: Elem)
    ensures ElemText(e)[0] !in Separators && !IsSpace(ElemText(e)[0])
    ensures !IsSpace(ElemText(e)[|ElemText(e)| - 1])
  {
    var t := ElemText(e);
    match e
    case QuotedElem(i) => assert t[0] == '"' && t[|t| - 1] == '"';
    case AngledElem(i) => assert t[0] == '<' && t[|t| - 1] == '>';
    case MacroElem(n) => assert t[0] == '_' && t[|t| - 1] == '_';
  }

  /** The separator after an element is stripped away whole. */
  lemma StripSeparator(r: string)
    requires r == [] || r[0] !in Separators
    ensures LStripChars(", " + r, Separators) == r
  {
    assert (", " + r)[1..] == " " + r && (" " + r)[1..] == r;
    assert LStripChars(r, Separators) == r;
    assert LStripChars(" " + r, Separators) == r;
  }

  /** One round of the first loop over a text that opens with a canonical
      element followed by a comma or nothing. */
  lemma NextOfElem(e: Elem, tail: string)
    requires Canonical(e) && (tail == [] || tail[0] == ',')
    ensures var s := ElemText(e) + tail;
      Search(s, 0) == Some(Hit(0, |ElemText(e)|, ElemKind(e), tail != []))
      && Next(s) == Some((Piece(ElemText(e), ElemKind(e)),
                          if tail == [] then None else Some(LStripChars(tail, Separators))))
  {
    var t := ElemText(e);
    var s := t + tail;
    assert s[0..|t|] == t;
    assert s[|t|..] == tail;
    ElementAtText(s, 0, e);
  }

  /** One round of the first loop over a rendering. */
  lemma RenderNext(es: seq<Elem>)
    requires es != [] && forall i | 0 <= i < |es| :: Canonical(es[i])
    ensures Search(Render(es), 0) == Some(Hit(0, |ElemText(es[0])|, ElemKind(es[0]), |es| > 1))
    ensures |es| > 1 ==> LStripChars(Render(es)[|ElemText(es[0])|..], Separators) == Render(es[1..])
    ensures Next(Render(es)) == Some((Piece(ElemText(es[0]), ElemKind(es[0])),
                                      if |es| > 1 then Some(Render(es[1..])) else None))
  {
    RenderStep(es);
    if |es| > 1 {
      var r := Render(es[1..]);
      NextOfElem(es[0], ", " + r);
      assert Render(es)[|ElemText(es[0])|..] == ", " + r;
      RenderEnds(es[1..]);
      ElemTextEnds(es[1]);
      StripSeparator(r);
    } else {
      assert Render(es) == ElemText(es[0]) + [];
      NextOfElem(es[0], []);
    }
  }

  /** `Pieces` over a rendering, unfolded once. */
  lemma RenderPiecesStep(es: seq<Elem>)
    requires es != [] && forall i | 0 <= i < |es| :: Canonical(es[i])
    ensures Pieces(Render(es)) == [Piece(ElemText(es[0]), ElemKind(es[0]))]
      + (if |es| > 1 then Pieces(Render(es[1..])) else [])
  {
    RenderNext(es);
    PiecesStep(Render(es));
  }

  /** The first loop reads a rendering back element by element. */
  lemma {:induction false} PiecesOfRender(es: seq<Elem>)
    requires forall i | 0 <= i < |es| :: Canonical(es[i])
    ensures Pieces(Render(es)) == Expected(es)
  {
    if es == [] {
      assert Render(es) == [];
    } else {
      RenderPiecesStep(es);
      if |es| > 1 {
        PiecesOfRender(es[1..]);
      } else {
        assert es[1..] == [];
      }
    }
  }

  /** ... each element found at the start of what is left. */
  lemma {:induction false} RenderAligned(es: seq<Elem>)
    requires forall i | 0 <= i < |es| :: Canonical(es[i])
    ensures Aligned(Render(es))
  {
    if es == [] {
      assert Render(es) == [];
    } else {
      RenderNext(es);
      if |es| > 1 {
        RenderAligned(es[1..]);
      }
    }
  }

  lemma RenderStripped(es: seq<Elem>)
    ensures Strip(Render(es)) == Render(es)
  {
    if es != [] {
      RenderEnds(es);
      ElemTextEnds(es[0]);
      ElemTextEnds(es[|es| - 1]);
    } else {
      assert Render(es) == [];
    }
    StripClean(Render(es));
  }

  /** `parse_property` reads back what a rendering of canonical elements
      holds: the values of two or more elements as a list, the value of a
      single one, None for none. */
  lemma ParseRender(es: seq<Elem>)
    requires forall i | 0 <= i < |es| :: Canonical(es[i])
    ensures ParseValue(Render(es))
      == if |es| > 1 then VList(ElemValues(es)) else if |es| == 1 then ElemValue(es[0]) else VNone
  {
    RenderStripped(es);
    PiecesOfRender(es);
    RenderAligned(es);
    AsWrittenWhenAligned(Render(es));
    ParseValueDirect(Render(es));
    ExpectedParts(es);
    if |es| == 1 {
      assert Expected(es)[0] == Piece(ElemText(es[0]), ElemKind(es[0]));
      ElemPieceValue(es[0]);
    }
  }

  /** Text before a canonical element, none of it opening an element:
      `Search` finds the element after it. */
  lemma SearchAfter(t: string, p: nat, x: Elem)
    requires Canonical(x) && p + |ElemText(x)| <= |t| && t[p..p + |ElemText(x)|] == ElemText(x)
    requires p + |ElemText(x)| == |t| || t[p + |ElemText(x)|] == ','
    requires forall k | 0 <= k < p :: t[k] != '"' && t[k] != '<' && t[k] != '_'
    ensures Search(t, 0) == Some(Hit(p, p + |ElemText(x)|, ElemKind(x), p + |ElemText(x)| < |t|))
  {
    forall k | 0 <= k < p ensures ElementAt(t, k).None? {
      NoElementAt(t, k);
    }
    ElementAtText(t, p, x);
    SearchSkips(t, 0, p);
  }

  /** Two canonical elements rendered, one after the other. */
  lemma RenderTwo(x: Elem, y: Elem)
    ensures Render([x, y]) == ElemText(x) + ", " + ElemText(y)
  {
    RenderStep([x, y]);
    assert [x, y][1..] == [y];
    RenderStep([y]);
  }

  /** Two canonical elements read back by both versions of the first loop. */
  lemma TwoPieces(x: Elem, y: Elem)
    requires Canonical(x) && Canonical(y)
    ensures var u := ElemText(x) + ", " + ElemText(y);
      Pieces(u) == [Piece(ElemText(x), ElemKind(x)), Piece(ElemText(y), ElemKind(y))] && PiecesAsWritten(u) == Pieces(u)
  {
    RenderTwo(x, y);
    RenderAligned([x, y]);
    PiecesOfRender([x, y]);
    AsWrittenWhenAligned(Render([x, y]));
    assert [x, y][1..] == [y] && [y][1..] == [];
  }

  /** One canonical element read back. */
  lemma OnePiece(y: Elem)
    requires Canonical(y)
    ensures Pieces(ElemText(y)) == [Piece(ElemText(y), ElemKind(y))]
  {
    RenderStep([y]);
    PiecesOfRender([y]);
    assert [y][1..] == [];
  }

  /** The first round of the first loop over a text whose first element
      is a canonical `x` at `p`, followed by a comma and the text `r`. */
  lemma ElemFirstRound(t: string, p: nat, x: Elem, r: string)
    requires Canonical(x) && p + |ElemText(x)| < |t| && t[p..p + |ElemText(x)|] == ElemText(x)
    requires t[p + |ElemText(x)|..] == ", " + r && (r == [] || r[0] !in Separators)
    requires forall k | 0 <= k < p :: t[k] != '"' && t[k] != '<' && t[k] != '_'
    ensures Pieces(t) == [Piece(ElemText(x), ElemKind(x))] + Pieces(r)
  {
    var q := p + |ElemText(x)|;
    SearchAfter(t, p, x);
    FirstRound(t, p, q, ElemKind(x));
    StripSeparator(r);
  }

  /** ... and of the first loop as the source writes it, which goes on
      with the text `u` from the element's length on. */
  lemma ElemFirstRoundAsWritten(t: string, p: nat, x: Elem, u: string)
    requires Canonical(x) && p + |ElemText(x)| < |t| && t[p..p + |ElemText(x)|] == ElemText(x)
    requires t[p + |ElemText(x)|] == ','
    requires t[|ElemText(x)|..] == u && (u == [] || u[0] !in Separators)
    requires forall k | 0 <= k < p :: t[k] != '"' && t[k] != '<' && t[k] != '_'
    ensures PiecesAsWritten(t) == [Piece(ElemText(x), ElemKind(x))] + PiecesAsWritten(u)
  {
    var q := p + |ElemText(x)|;
    SearchAfter(t, p, x);
    FirstRoundAsWritten(t, p, q, ElemKind(x), u);
  }

  /** Where the two elements sit in a text that is some text as long as
      the first element, then the rendering of both. */
  lemma ShiftedShape(t: string, x: Elem, y: Elem)
    requires |ElemText(x)| <= |t| && t[|ElemText(x)|..] == ElemText(x) + ", " + ElemText(y)
    ensures var p := |ElemText(x)|; var q := p + |ElemText(x)|;
      q < |t| && t[p..q] == ElemText(x) && t[q..] == ", " + ElemText(y)
  {
    var tx := ElemText(x);
    var ty := ElemText(y);
    assert tx + ", " + ty == tx + (", " + ty);
    SuffixSplit(t, |tx|, tx, ", " + ty);
  }

  /** A suffix that is two texts, one after the other. */
  lemma SuffixSplit(t: string, p: nat, a: string, b: string)
    requires p <= |t| && t[p..] == a + b
    ensures p + |a| <= |t| && t[p..p + |a|] == a && t[p + |a|..] == b
  {
    assert t[p..p + |a|] == t[p..][..|a|];
    assert t[p + |a|..] == t[p..][|a|..];
  }

  /** With text before the first element, as long as the element, the
      corrected first loop reads both elements once each ... */
  lemma ShiftedPieces(t: string, x: Elem, y: Elem)
    requires Canonical(x) && Canonical(y)
    requires |ElemText(x)| <= |t| && t[|ElemText(x)|..] == ElemText(x) + ", " + ElemText(y)
    requires forall k | 0 <= k < |ElemText(x)| :: t[k] != '"' && t[k] != '<' && t[k] != '_'
    ensures Texts(Pieces(t)) == [ElemText(x), ElemText(y)]
  {
    var px := Piece(ElemText(x), ElemKind(x));
    var py := Piece(ElemText(y), ElemKind(y));
    assert Pieces(t) == [px, py] by {
      ShiftedShape(t, x, y);
      ElemTextEnds(y);
      ElemFirstRound(t, |ElemText(x)|, x, ElemText(y));
      OnePiece(y);
    }
    TextsTwo(px, py);
  }

  lemma TextsTwo(a: Piece, b: Piece)
    ensures Texts([a, b]) == [a.text, b.text]
  {
    assert [a, b][1..] == [b];
  }

  /** ... while the source's cut keeps the first element and reads it
      twice: `ab "x", "y"` gives the texts `"x"`, `"x"` and `"y"`. */
  lemma AsWrittenRepeats(t: string, x: Elem, y: Elem)
    requires Canonical(x) && Canonical(y)
    requires |ElemText(x)| <= |t| && t[|ElemText(x)|..] == ElemText(x) + ", " + ElemText(y)
    requires forall k | 0 <= k < |ElemText(x)| :: t[k] != '"' && t[k] != '<' && t[k] != '_'
    ensures Texts(PiecesAsWritten(t)) == [ElemText(x), ElemText(x), ElemText(y)]
  {
    var px := Piece(ElemText(x), ElemKind(x));
    var py := Piece(ElemText(y), ElemKind(y));
    var u := ElemText(x) + ", " + ElemText(y);
    assert PiecesAsWritten(u) == [px, py] by {
      TwoPieces(x, y);
    }
    assert PiecesAsWritten(t) == [px, px, py] by {
      ShiftedAsWritten(t, x, y);
      assert [px] + [px, py] == [px, px, py];
    }
    TextsThree(px, px, py);
  }

  /** The first round of the source's loop over such a text: the first
      element, and then the text from the element's length on, which
      holds the element again. */
  lemma ShiftedAsWritten(t: string, x: Elem, y: Elem)
    requires Canonical(x)
    requires |ElemText(x)| <= |t| && t[|ElemText(x)|..] == ElemText(x) + ", " + ElemText(y)
    requires forall k | 0 <= k < |ElemText(x)| :: t[k] != '"' && t[k] != '<' && t[k] != '_'
    ensures PiecesAsWritten(t) == [Piece(ElemText(x), ElemKind(x))] + PiecesAsWritten(ElemText(x) + ", " + ElemText(y))
  {
    var tx := ElemText(x);
    var u := tx + ", " + ElemText(y);
    ShiftedShape(t, x, y);
    assert t[|tx| + |tx|] == ',' by {
      assert t[|tx| + |tx|..][0] == ',';
    }
    assert u[0] !in Separators by {
      assert u[0] == tx[0];
      ElemTextEnds(x);
    }
    ElemFirstRoundAsWritten(t, |tx|, x, u);
  }

  lemma TextsThree(a: Piece, b: Piece, c: Piece)
    ensures Texts([a, b, c]) == [a.text, b.text, c.text]
  {
    assert [a, b, c][1..] == [b, c];
    TextsTwo(b, c);
  }
}
