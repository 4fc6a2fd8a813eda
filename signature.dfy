/** Splitting a node signature (`l1: l2: name@addr` or `&ref`) into its
    fields. The regular expressions of the two generations are written out as
    recognisers: at each start position the reference alternative is tried
    first, then the label/name alternative, exactly as the regex engine's
    leftmost search with greedy backtracking resolves them. */
module Signatures {
  import opened Wrappers
  import opened Text

  /** `sig_tuple` of the current generation: a list of labels. */
  datatype SigTuple = SigTuple(nodename: Option<string>, handles: seq<string>, ref: Option<string>, reg: Option<string>)

  /** `sig_tuple` of the legacy generation: one optional handle. */
  datatype LegacySig = LegacySig(nodename: Option<string>, handle: Option<string>, ref: Option<string>, reg: Option<string>)

  /** Node-name characters: `[\w\-/,]`, and without the comma in the legacy
      pattern. */
  predicate IsNameChar(c: char) { IsWord(c) || c == '-' || c == '/' || c == ',' }
  predicate IsLegacyNameChar(c: char) { IsWord(c) || c == '-' || c == '/' }

  /** The longest run of characters satisfying p starting at from. */
  function Run(s: string, from: nat, p: char -> bool): (r: string)
    requires from <= |s|
    ensures from + |r| <= |s| && r == s[from..from + |r|]
    ensures forall k | 0 <= k < |r| :: p(r[k])
    ensures from + |r| == |s| || !p(s[from + |r|])
  {
    s[from..from + SpanWhile(s, from, p)]
  }

  /** After the name, `.?` takes one character (not a newline); the address
      group then needs that character to be '@' and takes the following run
      of non-whitespace. */
  function RegAfter(s: string, e: nat): (r: Option<string>)
    requires e <= |s|
    ensures r.Some? <==> e < |s| && s[e] == '@'
  {
    if e < |s| && s[e] == '@' then Some(Run(s, e + 1, NotSpace)) else None
  }

  /** The reference alternative: a (possibly empty) word run right after '&'. */
  function RefAt(s: string, p: nat): (r: Option<string>)
    requires p <= |s|
    ensures r.Some? <==> p > 0 && s[p - 1] == '&'
  {
    if p > 0 && s[p - 1] == '&' then Some(Run(s, p, IsWord)) else None
  }

  /** Does `word:\s` occur at q? */
  predicate LabelAt(s: string, q: nat)
    requires q <= |s|
  {
    var w := SpanWhile(s, q, IsWord);
    q + w + 1 < |s| && s[q + w] == ':' && IsSpace(s[q + w + 1])
  }

  /** End positions of the greedy `(\w*:\s)*` repetitions starting at q. */
  function LabelEnds(s: string, q: nat): (r: seq<nat>)
    requires q <= |s|
    ensures forall k | 0 <= k < |r| :: q < r[k] <= |s|
    decreases |s| - q
  {
    if LabelAt(s, q) then
      var e := q + SpanWhile(s, q, IsWord) + 2;
      [e] + LabelEnds(s, e)
    else []
  }

  /** A node name may start at q: a name character not preceded by '@'. */
  predicate NameStart(s: string, q: nat, nameChar: char -> bool)
    requires q <= |s|
  {
    q < |s| && nameChar(s[q]) && (q == 0 || s[q - 1] != '@')
  }

  /** Backing off over the repetitions: the latest end where a name starts. */
  function LastStart(s: string, ends: seq<nat>, nameChar: char -> bool): (r: Option<nat>)
    requires forall k | 0 <= k < |ends| :: ends[k] <= |s|
    ensures r.Some? ==> r.value in ends && NameStart(s, r.value, nameChar)
    ensures |ends| > 0 && NameStart(s, ends[|ends| - 1], nameChar) ==> r == Some(ends[|ends| - 1])
    ensures r.None? ==> forall k | 0 <= k < |ends| :: !NameStart(s, ends[k], nameChar)
  {
    if ends == [] then None
    else if NameStart(s, ends[|ends| - 1], nameChar) then Some(ends[|ends| - 1])
    else LastStart(s, ends[..|ends| - 1], nameChar)
  }

  /** The current pattern tried at position p. */
  function MatchAt(s: string, p: nat): (r: Option<SigTuple>)
    requires p <= |s|
  {
    match RefAt(s, p)
    case Some(ref) => Some(SigTuple(None, [], Some(ref), None))
    case None =>
      var ends := [p] + LabelEnds(s, p);
      match LastStart(s, ends, IsNameChar)
      case None => None
      case Some(q) =>
        assert p <= q;
        Some(SigAt(s, p, q))
  }

  /** The fields read when the labels span s[p..q] and the name starts at q. */
  function SigAt(s: string, p: nat, q: nat): (r: SigTuple)
    requires p <= q <= |s|
    ensures r.nodename.Some? && r.ref.None?
  {
    var name := Run(s, q, IsNameChar);
    var labels := Split(s[p..q], ": ");
    SigTuple(Some(name), labels[..|labels| - 1], None, RegAfter(s, q + |name|))
  }

  /** `sig_match.search`: the first position where the pattern matches. */
  function Search(s: string, p: nat): (r: Option<SigTuple>)
    requires p <= |s|
    decreases |s| - p
  {
    match MatchAt(s, p)
    case Some(t) => Some(t)
    case None => if p == |s| then None else Search(s, p + 1)
  }

  /** `make_sig_tuple`: ValueError when nothing matches. */
  function MakeSigTuple(s: string): (r: Result<SigTuple>)
    ensures r.Err? ==> r.error == ValueError
  {
    match Search(s, 0)
    case None => Err(ValueError)
    case Some(t) => Ok(t)
  }

  // ----- the legacy pattern -----

  /** The name read at q, with the address after it. */
  function LegacyNamed(s: string, q: nat, handle: Option<string>): (r: LegacySig)
    requires q <= |s|
    ensures r.handle == handle && r.ref.None? && r.nodename.Some?
  {
    var name := Run(s, q, IsLegacyNameChar);
    LegacySig(Some(name), handle, None, RegAfter(s, q + |name|))
  }

  /** Where a name may start after a handle (a word run and ':') at p and
      the whitespace that follows it. */
  function AfterHandle(s: string, p: nat): (r: Option<nat>)
    requires p <= |s|
    ensures r.Some? ==> p + SpanWhile(s, p, IsWord) < r.value <= |s|
  {
    var w := SpanWhile(s, p, IsWord);
    if p + w < |s| && s[p + w] == ':' then Some(p + w + 1 + SpanWhile(s, p + w + 1, IsSpace)) else None
  }

  /** The legacy pattern tried at position p: an optional handle (a word run
      followed by ':'), an optional ':' with trailing whitespace, then the
      name. When no name follows the handle the engine backs off and reads
      the handle's word run as the name. */
  function LegacyMatchAt(s: string, p: nat): (r: Option<LegacySig>)
    requires p <= |s|
  {
    match RefAt(s, p)
    case Some(ref) => Some(LegacySig(None, None, Some(ref), None))
    case None =>
      var after := AfterHandle(s, p);
      if after.Some? && after.value < |s| && IsLegacyNameChar(s[after.value]) then
        Some(LegacyNamed(s, after.value, Some(s[p..p + SpanWhile(s, p, IsWord)])))
      else if NameStart(s, p, IsLegacyNameChar) then Some(LegacyNamed(s, p, None))
      else None
  }

  function LegacySearch(s: string, p: nat): (r: Option<LegacySig>)
    requires p <= |s|
    decreases |s| - p
  {
    match LegacyMatchAt(s, p)
    case Some(t) => Some(t)
    case None => if p == |s| then None else LegacySearch(s, p + 1)
  }

  /** The legacy `make_sig_tuple`. */
  function LegacyMakeSigTuple(s: string): (r: Result<LegacySig>)
    ensures r.Err? ==> r.error == ValueError
  {
    match LegacySearch(s, 0)
    case None => Err(ValueError)
    case Some(t) => Ok(t)
  }

  // ----- rendering and round trips -----

  predicate AllWord(s: string) { forall k | 0 <= k < |s| :: IsWord(s[k]) }
  predicate AllNameChars(s: string) { forall k | 0 <= k < |s| :: IsNameChar(s[k]) }
  predicate AllLegacyNameChars(s: string) { forall k | 0 <= k < |s| :: IsLegacyNameChar(s[k]) }
  predicate NoSpace(s: string) { forall k | 0 <= k < |s| :: !IsSpace(s[k]) }

  /** The text of a unit address part: '@' and the address, or nothing. */
  function AtPart(reg: Option<string>): string {
    match reg
    case None => ""
    case Some(r) => "@" + r
  }

  /** `l1: l2: name@addr`, the signature text of a labelled node. */
  function RenderSig(labels: seq<string>, name: string, reg: Option<string>): string {
    JoinTerminated(labels, ": ") + name + AtPart(reg)
  }

  /** A reference parses to its name with no other field. */
  lemma ParseRef(w: string)
    requires AllWord(w)
    ensures MakeSigTuple("&" + w) == Ok(SigTuple(None, [], Some(w), None))
  {
    var s := "&" + w;
    assert SpanWhile(s, 0, IsWord) == 0;
    assert LabelEnds(s, 0) == [];
    assert !NameStart(s, 0, IsNameChar);
    assert MatchAt(s, 0).None?;
    assert s[1..] == w;
    assert Run(s, 1, IsWord) == w;
    assert MatchAt(s, 1) == Some(SigTuple(None, [], Some(w), None));
    assert Search(s, 1) == Some(SigTuple(None, [], Some(w), None));
  }

  /** A run that ends where p first fails has exactly the length of t. */
  lemma {:induction false} SpanExact(s: string, from: nat, t: string, p: char -> bool)
    requires from + |t| <= |s| && s[from..from + |t|] == t
    requires forall k | 0 <= k < |t| :: p(t[k])
    requires from + |t| == |s| || !p(s[from + |t|])
    ensures SpanWhile(s, from, p) == |t|
    decreases |t|
  {
    if t != [] {
      assert s[from] == t[0];
      assert s[from + 1..from + 1 + |t[1..]|] == t[1..];
      SpanExact(s, from + 1, t[1..], p);
    }
  }

  /** A name that fills s from e up to an optional `@address` is read whole,
      and the address after it. */
  lemma NameAndRegAt(s: string, e: nat, name: string, reg: Option<string>, nameChar: char -> bool)
    requires e + |name| <= |s| && s[e..e + |name|] == name && s[e + |name|..] == AtPart(reg)
    requires forall k | 0 <= k < |name| :: nameChar(name[k])
    requires !nameChar('@')
    requires reg.Some? ==> NoSpace(reg.value)
    ensures Run(s, e, nameChar) == name
    ensures RegAfter(s, e + |name|) == reg
  {
    var a := e + |name|;
    if reg.Some? {
      assert s[a] == s[a..][0];
      SpanExact(s, e, name, nameChar);
      RegTail(s, a, reg.value);
    } else {
      assert |s[a..]| == 0;
      SpanExact(s, e, name, nameChar);
    }
  }

  lemma RegTail(s: string, a: nat, r: string)
    requires a <= |s| && s[a..] == "@" + r && NoSpace(r)
    ensures RegAfter(s, a) == Some(r)
  {
    assert s[a + 1..] == r;
    assert s[a + 1..a + 1 + |r|] == r;
    assert forall k | 0 <= k < |r| :: NotSpace(r[k]);
    SpanExact(s, a + 1, r, NotSpace);
  }

  /** The text after the labels starts no further label repetition. */
  lemma NoLabelAfter(s: string, e: nat, name: string, reg: Option<string>)
    requires e <= |s| && s[e..] == name + AtPart(reg) && AllNameChars(name)
    ensures !LabelAt(s, e)
  {
    var w := SpanWhile(s, e, IsWord);
    assert forall k | 0 <= k < |name| :: s[e + k] == name[k];
    assert e + |name| < |s| ==> s[e + |name|] == '@';
    assert w <= |name|;
    assert e + w < |s| ==> s[e + w] != ':' by {
      if e + w < |s| && w < |name| { assert s[e + w] == name[w]; }
    }
  }

  /** Over a run of labels each followed by ": ", the repetitions end exactly
      where the labels do. */
  lemma {:induction false} LabelEndsOfLabels(s: string, q: nat, labels: seq<string>, e: nat)
    requires q <= e <= |s| && s[q..e] == JoinTerminated(labels, ": ")
    requires forall l | l in labels :: AllWord(l)
    requires !LabelAt(s, e)
    ensures ([q] + LabelEnds(s, q))[|LabelEnds(s, q)|] == e
    decreases labels
  {
    if labels == [] {
      assert q == e;
    } else {
      var l := labels[0];
      var q' := q + |l| + 2;
      assert labels[0] in labels;
      LabelStep(s, q, q', e, l, JoinTerminated(labels[1..], ": "));
      LabelEndsOfLabels(s, q', labels[1..], e);
    }
  }

  /** One label `l: ` at q is one repetition, ending at q'. */
  lemma LabelStep(s: string, q: nat, q': nat, e: nat, l: string, rest: string)
    requires q <= e <= |s| && s[q..e] == l + ": " + rest && AllWord(l) && q' == q + |l| + 2
    ensures q' <= e && s[q'..e] == rest
    ensures LabelEnds(s, q) == [q'] + LabelEnds(s, q')
  {
    LabelText(s, q, q', e, l, rest);
    LabelAtStep(s, q, q', l);
  }

  /** The characters of `l: rest` at q. */
  lemma LabelText(s: string, q: nat, q': nat, e: nat, l: string, rest: string)
    requires q <= e <= |s| && s[q..e] == l + ": " + rest && q' == q + |l| + 2
    ensures q' <= e && s[q..q + |l|] == l && s[q + |l|] == ':' && s[q + |l| + 1] == ' '
    ensures s[q'..e] == rest
  {
    var t := s[q..e];
    assert t == (l + ": ") + rest;
    assert t[0..|l|] == l && t[|l|] == ':' && t[|l| + 1] == ' ';
    assert s[q..q + |l|] == t[0..|l|];
    assert s[q + |l|] == t[|l|] && s[q + |l| + 1] == t[|l| + 1];
    assert s[q'..e] == t[|l| + 2..];
  }

  /** A word run followed by ": " at q is one repetition, ending at q'. */
  lemma LabelAtStep(s: string, q: nat, q': nat, l: string)
    requires q' == q + |l| + 2 <= |s| && AllWord(l)
    requires s[q..q + |l|] == l && s[q + |l|] == ':' && s[q + |l| + 1] == ' '
    ensures LabelEnds(s, q) == [q'] + LabelEnds(s, q')
  {
    SpanExact(s, q, l, IsWord);
    assert LabelAt(s, q);
  }

  /** Words contain no ':'. */
  lemma WordsNoColon(labels: seq<string>)
    requires forall l | l in labels :: AllWord(l)
    ensures forall l | l in labels :: ':' !in l
  {
    forall l | l in labels ensures ':' !in l {
      assert AllWord(l);
      assert forall k | 0 <= k < |l| :: l[k] != ':';
    }
  }

  /** A non-empty ": "-terminated join ends with a space. */
  lemma JoinTerminatedEnds(labels: seq<string>)
    requires labels != []
    ensures EndsWith(JoinTerminated(labels, ": "), " ")
  {
    JoinPlusSep(labels, ": ");
  }

  /** After the labels of a rendered signature, the name starts. */
  lemma LabelsThenName(s: string, labels: seq<string>, name: string, reg: Option<string>)
    requires forall l | l in labels :: AllWord(l)
    requires |name| > 0 && AllNameChars(name)
    requires s == RenderSig(labels, name, reg)
    ensures LastStart(s, [0] + LabelEnds(s, 0), IsNameChar) == Some(|JoinTerminated(labels, ": ")|)
  {
    var e := |JoinTerminated(labels, ": ")|;
    RenderedPieces(labels, name, reg);
    LabelsEnd(s, labels, name, reg, e);
    NameAfterLabels(s, labels, name, e);
  }

  /** The label repetitions of a rendered signature end where its labels do. */
  lemma LabelsEnd(s: string, labels: seq<string>, name: string, reg: Option<string>, e: nat)
    requires forall l | l in labels :: AllWord(l)
    requires AllNameChars(name)
    requires e <= |s| && s[0..e] == JoinTerminated(labels, ": ") && s[e..] == name + AtPart(reg)
    ensures ([0] + LabelEnds(s, 0))[|LabelEnds(s, 0)|] == e
  {
    NoLabelAfter(s, e, name, reg);
    LabelEndsOfLabels(s, 0, labels, e);
  }

  /** A name starts right after the labels of a rendered signature. */
  lemma NameAfterLabels(s: string, labels: seq<string>, name: string, e: nat)
    requires |name| > 0 && AllNameChars(name)
    requires e + |name| <= |s| && s[0..e] == JoinTerminated(labels, ": ") && s[e..e + |name|] == name
    ensures NameStart(s, e, IsNameChar)
  {
    assert s[e] == name[0];
    if labels != [] {
      JoinTerminatedEnds(labels);
      assert s[e - 1] == s[0..e][e - 1];
    }
  }

  /** Parsing a canonical labelled signature recovers its labels, name and
      address. */
  lemma ParseRendered(labels: seq<string>, name: string, reg: Option<string>)
    requires forall l | l in labels :: AllWord(l)
    requires |name| > 0 && AllNameChars(name)
    requires reg.Some? ==> NoSpace(reg.value)
    ensures MakeSigTuple(RenderSig(labels, name, reg)) == Ok(SigTuple(Some(name), labels, None, reg))
  {
    var s := RenderSig(labels, name, reg);
    var jt := JoinTerminated(labels, ": ");
    var e := |jt|;
    LabelsThenName(s, labels, name, reg);
    RenderedPieces(labels, name, reg);
    NameAndRegAt(s, e, name, reg, IsNameChar);
    LabelsSplit(labels);
    MatchAtFromPieces(s, e, labels, name, reg);
  }

  lemma RenderedPieces(labels: seq<string>, name: string, reg: Option<string>)
    ensures var s := RenderSig(labels, name, reg); var e := |JoinTerminated(labels, ": ")|;
      e + |name| <= |s| && s[0..e] == JoinTerminated(labels, ": ")
      && s[e..e + |name|] == name && s[e + |name|..] == AtPart(reg)
  {
  }

  lemma MatchAtFromPieces(s: string, e: nat, labels: seq<string>, name: string, reg: Option<string>)
    requires e + |name| <= |s|
    requires LastStart(s, [0] + LabelEnds(s, 0), IsNameChar) == Some(e)
    requires Run(s, e, IsNameChar) == name && RegAfter(s, e + |name|) == reg
    requires var parts := Split(s[0..e], ": "); |parts| > 0 && parts[..|parts| - 1] == labels
    ensures MakeSigTuple(s) == Ok(SigTuple(Some(name), labels, None, reg))
  {
    assert RefAt(s, 0).None?;
    SigAtIs(s, e, name, e + |name|, labels, reg);
    assert MatchAt(s, 0) == Some(SigAt(s, 0, e));
  }

  lemma SigAtIs(s: string, e: nat, name: string, end: nat, labels: seq<string>, reg: Option<string>)
    requires end == e + |name| && end <= |s|
    requires Run(s, e, IsNameChar) == name && RegAfter(s, end) == reg
    requires var parts := Split(s[0..e], ": "); |parts| > 0 && parts[..|parts| - 1] == labels
    ensures SigAt(s, 0, e) == SigTuple(Some(name), labels, None, reg)
  {
  }

  /** Splitting the label text at ": " and dropping the empty remainder gives
      the labels. */
  lemma LabelsSplit(labels: seq<string>)
    requires forall l | l in labels :: AllWord(l)
    ensures var parts := Split(JoinTerminated(labels, ": "), ": "); |parts| > 0 && parts[..|parts| - 1] == labels
  {
    WordsNoColon(labels);
    SplitJoinTerminated(labels);
  }

  /** `handle: name@addr` in the legacy generation. */
  function RenderLegacySig(handle: Option<string>, name: string, reg: Option<string>): string {
    (match handle case None => "" case Some(h) => h + ": ") + name + AtPart(reg)
  }

  lemma LegacyParseRef(w: string)
    requires AllWord(w)
    ensures LegacyMakeSigTuple("&" + w) == Ok(LegacySig(None, None, Some(w), None))
  {
    var s := "&" + w;
    assert SpanWhile(s, 0, IsWord) == 0;
    assert !NameStart(s, 0, IsLegacyNameChar);
    assert LegacyMatchAt(s, 0).None?;
    assert s[1..] == w;
    assert Run(s, 1, IsWord) == w;
    assert LegacyMatchAt(s, 1) == Some(LegacySig(None, None, Some(w), None));
    assert LegacySearch(s, 1) == Some(LegacySig(None, None, Some(w), None));
  }

  /** Parsing a canonical legacy signature recovers handle, name and
      address. */
  lemma LegacyParseRendered(handle: Option<string>, name: string, reg: Option<string>)
    requires handle.Some? ==> AllWord(handle.value)
    requires |name| > 0 && AllLegacyNameChars(name)
    requires reg.Some? ==> NoSpace(reg.value)
    ensures LegacyMakeSigTuple(RenderLegacySig(handle, name, reg)) == Ok(LegacySig(Some(name), handle, None, reg))
  {
    var s := RenderLegacySig(handle, name, reg);
    match handle
    case Some(h) => LegacyRenderedWithHandle(s, h, name, reg);
    case None => LegacyRenderedWithoutHandle(s, name, reg);
  }

  lemma LegacyRenderedWithHandle(s: string, h: string, name: string, reg: Option<string>)
    requires AllWord(h) && |name| > 0 && AllLegacyNameChars(name)
    requires reg.Some? ==> NoSpace(reg.value)
    requires s == h + ": " + name + AtPart(reg)
    ensures LegacyMakeSigTuple(s) == Ok(LegacySig(Some(name), Some(h), None, reg))
  {
    var q := |h| + 2;
    var pre := h + ": ";
    assert s == pre + (name + AtPart(reg)) && |pre| == q;
    assert s[q..] == name + AtPart(reg);
    assert s[q..q + |name|] == name;
    assert s[q + |name|..] == AtPart(reg);
    NameAndRegAt(s, q, name, reg, IsLegacyNameChar);
    LegacyHandleThenName(s, h, name, reg);
    LegacyMatchWithHandle(s, h, q, name, reg);
  }

  lemma LegacyRenderedWithoutHandle(s: string, name: string, reg: Option<string>)
    requires |name| > 0 && AllLegacyNameChars(name)
    requires reg.Some? ==> NoSpace(reg.value)
    requires s == name + AtPart(reg)
    ensures LegacyMakeSigTuple(s) == Ok(LegacySig(Some(name), None, None, reg))
  {
    assert s[0..|name|] == name && s[|name|..] == AtPart(reg);
    NameAndRegAt(s, 0, name, reg, IsLegacyNameChar);
    assert s[0..] == s;
    NoLabelAfter(s, 0, name, reg);
    var w := SpanWhile(s, 0, IsWord);
    assert w < |s| ==> s[w] != ':' by {
      assert forall k | 0 <= k < |name| :: s[k] == name[k];
      assert |name| < |s| ==> s[|name|] == '@';
      assert w <= |name|;
    }
    LegacyMatchWithoutHandle(s, name, reg);
  }

  lemma LegacyMatchWithHandle(s: string, h: string, q: nat, name: string, reg: Option<string>)
    requires q == |h| + 2 && q + |name| <= |s| && |name| > 0
    requires IsLegacyNameChar(name[0]) && s[q] == name[0]
    requires SpanWhile(s, 0, IsWord) == |h| && s[|h|] == ':' && s[0..|h|] == h
    requires |h| + 1 + SpanWhile(s, |h| + 1, IsSpace) == q
    requires Run(s, q, IsLegacyNameChar) == name && RegAfter(s, q + |name|) == reg
    ensures LegacyMakeSigTuple(s) == Ok(LegacySig(Some(name), Some(h), None, reg))
  {
    assert RefAt(s, 0).None?;
    AfterHandleAt(s, |h|, q);
    LegacyNamedAt(s, q, name, q + |name|, reg, Some(h));
    assert LegacyMatchAt(s, 0) == Some(LegacyNamed(s, q, Some(h)));
  }

  /** A handle of length w at the start, then whitespace up to q. */
  lemma AfterHandleAt(s: string, w: nat, q: nat)
    requires w < |s| && SpanWhile(s, 0, IsWord) == w && s[w] == ':'
    requires w + 1 + SpanWhile(s, w + 1, IsSpace) == q
    ensures AfterHandle(s, 0) == Some(q)
  {
  }

  /** The name and address read at q. */
  lemma LegacyNamedAt(s: string, q: nat, name: string, end: nat, reg: Option<string>, handle: Option<string>)
    requires end == q + |name| && end <= |s|
    requires Run(s, q, IsLegacyNameChar) == name && RegAfter(s, end) == reg
    ensures LegacyNamed(s, q, handle) == LegacySig(Some(name), handle, None, reg)
  {
  }

  lemma LegacyMatchWithoutHandle(s: string, name: string, reg: Option<string>)
    requires |name| <= |s| && |name| > 0 && IsLegacyNameChar(name[0]) && s[0] == name[0]
    requires !LabelAt(s, 0)
    requires var w := SpanWhile(s, 0, IsWord); w < |s| ==> s[w] != ':'
    requires Run(s, 0, IsLegacyNameChar) == name && RegAfter(s, |name|) == reg
    ensures LegacyMakeSigTuple(s) == Ok(LegacySig(Some(name), None, None, reg))
  {
    assert RefAt(s, 0).None?;
    assert NameStart(s, 0, IsLegacyNameChar);
    assert AfterHandle(s, 0).None?;
    LegacyNamedAt(s, 0, name, |name|, reg, None);
    assert LegacyMatchAt(s, 0) == Some(LegacyNamed(s, 0, None));
  }

  /** With a handle, the legacy pattern takes the word run before ':' as the
      handle and the name after the whitespace. */
  lemma LegacyHandleThenName(s: string, h: string, name: string, reg: Option<string>)
    requires AllWord(h) && |name| > 0 && AllLegacyNameChars(name)
    requires s == h + ": " + name + AtPart(reg)
    ensures SpanWhile(s, 0, IsWord) == |h| && s[|h|] == ':'
    ensures |h| + 1 + SpanWhile(s, |h| + 1, IsSpace) == |h| + 2
    ensures s[0..|h|] == h && s[|h| + 2] == name[0]
  {
    var rest := name + AtPart(reg);
    assert s == (h + ": ") + rest;
    HandleChars(s, h, rest);
    assert rest[0] == name[0];
    HandleSpans(s, h, name[0]);
  }

  /** The characters around a handle at the start of `h: rest`. */
  lemma HandleChars(s: string, h: string, rest: string)
    requires s == (h + ": ") + rest && |rest| > 0
    ensures |h| + 2 < |s| && s[0..|h|] == h && s[|h|] == ':' && s[|h| + 1] == ' ' && s[|h| + 2] == rest[0]
  {
    assert s[0..|h|] == (h + ": ")[0..|h|];
  }

  /** The runs the legacy pattern reads over a handle, its ':' and one space. */
  lemma HandleSpans(s: string, h: string, c: char)
    requires AllWord(h) && IsLegacyNameChar(c)
    requires |h| + 2 < |s| && s[0..|h|] == h && s[|h|] == ':' && s[|h| + 1] == ' ' && s[|h| + 2] == c
    ensures SpanWhile(s, 0, IsWord) == |h|
    ensures |h| + 1 + SpanWhile(s, |h| + 1, IsSpace) == |h| + 2
  {
    SpanExact(s, 0, h, IsWord);
    assert s[|h| + 1..|h| + 2] == " ";
    SpanExact(s, |h| + 1, " ", IsSpace);
  }
}
