/** The brace-nesting extractor of the importer: `node_match` finds a node
    opener `sig {` or a closer `};` on a line, and `collect_subnodes` turns
    the lines of a node body into a block of its own lines and its child
    blocks, keyed by signature text. The current scanner strips each line and
    merges a repeated child signature into the earlier one; the legacy scanner
    keeps lines as they are and lets a repeated signature overwrite. */
module Scanner {
  import opened Wrappers
  import opened Text
  import opened ODicts
  import opened Properties
  import Comments

  // ----- node_match -----

  /** The signature class `[\w\-_: \t@,]`. */
  predicate IsSigChar(c: char) {
    IsWord(c) || c == '-' || c == ':' || c == ' ' || c == '\t' || c == '@' || c == ','
  }

  /** What `node_match.search` finds on a line: a node opener, with the
      signature text and what follows the `{` up to a vertical tab, or the
      closer `};`. */
  datatype NodeHit = Opens(sig: string, extra: string) | Closes

  /** A line with no brace. */
  predicate NoBraces(s: string) {
    forall k | 0 <= k < |s| :: s[k] != '{' && s[k] != '}'
  }

  /** A line with no closing brace. */
  predicate NoCloser(s: string) {
    forall k | 0 <= k < |s| :: s[k] != '}'
  }

  /** The opener alternative `(?P<sig>[&/]?[sig class]*)[^&]{` tried at p:
      the end of the signature and the end of the match. The signature run is
      greedy, so it either stops right before a character other than `&`
      that precedes `{`, or gives back its last character when the run itself
      stops at `{`; when neither works with a leading `&` or `/`, the match is
      retried without it, which only succeeds for `/{`. The legacy pattern
      refuses a signature that starts with whitespace. */
  function OpenerMatch(d: Dialect, s: string, p: nat): (r: Option<(nat, nat)>)
    requires p <= |s|
    ensures r.Some? ==> p <= r.value.0 < r.value.1 <= |s| && s[r.value.1 - 1] == '{'
  {
    if d == Legacy && p < |s| && IsSpace(s[p]) then None
    else
      var prefixed := p < |s| && (s[p] == '&' || s[p] == '/');
      var start := if prefixed then p + 1 else p;
      var q := start + SpanWhile(s, start, IsSigChar);
      if q + 1 < |s| && s[q] != '&' && s[q + 1] == '{' then Some((q, q + 2))
      else if start < q < |s| && s[q] == '{' then Some((q - 1, q + 1))
      else if prefixed && s[p] == '/' && p + 1 < |s| && s[p + 1] == '{' then Some((p, p + 2))
      else None
  }

  /** The closer alternative `};` at p. */
  predicate CloserAt(s: string, p: nat) {
    p + 1 < |s| && s[p] == '}' && s[p + 1] == ';'
  }

  /** A slice has no brace that the whole line does not have. */
  lemma SliceKeeps(s: string, i: nat, j: nat)
    requires i <= j <= |s|
    ensures NoCloser(s) ==> NoCloser(s[i..j])
    ensures NoBraces(s) ==> NoBraces(s[i..j])
  {
    assert forall k | 0 <= k < j - i :: s[i..j][k] == s[i + k];
  }

  /** The leftmost position from p on where either alternative matches. */
  function NodeMatchFrom(d: Dialect, s: string, p: nat): (r: Option<NodeHit>)
    requires p <= |s|
    ensures r.Some? && r.value.Opens? ==> |r.value.extra| < |s| && (NoCloser(s) ==> NoCloser(r.value.extra))
    decreases |s| - p
  {
    match OpenerMatch(d, s, p)
    case Some((j, e)) =>
      var n := SpanWhile(s, e, Comments.NotVTab);
      SliceKeeps(s, e, e + n);
      Some(Opens(s[p..j], s[e..e + n]))
    case None =>
      if CloserAt(s, p) then Some(Closes)
      else if p == |s| then None
      else NodeMatchFrom(d, s, p + 1)
  }

  /** `node_match.search(line)`. */
  function NodeMatch(d: Dialect, s: string): (r: Option<NodeHit>)
    ensures r.Some? && r.value.Opens? ==> |r.value.extra| < |s| && (NoCloser(s) ==> NoCloser(r.value.extra))
  {
    NodeMatchFrom(d, s, 0)
  }

  // ----- blocks -----

  /** `{'self': lines, 'subnodes': {sig: block, ...}}`: a node body's own
      lines and its child bodies in first-seen order. */
  datatype Block = Block(lines: seq<string>, subnodes: seq<(string, Block)>)

  const Empty: Block := Block([], [])

  /** `merge_dict` on two blocks: the own lines are concatenated, children
      with the same signature merge recursively, and the second block's new
      children follow the first block's. */
  function MergeBlock(a: Block, b: Block): (r: Block)
    decreases a, |a.subnodes| + 1
  {
    Block(a.lines + b.lines, MergeSubsFrom(a, 0, b.subnodes) + Fresh(a.subnodes, b.subnodes))
  }

  /** The first block's children from position i on, each merged with the
      second block's child of the same signature when there is one. */
  function MergeSubsFrom(a: Block, i: nat, y: seq<(string, Block)>): (r: seq<(string, Block)>)
    requires i <= |a.subnodes|
    ensures |r| == |a.subnodes| - i
    ensures forall k | 0 <= k < |r| :: r[k].0 == a.subnodes[i + k].0
    decreases a, |a.subnodes| - i
  {
    if i == |a.subnodes| then []
    else
      var e := a.subnodes[i];
      assert e in a.subnodes;
      [(e.0, if Has(y, e.0) then MergeBlock(e.1, Get(y, e.0)) else e.1)] + MergeSubsFrom(a, i + 1, y)
  }

  /** The entries of y whose key x does not have, in order. */
  function Fresh<V>(x: seq<(string, V)>, y: seq<(string, V)>): (r: seq<(string, V)>)
    ensures forall k | 0 <= k < |r| :: !Has(x, r[k].0)
  {
    if y == [] then []
    else (if Has(x, y[0].0) then [] else [y[0]]) + Fresh(x, y[1..])
  }

  /** Storing a child block under its signature: the current scanner merges
      it into an earlier block of the same signature (`merge_dict` with the
      stored block, or with `{}` when there is none); the legacy scanner
      overwrites. */
  function Record(d: Dialect, subs: seq<(string, Block)>, sig: string, b: Block): (r: seq<(string, Block)>)
    ensures Has(r, sig)
  {
    var v := if d == Current && Has(subs, sig) then MergeBlock(Get(subs, sig), b) else b;
    var r := Put(subs, sig, v);
    assert if Has(subs, sig) then r[IndexOf(subs, sig)].0 == sig else r[|subs|].0 == sig;
    r
  }

  /** A repeated signature: the current scanner keeps one entry holding
      the merge of both blocks, the legacy one keeps only the later block;
      the other signatures keep their blocks. */
  lemma RecordSpec(d: Dialect, subs: seq<(string, Block)>, sig: string, b: Block)
    requires UniqueKeys(subs)
    ensures var r := Record(d, subs, sig, b);
      && UniqueKeys(r) && Has(r, sig)
      && Get(r, sig) == (if d == Current && Has(subs, sig) then MergeBlock(Get(subs, sig), b) else b)
      && (forall k | k != sig :: Has(r, k) == Has(subs, k))
      && (forall k | k != sig && Has(subs, k) :: Get(r, k) == Get(subs, k))
      && (Has(subs, sig) ==> Keys(r) == Keys(subs))
  {
    var v := if d == Current && Has(subs, sig) then MergeBlock(Get(subs, sig), b) else b;
    PutUnique(subs, sig, v);
  }

  // ----- collect_subnodes -----

  /** Total length of the lines, each counted with one extra character. */
  function Weight(data: seq<string>): nat {
    if data == [] then 0 else |data[0]| + 1 + Weight(data[1..])
  }

  /** The line the scanner looks at: stripped by the current scanner. */
  function ScanLine(d: Dialect, s: string): (r: string)
    ensures |r| <= |s|
    ensures NoCloser(s) ==> NoCloser(r)
    ensures NoBraces(s) ==> NoBraces(r)
  {
    if d == Current then
      StripKeeps(s);
      Strip(s)
    else s
  }

  lemma StripKeeps(s: string)
    ensures |Strip(s)| <= |s|
    ensures NoCloser(s) ==> NoCloser(Strip(s))
    ensures NoBraces(s) ==> NoBraces(Strip(s))
  {
    var l := LStrip(s);
    var r := RStrip(l);
    LStripSuffix(s);
    RStripPrefix(l);
    assert r == s[|s| - |l|..][..|r|];
    assert r == s[|s| - |l|..|s| - |l| + |r|];
    SliceKeeps(s, |s| - |l|, |s| - |l| + |r|);
  }

  /** The lines a child body is collected from: the text after `{` first when
      it is not blank. */
  function Reopened(extra: string, rest: seq<string>): (r: seq<string>)
    ensures Weight(r) <= |extra| + 1 + Weight(rest)
  {
    if Strip(extra) != [] then
      assert ([extra] + rest)[1..] == rest;
      [extra] + rest
    else rest
  }

  /** `collect_subnodes(data)` continued with the lines and children
      gathered so far in acc: the lines after the closing `};` and the
      finished block. Without a closer, the current scanner returns no lines;
      the legacy one falls off the end of the function, and its `None` makes
      the caller's tuple unpacking raise TypeError. */
  function Collect(d: Dialect, data: seq<string>, acc: Block): (r: Result<(seq<string>, Block)>)
    ensures r.Ok? ==> Weight(r.value.0) <= Weight(data)
    decreases Weight(data)
  {
    if data == [] then (if d == Current then Ok(([], acc)) else Err(TypeError))
    else
      var line := ScanLine(d, data[0]);
      match NodeMatch(d, line)
      case None => Collect(d, data[1..], Block(acc.lines + [line], acc.subnodes))
      case Some(Closes) => Ok((data[1..], acc))
      case Some(Opens(sig, extra)) =>
        var input := Reopened(extra, data[1..]);
        match Collect(d, input, Empty)
        case Err(e) => Err(e)
        case Ok((rest, sub)) => Collect(d, rest, Block(acc.lines, Record(d, acc.subnodes, sig, sub)))
  }

  lemma {:induction false} WeightSplit(data: seq<string>, i: nat)
    requires i < |data|
    ensures Weight(data[i..]) == |data[i]| + 1 + Weight(data[i + 1..])
  {
    assert data[i..][1..] == data[i + 1..];
  }

  /** One step of the scan at line i: what `collect_subnodes` computes from
      data[i..] is what the rest of the scan computes after that line. */
  lemma {:induction false} CollectAt(d: Dialect, data: seq<string>, i: nat, acc: Block)
    requires i < |data|
    ensures Collect(d, data[i..], acc) ==
      var line := ScanLine(d, data[i]);
      match NodeMatch(d, line)
      case None => Collect(d, data[i + 1..], Block(acc.lines + [line], acc.subnodes))
      case Some(Closes) => Ok((data[i + 1..], acc))
      case Some(Opens(sig, extra)) =>
        match Collect(d, Reopened(extra, data[i + 1..]), Empty)
        case Err(e) => Err(e)
        case Ok((rest, sub)) => Collect(d, rest, Block(acc.lines, Record(d, acc.subnodes, sig, sub)))
  {
    assert data[i..][0] == data[i];
    assert data[i..][1..] == data[i + 1..];
  }

  /** Where the child body is collected from after the opener on line i:
      the line itself rewritten to the text after `{`, or the next line. */
  lemma ReopenedAt(data: seq<string>, i: nat, extra: string)
    requires i < |data|
    ensures Strip(extra) != [] ==> data[i := extra][i..] == Reopened(extra, data[i + 1..])
    ensures Strip(extra) == [] ==> data[i + 1..] == Reopened(extra, data[i + 1..])
  {
    if Strip(extra) != [] {
      assert data[i := extra][i..] == [extra] + data[i + 1..];
    }
  }

  /** The scan at line i when `node_match` finds an opener there: the child
      body is collected from what follows, and the scan goes on after it with
      the child recorded; a child that fails fails the whole scan. Each step
      leaves less to scan. */
  lemma OpensStep(d: Dialect, data: seq<string>, i: nat, acc: Block, sig: string, extra: string)
    requires i < |data|
    requires NodeMatch(d, ScanLine(d, data[i])) == Some(Opens(sig, extra))
    ensures Weight(Reopened(extra, data[i + 1..])) < Weight(data[i..])
    ensures var sub := Collect(d, Reopened(extra, data[i + 1..]), Empty);
      sub.Err? ==> Collect(d, data[i..], acc) == Err(sub.error)
    ensures var sub := Collect(d, Reopened(extra, data[i + 1..]), Empty);
      sub.Ok? ==>
        && Weight(sub.value.0) < Weight(data[i..])
        && Collect(d, data[i..], acc) == Collect(d, sub.value.0, Block(acc.lines, Record(d, acc.subnodes, sig, sub.value.1)))
  {
    CollectAt(d, data, i, acc);
    WeightSplit(data, i);
  }

  /** The scan at a line where `node_match` finds nothing: the line joins the
      block's own lines. */
  lemma PlainStep(d: Dialect, data: seq<string>, i: nat, acc: Block)
    requires i < |data|
    requires NodeMatch(d, ScanLine(d, data[i])) == None
    ensures Weight(data[i + 1..]) < Weight(data[i..])
    ensures Collect(d, data[i..], acc) == Collect(d, data[i + 1..], Block(acc.lines + [ScanLine(d, data[i])], acc.subnodes))
  {
    CollectAt(d, data, i, acc);
    WeightSplit(data, i);
  }

  /** The scan at a closer line: it returns the lines after it. */
  lemma ClosesStep(d: Dialect, data: seq<string>, i: nat, acc: Block)
    requires i < |data|
    requires NodeMatch(d, ScanLine(d, data[i])) == Some(Closes)
    ensures Collect(d, data[i..], acc) == Ok((data[i + 1..], acc))
  {
    CollectAt(d, data, i, acc);
  }

  /** The nested `collect_subnodes` call after an opener on line i: the
      line is rewritten to the text after `{` when that is not blank, and
      the child body is collected from there; otherwise from the next line. */
  method CollectChild(d: Dialect, data0: seq<string>, i: nat, extra: string) returns (r: Result<(seq<string>, Block)>)
    requires i < |data0|
    ensures r == Collect(d, Reopened(extra, data0[i + 1..]), Empty)
    decreases Weight(Reopened(extra, data0[i + 1..])), 1
  {
    var data := data0;
    var j := i;
    ReopenedAt(data, i, extra);
    if Strip(extra) != "" {
      data := data[i := extra];
    } else {
      j := i + 1;
    }
    r := CollectSubnodes(d, data[j..]);
  }

  /** `collect_subnodes(data)`: the index loop that rebinds `data` to what a
      nested call leaves over and restarts at its first line. */
  method CollectSubnodes(d: Dialect, data0: seq<string>) returns (r: Result<(seq<string>, Block)>)
    ensures r == Collect(d, data0, Empty)
    decreases Weight(data0), 0
  {
    var data := data0;
    var nodeLines: seq<string> := [];
    var subnodeLines: seq<(string, Block)> := [];
    var i := 0;
    var datalen := |data|;
    assert data[0..] == data;
    while |data| > 0 && i < datalen
      invariant datalen == |data| && i <= |data|
      invariant Collect(d, data[i..], Block(nodeLines, subnodeLines)) == Collect(d, data0, Empty)
      invariant Weight(data[i..]) <= Weight(data0)
      decreases Weight(data[i..])
    {
      var line := ScanLine(d, data[i]);
      var m := NodeMatch(d, line);
      match m
      case Some(Opens(sig, extra)) =>
        OpensStep(d, data, i, Block(nodeLines, subnodeLines), sig, extra);
        var sub := CollectChild(d, data, i, extra);
        if sub.Err? {
          return Err(sub.error);
        }
        data := sub.value.0;
        subnodeLines := Record(d, subnodeLines, sig, sub.value.1);
        datalen := |data|;
        i := 0;
        assert data[0..] == data;
      case Some(Closes) =>
        ClosesStep(d, data, i, Block(nodeLines, subnodeLines));
        return Ok((data[i + 1..], Block(nodeLines, subnodeLines)));
      case None =>
        PlainStep(d, data, i, Block(nodeLines, subnodeLines));
        nodeLines := nodeLines + [line];
        i := i + 1;
    }
    assert data[i..] == [];
    if d == Current {
      return Ok(([], Block(nodeLines, subnodeLines)));
    }
    return Err(TypeError);
  }

  // ----- properties of the scan -----

  /** Each line as the scanner stores it. */
  function ScanAll(d: Dialect, ls: seq<string>): (r: seq<string>)
    ensures |r| == |ls|
  {
    if ls == [] then [] else [ScanLine(d, ls[0])] + ScanAll(d, ls[1..])
  }

  /** `node_match` finds nothing on a line without braces. */
  lemma {:induction false} NoBracesNoMatch(d: Dialect, s: string, p: nat)
    requires p <= |s| && NoBraces(s)
    ensures NodeMatchFrom(d, s, p) == None
    decreases |s| - p
  {
    if p < |s| {
      NoBracesNoMatch(d, s, p + 1);
    }
  }

  lemma ScanNoBraces(d: Dialect, s: string)
    requires NoBraces(s)
    ensures NodeMatch(d, ScanLine(d, s)) == None
  {
    NoBracesNoMatch(d, ScanLine(d, s), 0);
  }

  /** Lines without braces are appended to the block's own lines, in order
      and as the scanner sees them (stripped by the current scanner). */
  lemma {:induction false} CollectPlain(d: Dialect, ls: seq<string>, rest: seq<string>, acc: Block)
    requires forall j | 0 <= j < |ls| :: NoBraces(ls[j])
    ensures Collect(d, ls + rest, acc) == Collect(d, rest, Block(acc.lines + ScanAll(d, ls), acc.subnodes))
  {
    if ls == [] {
      assert ls + rest == rest;
      assert acc.lines + ScanAll(d, ls) == acc.lines;
    } else {
      var data := ls + rest;
      assert data[0] == ls[0];
      assert data[1..] == ls[1..] + rest;
      ScanNoBraces(d, ls[0]);
      var line := ScanLine(d, ls[0]);
      CollectPlain(d, ls[1..], rest, Block(acc.lines + [line], acc.subnodes));
      assert acc.lines + [line] + ScanAll(d, ls[1..]) == acc.lines + ScanAll(d, ls);
    }
  }

  /** `};` ends the body: the lines after it are returned with the block. */
  lemma CollectCloses(d: Dialect, rest: seq<string>, acc: Block)
    ensures Collect(d, ["};"] + rest, acc) == Ok((rest, acc))
  {
    var data := ["};"] + rest;
    assert data[0] == "};" && data[1..] == rest;
    CloserLine(d);
  }

  /** Stripping leaves a line alone that neither starts nor ends with
      whitespace. */
  lemma StripSolid(s: string)
    requires s != [] && !IsSpace(s[0]) && !IsSpace(s[|s| - 1])
    ensures Strip(s) == s
  {
    assert LStrip(s) == s;
  }

  lemma CloserLine(d: Dialect)
    ensures ScanLine(d, "};") == "};"
    ensures NodeMatch(d, "};") == Some(Closes)
  {
    CloserShape(d, "};");
  }

  lemma CloserShape(d: Dialect, s: string)
    requires |s| == 2 && s[0] == '}' && s[1] == ';'
    ensures ScanLine(d, s) == s
    ensures NodeMatch(d, s) == Some(Closes)
  {
    StripSolid(s);
    assert SpanWhile(s, 0, IsSigChar) == 0;
    assert OpenerMatch(d, s, 0).None?;
  }

  /** `node_match` on `t {x`, for a signature t of class characters that does
      not start with whitespace: the signature is t (the space before `{` is
      the `[^&]` character) and the extra text is x. */
  lemma OpenerShape(d: Dialect, s: string, t: string, x: string)
    requires s == t + " {" + x
    requires t != [] && !IsSpace(t[0]) && forall k | 0 <= k < |t| :: IsSigChar(t[k])
    requires (x == [] || x[0] != '{') && forall k | 0 <= k < |x| :: x[k] != Comments.VTab
    ensures NodeMatch(d, s) == Some(Opens(t, x))
  {
    var q := |t| + 1;
    Comments.Piece(t, " {", x);
    Comments.Piece(t + " {", x, []);
    assert t + " {" + x + [] == s;
    assert s[..|t|] == t;
    assert s[q + 1..] == x;
    OpenerSpans(d, s, |t|, x);
  }

  lemma OpenerSpans(d: Dialect, s: string, n: nat, x: string)
    requires n + 2 <= |s| && s[n] == ' ' && s[n + 1] == '{' && s[n + 2..] == x
    requires 0 < n && !IsSpace(s[0]) && forall k | 0 <= k < n :: IsSigChar(s[k])
    requires (x == [] || x[0] != '{') && forall k | 0 <= k < |x| :: x[k] != Comments.VTab
    ensures NodeMatch(d, s) == Some(Opens(s[..n], x))
  {
    assert forall k | n + 2 <= k < |s| :: s[k] == x[k - n - 2];
    OpenerAtStart(d, s, n);
    Comments.SpanTo(s, n + 2, |s|, Comments.NotVTab);
    assert s[0..n] == s[..n];
    assert s[n + 2..|s|] == x;
  }

  lemma OpenerAtStart(d: Dialect, s: string, n: nat)
    requires n + 2 <= |s| && s[n] == ' ' && s[n + 1] == '{' && (n + 2 == |s| || s[n + 2] != '{')
    requires 0 < n && !IsSpace(s[0]) && forall k | 0 <= k < n :: IsSigChar(s[k])
    ensures OpenerMatch(d, s, 0) == Some((n, n + 2))
  {
    assert !IsSigChar(s[n + 1]);
    Comments.SpanTo(s, 0, n + 1, IsSigChar);
  }

  /** A node opener: the child body is collected from the text after `{`
      (when it is not blank) and the following lines; its block is recorded
      under the signature, and the scan goes on after the child's `};`. */
  lemma OpensChild(d: Dialect, line: string, t: string, x: string, more: seq<string>, acc: Block)
    requires t != [] && !IsSpace(t[0]) && forall k | 0 <= k < |t| :: IsSigChar(t[k])
    requires (x == [] || x[0] != '{') && forall k | 0 <= k < |x| :: x[k] != Comments.VTab
    requires ScanLine(d, line) == t + " {" + x
    ensures Collect(d, [line] + more, acc) ==
      match Collect(d, Reopened(x, more), Empty)
      case Err(e) => Err(e)
      case Ok((rest, sub)) => Collect(d, rest, Block(acc.lines, Record(d, acc.subnodes, t, sub)))
  {
    OpenerShape(d, ScanLine(d, line), t, x);
    var data := [line] + more;
    assert data[0] == line && data[1..] == more;
  }

  lemma {:induction false} NoCloserFrom(d: Dialect, s: string, p: nat)
    requires p <= |s| && NoCloser(s)
    ensures NodeMatchFrom(d, s, p) != Some(Closes)
    decreases |s| - p
  {
    if p < |s| {
      NoCloserFrom(d, s, p + 1);
    }
  }

  lemma ReopenedKeeps(extra: string, rest: seq<string>)
    requires NoCloser(extra) && forall j | 0 <= j < |rest| :: NoCloser(rest[j])
    ensures forall j | 0 <= j < |Reopened(extra, rest)| :: NoCloser(Reopened(extra, rest)[j])
  {
  }

  /** A body that never closes: the current scanner returns no remaining
      lines, the legacy one raises TypeError. */
  lemma {:induction false} CollectUnclosed(d: Dialect, data: seq<string>, acc: Block)
    requires forall j | 0 <= j < |data| :: NoCloser(data[j])
    ensures d == Current ==> Collect(d, data, acc).Ok? && Collect(d, data, acc).value.0 == []
    ensures d == Legacy ==> Collect(d, data, acc) == Err(TypeError)
    decreases Weight(data)
  {
    if data != [] {
      var line := ScanLine(d, data[0]);
      NoCloserFrom(d, line, 0);
      assert forall j | 0 <= j < |data[1..]| :: data[1..][j] == data[j + 1];
      match NodeMatch(d, line)
      case None =>
        CollectUnclosed(d, data[1..], Block(acc.lines + [line], acc.subnodes));
      case Some(Opens(sig, extra)) =>
        var input := Reopened(extra, data[1..]);
        ReopenedKeeps(extra, data[1..]);
        CollectUnclosed(d, input, Empty);
        if d == Current {
          var sub := Collect(d, input, Empty).value.1;
          assert Collect(d, data, acc) == Collect(d, [], Block(acc.lines, Record(d, acc.subnodes, sig, sub)));
        }
    }
  }
}
