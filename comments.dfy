/** The comment stripper of the importer (`remove_comments` in
    `pyDtsTool/importer/parsing.py` and `importer/parsing.py`). Each
    regular expression becomes an explicit recogniser that returns the groups
    the pattern captures; the rewriter then works on those groups. */
module Comments {
  import opened Wrappers
  import opened Text
  import opened Properties

  const VTab: char := 11 as char

  predicate NotNewline(c: char) { c != '\n' }
  predicate NotVTab(c: char) { c != VTab }
  /** The class `[ \t]`. */
  predicate IsBlank(c: char) { c == ' ' || c == '\t' }

  /** `//` or `/` followed by `*` starts at k. */
  predicate OpenerAt(s: string, k: nat) { k + 1 < |s| && s[k] == '/' && (s[k + 1] == '/' || s[k + 1] == '*') }
  /** A block closer (`*` followed by `/`) starts at k. */
  predicate CloserAt(s: string, k: nat) { k + 1 < |s| && s[k] == '*' && s[k + 1] == '/' }

  /** A comment opener (line or block) or, when closer holds, a block closer. */
  predicate MarkAt(s: string, closer: bool, k: nat) {
    if closer then CloserAt(s, k) else OpenerAt(s, k)
  }

  /** The largest position in [lo, hi] where a mark starts: what a greedy
      `.*` followed by a lookahead settles on after backtracking. */
  function LastMark(s: string, closer: bool, lo: nat, hi: nat): (r: Option<nat>)
    requires lo <= hi
    ensures r.Some? ==> lo <= r.value <= hi && MarkAt(s, closer, r.value)
    ensures r.Some? ==> forall k | r.value < k <= hi :: !MarkAt(s, closer, k)
    ensures r.None? ==> forall k | lo <= k <= hi :: !MarkAt(s, closer, k)
    decreases hi - lo
  {
    if MarkAt(s, closer, hi) then Some(hi) else if hi == lo then None else LastMark(s, closer, lo, hi - 1)
  }

  lemma LastMarkIs(s: string, closer: bool, lo: nat, hi: nat, p: nat)
    requires lo <= p <= hi && MarkAt(s, closer, p)
    requires forall k | p < k <= hi :: !MarkAt(s, closer, k)
    ensures LastMark(s, closer, lo, hi) == Some(p)
  {
  }

  datatype Opener = LineComment | BlockOpen

  /** The groups of the comment pattern for a line that is not a line
      marker: the indent, `head` and the opener (present together), `mid`
      (present exactly when `blockend` is) and `tail`. */
  datatype Groups = Groups(indent: string, head: Option<string>, opener: Option<Opener>,
                           mid: Option<string>, tail: string)

  datatype CommentHit = LineMarker | Parts(g: Groups)

  function OpenerKind(s: string, p: nat): Opener {
    if p + 1 < |s| && s[p + 1] == '/' then LineComment else BlockOpen
  }

  /** The optional `mid`/`blockend` groups and then `tail`, matched from q:
      `mid` runs to the last block closer before the line break. */
  function MidAndTail(s: string, indent: string, head: Option<string>, opener: Option<Opener>, q: nat): (g: Groups)
    requires q <= |s|
    ensures g.indent == indent && g.head == head && g.opener == opener
  {
    var e := q + SpanWhile(s, q, NotNewline);
    match LastMark(s, true, q, e)
    case None => Groups(indent, head, opener, None, s[q..q + SpanWhile(s, q, NotVTab)])
    case Some(c) => Groups(indent, head, opener, Some(s[q..c]), s[c + 2..c + 2 + SpanWhile(s, c + 2, NotVTab)])
  }

  /** The line-marker alternative of the current pattern: optional `[ \t]`
      indent, `#`, one character other than `i` and `d`, digits, whitespace,
      then `"`. */
  predicate LinkerAt(s: string) {
    var n := SpanWhile(s, 0, IsBlank);
    n + 1 < |s| && s[n] == '#' && s[n + 1] != 'i' && s[n + 1] != 'd' &&
    QuoteAfter(s, n + 2 + SpanWhile(s, n + 2, IsDigit))
  }

  /** A quote follows the whitespace that starts at `m`. */
  predicate QuoteAfter(s: string, m: nat)
    requires m <= |s|
  {
    var w := m + SpaceRun(s, m);
    w < |s| && s[w] == '"'
  }

  /** The length of the run of whitespace (`\s`) that starts at `m`. */
  function SpaceRun(s: string, m: nat): (n: nat)
    requires m <= |s|
    ensures m + n <= |s|
    decreases |s| - m
  {
    if m == |s| || !IsSpace(s[m]) then 0 else 1 + SpaceRun(s, m + 1)
  }

  /** The whitespace run from `m` ends at `w` when every character in between
      is whitespace and the one at `w` is not. */
  lemma {:induction false} SpaceRunTo(s: string, m: nat, w: nat)
    requires m <= w <= |s|
    requires forall k | m <= k < w :: IsSpace(s[k])
    requires w == |s| || !IsSpace(s[w])
    ensures SpaceRun(s, m) == w - m
    decreases w - m
  {
    if m < w {
      SpaceRunTo(s, m + 1, w);
    }
  }

  /** `comment_match.search` of `pyDtsTool/importer/parsing.py`. The
      second alternative always matches at position 0 and has no indent
      group; its conditional refers to the still-open `head` group, so
      `head` is the text before the last opener on the line. */
  function CurrentMatch(s: string): CommentHit {
    if LinkerAt(s) then LineMarker
    else
      var e := SpanWhile(s, 0, NotNewline);
      match LastMark(s, false, 0, e)
      case None => Parts(MidAndTail(s, "", None, None, 0))
      case Some(p) => Parts(MidAndTail(s, "", Some(s[..p]), Some(OpenerKind(s, p)), p + 2))
  }

  /** `comment_match.search` of `importer/parsing.py`: the indent is the run
      of `[ \t]` when a non-space follows it; an opener right after the indent
      gives an empty `head`, otherwise `head` runs to the last opener. */
  /** Where the legacy indent group ends: after the run of `[ \t]` when a
      non-space follows it, otherwise at 0 (the group does not match). */
  function IndentEnd(s: string): (p0: nat)
    ensures p0 <= SpanWhile(s, 0, IsBlank) && p0 <= |s|
    ensures forall k | 0 <= k < p0 :: IsBlank(s[k])
  {
    var n := SpanWhile(s, 0, IsBlank);
    if n < |s| && !IsSpace(s[n]) then n else 0
  }

  function LegacyMatch(s: string): CommentHit {
    var p0 := IndentEnd(s);
    if OpenerAt(s, p0) then Parts(MidAndTail(s, s[..p0], Some(""), Some(OpenerKind(s, p0)), p0 + 2))
    else
      var e := p0 + SpanWhile(s, p0, NotNewline);
      match LastMark(s, false, p0, e)
      case None => Parts(MidAndTail(s, s[..p0], None, None, p0))
      case Some(p) => Parts(MidAndTail(s, s[..p0], Some(s[p0..p]), Some(OpenerKind(s, p)), p + 2))
  }

  function CommentMatch(d: Dialect, s: string): CommentHit {
    if d == Current then CurrentMatch(s) else LegacyMatch(s)
  }

  function Part(o: Option<string>): string { o.GetOr("") }

  /** The group deletions of the rewriter and the new block state. */
  function Refit(g: Groups, block: bool): (r: (string, bool)) {
    var opens := g.opener == Some(BlockOpen);
    var head := if !opens && block then None else g.head;
    var mid := if opens && g.mid.Some? then None else g.mid;
    var tail := if opens then g.mid.Some? else if block then g.mid.Some? else true;
    var tail' := tail && g.opener != Some(LineComment);
    var block' := if opens then (g.mid.None? || block) else if block then g.mid.None? else false;
    (g.indent + Part(head) + Part(mid) + (if tail' then g.tail else ""), block')
  }

  /** One line through the comment rewriter, given whether a block comment is
      open: the new text of the line and the new block state. */
  function StripLine(d: Dialect, s: string, block: bool): (r: (string, bool)) {
    match CommentMatch(d, s)
    case LineMarker => ("", block)
    case Parts(g) =>
      if g.opener.Some? || g.mid.Some? || block then Refit(g, block) else (s, block)
  }

  /** Every line rewritten in order, the block state threaded through. */
  function Rewritten(d: Dialect, lines: seq<string>, block: bool): (r: seq<string>)
    ensures |r| == |lines|
  {
    if lines == [] then []
    else
      var t := StripLine(d, lines[0], block);
      [t.0] + Rewritten(d, lines[1..], t.1)
  }

  /** A whitespace-only line: one whose `strip()` is empty. */
  predicate Blank(l: string) { AllSpace(l) }

  /** The lines that are not whitespace-only, in order. */
  function NonBlank(lines: seq<string>): (r: seq<string>)
    ensures |r| <= |lines|
  {
    if lines == [] then [] else (if Blank(lines[0]) then [] else [lines[0]]) + NonBlank(lines[1..])
  }

  /** What `remove_comments` leaves of a file's lines. */
  function Uncommented(d: Dialect, lines: seq<string>): seq<string> {
    NonBlank(Rewritten(d, lines, false))
  }

  /** A Python list of lines, updated in place. */
  class Lines {
    var items: seq<string>

    constructor(items0: seq<string>)
      ensures items == items0
    {
      items := items0;
    }
  }

  lemma {:induction false} RewrittenStep(d: Dialect, lines: seq<string>, i: nat, block: bool)
    requires i < |lines|
    ensures Rewritten(d, lines[i..], block)
         == [StripLine(d, lines[i], block).0] + Rewritten(d, lines[i + 1..], StripLine(d, lines[i], block).1)
  {
    assert lines[i..][1..] == lines[i + 1..];
  }

  lemma {:induction false} NonBlankAppend(a: seq<string>, b: seq<string>)
    ensures NonBlank(a + b) == NonBlank(a) + NonBlank(b)
  {
    if a == [] {
      assert a + b == b;
    } else {
      assert (a + b)[1..] == a[1..] + b;
      NonBlankAppend(a[1..], b);
      assert NonBlank(a + b) == (if Blank(a[0]) then [] else [a[0]]) + NonBlank(a[1..] + b);
    }
  }

  lemma NonBlankDeletes(a: seq<string>, x: string, b: seq<string>)
    requires Blank(x)
    ensures NonBlank(a + [x] + b) == NonBlank(a + b)
  {
    NonBlankAppend(a, [x] + b);
    NonBlankAppend(a, b);
    assert ([x] + b)[1..] == b;
    assert a + [x] + b == a + ([x] + b);
  }

  lemma Around<T>(s: seq<T>, i: nat)
    requires i < |s|
    ensures s == s[..i] + [s[i]] + s[i + 1..]
  {
  }

  lemma {:induction false} NonBlankKeeps(s: seq<string>)
    requires forall j | 0 <= j < |s| :: !Blank(s[j])
    ensures NonBlank(s) == s
  {
    if s != [] {
      NonBlankKeeps(s[1..]);
    }
  }

  /** A line survives the filter exactly when it occurs in the input and is
      not whitespace-only. */
  lemma {:induction false} NonBlankMembers(s: seq<string>, l: string)
    ensures l in NonBlank(s) <==> l in s && !Blank(l)
  {
    if s != [] {
      NonBlankMembers(s[1..], l);
      assert s == [s[0]] + s[1..];
    }
  }

  /** The filter is idempotent: filtering its result changes nothing. */
  lemma NonBlankIdempotent(s: seq<string>)
    ensures NonBlank(NonBlank(s)) == NonBlank(s)
  {
    forall j | 0 <= j < |NonBlank(s)|
      ensures !Blank(NonBlank(s)[j])
    {
      NonBlankMembers(s, NonBlank(s)[j]);
    }
    NonBlankKeeps(NonBlank(s));
  }

  /** No whitespace-only line is left after `remove_comments`, and no line
      is added. */
  lemma UncommentedClean(d: Dialect, lines: seq<string>)
    ensures |Uncommented(d, lines)| <= |lines|
    ensures forall j | 0 <= j < |Uncommented(d, lines)| :: !Blank(Uncommented(d, lines)[j])
  {
    forall j | 0 <= j < |Uncommented(d, lines)|
      ensures !Blank(Uncommented(d, lines)[j])
    {
      NonBlankMembers(Rewritten(d, lines, false), Uncommented(d, lines)[j]);
    }
  }

  lemma Advance(d: Dialect, orig: seq<string>, i: nat, block: bool, done: seq<string>)
    requires i < |orig| && done + Rewritten(d, orig[i..], block) == Rewritten(d, orig, false)
    ensures done + [StripLine(d, orig[i], block).0] + Rewritten(d, orig[i + 1..], StripLine(d, orig[i], block).1)
         == Rewritten(d, orig, false)
  {
    RewrittenStep(d, orig, i, block);
  }

  lemma UpdateAt<T>(items: seq<T>, done: seq<T>, orig: seq<T>, i: nat, x: T)
    requires i < |orig| && |done| == i && items == done + orig[i..]
    ensures items[i := x] == done + [x] + orig[i + 1..]
  {
    assert orig[i..] == [orig[i]] + orig[i + 1..];
  }

  /** The rewriting loop of `remove_comments`: each line in turn, in place. */
  method RewriteLines(d: Dialect, data: Lines)
    modifies data
    ensures data.items == Rewritten(d, old(data.items), false)
  {
    ghost var orig := data.items;
    ghost var done: seq<string> := [];
    var block := false;
    var i := 0;
    assert orig[0..] == orig;
    while i < |data.items|
      invariant 0 <= i <= |orig| && |done| == i
      invariant data.items == done + orig[i..]
      invariant done + Rewritten(d, orig[i..], block) == Rewritten(d, orig, false)
    {
      var t := StripLine(d, data.items[i], block);
      assert data.items[i] == orig[i];
      Advance(d, orig, i, block, done);
      UpdateAt(data.items, done, orig, i, t.0);
      data.items := data.items[i := t.0];
      done := done + [t.0];
      block := t.1;
      i := i + 1;
    }
    assert orig[i..] == [];
  }

  /** The deletion loop of `remove_comments`: a whitespace-only line is
      deleted and the scan restarts from the first line. */
  method DropBlankLines(data: Lines)
    modifies data
    ensures data.items == NonBlank(old(data.items))
  {
    ghost var orig := data.items;
    var i := 0;
    while i < |data.items|
      invariant 0 <= i <= |data.items|
      invariant NonBlank(data.items) == NonBlank(orig)
      invariant forall j | 0 <= j < i :: !Blank(data.items[j])
      decreases |data.items|, |data.items| - i
    {
      StripEmptyIffAllSpace(data.items[i]);
      if Strip(data.items[i]) == [] {
        Around(data.items, i);
        NonBlankDeletes(data.items[..i], data.items[i], data.items[i + 1..]);
        data.items := data.items[..i] + data.items[i + 1..];
        i := 0;
      } else {
        i := i + 1;
      }
    }
    NonBlankKeeps(data.items);
  }

  /** `remove_comments(data)`: rewrites every line of `data` in place, then
      deletes whitespace-only lines, and returns the same list. */
  method RemoveComments(d: Dialect, data: Lines) returns (r: Lines)
    modifies data
    ensures r == data && data.items == Uncommented(d, old(data.items))
  {
    RewriteLines(d, data);
    DropBlankLines(data);
    r := data;
  }

  // ----- what the rewriter does to a line -----

  /** Text without the characters of comment markers, line breaks or
      vertical tabs. */
  predicate Unmarked(t: string) {
    forall k | 0 <= k < |t| :: t[k] != '/' && t[k] != '*' && t[k] != '\n' && t[k] != VTab
  }

  /** Unmarked text that holds no `#` either. */
  predicate Plain(t: string) {
    forall k | 0 <= k < |t| :: t[k] != '/' && t[k] != '*' && t[k] != '\n' && t[k] != VTab && t[k] != '#'
  }

  lemma SpanTo(s: string, from: nat, to: nat, p: char -> bool)
    requires from <= to <= |s|
    requires forall k | from <= k < to :: p(s[k])
    requires to == |s| || !p(s[to])
    ensures SpanWhile(s, from, p) == to - from
  {
  }

  /** No marker starts inside (or right after) plain text that ends the line. */
  lemma PlainSuffix(s: string, at: nat, t: string)
    requires at <= |s| && s[at..] == t && Unmarked(t)
    ensures forall k | at <= k <= |s| :: !OpenerAt(s, k) && !CloserAt(s, k)
    ensures forall k | at <= k < |s| :: s[k] != '\n' && s[k] != VTab && s[k] != '/' && s[k] != '*'
  {
    forall k | at <= k < |s|
      ensures s[k] != '\n' && s[k] != VTab && s[k] != '/' && s[k] != '*'
    {
      assert s[k] == t[k - at];
    }
    forall k | at <= k < |s| ensures !OpenerAt(s, k) && !CloserAt(s, k) {
      assert s[k] != '/' && s[k] != '*';
    }
  }

  /** A slice of plain text is plain. */
  lemma PlainMiddle(s: string, at: nat, t: string)
    requires at + |t| <= |s| && s[at..at + |t|] == t
    requires forall k | at <= k < at + |t| :: s[k] != '/' && s[k] != '*' && s[k] != '\n' && s[k] != VTab && s[k] != '#'
    ensures Plain(t)
  {
    forall k | 0 <= k < |t| ensures t[k] == s[at + k] { }
  }

  /** The tail of a line that holds no block closer is the text itself. */
  lemma TailPlain(s: string, q: nat, t: string, indent: string, head: Option<string>, opener: Option<Opener>)
    requires q <= |s| && s[q..] == t && Unmarked(t)
    ensures MidAndTail(s, indent, head, opener, q) == Groups(indent, head, opener, None, t)
  {
    PlainSuffix(s, q, t);
    SpanTo(s, q, |s|, NotNewline);
    SpanTo(s, q, |s|, NotVTab);
    assert LastMark(s, true, q, |s|).None?;
  }

  /** c, a block closer, then e: mid is c and the tail is e. */
  lemma TailClosed(s: string, q: nat, c: string, e: string, indent: string, head: Option<string>, opener: Option<Opener>)
    requires q <= |s| && s[q..] == c + "*/" + e && Plain(c) && Plain(e)
    ensures MidAndTail(s, indent, head, opener, q) == Groups(indent, head, opener, Some(c), e)
  {
    var m := q + |c|;
    TailPieces(s, q, c, e);
    PlainSuffix(s, m + 2, e);
    forall k | q <= k < m ensures s[k] != '\n' {
      assert s[k] == s[q..m][k - q];
    }
    TailClosedAt(s, q, m, indent, head, opener);
  }

  lemma TailPieces(s: string, q: nat, c: string, e: string)
    requires q <= |s| && s[q..] == c + "*/" + e
    ensures q + |c| + 2 <= |s| && s[q..q + |c|] == c && s[q + |c|] == '*' && s[q + |c| + 1] == '/'
    ensures s[q + |c| + 2..] == e
  {
    var m := q + |c|;
    assert s[q..][..|c|] == c;
    assert s[q..][|c|] == '*' && s[q..][|c| + 1] == '/';
    assert s[q..][|c| + 2..] == e;
  }

  lemma TailClosedAt(s: string, q: nat, m: nat, indent: string, head: Option<string>, opener: Option<Opener>)
    requires q <= m && m + 2 <= |s| && s[m] == '*' && s[m + 1] == '/'
    requires forall k | q <= k < m :: s[k] != '\n'
    requires forall k | m + 2 <= k < |s| :: s[k] != '\n' && s[k] != VTab && s[k] != '*'
    ensures MidAndTail(s, indent, head, opener, q) == Groups(indent, head, opener, Some(s[q..m]), s[m + 2..])
  {
    SpanTo(s, q, |s|, NotNewline);
    SpanTo(s, m + 2, |s|, NotVTab);
    assert CloserAt(s, m);
    assert !CloserAt(s, m + 1);
    LastMarkIs(s, true, q, |s|, m);
  }

  lemma BlankSpan(s: string, a: nat)
    requires a < |s| && !IsBlank(s[a])
    ensures SpanWhile(s, 0, IsBlank) <= a
  {
  }

  lemma PlainPrefix(s: string, a: string)
    requires |a| <= |s| && s[..|a|] == a && Plain(a)
    ensures forall k | 0 <= k < |a| :: s[k] == a[k] && !OpenerAt(s, k) && s[k] != '#' && s[k] != '\n'
  {
    forall k | 0 <= k < |a| ensures s[k] == a[k] && !OpenerAt(s, k) {
      assert s[k] == s[..|a|][k];
    }
  }

  lemma OpenerSlash(s: string, k: nat)
    requires OpenerAt(s, k)
    ensures k < |s| && s[k] == '/'
  {
  }

  /** The groups of a line whose first opener ends the plain text a and that
      has no later opener: whatever the dialect, indent and head together are
      a. */
  lemma HeadBeforeOpener(d: Dialect, s: string, a: string)
    requires |a| + 2 <= |s| && s[..|a|] == a && Plain(a) && OpenerAt(s, |a|)
    requires forall k | |a| < k <= |s| :: !OpenerAt(s, k)
    requires forall k | 0 <= k < |s| :: s[k] != '\n'
    ensures CommentMatch(d, s).Parts?
    ensures var g := CommentMatch(d, s).g;
      g.indent + Part(g.head) == a && g.opener == Some(OpenerKind(s, |a|)) &&
      g == MidAndTail(s, g.indent, g.head, g.opener, |a| + 2)
  {
    PlainPrefix(s, a);
    OpenerSlash(s, |a|);
    BlankSpan(s, |a|);
    SpanTo(s, 0, |s|, NotNewline);
    if d == Current {
      CurrentHead(s, a);
    } else {
      LegacyHead(s, a);
    }
  }

  lemma CurrentHead(s: string, a: string)
    requires |a| + 2 <= |s| && s[..|a|] == a && OpenerAt(s, |a|) && s[|a|] == '/'
    requires forall k | 0 <= k < |a| :: !OpenerAt(s, k) && s[k] != '#'
    requires forall k | |a| < k <= |s| :: !OpenerAt(s, k)
    requires SpanWhile(s, 0, NotNewline) == |s| && SpanWhile(s, 0, IsBlank) <= |a|
    ensures CurrentMatch(s) == Parts(MidAndTail(s, "", Some(a), Some(OpenerKind(s, |a|)), |a| + 2))
  {
    var n := SpanWhile(s, 0, IsBlank);
    assert s[n] != '#';
    LastMarkIs(s, false, 0, |s|, |a|);
  }

  lemma LegacyHead(s: string, a: string)
    requires |a| + 2 <= |s| && s[..|a|] == a && OpenerAt(s, |a|) && s[|a|] == '/'
    requires forall k | 0 <= k < |a| :: !OpenerAt(s, k)
    requires forall k | |a| < k <= |s| :: !OpenerAt(s, k)
    requires forall k | 0 <= k < |s| :: s[k] != '\n'
    requires SpanWhile(s, 0, IsBlank) <= |a|
    ensures LegacyMatch(s).Parts?
    ensures var g := LegacyMatch(s).g;
      g.indent + Part(g.head) == a && g.opener == Some(OpenerKind(s, |a|)) &&
      g == MidAndTail(s, g.indent, g.head, g.opener, |a| + 2)
  {
    if IndentEnd(s) == |a| {
      LegacyHeadAtIndent(s, a);
    } else {
      LegacyHeadLater(s, a);
    }
  }

  lemma LegacyHeadAtIndent(s: string, a: string)
    requires |a| + 2 <= |s| && s[..|a|] == a && OpenerAt(s, |a|) && s[|a|] == '/'
    requires forall k | 0 <= k < |a| :: !OpenerAt(s, k)
    requires forall k | |a| < k <= |s| :: !OpenerAt(s, k)
    requires forall k | 0 <= k < |s| :: s[k] != '\n'
    requires SpanWhile(s, 0, IsBlank) <= |a|
    requires IndentEnd(s) == |a|
    ensures LegacyMatch(s).Parts?
    ensures var g := LegacyMatch(s).g;
      g.indent + Part(g.head) == a && g.opener == Some(OpenerKind(s, |a|)) &&
      g == MidAndTail(s, g.indent, g.head, g.opener, |a| + 2)
  {
    var p0 := IndentEnd(s);
    var g := MidAndTail(s, s[..p0], Some(""), Some(OpenerKind(s, |a|)), p0 + 2);
    assert LegacyMatch(s) == Parts(g);
    assert g.indent + Part(g.head) == a;
  }

  lemma LegacyHeadLater(s: string, a: string)
    requires |a| + 2 <= |s| && s[..|a|] == a && OpenerAt(s, |a|) && s[|a|] == '/'
    requires forall k | 0 <= k < |a| :: !OpenerAt(s, k)
    requires forall k | |a| < k <= |s| :: !OpenerAt(s, k)
    requires forall k | 0 <= k < |s| :: s[k] != '\n'
    requires SpanWhile(s, 0, IsBlank) <= |a|
    requires IndentEnd(s) != |a|
    ensures LegacyMatch(s).Parts?
    ensures var g := LegacyMatch(s).g;
      g.indent + Part(g.head) == a && g.opener == Some(OpenerKind(s, |a|)) &&
      g == MidAndTail(s, g.indent, g.head, g.opener, |a| + 2)
  {
    var p0 := IndentEnd(s);
    assert !OpenerAt(s, p0);
    SpanTo(s, p0, |s|, NotNewline);
    var e := p0 + SpanWhile(s, p0, NotNewline);
    LastMarkIs(s, false, p0, e, |a|);
    LegacyMatchLater(s, |a|);
    Glue(s, p0, |a|);
  }

  lemma Glue(s: string, i: nat, j: nat)
    requires i <= j <= |s|
    ensures s[..i] + s[i..j] == s[..j]
  {
  }

  /** The legacy groups when the opener does not follow the indent
      directly. */
  lemma LegacyMatchLater(s: string, p: nat)
    requires !OpenerAt(s, IndentEnd(s))
    requires LastMark(s, false, IndentEnd(s), IndentEnd(s) + SpanWhile(s, IndentEnd(s), NotNewline)) == Some(p)
    ensures LegacyMatch(s)
         == Parts(MidAndTail(s, s[..IndentEnd(s)], Some(s[IndentEnd(s)..p]), Some(OpenerKind(s, p)), p + 2))
  {
  }

  /** The groups of a line without an opener: an indent (empty for the
      current pattern) made of blanks, then mid and tail from there. */
  lemma NoOpenerLine(d: Dialect, s: string)
    requires forall k | 0 <= k <= |s| :: !OpenerAt(s, k)
    requires forall k | 0 <= k < |s| :: s[k] != '\n'
    requires d == Current ==> !LinkerAt(s)
    ensures CommentMatch(d, s).Parts?
    ensures var g := CommentMatch(d, s).g;
      g.head.None? && g.opener.None? && |g.indent| <= SpanWhile(s, 0, IsBlank) && s[..|g.indent|] == g.indent &&
      AllSpace(g.indent) && g == MidAndTail(s, g.indent, None, None, |g.indent|)
  {
    if d == Legacy {
      var p0 := IndentEnd(s);
      SpanTo(s, p0, |s|, NotNewline);
      assert LastMark(s, false, p0, |s|).None?;
      assert forall k | 0 <= k < p0 :: IsSpace(s[..p0][k]);
    }
  }

  lemma NoLinker(s: string)
    requires forall k | 0 <= k < |s| :: s[k] != '#'
    ensures !LinkerAt(s)
  {
  }

  /** A line with no comment marker, outside a block comment, is kept as it
      is, unless the current stripper recognises it as a line marker. */
  lemma UnmarkedLineKept(d: Dialect, s: string)
    requires Unmarked(s) && (d == Current ==> !LinkerAt(s))
    ensures StripLine(d, s, false) == (s, false)
  {
    assert s[0..] == s;
    PlainSuffix(s, 0, s);
    NoOpenerLine(d, s);
    var g := CommentMatch(d, s).g;
    var q := |g.indent|;
    assert s[q..] == s[0..][q..];
    assert Unmarked(s[q..]) by { forall k | 0 <= k < |s[q..]| ensures s[q..][k] == s[q + k] { } }
    TailPlain(s, q, s[q..], g.indent, None, None);
    Halves(s, q);
  }

  /** The element of `b` at `k` is the element of `a + b + c` at `|a| + k`. */
  lemma Piece<T>(a: seq<T>, b: seq<T>, c: seq<T>)
    ensures forall k | 0 <= k < |b| :: (a + b + c)[|a| + k] == b[k]
  {
  }

  /** A line made of blanks up to `n`, `#` and a character other than `i` and
      `d`, digits up to `m` and whitespace then a quote from `m` on is a line
      marker. */
  lemma LinkerSpans(s: string, n: nat, m: nat)
    requires n + 2 <= m < |s|
    requires forall k | 0 <= k < n :: IsBlank(s[k])
    requires s[n] == '#' && s[n + 1] != 'i' && s[n + 1] != 'd'
    requires forall k | n + 2 <= k < m :: IsDigit(s[k])
    requires !IsDigit(s[m]) && QuoteAfter(s, m)
    ensures LinkerAt(s)
  {
    assert !IsBlank(s[n]);
    SpanTo(s, 0, n, IsBlank);
    SpanTo(s, n + 2, m, IsDigit);
  }

  /** Whitespace from `m` to `w` and a quote at `w`. */
  lemma QuoteSpan(s: string, m: nat, w: nat)
    requires m <= w < |s|
    requires forall k | m <= k < w :: IsSpace(s[k])
    requires s[w] == '"'
    ensures QuoteAfter(s, m) && !IsDigit(s[m])
  {
    assert !IsSpace(s[w]);
    SpaceRunTo(s, m, w);
    if m < w { assert IsSpace(s[m]); }
  }

  /** The current stripper blanks every line marker and keeps the block state. */
  lemma LinkerBlanked(s: string, block: bool)
    requires LinkerAt(s)
    ensures StripLine(Current, s, block) == ("", block)
  {
    assert CommentMatch(Current, s) == LineMarker;
  }

  /** The current stripper blanks a line marker (optional blanks, `#`, a
      character other than `i` and `d`, digits, whitespace, a quote) without
      touching the block state. */
  lemma LineMarkerBlanked(ind: string, x: char, ds: string, ws: string, rest: string, block: bool)
    requires forall k | 0 <= k < |ind| :: IsBlank(ind[k])
    requires x != 'i' && x != 'd'
    requires forall k | 0 <= k < |ds| :: IsDigit(ds[k])
    requires forall k | 0 <= k < |ws| :: IsSpace(ws[k])
    ensures LinkerAt(ind + "#" + [x] + ds + ws + "\"" + rest)
    ensures StripLine(Current, ind + "#" + [x] + ds + ws + "\"" + rest, block) == ("", block)
  {
    var s := ind + "#" + [x] + ds + ws + "\"" + rest;
    var n := |ind|;
    var m := n + 2 + |ds|;
    LineMarkerPieces(s, ind, x, ds, ws, rest);
    QuoteSpan(s, m, m + |ws|);
    LinkerSpans(s, n, m);
    LinkerBlanked(s, block);
  }

  /** Where each piece of a line marker sits in the line. */
  lemma LineMarkerPieces(s: string, ind: string, x: char, ds: string, ws: string, rest: string)
    requires s == ind + "#" + [x] + ds + ws + "\"" + rest
    ensures |s| == |ind| + 3 + |ds| + |ws| + |rest|
    ensures forall k | 0 <= k < |ind| :: s[k] == ind[k]
    ensures s[|ind|] == '#' && s[|ind| + 1] == x
    ensures forall k | 0 <= k < |ds| :: s[|ind| + 2 + k] == ds[k]
    ensures forall k | 0 <= k < |ws| :: s[|ind| + 2 + |ds| + k] == ws[k]
    ensures s[|ind| + 2 + |ds| + |ws|] == '"'
  {
    var p1 := ind + "#" + [x];
    var p2 := p1 + ds;
    var p3 := p2 + ws;
    var p4 := p3 + "\"";
    assert s == p4 + rest;
    assert forall k | 0 <= k < |p4| :: s[k] == p4[k];
    assert forall k | 0 <= k < |p3| :: p4[k] == p3[k];
    assert forall k | 0 <= k < |p2| :: p3[k] == p2[k];
    assert forall k | 0 <= k < |p1| :: p2[k] == p1[k];
    assert forall k | 0 <= k < |ws| :: p3[|p2| + k] == ws[k];
    forall k | 0 <= k < |ds| ensures s[|ind| + 2 + k] == ds[k] {
      var j := |p1| + k;
      assert |p1| == |ind| + 2 && j < |p2| <= |p3|;
      assert s[j] == p4[j] == p3[j] == p2[j] == ds[k];
    }
  }

  /** A line marker, which the current stripper blanks. */
  lemma LineMarkerCurrent()
    ensures StripLine(Current, "# 1 \"a.dts\"", false) == ("", false)
  {
    assert "# 1 \"a.dts\"" == "" + "#" + [' '] + "1" + " " + "\"" + "a.dts\"";
    LineMarkerBlanked("", ' ', "1", " ", "a.dts\"", false);
  }

  /** The same line marker, which the legacy stripper keeps. */
  lemma LineMarkerLegacy()
    ensures StripLine(Legacy, "# 1 \"a.dts\"", false) == ("# 1 \"a.dts\"", false)
  {
    var s := "# 1 \"a.dts\"";
    assert Unmarked(s) by {
      forall k | 0 <= k < |s| ensures s[k] != '/' && s[k] != '*' && s[k] != '\n' && s[k] != VTab {
        assert s[k] in "# 1\"a.dts";
      }
    }
    UnmarkedLineKept(Legacy, s);
  }

  lemma StripParts(d: Dialect, s: string, block: bool, g: Groups)
    requires CommentMatch(d, s) == Parts(g) && (g.opener.Some? || g.mid.Some? || block)
    ensures StripLine(d, s, block) == Refit(g, block)
  {
  }

  lemma RefitShapes(g: Groups, block: bool)
    ensures g.opener == Some(LineComment) && g.mid.None? && !block
        ==> Refit(g, block) == (g.indent + Part(g.head), false)
    ensures g.opener == Some(BlockOpen) && g.mid.Some?
        ==> Refit(g, block) == (g.indent + Part(g.head) + g.tail, block)
    ensures g.opener == Some(BlockOpen) && g.mid.None? ==> Refit(g, block) == (g.indent + Part(g.head), true)
    ensures g.opener.None? && g.head.None? && g.mid.Some? && block
        ==> Refit(g, block) == (g.indent + g.mid.value + g.tail, false)
  {
    var x := g.indent + Part(g.head);
    assert Part(None) == "";
    assert x + "" == x;
    assert x + "" + "" == x;
    assert x + "" + g.tail == x + g.tail;
    assert g.indent + "" == g.indent;
  }

  /** `//` drops the rest of the line. */
  lemma LineCommentCut(d: Dialect, a: string, b: string)
    requires Plain(a) && Plain(b)
    ensures StripLine(d, a + "//" + b, false) == (a, false)
  {
    var s := a + "//" + b;
    var A := |a|;
    assert s[..A] == a && s[A] == '/' && s[A + 1] == '/' && s[A + 2..] == b;
    PlainPrefix(s, a);
    PlainSuffix(s, A + 2, b);
    assert !OpenerAt(s, A + 1);
    HeadBeforeOpener(d, s, a);
    var g := CommentMatch(d, s).g;
    TailPlain(s, A + 2, b, g.indent, g.head, g.opener);
    assert g == Groups(g.indent, g.head, Some(LineComment), None, b);
    StripParts(d, s, false, g);
    RefitShapes(g, false);
  }

  /** A block comment closed on the same line loses only its body: the text
      before and after it stays, and the block state is unchanged. */
  lemma InlineBlockCut(d: Dialect, a: string, c: string, e: string, block: bool)
    requires Plain(a) && Plain(c) && Plain(e)
    ensures StripLine(d, a + "/*" + c + "*/" + e, block) == (a + e, block)
  {
    var s := a + "/*" + c + "*/" + e;
    InlineBlockShape(s, a, c, e);
    HeadBeforeOpener(d, s, a);
    var g := CommentMatch(d, s).g;
    TailClosed(s, |a| + 2, c, e, g.indent, g.head, g.opener);
    assert g == Groups(g.indent, g.head, Some(BlockOpen), Some(c), e);
    StripParts(d, s, block, g);
    RefitShapes(g, block);
  }

  lemma InlineBlockShape(s: string, a: string, c: string, e: string)
    requires Plain(a) && Plain(c) && Plain(e) && s == a + "/*" + c + "*/" + e
    ensures |a| + 2 <= |s| && s[..|a|] == a && OpenerAt(s, |a|) && s[|a|] == '/' && s[|a| + 1] == '*'
    ensures forall k | |a| < k <= |s| :: !OpenerAt(s, k)
    ensures forall k | 0 <= k < |s| :: s[k] != '\n'
    ensures s[|a| + 2..] == c + "*/" + e
  {
    var A := |a|;
    var C := A + 2 + |c|;
    assert s[..A] == a && s[A] == '/' && s[A + 1] == '*';
    assert s[A + 2..] == c + "*/" + e;
    assert s[A + 2..C] == c && s[C] == '*' && s[C + 1] == '/' && s[C + 2..] == e;
    PlainPrefix(s, a);
    PlainSuffix(s, C + 2, e);
    PlainMiddle(s, A + 2, c);
    assert forall k | A < k <= |s| :: !OpenerAt(s, k) by {
      assert !OpenerAt(s, A + 1) && !OpenerAt(s, C) && !OpenerAt(s, C + 1);
    }
  }

  /** An unclosed block comment drops the rest of the line and opens the
      block state. */
  lemma BlockOpens(d: Dialect, a: string, c: string)
    requires Plain(a) && Plain(c)
    ensures StripLine(d, a + "/*" + c, false) == (a, true)
  {
    var s := a + "/*" + c;
    var A := |a|;
    assert s[..A] == a && s[A] == '/' && s[A + 1] == '*' && s[A + 2..] == c;
    PlainPrefix(s, a);
    PlainSuffix(s, A + 2, c);
    assert !OpenerAt(s, A + 1);
    HeadBeforeOpener(d, s, a);
    var g := CommentMatch(d, s).g;
    TailPlain(s, A + 2, c, g.indent, g.head, g.opener);
    assert g == Groups(g.indent, g.head, Some(BlockOpen), None, c);
    StripParts(d, s, false, g);
    RefitShapes(g, false);
  }

  /** Inside a block comment a line without markers is emptied (the legacy
      stripper keeps its indent, which is whitespace) and the state stays
      open. */
  lemma InsideBlock(d: Dialect, s: string)
    requires Plain(s)
    ensures Blank(StripLine(d, s, true).0) && StripLine(d, s, true).1
    ensures d == Current ==> StripLine(d, s, true) == ("", true)
  {
    assert s[0..] == s;
    PlainSuffix(s, 0, s);
    NoLinker(s);
    NoOpenerLine(d, s);
    var g := CommentMatch(d, s).g;
    var q := |g.indent|;
    PlainMiddle(s, q, s[q..]);
    TailPlain(s, q, s[q..], g.indent, None, None);
  }

  /** The line carrying the closer ends the block state and keeps the text
      on both sides of the closer. */
  lemma DropFront(c: string, m: string, e: string, q: nat)
    requires q <= |c|
    ensures (c + m + e)[q..] == c[q..] + m + e
  {
  }

  lemma Halves(c: string, q: nat)
    requires q <= |c|
    ensures c[..q] + c[q..] == c
  {
  }

  lemma KeepFront(c: string, m: string, e: string, q: nat)
    requires q <= |c|
    ensures (c + m + e)[..q] == c[..q]
  {
  }

  lemma PlainTail(c: string, q: nat)
    requires Plain(c) && q <= |c|
    ensures Plain(c[q..])
  {
    forall k | 0 <= k < |c| - q ensures c[q..][k] == c[q + k] { }
  }

  lemma BlockCloses(d: Dialect, c: string, e: string)
    requires Plain(c) && Plain(e)
    ensures StripLine(d, c + "*/" + e, true) == (c + e, false)
  {
    var s := c + "*/" + e;
    var C := |c|;
    assert s[..C] == c && s[C] == '*' && s[C + 1] == '/' && s[C + 2..] == e;
    PlainPrefix(s, c);
    PlainSuffix(s, C + 2, e);
    assert forall k | 0 <= k <= |s| :: !OpenerAt(s, k) by {
      assert !OpenerAt(s, C) && !OpenerAt(s, C + 1);
    }
    assert !LinkerAt(s) by {
      BlankSpan(s, C);
      var n := SpanWhile(s, 0, IsBlank);
      assert n < C ==> s[n] != '#';
    }
    NoOpenerLine(d, s);
    var g := CommentMatch(d, s).g;
    var q := |g.indent|;
    BlankSpan(s, C);
    DropFront(c, "*/", e, q);
    PlainTail(c, q);
    TailClosed(s, q, c[q..], e, g.indent, None, None);
    assert g == Groups(g.indent, None, None, Some(c[q..]), e);
    StripParts(d, s, true, g);
    RefitShapes(g, true);
    KeepFront(c, "*/", e, q);
    Halves(c, q);
  }
}
