/** The source-file importer, `importer/importer.py`: it reads a file's
    lines, takes the `#include` and `#define` lines into the tree's header
    fields, cuts the text into top-level blocks by signature with the
    brace scanner, and builds nodes from the blocks: each block's own
    statements become properties or directives of its node, and each child
    block reuses a child of the same name and textual address or creates a
    new child. The tree is a current (pyDtsTool) tree. */
module Importing {
  import opened Wrappers
  import opened Text
  import opened Properties
  import opened Signatures
  import opened Nodes
  import opened Trees
  import opened Registry
  import opened DeviceTrees
  import opened Growth
  import Scanner
  import Comments
  import Lexer
  import D = ODicts

  // ----- gcc_match -----

  /** What `gcc_match` finds on a line: `#include` followed by blanks and
      a quote or angle bracket, with the text after that, or `#define`
      with the text after it. */
  datatype GccHit = IncludeHit(val: string) | DefineHit(val: string)

  /** The `val` group: skip whitespace, then everything up to a vertical
      tab. */
  function ValFrom(s: string, q: nat): (r: string)
    requires q <= |s|
  {
    var m := q + SpanWhile(s, q, IsSpace);
    s[m..m + SpanWhile(s, m, Comments.NotVTab)]
  }

  /** The pattern tried at position p: the include alternative first, then
      the define alternative. */
  function GccAt(s: string, p: nat): (r: Option<GccHit>)
    requires p <= |s|
  {
    if OccursAt(s, "#include", p) then
      var q := p + 8 + SpanWhile(s, p + 8, Comments.IsBlank);
      if q < |s| && (s[q] == '"' || s[q] == '<') then Some(IncludeHit(ValFrom(s, q + 1))) else None
    else if OccursAt(s, "#define", p) then Some(DefineHit(ValFrom(s, p + 7)))
    else None
  }

  /** `gcc_match.search`: the leftmost position where the pattern matches. */
  function GccSearch(s: string, p: nat): (r: Option<GccHit>)
    requires p <= |s|
    decreases |s| - p
  {
    match GccAt(s, p)
    case Some(g) => Some(g)
    case None => if p == |s| then None else GccSearch(s, p + 1)
  }

  /** What `extract_gcc` makes of one line. A define's text is split on
      whitespace: the first word is the name and the others, joined by
      single spaces, the value; a define with no word raises IndexError. */
  datatype GccLine = NotGcc | Include(val: string) | Define(name: string, value: string) | EmptyDefine

  function ClassifyGcc(line: string): GccLine {
    match GccSearch(line, 0)
    case None => NotGcc
    case Some(IncludeHit(v)) => Include(v)
    case Some(DefineHit(v)) =>
      var words := SplitWs(v);
      if words == [] then EmptyDefine else Define(words[0], Join(words[1..], " "))
  }

  /** The tree's include list and define table, and whether the loop
      raised. */
  datatype Gcc = Gcc(includes: seq<string>, defines: D.ODict<string, Define>, outcome: Outcome)

  /** `extract_gcc` from line i on: includes are appended, a define stores
      its value under its name (a repeated name keeps its place), and a
      define without a name stops the loop. */
  function GccFrom(lines: seq<string>, i: nat, inc: seq<string>, defs: D.ODict<string, Define>): (g: Gcc)
    requires i <= |lines|
    decreases |lines| - i
  {
    if i == |lines| then Gcc(inc, defs, Pass)
    else
      match ClassifyGcc(lines[i])
      case NotGcc => GccFrom(lines, i + 1, inc, defs)
      case Include(v) => GccFrom(lines, i + 1, inc + [v], defs)
      case Define(n, v) => GccFrom(lines, i + 1, inc, D.Put(defs, n, DefStr(v)))
      case EmptyDefine => Gcc(inc, defs, Fail(IndexError))
  }

  /** The include texts of the lines, in order. */
  function IncludeVals(lines: seq<string>): (r: seq<string>)
    ensures |r| <= |lines|
  {
    if lines == [] then []
    else (match ClassifyGcc(lines[0]) case Include(v) => [v] case _ => []) + IncludeVals(lines[1..])
  }

  /** The value of the last define of a name among the lines. */
  function LastDefine(lines: seq<string>, name: string): (r: Option<string>)
  {
    if lines == [] then None
    else
      match LastDefine(lines[1..], name)
      case Some(v) => Some(v)
      case None =>
        match ClassifyGcc(lines[0])
        case Define(n, v) => if n == name then Some(v) else None
        case _ => None
  }

  /** `extract_gcc` finishes exactly when no line is a define without a
      name, and otherwise raises IndexError. */
  lemma {:induction false} GccPass(lines: seq<string>, i: nat, inc: seq<string>, defs: D.ODict<string, Define>)
    requires i <= |lines|
    ensures var g := GccFrom(lines, i, inc, defs);
      && (g.outcome == Pass <==> forall k | i <= k < |lines| :: ClassifyGcc(lines[k]) != EmptyDefine)
      && (g.outcome.Fail? ==> g.outcome.error == IndexError)
    decreases |lines| - i
  {
    if i < |lines| {
      match ClassifyGcc(lines[i])
      case NotGcc =>
        GccPass(lines, i + 1, inc, defs);
      case Include(v) =>
        GccPass(lines, i + 1, inc + [v], defs);
      case Define(n, v) =>
        GccPass(lines, i + 1, inc, D.Put(defs, n, DefStr(v)));
      case EmptyDefine =>
    }
  }

  /** When `extract_gcc` finishes, the include list has every include
      text appended in line order. */
  lemma {:induction false} GccIncludes(lines: seq<string>, i: nat, inc: seq<string>, defs: D.ODict<string, Define>)
    requires i <= |lines|
    ensures var g := GccFrom(lines, i, inc, defs);
      g.outcome == Pass ==> g.includes == inc + IncludeVals(lines[i..])
    decreases |lines| - i
  {
    if i == |lines| {
      assert lines[i..] == [];
    } else {
      assert lines[i..][0] == lines[i];
      assert lines[i..][1..] == lines[i + 1..];
      match ClassifyGcc(lines[i])
      case NotGcc =>
        GccIncludes(lines, i + 1, inc, defs);
      case Include(v) =>
        GccIncludes(lines, i + 1, inc + [v], defs);
        assert inc + [v] + IncludeVals(lines[i + 1..]) == inc + ([v] + IncludeVals(lines[i + 1..]));
      case Define(n, v) =>
        GccIncludes(lines, i + 1, inc, D.Put(defs, n, DefStr(v)));
      case EmptyDefine =>
    }
  }

  /** When `extract_gcc` finishes, a name holds the value of its last
      define, and a name no line defines keeps its earlier value. */
  lemma {:induction false} GccDefineLast(lines: seq<string>, i: nat, inc: seq<string>, defs: D.ODict<string, Define>, name: string)
    requires i <= |lines| && D.UniqueKeys(defs)
    ensures var g := GccFrom(lines, i, inc, defs);
      && D.UniqueKeys(g.defines)
      && (g.outcome == Pass ==>
            D.Lookup(g.defines, name) == match LastDefine(lines[i..], name)
                                         case Some(v) => Some(DefStr(v))
                                         case None => D.Lookup(defs, name))
    decreases |lines| - i
  {
    if i == |lines| {
      assert lines[i..] == [];
    } else {
      assert lines[i..][0] == lines[i];
      assert lines[i..][1..] == lines[i + 1..];
      match ClassifyGcc(lines[i])
      case NotGcc =>
        GccDefineLast(lines, i + 1, inc, defs, name);
      case Include(v) =>
        GccDefineLast(lines, i + 1, inc + [v], defs, name);
      case Define(n, v) =>
        D.StepLookup(defs, n, Some(DefStr(v)));
        GccDefineLast(lines, i + 1, inc, D.Put(defs, n, DefStr(v)), name);
      case EmptyDefine =>
    }
  }

  // ----- extract_nodes -----

  /** The top-level blocks by signature, and whether the loop raised. */
  datatype Extracted = Extracted(nodestrs: D.ODict<string, Scanner.Block>, outcome: Outcome)

  /** `extract_nodes` over the remaining lines, with the legacy scanner:
      a line without a match is skipped; at an opener the block is
      collected from the text after `{` and the following lines, and merged
      into the block already stored under its signature (`merge_dict`, or
      stored as it is the first time); the scan goes on after the block.
      A closer at top level matches without an opener, and the original
      loop then stays on that line for ever. */
  function Extract(data: seq<string>, acc: D.ODict<string, Scanner.Block>): (r: Extracted)
    decreases Scanner.Weight(data)
  {
    if data == [] then Extracted(acc, Pass)
    else
      var hit := Scanner.NodeMatch(Legacy, data[0]);
      if hit.None? then
        Scanner.WeightSplit(data, 0);
        assert data[0..] == data;
        Extract(data[1..], acc)
      else if hit.value.Closes? then Extracted(acc, Fail(Diverges))
      else
        var key := hit.value.sig;
        var seeded := if D.Has(acc, key) then acc else D.Put(acc, key, Scanner.Empty);
        assert data[0..] == data;
        Scanner.OpensStep(Legacy, data, 0, Scanner.Empty, key, hit.value.extra);
        var sub := Scanner.Collect(Legacy, Scanner.Reopened(hit.value.extra, data[1..]), Scanner.Empty);
        if sub.Err? then Extracted(seeded, Fail(sub.error))
        else
          var prior := D.Lookup(acc, key).GetOr(Scanner.Empty);
          Extract(sub.value.0, D.Put(seeded, key, Scanner.MergeBlock(prior, sub.value.1)))
  }

  /** One step of `extract_nodes` at line i. */
  lemma ExtractAt(data: seq<string>, i: nat, acc: D.ODict<string, Scanner.Block>)
    requires i < |data|
    ensures var hit := Scanner.NodeMatch(Legacy, data[i]);
      Extract(data[i..], acc) ==
        if hit.None? then Extract(data[i + 1..], acc)
        else if hit.value.Closes? then Extracted(acc, Fail(Diverges))
        else
          var key := hit.value.sig;
          var seeded := if D.Has(acc, key) then acc else D.Put(acc, key, Scanner.Empty);
          var sub := Scanner.Collect(Legacy, Scanner.Reopened(hit.value.extra, data[i + 1..]), Scanner.Empty);
          if sub.Err? then Extracted(seeded, Fail(sub.error))
          else Extract(sub.value.0, D.Put(seeded, key, Scanner.MergeBlock(D.Lookup(acc, key).GetOr(Scanner.Empty), sub.value.1)))
  {
    assert data[i..][0] == data[i];
    assert data[i..][1..] == data[i + 1..];
  }

  /** `merge_dict({}, b)` is b: the first block of a signature is stored
      as it was collected. */
  lemma MergeEmpty(b: Scanner.Block)
    ensures Scanner.MergeBlock(Scanner.Empty, b) == b
  {
    FreshOfNothing(b.subnodes);
    assert [] + b.lines == b.lines;
  }

  lemma {:induction false} FreshOfNothing<V>(y: seq<(string, V)>)
    ensures Scanner.Fresh([], y) == y
  {
    if y != [] {
      FreshOfNothing(y[1..]);
    }
  }

  /** r holds the keys of d once each, d's keys first and in d's order. */
  predicate KeepsKeys<V>(d: D.ODict<string, V>, r: D.ODict<string, V>) {
    D.UniqueKeys(r) && |d| <= |r| && D.Keys(r)[..|d|] == D.Keys(d)
  }

  lemma KeepsTrans<V>(a: D.ODict<string, V>, b: D.ODict<string, V>, c: D.ODict<string, V>)
    requires KeepsKeys(a, b) && KeepsKeys(b, c)
    ensures KeepsKeys(a, c)
  {
    assert D.Keys(c)[..|a|] == D.Keys(c)[..|b|][..|a|];
  }

  /** Storing a value keeps the place of an existing key and puts a new
      key last. */
  lemma PutKeeps<V>(d: D.ODict<string, V>, k: string, v: V)
    requires D.UniqueKeys(d)
    ensures KeepsKeys(d, D.Put(d, k, v))
  {
    D.PutUnique(d, k, v);
  }

  /** `extract_nodes` stores each signature once, and a signature seen
      again keeps the place of its first block. */
  lemma {:induction false} ExtractKeys(data: seq<string>, acc: D.ODict<string, Scanner.Block>)
    requires D.UniqueKeys(acc)
    ensures KeepsKeys(acc, Extract(data, acc).nodestrs)
    decreases Scanner.Weight(data)
  {
    if data == [] {
      assert D.Keys(acc)[..|acc|] == D.Keys(acc);
    } else {
      assert data[0..] == data;
      ExtractAt(data, 0, acc);
      var hit := Scanner.NodeMatch(Legacy, data[0]);
      if hit.None? {
        Scanner.WeightSplit(data, 0);
        ExtractKeys(data[1..], acc);
      } else if hit.value.Closes? {
        assert D.Keys(acc)[..|acc|] == D.Keys(acc);
      } else {
        var key := hit.value.sig;
        var seeded := if D.Has(acc, key) then acc else D.Put(acc, key, Scanner.Empty);
        PutKeeps(acc, key, Scanner.Empty);
        assert KeepsKeys(acc, seeded) by {
          if D.Has(acc, key) { assert D.Keys(acc)[..|acc|] == D.Keys(acc); }
        }
        Scanner.OpensStep(Legacy, data, 0, Scanner.Empty, key, hit.value.extra);
        var sub := Scanner.Collect(Legacy, Scanner.Reopened(hit.value.extra, data[1..]), Scanner.Empty);
        if sub.Ok? {
          var merged := Scanner.MergeBlock(D.Lookup(acc, key).GetOr(Scanner.Empty), sub.value.1);
          PutKeeps(seeded, key, merged);
          KeepsTrans(acc, seeded, D.Put(seeded, key, merged));
          ExtractKeys(sub.value.0, D.Put(seeded, key, merged));
          KeepsTrans(acc, D.Put(seeded, key, merged), Extract(sub.value.0, D.Put(seeded, key, merged)).nodestrs);
        }
      }
    }
  }

  /** Lines without braces hold no block: the scan passes over them. */
  lemma {:induction false} ExtractPlain(data: seq<string>, acc: D.ODict<string, Scanner.Block>)
    requires forall j | 0 <= j < |data| :: Scanner.NoBraces(data[j])
    ensures Extract(data, acc) == Extracted(acc, Pass)
    decreases |data|
  {
    if data != [] {
      Scanner.ScanNoBraces(Legacy, data[0]);
      ExtractPlain(data[1..], acc);
    }
  }

  /** A `};` line at top level, whatever blocks were collected before it
      (`acc`), is where the original loop never ends. */
  lemma ExtractStrayCloser(rest: seq<string>, acc: D.ODict<string, Scanner.Block>)
    ensures Extract(["};"] + rest, acc) == Extracted(acc, Fail(Diverges))
  {
    Scanner.CloserLine(Legacy);
    assert (["};"] + rest)[0] == "};";
  }

  // ----- line_match -----

  /** A statement of a node body, as `line_match` splits it: `name = value`,
      a bare `name` before a `;`, or a `/tag/` directive with its text. */
  datatype Statement = Assign(name: string, tail: string) | Flag(name: string) | Directive(tag: string, tail: string) | NoStatement

  /** The `dtc` class `[\w\-]`. */
  predicate IsTagChar(c: char) { IsWord(c) || c == '-' }

  /** The `head` class `[,\w_\-]`. */
  predicate IsHeadChar(c: char) { c == ',' || IsWord(c) || c == '-' }

  /** The `tail` group: the rest of the text up to a line break. */
  function Tail(s: string, q: nat): (r: string)
    requires q <= |s|
  {
    s[q..q + SpanWhile(s, q, Comments.NotNewline)]
  }

  /** The last `;` before position n. */
  function LastSemi(s: string, n: nat): (r: Option<nat>)
    requires n <= |s|
    ensures r.Some? ==> r.value < n && s[r.value] == ';' && forall k | r.value < k < n :: s[k] != ';'
    ensures r.None? ==> forall k | 0 <= k < n :: s[k] != ';'
  {
    if n == 0 then None else if s[n - 1] == ';' then Some(n - 1) else LastSemi(s, n - 1)
  }

  /** The pattern tried at position p: `/tag/` and then `head =`, each
      followed by the tail; at the start of the text only, the longest
      run of non-whitespace that a `;` follows. */
  function StatementAt(s: string, p: nat): (r: Option<Statement>)
    requires p <= |s|
  {
    var dtc :=
      if p < |s| && s[p] == '/' then
        var e := p + 1 + SpanWhile(s, p + 1, IsTagChar);
        if e < |s| && s[e] == '/' then Some(Directive(s[p + 1..e], Tail(s, e + 1))) else None
      else None;
    if dtc.Some? then dtc
    else
      var h := p + SpanWhile(s, p, IsHeadChar);
      var q := h + SpanWhile(s, h, IsSpace);
      if q < |s| && s[q] == '=' then Some(Assign(s[p..h], Tail(s, q + 1)))
      else if p == 0 then
        match LastSemi(s, SpanWhile(s, 0, NotSpace))
        case Some(k) => Some(Flag(s[..k]))
        case None => None
      else None
  }

  /** `line_match.search`: the leftmost position where the pattern matches. */
  function StatementSearch(s: string, p: nat): (r: Option<Statement>)
    requires p <= |s|
    decreases |s| - p
  {
    match StatementAt(s, p)
    case Some(t) => Some(t)
    case None => if p == |s| then None else StatementSearch(s, p + 1)
  }

  function StatementOf(s: string): Statement {
    StatementSearch(s, 0).GetOr(NoStatement)
  }

  /** `name = value` (any run of whitespace around nothing but the `=`)
      assigns the value text after `=` to the name. */
  lemma AssignShape(s: string, name: string, sp: string, tail: string)
    requires name != [] && (forall k | 0 <= k < |name| :: IsHeadChar(name[k]))
    requires forall k | 0 <= k < |sp| :: IsSpace(sp[k])
    requires forall k | 0 <= k < |tail| :: tail[k] != '\n'
    requires s == name + sp + "=" + tail
    ensures StatementOf(s) == Assign(name, tail)
  {
    var h := |name|;
    var q := h + |sp|;
    assert s[0..h] == name && s[h..q] == sp && s[q] == '=' && s[q + 1..q + 1 + |tail|] == tail;
    AssignPieces(s, name, sp, tail);
  }

  lemma AssignPieces(s: string, name: string, sp: string, tail: string)
    requires name != [] && (forall k | 0 <= k < |name| :: IsHeadChar(name[k]))
    requires forall k | 0 <= k < |sp| :: IsSpace(sp[k])
    requires forall k | 0 <= k < |tail| :: tail[k] != '\n'
    requires |s| == |name| + |sp| + 1 + |tail|
    requires s[0..|name|] == name && s[|name|..|name| + |sp|] == sp && s[|name| + |sp|] == '='
    requires s[|name| + |sp| + 1..|name| + |sp| + 1 + |tail|] == tail
    ensures StatementOf(s) == Assign(name, tail)
  {
    var h := |name|;
    var q := h + |sp|;
    HeadSpan(s, name, sp);
    SpaceSpan(s, h, sp);
    TailSpan(s, q + 1, tail);
    AssignAt(s, h, q);
  }

  /** A text's end without a newline is the tail there. */
  lemma TailSpan(s: string, from: nat, tail: string)
    requires forall k | 0 <= k < |tail| :: tail[k] != '\n'
    requires from + |tail| == |s| && s[from..from + |tail|] == tail
    ensures Tail(s, from) == tail
  {
    SpanOver(s, from, tail, Comments.NotNewline);
  }

  lemma HeadSpan(s: string, name: string, sp: string)
    requires name != [] && forall k | 0 <= k < |name| :: IsHeadChar(name[k])
    requires forall k | 0 <= k < |sp| :: IsSpace(sp[k])
    requires |name| + |sp| < |s| && s[0..|name|] == name && s[|name|..|name| + |sp|] == sp && s[|name| + |sp|] == '='
    ensures SpanWhile(s, 0, IsHeadChar) == |name| && s[0] != '/'
  {
    var h := |name|;
    assert s[0] == name[0];
    assert !IsHeadChar(s[h]) by {
      if |sp| == 0 { assert s[h] == '='; } else { assert s[h] == s[h..h + |sp|][0]; }
    }
    SpanOver(s, 0, name, IsHeadChar);
  }

  lemma SpaceSpan(s: string, h: nat, sp: string)
    requires forall k | 0 <= k < |sp| :: IsSpace(sp[k])
    requires h + |sp| < |s| && s[h..h + |sp|] == sp && s[h + |sp|] == '='
    ensures SpanWhile(s, h, IsSpace) == |sp|
  {
    SpanOver(s, h, sp, IsSpace);
  }

  /** The assignment alternative at the start of the text. */
  lemma AssignAt(s: string, h: nat, q: nat)
    requires h <= q < |s| && s[0] != '/' && s[q] == '='
    requires SpanWhile(s, 0, IsHeadChar) == h && SpanWhile(s, h, IsSpace) == q - h
    ensures StatementOf(s) == Assign(s[0..h], Tail(s, q + 1))
  {
    assert StatementAt(s, 0) == Some(Assign(s[0..h], Tail(s, q + 1)));
  }

  /** A run of characters with a property, stopped by the end of the text
      or a character without it, is what `SpanWhile` measures. */
  lemma SpanOver(s: string, from: nat, part: string, p: char -> bool)
    requires from + |part| <= |s| && s[from..from + |part|] == part
    requires forall k | 0 <= k < |part| :: p(part[k])
    requires from + |part| == |s| || !p(s[from + |part|])
    ensures SpanWhile(s, from, p) == |part|
  {
    forall k | from <= k < from + |part| ensures p(s[k]) {
      assert s[k] == s[from..from + |part|][k - from];
    }
    Comments.SpanTo(s, from, from + |part|, p);
  }

  /** `/tag/ text` is a directive with that tag and text. */
  lemma DirectiveShape(s: string, tag: string, tail: string)
    requires forall k | 0 <= k < |tag| :: IsTagChar(tag[k])
    requires forall k | 0 <= k < |tail| :: tail[k] != '\n'
    requires s == "/" + tag + "/" + tail
    ensures StatementOf(s) == Directive(tag, tail)
  {
    var e := 1 + |tag|;
    assert s[0] == '/';
    assert forall k | 1 <= k < e :: s[k] == tag[k - 1];
    assert s[e] == '/';
    assert forall k | e + 1 <= k < |s| :: s[k] == tail[k - e - 1];
    Comments.SpanTo(s, 1, e, IsTagChar);
    Comments.SpanTo(s, e + 1, |s|, Comments.NotNewline);
    assert s[1..e] == tag;
    assert s[e + 1..] == tail;
  }

  /** Text without `/`, `=` or `;` is no statement at all. Since the body
      loop cuts the `;` that ends a statement before matching, a boolean
      property written `name;` is never set. */
  lemma BareNameIgnored(s: string)
    requires forall k | 0 <= k < |s| :: s[k] != '/' && s[k] != '=' && s[k] != ';'
    ensures StatementOf(s) == NoStatement
  {
    NoStatementFrom(s, 0);
  }

  lemma {:induction false} NoStatementFrom(s: string, p: nat)
    requires p <= |s|
    requires forall k | 0 <= k < |s| :: s[k] != '/' && s[k] != '=' && s[k] != ';'
    ensures StatementSearch(s, p) == None
    decreases |s| - p
  {
    if p < |s| {
      NoStatementFrom(s, p + 1);
    }
  }

  // ----- build_node -----

  /** `ag_line[:-1]`: the text without its last character. */
  function Chop(s: string): (r: string)
    ensures |r| == if s == [] then 0 else |s| - 1
  {
    if s == [] then [] else s[..|s| - 1]
  }

  /** The record fields the body statements never touch. */
  predicate SameNode(a: NodeRec, b: NodeRec) {
    && a.nodename == b.nodename && a.handles == b.handles && a.ref == b.ref && a.reg == b.reg
    && a.children == b.children && a.parent == b.parent
  }

  /** One statement of a node body: an assignment sets the parsed value, a
      bare name sets a property without a value, and a directive is
      appended to its `dtc` list (KeyError for an unknown tag). Nothing but
      the node's properties and directive lists changes. */
  function Apply(st: Store, x: NodeId, stmt: Statement): (r: Built)
    requires Tidy(st) && x in st.heap
    ensures Tidy(r.store) && r.store.heap.Keys == st.heap.Keys
    ensures r.store.entries == st.entries && r.store.next == st.next
    ensures SameNode(r.store.heap[x], st.heap[x])
    ensures forall y | y in st.heap && y != x :: r.store.heap[y] == st.heap[y]
    ensures stmt.Directive? ==>
      (r.outcome.Fail? <==> stmt.tag !in {"include", "delete-node", "delete-property"})
    ensures stmt.NoStatement? ==> r == Built(st, Pass)
  {
    match stmt
    case Assign(name, tail) =>
      SetAt(Current, st, x, name, Lexer.ParseValue(tail))
    case Flag(name) =>
      SetAt(Current, st, x, name, VNone)
    case Directive(tag, tail) =>
      (match AddDirective(st.heap[x], tag, tail)
       case Err(e) => Built(st, Fail(e))
       case Ok(n) =>
         ClosedUpdate(st.heap, x, n);
         Built(st.(heap := st.heap[x := n]), Pass))
    case NoStatement => Built(st, Pass)
  }

  /** The statement loop of `build_node` from line i on, with the text
      gathered since the last statement: each line is stripped and added,
      and a line ending in `;` ends a statement, which is matched without
      its last character. A statement that raises ends the loop. */
  function OwnFrom(st: Store, x: NodeId, lines: seq<string>, i: nat, ag: string): (r: Built)
    requires Tidy(st) && x in st.heap && i <= |lines|
    ensures Tidy(r.store) && r.store.heap.Keys == st.heap.Keys
    ensures r.store.entries == st.entries && r.store.next == st.next
    ensures SameNode(r.store.heap[x], st.heap[x])
    ensures forall y | y in st.heap && y != x :: r.store.heap[y] == st.heap[y]
    decreases |lines| - i
  {
    if i == |lines| then Built(st, Pass)
    else
      var text := ag + Strip(lines[i]);
      if EndsWith(lines[i], ";") then
        var b := Apply(st, x, StatementOf(Chop(text)));
        if b.outcome.Fail? then b else OwnFrom(b.store, x, lines, i + 1, "")
      else OwnFrom(st, x, lines, i + 1, text)
  }

  /** The child test of `build_node`: same name, and an address in the
      tuple equal to the child's. */
  predicate Reusable(n: NodeRec, tup: SigTuple) {
    n.nodename == tup.nodename && tup.reg.Some? && RegEquals(n.reg, tup.reg)
  }

  /** The last reusable child among cs. */
  function LastReusable(h: Heap, cs: seq<NodeId>, tup: SigTuple): (r: Option<NodeId>)
    requires forall k | 0 <= k < |cs| :: cs[k] in h
    ensures r.Some? ==> r.value in h
  {
    if cs == [] then None
    else if Reusable(h[cs[|cs| - 1]], tup) then Some(cs[|cs| - 1])
    else LastReusable(h, cs[..|cs| - 1], tup)
  }

  /** The search finds a child exactly when some child is reusable, and
      then finds the last one. */
  lemma {:induction false} LastReusableSpec(h: Heap, cs: seq<NodeId>, tup: SigTuple)
    requires forall k | 0 <= k < |cs| :: cs[k] in h
    ensures var r := LastReusable(h, cs, tup);
      && (r.None? ==> forall k | 0 <= k < |cs| :: !Reusable(h[cs[k]], tup))
      && (r.Some? ==> exists k | 0 <= k < |cs| ::
            cs[k] == r.value && Reusable(h[cs[k]], tup) && forall j | k < j < |cs| :: !Reusable(h[cs[j]], tup))
  {
    if cs != [] && !Reusable(h[cs[|cs| - 1]], tup) {
      var front := cs[..|cs| - 1];
      assert forall k | 0 <= k < |front| :: front[k] == cs[k];
      LastReusableSpec(h, front, tup);
    }
  }

  /** The node a child block is built into: the last reusable child of x,
      or a new last child of x from the block's tuple. */
  function ChildNode(st: Store, x: NodeId, tup: SigTuple): (m: Made)
    requires Tidy(st) && x in st.heap
    ensures Tidy(m.store) && Grown(st, m.store)
    ensures m.node.Ok? ==> m.node.value in m.store.heap
  {
    var cs := st.heap[x].children;
    assert forall k | 0 <= k < |cs| :: cs[k] in st.heap;
    match LastReusable(st.heap, cs, tup)
    case Some(c) => Made(st, Ok(c))
    case None => Create(st, NewRecord(Current, Some(x), tup.nodename, tup.handles, tup.ref, tup.reg), Some(x))
  }

  /** The reuse rule of `build_node`: when some child of x has the block's
      name and address, the block is built into the last such child and
      nothing is created; otherwise a new last child of x is created from
      the block's tuple. */
  lemma ChildReuse(st: Store, x: NodeId, tup: SigTuple)
    requires Tidy(st) && x in st.heap
    ensures var cs := st.heap[x].children; var m := ChildNode(st, x, tup);
      (exists k | 0 <= k < |cs| :: Reusable(st.heap[cs[k]], tup)) ==>
        && m.store == st && m.node.Ok?
        && exists k | 0 <= k < |cs| ::
             cs[k] == m.node.value && Reusable(st.heap[cs[k]], tup) && forall j | k < j < |cs| :: !Reusable(st.heap[cs[j]], tup)
    ensures var cs := st.heap[x].children;
      (forall k | 0 <= k < |cs| :: !Reusable(st.heap[cs[k]], tup)) ==>
        ChildNode(st, x, tup) == Create(st, NewRecord(Current, Some(x), tup.nodename, tup.handles, tup.ref, tup.reg), Some(x))
  {
    var cs := st.heap[x].children;
    assert forall k | 0 <= k < |cs| :: cs[k] in st.heap;
    LastReusableSpec(st.heap, cs, tup);
  }

  /** Finding or creating a node registers at most one node. */
  lemma TopCount(st: Store, tup: SigTuple)
    requires Tidy(st)
    ensures |TopNode(st, tup).store.entries| <= |st.entries| + 1
  {
    CreateSpec(st, NewRecord(Current, None, tup.nodename, tup.handles, tup.ref, tup.reg), None);
  }

  /** Finding or creating a child registers at most one node. */
  lemma ChildCount(st: Store, x: NodeId, tup: SigTuple)
    requires Tidy(st) && x in st.heap
    ensures |ChildNode(st, x, tup).store.entries| <= |st.entries| + 1
  {
    CreateSpec(st, NewRecord(Current, Some(x), tup.nodename, tup.handles, tup.ref, tup.reg), Some(x));
  }

  /** A child whose address was parsed as a number is never reused, and
      no child is reused for a block without an address: then a new node
      is made, or the creation fails. */
  lemma NoReuse(st: Store, x: NodeId, tup: SigTuple, c: NodeId)
    requires Tidy(st) && x in st.heap && c in st.heap[x].children
    ensures var m := ChildNode(st, x, tup);
      && (st.heap[c].reg.IntReg? ==> m.node != Ok(c))
      && (tup.reg.None? && m.node.Ok? ==> m.node.value !in st.heap)
  {
    var cs := st.heap[x].children;
    assert forall k | 0 <= k < |cs| :: cs[k] in st.heap;
    ChildReuse(st, x, tup);
    CreateSpec(st, NewRecord(Current, Some(x), tup.nodename, tup.handles, tup.ref, tup.reg), Some(x));
    if LastReusable(st.heap, cs, tup).Some? {
      var k :| 0 <= k < |cs| && cs[k] == LastReusable(st.heap, cs, tup).value && Reusable(st.heap[cs[k]], tup);
      assert !st.heap[cs[k]].reg.IntReg?;
    }
  }

  /** `build_node(x, block)`: the statements of the block's own lines,
      then each child block in order. */
  function BuildBlock(st: Store, x: NodeId, b: Scanner.Block): (r: Built)
    requires Tidy(st) && x in st.heap
    ensures Tidy(r.store) && Grown(st, r.store)
    decreases b, |b.subnodes| + 1
  {
    var o := OwnFrom(st, x, b.lines, 0, "");
    if o.outcome.Fail? then o else KidsFrom(o.store, x, b, 0)
  }

  /** The child loop of `build_node` from child block i on: the signature
      is parsed (ValueError when nothing matches), the child found or
      created, and the child block built into it. */
  function KidsFrom(st: Store, x: NodeId, b: Scanner.Block, i: nat): (r: Built)
    requires Tidy(st) && x in st.heap && i <= |b.subnodes|
    ensures Tidy(r.store) && Grown(st, r.store)
    decreases b, |b.subnodes| - i
  {
    if i == |b.subnodes| then Built(st, Pass)
    else
      var e := b.subnodes[i];
      assert e in b.subnodes;
      match MakeSigTuple(e.0)
      case Err(err) => Built(st, Fail(err))
      case Ok(tup) =>
        var m := ChildNode(st, x, tup);
        match m.node
        case Err(err) => Built(m.store, Fail(err))
        case Ok(y) =>
          var r := BuildBlock(m.store, y, e.1);
          GrownTrans(st, m.store, r.store);
          if r.outcome.Fail? then r
          else
            var rest := KidsFrom(r.store, x, b, i + 1);
            GrownTrans(st, r.store, rest.store);
            rest
  }

  /** One child block of `build_node` whose signature parses. */
  lemma KidsFromAt(st: Store, x: NodeId, b: Scanner.Block, i: nat, tup: SigTuple)
    requires Tidy(st) && x in st.heap && i < |b.subnodes| && MakeSigTuple(b.subnodes[i].0) == Ok(tup)
    ensures var m := ChildNode(st, x, tup);
      KidsFrom(st, x, b, i) ==
        if m.node.Err? then Built(m.store, Fail(m.node.error))
        else
          var r := BuildBlock(m.store, m.node.value, b.subnodes[i].1);
          if r.outcome.Fail? then r else KidsFrom(r.store, x, b, i + 1)
  {
  }

  // ----- build -----

  /** The node a top-level block is built into: the node
      `get_node_from_tuple` finds, and then nothing is created; otherwise
      a new parentless node from the tuple, registered last under a handle
      above every other. */
  function TopNode(st: Store, tup: SigTuple): (m: Made)
    requires Tidy(st)
    ensures Tidy(m.store) && Grown(st, m.store)
    ensures m.node.Ok? ==> m.node.value in m.store.heap
  {
    match FromTuple(st.heap, st.entries, tup)
    case Some(y) => Made(st, Ok(y))
    case None => Create(st, NewRecord(Current, None, tup.nodename, tup.handles, tup.ref, tup.reg), None)
  }

  /** The lookup half of `build()`'s rule: a node the registry finds for
      the tuple is used, and nothing is created. */
  lemma TopNodeFound(st: Store, tup: SigTuple)
    requires Tidy(st) && FromTuple(st.heap, st.entries, tup).Some?
    ensures TopNode(st, tup) == Made(st, Ok(FromTuple(st.heap, st.entries, tup).value))
  {
  }

  /** The create half: otherwise a new parentless node with the tuple's
      name, labels, reference and address is stored and registered last,
      under a handle above every other; a failure leaves the registry as it
      was. */
  lemma TopNodeCreated(st: Store, tup: SigTuple)
    requires Tidy(st) && FromTuple(st.heap, st.entries, tup).None?
    ensures var m := TopNode(st, tup);
      && (m.node.Ok? ==>
            && m.node.value !in st.heap
            && m.store.heap[m.node.value].parent.None?
            && m.store.heap[m.node.value].nodename == tup.nodename
            && m.store.heap[m.node.value].handles == tup.handles
            && m.store.heap[m.node.value].ref == tup.ref
            && m.store.heap[m.node.value].reg == ParseReg(tup.reg)
            && |m.store.entries| == |st.entries| + 1
            && m.store.entries[|st.entries|].id == m.node.value
            && forall i | 0 <= i < |st.entries| :: st.entries[i].key < m.store.entries[|st.entries|].key)
      && (m.node.Err? ==> m.store.entries == st.entries && (m.node.error.NodeSignatureError? || m.node.error == ValueError))
  {
    CreateSpec(st, NewRecord(Current, None, tup.nodename, tup.handles, tup.ref, tup.reg), None);
  }

  /** `build()` from top-level block i on. */
  function BuildAll(st: Store, ns: D.ODict<string, Scanner.Block>, i: nat): (r: Built)
    requires Tidy(st) && i <= |ns|
    ensures Tidy(r.store) && Grown(st, r.store)
    decreases |ns| - i
  {
    if i == |ns| then Built(st, Pass)
    else
      match MakeSigTuple(ns[i].0)
      case Err(err) => Built(st, Fail(err))
      case Ok(tup) =>
        var m := TopNode(st, tup);
        match m.node
        case Err(err) => Built(m.store, Fail(err))
        case Ok(y) =>
          var r := BuildBlock(m.store, y, ns[i].1);
          GrownTrans(st, m.store, r.store);
          if r.outcome.Fail? then r
          else
            var rest := BuildAll(r.store, ns, i + 1);
            GrownTrans(st, r.store, rest.store);
            rest
  }

  /** One top-level block of `build()` whose signature parses. */
  lemma BuildAllAt(st: Store, ns: D.ODict<string, Scanner.Block>, i: nat, tup: SigTuple)
    requires Tidy(st) && i < |ns| && MakeSigTuple(ns[i].0) == Ok(tup)
    ensures var m := TopNode(st, tup);
      BuildAll(st, ns, i) ==
        if m.node.Err? then Built(m.store, Fail(m.node.error))
        else
          var r := BuildBlock(m.store, m.node.value, ns[i].1);
          if r.outcome.Fail? then r else BuildAll(r.store, ns, i + 1)
  {
  }

  // ----- how much a build registers -----

  /** The number of blocks nested in a block. */
  function Descendants(b: Scanner.Block): nat
    decreases b, |b.subnodes| + 1
  {
    DescendantsFrom(b, 0)
  }

  function DescendantsFrom(b: Scanner.Block, i: nat): nat
    requires i <= |b.subnodes|
    decreases b, |b.subnodes| - i
  {
    if i == |b.subnodes| then 0
    else
      var e := b.subnodes[i];
      assert e in b.subnodes;
      1 + Descendants(e.1) + DescendantsFrom(b, i + 1)
  }

  /** Building a block registers at most one node per nested block. */
  lemma {:induction false} BuildCount(st: Store, x: NodeId, b: Scanner.Block)
    requires Tidy(st) && x in st.heap
    ensures |BuildBlock(st, x, b).store.entries| <= |st.entries| + Descendants(b)
    decreases b, |b.subnodes| + 1
  {
    var o := OwnFrom(st, x, b.lines, 0, "");
    if o.outcome == Pass {
      KidsCount(o.store, x, b, 0);
    }
  }

  lemma {:induction false} KidsCount(st: Store, x: NodeId, b: Scanner.Block, i: nat)
    requires Tidy(st) && x in st.heap && i <= |b.subnodes|
    ensures |KidsFrom(st, x, b, i).store.entries| <= |st.entries| + DescendantsFrom(b, i)
    decreases b, |b.subnodes| - i
  {
    if i < |b.subnodes| {
      var e := b.subnodes[i];
      assert e in b.subnodes;
      match MakeSigTuple(e.0)
      case Err(err) =>
      case Ok(tup) =>
        var m := ChildNode(st, x, tup);
        ChildCount(st, x, tup);
        KidsFromAt(st, x, b, i, tup);
        match m.node
        case Err(err) =>
        case Ok(y) =>
          BuildCount(m.store, y, e.1);
          var r := BuildBlock(m.store, y, e.1);
          if r.outcome == Pass {
            KidsCount(r.store, x, b, i + 1);
          }
    }
  }

  /** The number of blocks, top-level ones included, from block i on. */
  function BlocksFrom(ns: D.ODict<string, Scanner.Block>, i: nat): nat
    requires i <= |ns|
    decreases |ns| - i
  {
    if i == |ns| then 0 else 1 + Descendants(ns[i].1) + BlocksFrom(ns, i + 1)
  }

  /** `build()` registers at most one node per block, and only appends to
      the registry. */
  lemma {:induction false} BuildAllCount(st: Store, ns: D.ODict<string, Scanner.Block>, i: nat)
    requires Tidy(st) && i <= |ns|
    ensures |BuildAll(st, ns, i).store.entries| <= |st.entries| + BlocksFrom(ns, i)
    decreases |ns| - i
  {
    if i < |ns| {
      match MakeSigTuple(ns[i].0)
      case Err(err) =>
      case Ok(tup) =>
        var m := TopNode(st, tup);
        TopCount(st, tup);
        BuildAllAt(st, ns, i, tup);
        match m.node
        case Err(err) =>
        case Ok(y) =>
          BuildCount(m.store, y, ns[i].1);
          var r := BuildBlock(m.store, y, ns[i].1);
          if r.outcome == Pass {
            BuildAllCount(r.store, ns, i + 1);
          }
    }
  }

  // ----- the importer object -----

  /** The loop of `build_node` over a node's children that keeps the last
      child with the tuple's name and address. */
  method ReusableChild(h: Heap, cs: seq<NodeId>, tup: SigTuple) returns (child: Option<NodeId>)
    requires forall k | 0 <= k < |cs| :: cs[k] in h
    ensures child == LastReusable(h, cs, tup)
  {
    child := None;
    for i := 0 to |cs|
      invariant child == LastReusable(h, cs[..i], tup)
    {
      assert cs[..i + 1][..i] == cs[..i];
      var c := cs[i];
      if h[c].nodename == tup.nodename {
        if tup.reg.Some? && RegEquals(h[c].reg, tup.reg) {
          child := Some(c);
        }
      }
    }
    assert cs[..|cs|] == cs;
  }

  /** `DtImporter(filename)`: the file's lines (read elsewhere, without
      their line ends), the top-level blocks found so far, and a new
      current tree named after the file. */
  class DtImporter {
    const filename: string
    var dtVersion: int
    /** `_data`, a list the comment remover rewrites in place. */
    const data: Comments.Lines
    var nodestrs: D.ODict<string, Scanner.Block>
    const dt: DeviceTree

    ghost predicate Valid()
      reads this, dt
    {
      dt.Valid() && dt.dialect == Current
    }

    constructor(name: string, lines: seq<string>)
      ensures Valid() && fresh(dt) && fresh(data)
      ensures filename == name && dtVersion == 1 && data.items == lines && nodestrs == []
      ensures dt.Fields() == Header(Some(name), 1, [], [], [])
      ensures Snap(dt) == Store(map[0 := RootRecord(Current)], [Entry(0, 0)], 1)
    {
      filename := name;
      dtVersion := 1;
      nodestrs := [];
      var t := new DeviceTree(Current, PyDtsTool);
      t.filename := Some(name);
      dt := t;
      data := new Comments.Lines(lines);
    }

    /** `extract_gcc()`: every line is searched for an include or define;
        only the tree's include list and define table change. */
    method ExtractGcc() returns (r: Outcome)
      requires Valid()
      modifies dt
      ensures Valid() && Snap(dt) == old(Snap(dt))
      ensures dt.filename == old(dt.filename) && dt.dtsVersion == old(dt.dtsVersion) && dt.dtcSpecial == old(dt.dtcSpecial)
      ensures Gcc(dt.gccInclude, dt.gccDefine, r) == GccFrom(data.items, 0, old(dt.gccInclude), old(dt.gccDefine))
    {
      var lines := data.items;
      for i := 0 to |lines|
        invariant Valid() && Snap(dt) == old(Snap(dt))
        invariant dt.filename == old(dt.filename) && dt.dtsVersion == old(dt.dtsVersion) && dt.dtcSpecial == old(dt.dtcSpecial)
        invariant GccFrom(lines, i, dt.gccInclude, dt.gccDefine) == GccFrom(lines, 0, old(dt.gccInclude), old(dt.gccDefine))
      {
        var m := GccSearch(lines[i], 0);
        match m
        case None =>
        case Some(IncludeHit(v)) =>
          dt.gccInclude := dt.gccInclude + [v];
        case Some(DefineHit(v)) =>
          var defn := SplitWs(v);
          if defn == [] {
            return Fail(IndexError);
          }
          dt.gccDefine := D.Put(dt.gccDefine, defn[0], DefStr(Join(defn[1..], " ")));
      }
      return Pass;
    }

    /** `extract_nodes()`: only the blocks by signature change. A stray
        `};` at top level, where the original loops for ever, ends the
        model with Diverges. */
    method ExtractNodes() returns (r: Outcome)
      requires Valid()
      modifies this
      ensures Valid() && dtVersion == old(dtVersion)
      ensures Extracted(nodestrs, r) == Extract(data.items, old(nodestrs))
    {
      var data0 := data.items;
      var lines := data0;
      var i := 0;
      var datalen := |lines|;
      assert lines[0..] == lines;
      while datalen > 0 && i < datalen
        invariant datalen == |lines| && i <= |lines|
        invariant Extract(lines[i..], nodestrs) == Extract(data0, old(nodestrs))
        invariant Valid() && dtVersion == old(dtVersion)
        decreases Scanner.Weight(lines[i..])
      {
        var m := Scanner.NodeMatch(Legacy, lines[i]);
        ExtractAt(lines, i, nodestrs);
        match m
        case Some(Opens(sig, extra)) =>
          Scanner.OpensStep(Legacy, lines, i, Scanner.Empty, sig, extra);
          var prior := D.Lookup(nodestrs, sig).GetOr(Scanner.Empty);
          if !D.Has(nodestrs, sig) {
            nodestrs := D.Put(nodestrs, sig, Scanner.Empty);
          }
          var sub := Scanner.CollectChild(Legacy, lines, i, extra);
          if sub.Err? {
            return Fail(sub.error);
          }
          lines := sub.value.0;
          nodestrs := D.Put(nodestrs, sig, Scanner.MergeBlock(prior, sub.value.1));
          datalen := |lines|;
          i := 0;
          assert lines[0..] == lines;
        case Some(Closes) =>
          return Fail(Diverges);
        case None =>
          Scanner.WeightSplit(lines, i);
          i := i + 1;
      }
      assert lines[i..] == [];
      return Pass;
    }

    /** `parse(comments)`: the comments are removed from the lines in place
        unless asked to keep them, then the includes and defines are taken,
        then the blocks; the check that the comment remover returned the
        same list compares the list with itself. */
    method Parse(comments: bool) returns (r: Outcome)
      requires Valid()
      modifies this, data, dt
      ensures Valid() && dtVersion == old(dtVersion) && Snap(dt) == old(Snap(dt))
      ensures dt.filename == old(dt.filename) && dt.dtsVersion == old(dt.dtsVersion) && dt.dtcSpecial == old(dt.dtcSpecial)
      ensures data.items == if comments then old(data.items) else Comments.Uncommented(Legacy, old(data.items))
      ensures var g := GccFrom(data.items, 0, old(dt.gccInclude), old(dt.gccDefine));
        && dt.gccInclude == g.includes && dt.gccDefine == g.defines
        && (g.outcome.Fail? ==> r == g.outcome && nodestrs == old(nodestrs))
        && (g.outcome == Pass ==> Extracted(nodestrs, r) == Extract(data.items, old(nodestrs)))
    {
      if !comments {
        var same := Comments.RemoveComments(Legacy, data);
      }
      r := ExtractGcc();
      if r.Fail? { return; }
      r := ExtractNodes();
    }

    /** The statement loop of `build_node`. */
    method ApplyLines(x: NodeId, lines: seq<string>) returns (r: Outcome)
      requires Valid() && x in dt.heap
      modifies dt
      ensures Valid() && dt.Fields() == old(dt.Fields()) && x in dt.heap
      ensures Built(Snap(dt), r) == OwnFrom(old(Snap(dt)), x, lines, 0, "")
    {
      ghost var st0 := Snap(dt);
      var agLine := "";
      for i := 0 to |lines|
        invariant Valid() && dt.Fields() == old(dt.Fields()) && x in dt.heap
        invariant OwnFrom(Snap(dt), x, lines, i, agLine) == OwnFrom(st0, x, lines, 0, "")
      {
        agLine := agLine + Strip(lines[i]);
        if EndsWith(lines[i], ";") {
          agLine := Chop(agLine);
          r := ApplyStatement(x, StatementOf(agLine));
          if r.Fail? { return; }
          agLine := "";
        }
      }
      return Pass;
    }

    /** One statement of a node body, applied to the node. */
    method ApplyStatement(x: NodeId, stmt: Statement) returns (r: Outcome)
      requires Valid() && x in dt.heap
      modifies dt
      ensures Valid() && dt.Fields() == old(dt.Fields())
      ensures Built(Snap(dt), r) == Apply(old(Snap(dt)), x, stmt)
    {
      match stmt
      case Assign(name, tail) =>
        var v := Lexer.ParseProperty(tail);
        r := dt.SetNodeProperty(x, name, v);
      case Flag(name) =>
        r := dt.SetNodeProperty(x, name, VNone);
      case Directive(tag, tail) =>
        r := dt.AddNodeDirective(x, tag, tail);
      case NoStatement =>
        r := Pass;
    }

    /** `build_node(x, block)`. */
    method BuildNode(x: NodeId, b: Scanner.Block) returns (r: Outcome)
      requires Valid() && x in dt.heap
      modifies dt
      ensures Valid() && dt.Fields() == old(dt.Fields())
      ensures Built(Snap(dt), r) == BuildBlock(old(Snap(dt)), x, b)
      decreases b, 1
    {
      r := ApplyLines(x, b.lines);
      if r.Fail? { return; }
      r := BuildChildren(x, b);
    }

    /** The child step of `build_node`: the last child with the block's
        name and address, or a new child. */
    method ChildFor(x: NodeId, tup: SigTuple) returns (r: Result<NodeId>)
      requires Valid() && x in dt.heap
      modifies dt
      ensures Valid() && dt.Fields() == old(dt.Fields())
      ensures Made(Snap(dt), r) == ChildNode(old(Snap(dt)), x, tup)
    {
      var cs := dt.heap[x].children;
      assert forall k | 0 <= k < |cs| :: cs[k] in dt.heap;
      var child := ReusableChild(dt.heap, cs, tup);
      if child.Some? {
        return Ok(child.value);
      }
      r := NewNodeFrom(dt, Some(x), tup);
    }

    /** The child loop of `build_node`. */
    method BuildChildren(x: NodeId, b: Scanner.Block) returns (r: Outcome)
      requires Valid() && x in dt.heap
      modifies dt
      ensures Valid() && dt.Fields() == old(dt.Fields())
      ensures Built(Snap(dt), r) == KidsFrom(old(Snap(dt)), x, b, 0)
      decreases b, 0
    {
      ghost var st0 := Snap(dt);
      for i := 0 to |b.subnodes|
        invariant Valid() && dt.Fields() == old(dt.Fields()) && x in dt.heap
        invariant KidsFrom(Snap(dt), x, b, i) == KidsFrom(st0, x, b, 0)
      {
        var e := b.subnodes[i];
        assert e in b.subnodes;
        var tup := MakeSigTuple(e.0);
        if tup.Err? {
          return Fail(tup.error);
        }
        KidsFromAt(Snap(dt), x, b, i, tup.value);
        var made := ChildFor(x, tup.value);
        if made.Err? {
          return Fail(made.error);
        }
        var y := made.value;
        r := BuildNode(y, e.1);
        if r.Fail? {
          return;
        }
      }
      return Pass;
    }

    /** The lookup-or-create step of `build()`. */
    method FindOrCreate(tup: SigTuple) returns (r: Result<NodeId>)
      requires Valid()
      modifies dt
      ensures Valid() && dt.Fields() == old(dt.Fields())
      ensures Made(Snap(dt), r) == TopNode(old(Snap(dt)), tup)
    {
      var node := dt.GetNodeFromTuple(tup);
      if node.Some? {
        return Ok(node.value);
      }
      r := NewNodeFrom(dt, None, tup);
    }

    /** `build()`: every top-level block, in order, into the node the
        registry finds for its signature or a new parentless node. */
    method Build() returns (r: Outcome)
      requires Valid()
      modifies dt
      ensures Valid() && dt.Fields() == old(dt.Fields())
      ensures Built(Snap(dt), r) == BuildAll(old(Snap(dt)), nodestrs, 0)
    {
      ghost var st0 := Snap(dt);
      var ns := nodestrs;
      for i := 0 to |ns|
        invariant Valid() && dt.Fields() == old(dt.Fields())
        invariant BuildAll(Snap(dt), ns, i) == BuildAll(st0, ns, 0)
      {
        var tup := MakeSigTuple(ns[i].0);
        if tup.Err? {
          return Fail(tup.error);
        }
        BuildAllAt(Snap(dt), ns, i, tup.value);
        var made := FindOrCreate(tup.value);
        if made.Err? {
          return Fail(made.error);
        }
        r := BuildNode(made.value, ns[i].1);
        if r.Fail? {
          return;
        }
      }
      return Pass;
    }
  }
}
