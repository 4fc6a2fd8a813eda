/** Python string operations used by the toolkit, over seq<char>. */
module Text {
  import opened Wrappers

  /** str.isspace() for one character (Python's whitespace set). */
  predicate IsSpace(c: char) {
    var n := c as int;
    (9 <= n <= 13) || (28 <= n <= 32) || n == 0x85 || n == 0xA0 || n == 0x1680
    || (0x2000 <= n <= 0x200A) || n == 0x2028 || n == 0x2029 || n == 0x202F
    || n == 0x205F || n == 0x3000
  }

  /** The regex class \w, restricted to ASCII letters, digits and the underscore. */
  predicate IsWord(c: char) {
    ('a' <= c <= 'z') || ('A' <= c <= 'Z') || ('0' <= c <= '9') || c == '_'
  }

  predicate IsDigit(c: char) { '0' <= c <= '9' }

  predicate IsHexDigit(c: char) {
    ('0' <= c <= '9') || ('a' <= c <= 'f') || ('A' <= c <= 'F')
  }

  predicate AllSpace(s: string) { forall i | 0 <= i < |s| :: IsSpace(s[i]) }

  /** Number of leading characters of s[from..] satisfying p. */
  function SpanWhile(s: string, from: nat, p: char -> bool): (n: nat)
    requires from <= |s|
    ensures from + n <= |s|
    ensures forall k | from <= k < from + n :: p(s[k])
    ensures from + n == |s| || !p(s[from + n])
    decreases |s| - from
  {
    if from == |s| || !p(s[from]) then 0 else 1 + SpanWhile(s, from + 1, p)
  }

  /** str.lstrip() */
  function LStrip(s: string): (r: string)
    ensures |r| <= |s|
    ensures r == [] || !IsSpace(r[0])
  {
    if s == [] then [] else if IsSpace(s[0]) then LStrip(s[1..]) else s
  }

  /** What str.lstrip() removes is leading whitespace: the result is a suffix
      of s and everything before it is whitespace. */
  lemma {:induction false} LStripSuffix(s: string)
    ensures var r := LStrip(s); r == s[|s| - |r|..] && AllSpace(s[..|s| - |r|])
  {
    if s != [] && IsSpace(s[0]) {
      LStripSuffix(s[1..]);
      var r := LStrip(s);
      assert s[1..][|s| - 1 - |r|..] == s[|s| - |r|..];
      forall k | 1 <= k < |s| - |r| ensures IsSpace(s[k]) {
        assert s[k] == s[1..][..|s| - 1 - |r|][k - 1];
      }
    }
  }

  /** str.rstrip() */
  function RStrip(s: string): (r: string)
    ensures |r| <= |s|
    ensures r == [] || !IsSpace(r[|r| - 1])
  {
    if s == [] then [] else if IsSpace(s[|s| - 1]) then RStrip(s[..|s| - 1]) else s
  }

  /** What str.rstrip() removes is trailing whitespace: the result is a prefix
      of s and everything after it is whitespace. */
  lemma {:induction false} RStripPrefix(s: string)
    ensures var r := RStrip(s); r == s[..|r|] && AllSpace(s[|r|..])
  {
    if s != [] && IsSpace(s[|s| - 1]) {
      var t := s[..|s| - 1];
      RStripPrefix(t);
      var r := RStrip(s);
      assert t[..|r|] == s[..|r|];
      assert forall k | 0 <= k < |t| - |r| :: t[|r|..][k] == s[|r|..][k];
    }
  }

  /** str.strip() */
  function Strip(s: string): (r: string)
    ensures r == [] || (!IsSpace(r[0]) && !IsSpace(r[|r| - 1]))
  {
    var l := LStrip(s);
    RStripPrefix(l);
    assert RStrip(l) != [] ==> RStrip(l)[0] == l[0];
    RStrip(l)
  }

  lemma StripEmptyIffAllSpace(s: string)
    ensures Strip(s) == [] <==> AllSpace(s)
  {
    var l := LStrip(s);
    LStripSuffix(s);
    RStripPrefix(l);
    assert l[0..] == l;
    assert s[..|s|] == s;
    assert l != [] ==> l[0] == s[|s| - |l|];
  }

  /** A string with no whitespace at either end is its own strip(). */
  lemma StripClean(s: string)
    requires s == [] || (!IsSpace(s[0]) && !IsSpace(s[|s| - 1]))
    ensures Strip(s) == s
  {
  }

  /** str.lstrip(chars) for an explicit set of characters. */
  function LStripChars(s: string, chars: set<char>): (r: string)
    ensures |r| <= |s|
    ensures r == [] || r[0] !in chars
  {
    if s == [] then [] else if s[0] in chars then LStripChars(s[1..], chars) else s
  }

  predicate StartsWith(s: string, prefix: string) {
    |prefix| <= |s| && s[..|prefix|] == prefix
  }

  predicate EndsWith(s: string, suffix: string) {
    |suffix| <= |s| && s[|s| - |suffix|..] == suffix
  }

  /** sep.join(parts) */
  function Join(parts: seq<string>, sep: string): (r: string)
  {
    if parts == [] then [] else if |parts| == 1 then parts[0] else parts[0] + sep + Join(parts[1..], sep)
  }

  /** A join of non-empty parts starts with the first part's first
      character and ends with the last part's last character. */
  lemma {:induction false} JoinEnds(parts: seq<string>, sep: string)
    requires parts != [] && forall i | 0 <= i < |parts| :: parts[i] != []
    ensures |Join(parts, sep)| >= |parts[0]| && Join(parts, sep)[0] == parts[0][0]
    ensures var j := Join(parts, sep); var z := parts[|parts| - 1]; j[|j| - 1] == z[|z| - 1]
  {
    if |parts| > 1 {
      var j := Join(parts[1..], sep);
      JoinEnds(parts[1..], sep);
      assert parts[1..][|parts[1..]| - 1] == parts[|parts| - 1];
      var h := parts[0] + sep;
      assert Join(parts, sep) == h + j;
      assert (h + j)[|h + j| - 1] == j[|j| - 1];
    }
  }

  /** A join of two or more parts is longer than its first part. */
  lemma JoinLonger(parts: seq<string>, sep: string)
    requires |parts| > 1 && |sep| > 0
    ensures |Join(parts, sep)| >= |parts[0]| + |sep|
  {
  }

  /** Each part followed by sep, concatenated. */
  function JoinTerminated(parts: seq<string>, sep: string): string
  {
    if parts == [] then [] else parts[0] + sep + JoinTerminated(parts[1..], sep)
  }

  lemma {:induction false} JoinPlusSep(parts: seq<string>, sep: string)
    requires parts != []
    ensures Join(parts, sep) + sep == JoinTerminated(parts, sep)
  {
    if |parts| > 1 {
      JoinPlusSep(parts[1..], sep);
      assert Join(parts, sep) + sep == parts[0] + sep + (Join(parts[1..], sep) + sep);
    }
  }

  /** One more part, followed by sep. */
  lemma {:induction false} JoinTerminatedSnoc(parts: seq<string>, x: string, sep: string)
    ensures JoinTerminated(parts + [x], sep) == JoinTerminated(parts, sep) + x + sep
    decreases |parts|
  {
    if parts == [] {
      assert [x][1..] == [];
    } else {
      assert (parts + [x])[1..] == parts[1..] + [x];
      JoinTerminatedSnoc(parts[1..], x, sep);
    }
  }

  /** The parts one after another. */
  function Concat(parts: seq<string>): string
  {
    if parts == [] then [] else parts[0] + Concat(parts[1..])
  }

  lemma {:induction false} ConcatSnoc(parts: seq<string>, x: string)
    ensures Concat(parts + [x]) == Concat(parts) + x
    decreases |parts|
  {
    if parts == [] {
      assert [x][1..] == [];
    } else {
      assert (parts + [x])[1..] == parts[1..] + [x];
      ConcatSnoc(parts[1..], x);
    }
  }

  predicate OccursAt(s: string, sub: string, k: nat) {
    k + |sub| <= |s| && s[k..k + |sub|] == sub
  }

  /** Index of the first occurrence of sub in s at or after from, if any. */
  function Find(s: string, sub: string, from: nat): (r: Option<nat>)
    requires |sub| > 0 && from <= |s|
    ensures r.Some? ==> from <= r.value && OccursAt(s, sub, r.value)
    ensures r.Some? ==> forall k | from <= k < r.value :: !OccursAt(s, sub, k)
    ensures r.None? ==> forall k | from <= k :: !OccursAt(s, sub, k)
    decreases |s| - from
  {
    if from + |sub| > |s| then None
    else if s[from..from + |sub|] == sub then Some(from)
    else Find(s, sub, from + 1)
  }

  /** str.split(sep) for a non-empty separator. */
  function Split(s: string, sep: string): (r: seq<string>)
    requires |sep| > 0
    ensures |r| >= 1
    decreases |s|
  {
    match Find(s, sep, 0)
    case None => [s]
    case Some(i) => [s[..i]] + Split(s[i + |sep|..], sep)
  }

  /** Splitting a run of ": "-terminated parts that contain no ':' gives the
      parts back, followed by the empty remainder. */
  lemma {:induction false} SplitJoinTerminated(parts: seq<string>)
    requires forall p | p in parts :: ':' !in p
    ensures Split(JoinTerminated(parts, ": "), ": ") == parts + [""]
  {
    var s := JoinTerminated(parts, ": ");
    if parts == [] {
      assert Find(s, ": ", 0).None?;
    } else {
      var p := parts[0];
      assert s == p + ": " + JoinTerminated(parts[1..], ": ");
      assert s[|p|..|p| + 2] == ": ";
      forall k | 0 <= k < |p| ensures !OccursAt(s, ": ", k) {
        assert s[k] == p[k] && p[k] in p;
      }
      assert OccursAt(s, ": ", |p|);
      assert Find(s, ": ", 0) == Some(|p|);
      assert s[..|p|] == p;
      assert s[|p| + 2..] == JoinTerminated(parts[1..], ": ");
      SplitJoinTerminated(parts[1..]);
      assert parts == [p] + parts[1..];
    }
  }

  /** Splitting a join on a one-character separator that occurs in none of
      the parts gives the parts back. */
  lemma {:induction false} SplitJoin(parts: seq<string>, c: char)
    requires |parts| > 0 && forall p | p in parts :: c !in p
    ensures Split(Join(parts, [c]), [c]) == parts
  {
    var s := Join(parts, [c]);
    var p := parts[0];
    forall k | 0 <= k < |p| ensures !OccursAt(s, [c], k) {
      assert s[k] == p[k] && p[k] in p;
    }
    if |parts| == 1 {
      assert s == p;
      assert Find(s, [c], 0).None?;
    } else {
      assert s == p + [c] + Join(parts[1..], [c]);
      assert OccursAt(s, [c], |p|);
      assert Find(s, [c], 0) == Some(|p|);
      assert s[..|p|] == p;
      assert s[|p| + 1..] == Join(parts[1..], [c]);
      SplitJoin(parts[1..], c);
      assert parts == [p] + parts[1..];
    }
  }

  /** Joining one more part. */
  lemma {:induction false} JoinSnoc(parts: seq<string>, x: string, sep: string)
    requires |parts| > 0
    ensures Join(parts + [x], sep) == Join(parts, sep) + sep + x
  {
    if |parts| == 1 {
      assert (parts + [x])[1..] == [x];
    } else {
      assert (parts + [x])[1..] == parts[1..] + [x];
      JoinSnoc(parts[1..], x, sep);
    }
  }

  predicate NotSpace(c: char) { !IsSpace(c) }

  /** Number of leading non-whitespace characters of s[from..]. */
  function WordLen(s: string, from: nat): (n: nat)
    requires from <= |s|
    ensures from + n <= |s|
    decreases |s| - from
  {
    if from == |s| || IsSpace(s[from]) then 0 else 1 + WordLen(s, from + 1)
  }

  /** str.split() with no argument: maximal runs of non-whitespace. */
  function SplitWs(s: string): (r: seq<string>)
    decreases |s|
  {
    if s == [] then []
    else if IsSpace(s[0]) then SplitWs(s[1..])
    else
      var n := WordLen(s, 0);
      [s[..n]] + SplitWs(s[n..])
  }

  /** s.replace(c, '') */
  function RemoveChar(s: string, c: char): (r: string)
    ensures c !in r
  {
    if s == [] then [] else (if s[0] == c then [] else [s[0]]) + RemoveChar(s[1..], c)
  }

  lemma {:induction false} RemoveCharAppend(a: string, b: string, c: char)
    ensures RemoveChar(a + b, c) == RemoveChar(a, c) + RemoveChar(b, c)
  {
    if a != [] {
      assert (a + b)[1..] == a[1..] + b;
      RemoveCharAppend(a[1..], b, c);
    } else {
      assert a + b == b;
    }
  }

  lemma RemoveCharFree(s: string, c: char)
    requires c !in s
    ensures RemoveChar(s, c) == s
  {
    if s != [] { assert c !in s[1..]; RemoveCharFree(s[1..], c); }
  }

  // ----- numbers -----

  function HexChar(d: nat): char
    requires d < 16
  {
    if d < 10 then ('0' as int + d) as char else ('a' as int + d - 10) as char
  }

  function DigitValue(c: char): (v: nat)
    requires IsHexDigit(c)
    ensures v < 16
  {
    if '0' <= c <= '9' then c as int - '0' as int
    else if 'a' <= c <= 'f' then c as int - 'a' as int + 10
    else c as int - 'A' as int + 10
  }

  /** Lower-case hexadecimal digits of n with no leading zero ("0" for zero). */
  function HexDigits(n: nat): (r: string)
    ensures |r| > 0 && forall i | 0 <= i < |r| :: IsHexDigit(r[i])
    ensures n > 0 ==> r[0] != '0'
    decreases n
  {
    if n < 16 then [HexChar(n)] else HexDigits(n / 16) + [HexChar(n % 16)]
  }

  /** hex(i) */
  function PyHex(i: int): string
  {
    if i < 0 then "-0x" + HexDigits(-i) else "0x" + HexDigits(i)
  }

  /** hex(i)[2:], as the signature printer writes a unit address. */
  function HexAddress(i: int): (r: string)
    ensures i >= 0 ==> r == HexDigits(i)
  {
    PyHex(i)[2..]
  }

  function DecDigits(n: nat): (r: string)
    ensures |r| > 0
    decreases n
  {
    if n < 10 then [('0' as int + n) as char] else DecDigits(n / 10) + [('0' as int + n % 10) as char]
  }

  /** str(i) for an integer */
  function PyStrInt(i: int): string
  {
    if i < 0 then "-" + DecDigits(-i) else DecDigits(i)
  }

  /** Value of a sequence of hexadecimal digits, most significant first. */
  function HexValue(s: string): nat
    requires forall i | 0 <= i < |s| :: IsHexDigit(s[i])
  {
    if s == [] then 0 else HexValue(s[..|s| - 1]) * 16 + DigitValue(s[|s| - 1])
  }

  lemma {:induction false} HexValueOfDigits(n: nat)
    ensures HexValue(HexDigits(n)) == n
    decreases n
  {
    var r := HexDigits(n);
    if n >= 16 {
      HexValueOfDigits(n / 16);
      assert r[..|r| - 1] == HexDigits(n / 16);
    }
  }

  /** Digits with single underscores between them, as int() accepts them. */
  predicate UnderscoredHex(s: string) {
    && |s| > 0 && IsHexDigit(s[0]) && IsHexDigit(s[|s| - 1])
    && (forall i | 0 <= i < |s| :: IsHexDigit(s[i]) || s[i] == '_')
    && (forall i | 0 <= i < |s| - 1 :: !(s[i] == '_' && s[i + 1] == '_'))
  }

  function DropUnderscores(s: string): (r: string)
    requires forall i | 0 <= i < |s| :: IsHexDigit(s[i]) || s[i] == '_'
    ensures forall i | 0 <= i < |r| :: IsHexDigit(r[i])
  {
    if s == [] then [] else (if s[0] == '_' then [] else [s[0]]) + DropUnderscores(s[1..])
  }

  /** int(s, 16): surrounding whitespace, an optional sign, an optional 0x
      prefix (which may be followed by one underscore), then hexadecimal
      digits with single underscores between them. None where Python raises
      ValueError. */
  function ParseHex(s: string): (r: Option<int>)
  {
    var t := Strip(s);
    var neg := |t| > 0 && t[0] == '-';
    var u := if |t| > 0 && (t[0] == '-' || t[0] == '+') then t[1..] else t;
    var body :=
      if |u| >= 2 && u[0] == '0' && (u[1] == 'x' || u[1] == 'X') then
        (if |u| >= 3 && u[2] == '_' then u[3..] else u[2..])
      else u;
    if UnderscoredHex(body) then
      var v: int := HexValue(DropUnderscores(body));
      Some(if neg then -v else v)
    else None
  }

  lemma DropUnderscoresFree(s: string)
    requires forall i | 0 <= i < |s| :: IsHexDigit(s[i])
    ensures DropUnderscores(s) == s
  {
  }

  lemma HexDigitsNotSpace(n: nat)
    ensures Strip(HexDigits(n)) == HexDigits(n)
  {
    var r := HexDigits(n);
    assert !IsSpace(r[0]) && !IsSpace(r[|r| - 1]);
  }

  /** A canonical hexadecimal address parses back to its value. */
  lemma {:induction false} ParseHexDigits(n: nat)
    ensures ParseHex(HexDigits(n)) == Some(n)
  {
    var r := HexDigits(n);
    HexDigitsNotSpace(n);
    assert r[0] != '-' && r[0] != '+';
    assert n == 0 ==> r == "0";
    assert !(|r| >= 2 && r[0] == '0');
    assert UnderscoredHex(r);
    DropUnderscoresFree(r);
    HexValueOfDigits(n);
  }
}
