/** Typed device-tree properties: the factory that picks a property kind from
    a value, the type test used when a property is overwritten, and the DTS
    text a property prints as. Both generations of the toolkit are covered;
    they differ in how a tuple is rendered, in the tuple constructor and in
    how a string list prints. */
module Properties {
  import opened Wrappers
  import opened Text

  /** Current is the pyDtsTool package; Legacy is the older device_tree
      package. */
  datatype Dialect = Current | Legacy

  /** The Python values a caller may hand to the factory. A tuple is a tuple
      of strings (its cells); anything else is VOther. */
  datatype Value =
    | VNone
    | VBool(b: bool)
    | VInt(i: int)
    | VStr(s: string)
    | VTuple(cells: seq<string>)
    | VList(items: seq<Value>)
    | VOther

  /** One variant per property class. */
  datatype PValue =
    | PBool
    | PInt(i: int)
    | PStr(s: string)
    | PTuple(cells: seq<string>)
    | PIntList(ints: seq<int>)
    | PStrList(strs: seq<string>)
    | PTupleList(tuples: seq<seq<string>>)

  datatype Property = Property(name: string, value: PValue)

  /** List properties are never empty: the factory refuses an empty list. */
  predicate WellFormed(v: PValue) {
    match v
    case PIntList(xs) => |xs| > 0
    case PStrList(xs) => |xs| > 0
    case PTupleList(xs) => |xs| > 0
    case _ => true
  }

  predicate IsListKind(v: PValue) {
    v.PIntList? || v.PStrList? || v.PTupleList?
  }

  // ----- homogeneous list conversions -----

  function Ints(items: seq<Value>): (r: Option<seq<int>>)
    ensures r.Some? <==> forall k | 0 <= k < |items| :: items[k].VInt?
    ensures r.Some? ==> |r.value| == |items| && forall k | 0 <= k < |items| :: items[k] == VInt(r.value[k])
  {
    if items == [] then Some([])
    else if !items[0].VInt? then None
    else match Ints(items[1..])
      case None => None
      case Some(rest) => Some([items[0].i] + rest)
  }

  function Strs(items: seq<Value>): (r: Option<seq<string>>)
    ensures r.Some? <==> forall k | 0 <= k < |items| :: items[k].VStr?
    ensures r.Some? ==> |r.value| == |items| && forall k | 0 <= k < |items| :: items[k] == VStr(r.value[k])
  {
    if items == [] then Some([])
    else if !items[0].VStr? then None
    else match Strs(items[1..])
      case None => None
      case Some(rest) => Some([items[0].s] + rest)
  }

  function Tuples(items: seq<Value>): (r: Option<seq<seq<string>>>)
    ensures r.Some? <==> forall k | 0 <= k < |items| :: items[k].VTuple?
    ensures r.Some? ==> |r.value| == |items| && forall k | 0 <= k < |items| :: items[k] == VTuple(r.value[k])
  {
    if items == [] then Some([])
    else if !items[0].VTuple? then None
    else match Tuples(items[1..])
      case None => None
      case Some(rest) => Some([items[0].cells] + rest)
  }

  // ----- the factory -----

  /** The values the factory accepts, stated independently of it: None or a
      bool, an int, a string, a tuple (the legacy tuple constructor forwards
      too few arguments to its base class and so always raises), or a
      non-empty list whose elements are all ints, all strings or all tuples. */
  predicate Accepted(d: Dialect, v: Value) {
    || v.VNone? || v.VBool? || v.VInt? || v.VStr?
    || (v.VTuple? && d == Current)
    || (v.VList? && |v.items| > 0 &&
        (|| (forall k | 0 <= k < |v.items| :: v.items[k].VInt?)
         || (forall k | 0 <= k < |v.items| :: v.items[k].VStr?)
         || (forall k | 0 <= k < |v.items| :: v.items[k].VTuple?)))
  }

  /** The value a property reports (`property_value`); a bool property
      reports True. */
  function PropertyValue(v: PValue): (r: Value)
  {
    match v
    case PBool => VBool(true)
    case PInt(i) => VInt(i)
    case PStr(s) => VStr(s)
    case PTuple(cells) => VTuple(cells)
    case PIntList(xs) => VList(seq(|xs|, k requires 0 <= k < |xs| => VInt(xs[k])))
    case PStrList(xs) => VList(seq(|xs|, k requires 0 <= k < |xs| => VStr(xs[k])))
    case PTupleList(xs) => VList(seq(|xs|, k requires 0 <= k < |xs| => VTuple(xs[k])))
  }

  /** `type_match`: a bool property accepts bools only; a scalar property
      accepts instances of its value's type (a bool is an int in Python);
      a list property accepts a non-empty list whose first element is an
      instance of the type of its own first element. */
  predicate TypeMatch(p: PValue, v: Value) {
    match p
    case PBool => v.VBool?
    case PInt(_) => v.VInt? || v.VBool?
    case PStr(_) => v.VStr?
    case PTuple(_) => v.VTuple?
    case PIntList(_) => v.VList? && |v.items| > 0 && (v.items[0].VInt? || v.items[0].VBool?)
    case PStrList(_) => v.VList? && |v.items| > 0 && v.items[0].VStr?
    case PTupleList(_) => v.VList? && |v.items| > 0 && v.items[0].VTuple?
  }

  /** None and bools stand for the bool property, which reports True. */
  function Normalised(v: Value): Value {
    if v.VNone? || v.VBool? then VBool(true) else v
  }

  /** `new_node_property`: dispatch on the value's type, then for a list on
      the type of its first element. */
  function NewProperty(d: Dialect, name: string, v: Value): (r: Result<Property>)
    ensures r.Ok? <==> Accepted(d, v)
    ensures r.Ok? ==> r.value.name == name && WellFormed(r.value.value)
    ensures r.Ok? ==> PropertyValue(r.value.value) == Normalised(v)
    ensures r.Ok? && !v.VNone? ==> TypeMatch(r.value.value, v)
    ensures v.VList? && v.items == [] ==> r == Err(ValueError)
    ensures r.Err? && !(v.VList? && v.items == []) ==> r.error == TypeError
  {
    match v
    case VNone => Ok(Property(name, PBool))
    case VBool(_) => Ok(Property(name, PBool))
    case VInt(i) => Ok(Property(name, PInt(i)))
    case VStr(s) => Ok(Property(name, PStr(s)))
    case VTuple(cells) => if d == Legacy then Err(TypeError) else Ok(Property(name, PTuple(cells)))
    case VList(items) =>
      if items == [] then Err(ValueError)
      else if items[0].VInt? then
        (match Ints(items) case Some(xs) => Ok(Property(name, PIntList(xs))) case None => Err(TypeError))
      else if items[0].VStr? then
        (match Strs(items) case Some(xs) => Ok(Property(name, PStrList(xs))) case None => Err(TypeError))
      else if items[0].VTuple? then
        (match Tuples(items) case Some(xs) => Ok(Property(name, PTupleList(xs))) case None => Err(TypeError))
      else Err(TypeError)
    case VOther => Err(TypeError)
  }

  /** Rebuilding a property from the value it reports gives it back. */
  lemma NewPropertyOfPropertyValue(d: Dialect, p: Property)
    requires WellFormed(p.value) && !(d == Legacy && p.value.PTuple?)
    ensures NewProperty(d, p.name, PropertyValue(p.value)) == Ok(p)
  {
    var r := NewProperty(d, p.name, PropertyValue(p.value));
    assert r.Ok?;
    match p.value {
      case PIntList(xs) => assert r.value.value.ints == xs;
      case PStrList(xs) => assert r.value.value.strs == xs;
      case PTupleList(xs) => assert r.value.value.tuples == xs;
      case _ =>
    }
  }

  /** Two properties built from values that both report the same value are
      the same property, so PropertyValue determines a property. */
  lemma PropertyValueInjective(a: PValue, b: PValue)
    requires WellFormed(a) && WellFormed(b) && PropertyValue(a) == PropertyValue(b)
    ensures a == b
  {
    match a {
      case PIntList(xs) =>
        assert PropertyValue(a).items[0] == VInt(xs[0]);
        assert b.PIntList?;
        var ys := b.ints;
        assert |xs| == |ys| && forall k | 0 <= k < |xs| :: PropertyValue(a).items[k] == VInt(xs[k]);
        assert forall k | 0 <= k < |xs| :: xs[k] == ys[k];
      case PStrList(xs) =>
        assert PropertyValue(a).items[0] == VStr(xs[0]);
        assert b.PStrList?;
        var ys := b.strs;
        assert forall k | 0 <= k < |xs| :: PropertyValue(a).items[k] == VStr(xs[k]);
        assert forall k | 0 <= k < |xs| :: xs[k] == ys[k];
      case PTupleList(xs) =>
        assert PropertyValue(a).items[0] == VTuple(xs[0]);
        assert b.PTupleList?;
        var ys := b.tuples;
        assert forall k | 0 <= k < |xs| :: PropertyValue(a).items[k] == VTuple(xs[k]);
        assert forall k | 0 <= k < |xs| :: xs[k] == ys[k];
      case _ =>
    }
  }

  /** `first`: a bool property gives True, a scalar its value, a tuple its
      first cell (StopIteration when it has none) and a list its first
      element. */
  function First(p: PValue): (r: Result<Value>)
    requires WellFormed(p)
    ensures p.PTuple? ==> (r.Ok? <==> |p.cells| > 0) && (r.Ok? ==> r.value == VStr(p.cells[0]))
    ensures p.PTuple? && r.Err? ==> r.error == StopIteration
    ensures IsListKind(p) ==> r == Ok(PropertyValue(p).items[0])
    ensures !p.PTuple? && !IsListKind(p) ==> r == Ok(PropertyValue(p))
  {
    match p
    case PBool => Ok(VBool(true))
    case PInt(i) => Ok(VInt(i))
    case PStr(s) => Ok(VStr(s))
    case PTuple(cells) => if cells == [] then Err(StopIteration) else Ok(VStr(cells[0]))
    case PIntList(xs) => Ok(VInt(xs[0]))
    case PStrList(xs) => Ok(VStr(xs[0]))
    case PTupleList(xs) => Ok(VTuple(xs[0]))
  }

  // ----- rendering -----

  const TabSize: nat := 4

  /** The tab string: four spaces with soft tabs, a tab character without. */
  function Tab(softTabs: bool): (r: string)
    ensures softTabs ==> |r| == TabSize && forall i | 0 <= i < |r| :: r[i] == ' '
    ensures !softTabs ==> r == "\t"
  {
    if softTabs then "    " else "\t"
  }

  /** `tab * indent` */
  function Repeat(tab: string, n: nat): (r: string)
    ensures |r| == |tab| * n
    ensures forall c | c in r :: c in tab
  {
    if n == 0 then "" else tab + Repeat(tab, n - 1)
  }

  /** `tuple_to_string`: cells joined by single spaces; the legacy version
      also puts a space before the first cell and after every cell. */
  function TupleToString(d: Dialect, cells: seq<string>): string {
    match d
    case Current => Join(cells, " ")
    case Legacy => " " + JoinTerminated(cells, " ")
  }

  /** The legacy rendering is the current one padded by a space on each
      side. */
  lemma LegacyTuplePadded(cells: seq<string>)
    requires |cells| > 0
    ensures TupleToString(Legacy, cells) == " " + TupleToString(Current, cells) + " "
  {
    JoinPlusSep(cells, " ");
  }

  /** Splitting a current tuple rendering at spaces gives the cells back. */
  lemma TupleToStringSplit(cells: seq<string>)
    requires |cells| > 0 && forall c | c in cells :: ' ' !in c
    ensures Split(TupleToString(Current, cells), " ") == cells
  {
    SplitJoin(cells, ' ');
  }

  /** `__str__`. Joining ints with str.join raises TypeError. */
  function Inline(d: Dialect, p: Property): (r: Result<string>)
    ensures r.Err? <==> p.value.PIntList?
    ensures r.Ok? ==> StartsWith(r.value, p.name) && EndsWith(r.value, ";")
    ensures r.Ok? && !p.value.PBool? ==> StartsWith(r.value, p.name + " = ")
  {
    match p.value
    case PBool => Ok(p.name + ";")
    case PStr(s) => Ok(p.name + " = \"" + s + "\";")
    case PInt(i) => Ok(p.name + " = <" + PyHex(i) + ">;")
    case PTuple(cells) => Ok(p.name + " = <" + TupleToString(d, cells) + ">;")
    case PIntList(_) => Err(TypeError)
    case PStrList(xs) => Ok(p.name + " = \"" + Join(xs, "\", \"") + "\";")
    case PTupleList(xs) =>
      Ok(p.name + " = <" + Join(seq(|xs|, k requires 0 <= k < |xs| => TupleToString(d, xs[k])), ">, <") + ">;")
  }

  /** The element lines of a multi-line list print, before the separator:
      tuples in angle brackets, strings in quotes, and (for `print_alt`)
      ints in decimal in angle brackets. */
  function Elements(d: Dialect, v: PValue): (r: seq<string>)
    requires IsListKind(v)
  {
    match v
    case PTupleList(xs) => seq(|xs|, k requires 0 <= k < |xs| => "<" + TupleToString(d, xs[k]) + ">")
    case PStrList(xs) => seq(|xs|, k requires 0 <= k < |xs| => "\"" + xs[k] + "\"")
    case PIntList(xs) => seq(|xs|, k requires 0 <= k < |xs| => "<" + PyStrInt(xs[k]) + ">")
  }

  /** The lines of a multi-line list print: `name =`, then one element per
      line one level deeper, each closed by ',' except the last, closed by
      ';'. */
  function ListLines(tab: string, indent: nat, name: string, elems: seq<string>): (r: seq<string>)
    requires |elems| > 0
  {
    [Repeat(tab, indent) + name + " ="]
    + seq(|elems| - 1, k requires 0 <= k < |elems| - 1 => Repeat(tab, indent + 1) + elems[k] + ",")
    + [Repeat(tab, indent + 1) + elems[|elems| - 1] + ";"]
  }

  function MultiLine(tab: string, indent: nat, name: string, elems: seq<string>): string
    requires |elems| > 0
  {
    Join(ListLines(tab, indent, name, elems), "\n")
  }

  /** `print(indent)`: the tab repeated indent times, then the inline form,
      except that tuple lists and string lists print one element per line.
      An int list prints through str.join and raises TypeError; the legacy
      string-list print returns None, which the caller cannot concatenate. */
  function Print(d: Dialect, p: Property, tab: string, indent: nat): (r: Result<string>)
    requires WellFormed(p.value)
  {
    match p.value
    case PIntList(_) => Err(TypeError)
    case PTupleList(_) => Ok(MultiLine(tab, indent, p.name, Elements(d, p.value)))
    case PStrList(_) =>
      if d == Legacy then Err(TypeError) else Ok(MultiLine(tab, indent, p.name, Elements(d, p.value)))
    case _ => var s :- Inline(d, p); Ok(Repeat(tab, indent) + s)
  }

  /** `print_alt` of an int list. */
  function PrintAlt(p: Property, tab: string, indent: nat): string
    requires p.value.PIntList? && WellFormed(p.value)
  {
    MultiLine(tab, indent, p.name, Elements(Current, p.value))
  }

  predicate NoNewline(s: string) { '\n' !in s }

  /** A multi-line print splits at newlines into exactly its lines. */
  lemma MultiLineSplit(tab: string, indent: nat, name: string, elems: seq<string>)
    requires |elems| > 0 && NoNewline(tab) && NoNewline(name)
    requires forall e | e in elems :: NoNewline(e)
    ensures Split(MultiLine(tab, indent, name, elems), "\n") == ListLines(tab, indent, name, elems)
    ensures |ListLines(tab, indent, name, elems)| == |elems| + 1
  {
    var lines := ListLines(tab, indent, name, elems);
    forall l | l in lines ensures '\n' !in l {
      var i :| 0 <= i < |lines| && lines[i] == l;
      ListLineNoNewline(tab, indent, name, elems, i);
    }
    SplitJoin(lines, '\n');
  }

  /** No line of a multi-line print holds a newline. */
  lemma ListLineNoNewline(tab: string, indent: nat, name: string, elems: seq<string>, i: nat)
    requires |elems| > 0 && NoNewline(tab) && NoNewline(name)
    requires forall e | e in elems :: NoNewline(e)
    requires i <= |elems|
    ensures NoNewline(ListLines(tab, indent, name, elems)[i])
  {
    var lines := ListLines(tab, indent, name, elems);
    assert NoNewline(Repeat(tab, indent)) && NoNewline(Repeat(tab, indent + 1));
    if i == 0 {
      assert lines[i] == Repeat(tab, indent) + name + " =";
    } else if i < |elems| {
      assert elems[i - 1] in elems;
      assert lines[i] == Repeat(tab, indent + 1) + elems[i - 1] + ",";
    } else {
      assert elems[|elems| - 1] in elems;
      assert lines[i] == Repeat(tab, indent + 1) + elems[|elems| - 1] + ";";
    }
  }

  /** The skeleton of every printed property that prints at all: it starts
      with the indentation and the property name and ends with ';'; scalar
      kinds print on a single line. */
  lemma PrintShape(d: Dialect, p: Property, tab: string, indent: nat)
    requires WellFormed(p.value)
    ensures Print(d, p, tab, indent).Err? <==> p.value.PIntList? || (d == Legacy && p.value.PStrList?)
    ensures Print(d, p, tab, indent).Ok? ==> StartsWith(Print(d, p, tab, indent).value, Repeat(tab, indent) + p.name)
    ensures Print(d, p, tab, indent).Ok? ==> EndsWith(Print(d, p, tab, indent).value, ";")
    ensures !IsListKind(p.value) ==> Print(d, p, tab, indent) == Ok(Repeat(tab, indent) + Inline(d, p).value)
  {
    if IsListKind(p.value) {
      MultiLineShape(tab, indent, p.name, Elements(d, p.value));
    } else {
      var s := Inline(d, p).value;
      InlineShape(Repeat(tab, indent), p.name, s);
    }
  }

  /** Indentation before an inline print keeps its name prefix and its
      ';' suffix. */
  lemma InlineShape(pad: string, name: string, s: string)
    requires StartsWith(s, name) && EndsWith(s, ";")
    ensures StartsWith(pad + s, pad + name) && EndsWith(pad + s, ";")
  {
    assert (pad + s)[..|pad + name|] == pad + s[..|name|];
    assert (pad + s)[|pad + s| - 1..] == s[|s| - 1..];
  }

  /** A multi-line print starts with its `name =` line and ends with ';'. */
  lemma MultiLineShape(tab: string, indent: nat, name: string, elems: seq<string>)
    requires |elems| > 0
    ensures StartsWith(MultiLine(tab, indent, name, elems), Repeat(tab, indent) + name)
    ensures EndsWith(MultiLine(tab, indent, name, elems), ";")
  {
    var lines := ListLines(tab, indent, name, elems);
    var front := lines[..|lines| - 1];
    var last := lines[|lines| - 1];
    assert front + [last] == lines;
    JoinSnoc(front, last, "\n");
    JoinPrefix(lines, "\n");
    assert lines[0] == Repeat(tab, indent) + name + " =";
    assert last == Repeat(tab, indent + 1) + elems[|elems| - 1] + ";";
    Framing(Join(lines, "\n"), Repeat(tab, indent) + name, " =", Join(front, "\n") + "\n", last);
  }

  /** A prefix of a prefix, and a suffix of the last piece. */
  lemma Framing(s: string, h: string, more: string, x: string, last: string)
    requires StartsWith(s, h + more) && s == x + last && EndsWith(last, ";")
    ensures StartsWith(s, h) && EndsWith(s, ";")
  {
    assert s[..|h|] == s[..|h + more|][..|h|];
    assert s[|s| - 1..] == last[|last| - 1..];
  }

  /** A join of at least one part starts with the first part. */
  lemma {:induction false} JoinPrefix(parts: seq<string>, sep: string)
    requires |parts| > 0
    ensures StartsWith(Join(parts, sep), parts[0])
  {
    if |parts| > 1 {
      assert Join(parts, sep) == parts[0] + (sep + Join(parts[1..], sep));
    }
  }

  /** The loop of the list `print` methods and of `print_alt`. */
  method PrintLines(tab: string, indent: nat, name: string, elems: seq<string>) returns (s: string)
    requires |elems| > 0
    ensures s == MultiLine(tab, indent, name, elems)
  {
    var inner := Repeat(tab, indent + 1);
    s := Repeat(tab, indent) + name + " =\n";
    LinesStart(tab, indent, name, elems);
    var i := 0;
    while i < |elems| - 1
      invariant 0 <= i <= |elems| - 1
      invariant s == Join(ListLines(tab, indent, name, elems)[..i + 1], "\n") + "\n"
    {
      LinesStep(tab, indent, name, elems, i, s);
      s := s + inner + elems[i] + ",\n";
      i := i + 1;
    }
    LinesEnd(tab, indent, name, elems, s);
    s := s + inner + elems[|elems| - 1] + ";";
  }

  /** The `name =` line opens the text. */
  lemma LinesStart(tab: string, indent: nat, name: string, elems: seq<string>)
    requires |elems| > 0
    ensures Repeat(tab, indent) + name + " =\n" == Join(ListLines(tab, indent, name, elems)[..1], "\n") + "\n"
  {
    var lines := ListLines(tab, indent, name, elems);
    assert lines[..1] == [Repeat(tab, indent) + name + " ="];
  }

  /** One element line closed by ','. */
  lemma LinesStep(tab: string, indent: nat, name: string, elems: seq<string>, i: nat, s: string)
    requires i < |elems| - 1
    requires s == Join(ListLines(tab, indent, name, elems)[..i + 1], "\n") + "\n"
    ensures s + Repeat(tab, indent + 1) + elems[i] + ",\n"
            == Join(ListLines(tab, indent, name, elems)[..i + 2], "\n") + "\n"
  {
    var lines := ListLines(tab, indent, name, elems);
    var line := Repeat(tab, indent + 1) + elems[i] + ",";
    assert lines[i + 1] == line;
    assert lines[..i + 2] == lines[..i + 1] + [line];
    JoinSnoc(lines[..i + 1], line, "\n");
  }

  /** The last element line closed by ';'. */
  lemma LinesEnd(tab: string, indent: nat, name: string, elems: seq<string>, s: string)
    requires |elems| > 0
    requires s == Join(ListLines(tab, indent, name, elems)[..|elems|], "\n") + "\n"
    ensures s + Repeat(tab, indent + 1) + elems[|elems| - 1] + ";" == MultiLine(tab, indent, name, elems)
  {
    var lines := ListLines(tab, indent, name, elems);
    var line := Repeat(tab, indent + 1) + elems[|elems| - 1] + ";";
    assert lines[|elems|] == line;
    assert lines == lines[..|elems|] + [line];
    JoinSnoc(lines[..|elems|], line, "\n");
  }

  /** `print(indent)` of a property. */
  method PrintProperty(d: Dialect, p: Property, tab: string, indent: nat) returns (r: Result<string>)
    requires WellFormed(p.value)
    ensures r == Print(d, p, tab, indent)
  {
    match p.value
    case PIntList(_) => r := Err(TypeError);
    case PTupleList(_) =>
      var s := PrintLines(tab, indent, p.name, Elements(d, p.value));
      r := Ok(s);
    case PStrList(_) =>
      if d == Legacy {
        r := Err(TypeError);
      } else {
        var s := PrintLines(tab, indent, p.name, Elements(d, p.value));
        r := Ok(s);
      }
    case _ =>
      var s := Inline(d, p);
      r := if s.Ok? then Ok(Repeat(tab, indent) + s.value) else s;
  }

  /** `print_alt` of an int list. */
  method PrintAltProperty(p: Property, tab: string, indent: nat) returns (s: string)
    requires p.value.PIntList? && WellFormed(p.value)
    ensures s == PrintAlt(p, tab, indent)
  {
    s := PrintLines(tab, indent, p.name, Elements(Current, p.value));
  }
}
