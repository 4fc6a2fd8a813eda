/** A device-tree node as a record: its signature fields, its property list
    and its links (children and parent as ids into the tree's node arena).
    This module holds what a node computes from its own fields alone:
    signature validation, the parsed unit address, the derived signature
    and path name, and the edits of the name-keyed property list. */
module Nodes {
  import opened Wrappers
  import opened Text
  import opened Properties
  import opened Signatures

  type NodeId = nat

  /** The unit address: absent, parsed as hexadecimal, or kept as text. */
  datatype Reg = NoReg | IntReg(n: int) | TextReg(t: string)

  datatype NodeRec = NodeRec(
    nodename: Option<string>,
    handles: seq<string>,
    ref: Option<string>,
    reg: Reg,
    props: seq<Property>,
    children: seq<NodeId>,
    parent: Option<NodeId>,
    includes: seq<string>,
    deleteNodes: seq<string>,
    deleteProps: seq<string>)

  predicate IsBlank(s: string) { Strip(s) == "" }

  // ----- signature validation -----

  /** `_validate_signature`, the checks in their source order. */
  function Validate(nodename: Option<string>, handles: seq<string>, ref: Option<string>): (r: Outcome)
    ensures r == Pass <==>
      && (nodename.Some? || ref.Some?)
      && !(nodename.Some? && ref.Some?)
      && (nodename.Some? ==> !IsBlank(nodename.value))
      && (ref.Some? ==> !IsBlank(ref.value))
      && (nodename.None? ==> handles == [])
    ensures r == Fail(NodeSignatureError(NoSignature)) <==> nodename.None? && ref.None? && handles == []
    ensures r == Fail(NodeSignatureError(Ambiguous)) <==> nodename.Some? && ref.Some?
    ensures r.Fail? ==> r.error.NodeSignatureError?
  {
    if nodename.None? && ref.None? && |handles| == 0 then Fail(NodeSignatureError(NoSignature))
    else if nodename.Some? && ref.Some? then Fail(NodeSignatureError(Ambiguous))
    else if nodename.Some? && Strip(nodename.value) == "" then Fail(NodeSignatureError(Blank))
    else if ref.Some? && Strip(ref.value) == "" then Fail(NodeSignatureError(Blank))
    else if nodename.None? && |handles| > 0 then Fail(NodeSignatureError(LabelWithoutName))
    else Pass
  }

  /** The legacy `_validate_signature`, over a single optional handle. */
  function LegacyValidate(nodename: Option<string>, handle: Option<string>, ref: Option<string>): (r: Outcome)
  {
    if nodename.None? && handle.None? && ref.None? then Fail(NodeSignatureError(NoSignature))
    else if nodename.Some? && ref.Some? then Fail(NodeSignatureError(Ambiguous))
    else if nodename.Some? && Strip(nodename.value) == "" then Fail(NodeSignatureError(Blank))
    else if ref.Some? && Strip(ref.value) == "" then Fail(NodeSignatureError(Blank))
    else if nodename.None? && handle.Some? then Fail(NodeSignatureError(LabelWithoutName))
    else Pass
  }

  /** A single optional handle as a label list. */
  function HandleList(handle: Option<string>): (r: seq<string>)
    ensures |r| <= 1 && (r == [] <==> handle.None?)
  {
    match handle case None => [] case Some(h) => [h]
  }

  /** The legacy checks are the current ones over the one-element label list. */
  lemma LegacyValidateAgrees(nodename: Option<string>, handle: Option<string>, ref: Option<string>)
    ensures LegacyValidate(nodename, handle, ref) == Validate(nodename, HandleList(handle), ref)
  {
  }

  // ----- construction -----

  /** `int(reg, 16)` with the fallbacks of the constructor: no address stays
      absent, text that does not parse is kept as text. */
  function ParseReg(reg: Option<string>): (r: Reg)
    ensures reg.None? <==> r == NoReg
    ensures reg.Some? ==> (r.IntReg? <==> ParseHex(reg.value).Some?)
    ensures r.IntReg? ==> ParseHex(reg.value) == Some(r.n)
    ensures r.TextReg? ==> r.t == reg.value
  {
    match reg
    case None => NoReg
    case Some(t) => match ParseHex(t) case Some(n) => IntReg(n) case None => TextReg(t)
  }

  /** The legacy constructor keeps the address as given. */
  function RawReg(reg: Option<string>): Reg {
    match reg case None => NoReg case Some(t) => TextReg(t)
  }

  function RegValue(reg: Reg): Value {
    match reg
    case NoReg => VNone
    case IntReg(n) => VInt(n)
    case TextReg(t) => VStr(t)
  }

  /** The `reg` property a constructor adds when an address is present. */
  function RegProps(d: Dialect, reg: Reg): (r: seq<Property>)
    ensures reg == NoReg ==> r == []
    ensures reg.IntReg? ==> r == [Property("reg", PInt(reg.n))]
    ensures reg.TextReg? ==> r == [Property("reg", PStr(reg.t))]
  {
    if reg == NoReg then [] else [NewProperty(d, "reg", RegValue(reg)).value]
  }

  /** `Node.__init__` up to the parent check, which needs the tree: validate,
      parse the address (current) or keep it (legacy), and start the
      property list, the legacy one with `status = "okay"`. */
  function NewRecord(d: Dialect, parent: Option<NodeId>, nodename: Option<string>, handles: seq<string>,
                     ref: Option<string>, reg: Option<string>): (r: Result<NodeRec>)
    ensures r.Ok? <==> Validate(nodename, handles, ref) == Pass
    ensures r.Err? ==> r.error == Validate(nodename, handles, ref).error
    ensures r.Ok? ==> r.value.nodename == nodename && r.value.handles == handles && r.value.ref == ref
    ensures r.Ok? ==> r.value.parent == parent && r.value.children == []
    ensures r.Ok? ==> r.value.includes == [] && r.value.deleteNodes == [] && r.value.deleteProps == []
    ensures r.Ok? && d == Current ==> r.value.reg == ParseReg(reg)
    ensures r.Ok? && d == Legacy ==> r.value.reg == RawReg(reg)
    ensures r.Ok? ==> UniqueNames(r.value.props) && forall p | p in r.value.props :: WellFormed(p.value)
    ensures r.Ok? ==> (Lookup(r.value.props, "reg").Some? <==> reg.Some?)
    ensures r.Ok? && d == Legacy ==> |r.value.props| > 0 && r.value.props[0] == Property("status", PStr("okay"))
  {
    var v := Validate(nodename, handles, ref);
    if v.Fail? then Err(v.error)
    else
      var rg := if d == Current then ParseReg(reg) else RawReg(reg);
      Ok(NodeRec(nodename, handles, ref, rg, StartProps(d, rg), [], parent, [], [], []))
  }

  /** The property list a new node starts with: the legacy `status` entry,
      then the `reg` property when there is an address. */
  function StartProps(d: Dialect, rg: Reg): (r: seq<Property>)
    ensures UniqueNames(r) && forall p | p in r :: WellFormed(p.value)
    ensures Lookup(r, "reg").Some? <==> rg != NoReg
    ensures d == Legacy ==> |r| > 0 && r[0] == Property("status", PStr("okay"))
  {
    (if d == Legacy then [Property("status", PStr("okay"))] else []) + RegProps(d, rg)
  }

  /** The legacy constructor's signature fields in record form. */
  function LegacyNewRecord(parent: Option<NodeId>, nodename: Option<string>, handle: Option<string>,
                           ref: Option<string>, reg: Option<string>): (r: Result<NodeRec>)
    ensures r.Ok? <==> LegacyValidate(nodename, handle, ref) == Pass
  {
    LegacyValidateAgrees(nodename, handle, ref);
    NewRecord(Legacy, parent, nodename, HandleList(handle), ref, reg)
  }

  // ----- derived names -----

  /** The address as the signature prints it: hex without `0x` for a
      parsed address, the text otherwise. */
  function RegText(reg: Reg): (r: Option<string>)
    ensures r.None? <==> reg == NoReg
  {
    match reg
    case NoReg => None
    case IntReg(n) => Some(HexAddress(n))
    case TextReg(t) => Some(t)
  }

  /** `signature` */
  function Signature(n: NodeRec): (r: Result<string>)
    ensures n.ref.Some? ==> r == Ok("&" + n.ref.value)
    ensures r.Err? <==> n.ref.None? && n.nodename.None?
  {
    if n.ref.Some? then Ok("&" + n.ref.value)
    else if n.nodename.None? then Err(TypeError)
    else Ok(JoinTerminated(n.handles, ": ") + n.nodename.value + AtPart(RegText(n.reg)))
  }

  /** The legacy `signature`: `hex()` of a text address raises TypeError. */
  function LegacySignature(n: NodeRec): (r: Result<string>)
    ensures n.ref.Some? ==> r == Ok("&" + n.ref.value)
    ensures n.ref.None? && n.reg.TextReg? ==> r == Err(TypeError)
    ensures n.ref.None? && !n.reg.TextReg? ==> r == Signature(n)
  {
    if n.ref.Some? then Ok("&" + n.ref.value)
    else if n.nodename.None? then Err(TypeError)
    else if n.reg.TextReg? then Err(TypeError)
    else
      var h := if |n.handles| > 0 then n.handles[0] + ": " else "";
      var at := if n.reg.IntReg? then "@" + HexAddress(n.reg.n) else "";
      assert |n.handles| <= 1 ==> JoinTerminated(n.handles, ": ") == h;
      Ok(JoinTerminated(n.handles, ": ") + n.nodename.value + at)
  }

  /** `pathname`: the node name with its address part; no name and no
      address gives None, an address without a name raises TypeError. */
  function Pathname(n: NodeRec): (r: Result<Option<string>>)
    ensures r.Err? <==> n.nodename.None? && n.reg != NoReg
    ensures r == Ok(None) <==> n.nodename.None? && n.reg == NoReg
  {
    match n.nodename
    case None => if n.reg == NoReg then Ok(None) else Err(TypeError)
    case Some(nm) => Ok(Some(nm + AtPart(RegText(n.reg))))
  }

  /** A named node's signature is its labels followed by its path name. */
  lemma SignatureIsLabelsAndPathname(n: NodeRec)
    requires n.ref.None? && n.nodename.Some?
    ensures Pathname(n).Ok? && Pathname(n).value.Some?
    ensures Signature(n) == Ok(JoinTerminated(n.handles, ": ") + Pathname(n).value.value)
  {
    var nm := n.nodename.value;
    assert JoinTerminated(n.handles, ": ") + nm + AtPart(RegText(n.reg))
        == JoinTerminated(n.handles, ": ") + (nm + AtPart(RegText(n.reg)));
  }

  /** `names` */
  function Names(n: NodeRec): (r: (Option<string>, seq<string>, Option<string>, Reg))
  {
    (n.nodename, n.handles, n.ref, n.reg)
  }

  /** A new node reports the names it was built from, with the address
      parsed. */
  lemma NamesOfNewRecord(parent: Option<NodeId>, nodename: Option<string>, handles: seq<string>,
                         ref: Option<string>, reg: Option<string>)
    requires NewRecord(Current, parent, nodename, handles, ref, reg).Ok?
    ensures Names(NewRecord(Current, parent, nodename, handles, ref, reg).value) == (nodename, handles, ref, ParseReg(reg))
  {
  }

  /** The address forms the printer writes back unchanged: text that is
      not hexadecimal, or lower-case hexadecimal with no leading zero and no
      prefix. */
  predicate CanonicalAddress(r: string) {
    match ParseHex(r)
    case None => true
    case Some(n) => n >= 0 && HexDigits(n) == r
  }

  /** A parsed canonical address prints back as the same text. */
  lemma RegTextOfCanonical(r: string)
    requires CanonicalAddress(r)
    ensures RegText(ParseReg(Some(r))) == Some(r)
  {
  }

  /** Signature round trip: parse a canonical signature, build the node from
      the parsed fields, print its signature, and get the text back. */
  lemma SignatureRoundTrip(labels: seq<string>, name: string, reg: Option<string>)
    requires forall l | l in labels :: AllWord(l)
    requires |name| > 0 && AllNameChars(name)
    requires reg.Some? ==> NoSpace(reg.value) && CanonicalAddress(reg.value)
    ensures var s := RenderSig(labels, name, reg);
            var t := MakeSigTuple(s);
            && t.Ok?
            && var n := NewRecord(Current, None, t.value.nodename, t.value.handles, t.value.ref, t.value.reg);
            && n.Ok?
            && Signature(n.value) == Ok(s)
  {
    ParseRendered(labels, name, reg);
    NameNotBlank(name);
    if reg.Some? { RegTextOfCanonical(reg.value); }
  }

  /** A name made of name characters is not blank. */
  lemma NameNotBlank(name: string)
    requires |name| > 0 && AllNameChars(name)
    ensures !IsBlank(name)
  {
    StripEmptyIffAllSpace(name);
    assert IsNameChar(name[0]);
  }

  /** The legacy round trip, for signatures without an address (a text
      address makes the legacy signature raise). */
  lemma LegacySignatureRoundTrip(handle: Option<string>, name: string)
    requires handle.Some? ==> AllWord(handle.value)
    requires |name| > 0 && AllLegacyNameChars(name)
    ensures var s := RenderLegacySig(handle, name, None);
            var t := LegacyMakeSigTuple(s);
            && t.Ok?
            && var n := LegacyNewRecord(None, t.value.nodename, t.value.handle, t.value.ref, t.value.reg);
            && n.Ok?
            && LegacySignature(n.value) == Ok(s)
  {
    var s := RenderLegacySig(handle, name, None);
    LegacyParseRendered(handle, name, None);
    assert AllNameChars(name) by {
      forall k | 0 <= k < |name| ensures IsNameChar(name[k]) { assert IsLegacyNameChar(name[k]); }
    }
    NameNotBlank(name);
    LegacyValidateAgrees(Some(name), handle, None);
    var n := NewRecord(Legacy, None, Some(name), HandleList(handle), None, None).value;
    assert n.reg == NoReg && n.handles == HandleList(handle);
    LegacyRecordSignature(n, handle, name, s);
  }

  lemma LegacyRecordSignature(n: NodeRec, handle: Option<string>, name: string, s: string)
    requires s == RenderLegacySig(handle, name, None)
    requires n.ref.None? && n.nodename == Some(name) && n.reg == NoReg && n.handles == HandleList(handle)
    ensures LegacySignature(n) == Ok(s)
  {
    assert AtPart(None) == "";
    match handle {
      case None =>
      case Some(h) => assert JoinTerminated([h], ": ") == h + ": ";
    }
  }

  // ----- the property list -----

  predicate UniqueNames(props: seq<Property>) {
    forall i, j | 0 <= i < j < |props| :: props[i].name != props[j].name
  }

  /** `property_index[name]`: later properties of the same name win. */
  function IndexOf(props: seq<Property>, name: string): (r: Option<nat>)
    ensures r.Some? ==> r.value < |props| && props[r.value].name == name
    ensures r.Some? ==> forall j | r.value < j < |props| :: props[j].name != name
    ensures r.None? ==> forall j | 0 <= j < |props| :: props[j].name != name
  {
    if props == [] then None
    else if props[|props| - 1].name == name then Some(|props| - 1)
    else IndexOf(props[..|props| - 1], name)
  }

  /** The index of the last occurrence of a name is what `IndexOf` finds. */
  lemma {:induction false} IndexOfLast(props: seq<Property>, i: nat)
    requires i < |props| && forall j | i < j < |props| :: props[j].name != props[i].name
    ensures IndexOf(props, props[i].name) == Some(i)
  {
    if i < |props| - 1 {
      var front := props[..|props| - 1];
      assert front[i] == props[i];
      IndexOfLast(front, i);
    }
  }

  function Lookup(props: seq<Property>, name: string): (r: Option<PValue>)
    ensures r.Some? <==> IndexOf(props, name).Some?
  {
    match IndexOf(props, name) case None => None case Some(i) => Some(props[i].value)
  }

  function RemoveAt(props: seq<Property>, i: nat): (r: seq<Property>)
    requires i < |props|
    ensures |r| == |props| - 1
    ensures forall j | 0 <= j < |r| :: r[j] == (if j < i then props[j] else props[j + 1])
  {
    props[..i] + props[i + 1..]
  }

  /** The property list after an edit, and whether the edit raised. */
  datatype Edited = Edited(props: seq<Property>, outcome: Outcome)

  /** `set_property`. The prev property is removed before the new one is
      built, so a value the factory refuses leaves the name unset. */
  function SetProperty(d: Dialect, props: seq<Property>, name: string, v: Value): (e: Edited)
  {
    match IndexOf(props, name)
    case None =>
      (match NewProperty(d, name, v)
       case Ok(p) => Edited(props + [p], Pass)
       case Err(x) => Edited(props, Fail(x)))
    case Some(i) =>
      if v.VBool? then
        (if v.b then Edited(props, Pass) else Edited(RemoveAt(props, i), Pass))
      else if TypeMatch(props[i].value, v) then
        (match NewProperty(Current, name, v)
         case Ok(p) => Edited(props[i := p], Pass)
         case Err(x) => Edited(props, Fail(x)))
      else
        var rest := RemoveAt(props, i);
        (match NewProperty(d, name, v)
         case Ok(p) => Edited(rest + [p], Pass)
         case Err(x) => Edited(rest, Fail(x)))
  }

  lemma RemoveAtUnique(props: seq<Property>, i: nat)
    requires UniqueNames(props) && i < |props|
    ensures UniqueNames(RemoveAt(props, i))
    ensures forall n | n != props[i].name :: Lookup(RemoveAt(props, i), n) == Lookup(props, n)
    ensures Lookup(RemoveAt(props, i), props[i].name).None?
  {
    var r := RemoveAt(props, i);
    forall n | n != props[i].name ensures Lookup(r, n) == Lookup(props, n) {
      match IndexOf(props, n) {
        case None =>
          assert forall j | 0 <= j < |r| :: r[j].name != n;
        case Some(k) =>
          var k' := if k < i then k else k - 1;
          assert r[k'] == props[k];
          assert IndexOf(r, n) == Some(k');
      }
    }
    assert forall j | 0 <= j < |r| :: r[j].name != props[i].name;
  }

  lemma AppendUnique(props: seq<Property>, p: Property)
    requires UniqueNames(props) && Lookup(props, p.name).None?
    ensures UniqueNames(props + [p])
    ensures Lookup(props + [p], p.name) == Some(p.value)
    ensures forall n | n != p.name :: Lookup(props + [p], n) == Lookup(props, n)
  {
    var r := props + [p];
    forall n | n != p.name ensures Lookup(r, n) == Lookup(props, n) {
      assert r[..|r| - 1] == props;
    }
  }

  lemma ReplaceUnique(props: seq<Property>, i: nat, p: Property)
    requires UniqueNames(props) && i < |props| && props[i].name == p.name
    ensures UniqueNames(props[i := p])
    ensures Lookup(props[i := p], p.name) == Some(p.value) && IndexOf(props[i := p], p.name) == Some(i)
    ensures forall n | n != p.name :: Lookup(props[i := p], n) == Lookup(props, n)
  {
    var r := props[i := p];
    IndexOfLast(r, i);
    forall n | n != p.name ensures Lookup(r, n) == Lookup(props, n) {
      match IndexOf(props, n) {
        case None =>
          assert forall j | 0 <= j < |r| :: r[j].name != n;
        case Some(k) =>
          assert r[k] == props[k];
          assert IndexOf(r, n) == Some(k);
      }
    }
  }

  /** `set_property` keeps names unique and changes no other property: the
      name ends up unset (`False`, or a value the factory refuses after the
      prev one was dropped), unchanged (`True`, or a refused in-place value),
      or holding a property that reports the given value. */
  lemma SetPropertySpec(d: Dialect, props: seq<Property>, name: string, v: Value)
    requires UniqueNames(props)
    ensures var e := SetProperty(d, props, name, v);
      && UniqueNames(e.props)
      && (forall n | n != name :: Lookup(e.props, n) == Lookup(props, n))
      && (e.outcome == Pass && !(Lookup(props, name).Some? && v.VBool?) ==>
            Lookup(e.props, name).Some? && PropertyValue(Lookup(e.props, name).value) == Normalised(v))
      && (Lookup(props, name).Some? && v == VBool(true) ==> e == Edited(props, Pass))
      && (Lookup(props, name).Some? && v == VBool(false) ==> e.outcome == Pass && Lookup(e.props, name).None?)
      && (e.outcome.Fail? ==> Lookup(e.props, name).None? || e.props == props)
      && (Lookup(props, name).None? ==> (e.outcome == Pass <==> Accepted(d, v)))
  {
    var e := SetProperty(d, props, name, v);
    match IndexOf(props, name) {
      case None =>
        match NewProperty(d, name, v) {
          case Ok(p) => AppendUnique(props, p);
          case Err(_) =>
        }
      case Some(i) =>
        if v.VBool? {
          if !v.b { RemoveAtUnique(props, i); }
        } else if TypeMatch(props[i].value, v) {
          match NewProperty(Current, name, v) {
            case Ok(p) => ReplaceUnique(props, i, p);
            case Err(_) =>
          }
        } else {
          RemoveAtUnique(props, i);
          var rest := RemoveAt(props, i);
          match NewProperty(d, name, v) {
            case Ok(p) => AppendUnique(rest, p);
            case Err(_) =>
          }
        }
    }
  }

  /** A type-matching value updates the property where it stands. */
  lemma SetPropertyInPlace(d: Dialect, props: seq<Property>, name: string, v: Value)
    requires UniqueNames(props) && IndexOf(props, name).Some? && !v.VBool?
    requires TypeMatch(props[IndexOf(props, name).value].value, v) && Accepted(Current, v)
    ensures var e := SetProperty(d, props, name, v);
      e.outcome == Pass && IndexOf(e.props, name) == IndexOf(props, name) && |e.props| == |props|
  {
    var i := IndexOf(props, name).value;
    var p := NewProperty(Current, name, v).value;
    ReplaceUnique(props, i, p);
  }

  /** `unset_property` */
  function UnsetProperty(props: seq<Property>, name: string): (r: seq<Property>)
  {
    match IndexOf(props, name) case None => props case Some(i) => RemoveAt(props, i)
  }

  /** Unsetting removes exactly the named property. */
  lemma UnsetPropertySpec(props: seq<Property>, name: string)
    requires UniqueNames(props)
    ensures UniqueNames(UnsetProperty(props, name))
    ensures Lookup(UnsetProperty(props, name), name).None?
    ensures forall n | n != name :: Lookup(UnsetProperty(props, name), n) == Lookup(props, n)
    ensures Lookup(props, name).None? ==> UnsetProperty(props, name) == props
    ensures |UnsetProperty(props, name)| == |props| - (if Lookup(props, name).Some? then 1 else 0)
  {
    match IndexOf(props, name) {
      case None =>
      case Some(i) => RemoveAtUnique(props, i);
    }
  }

  /** `extend_property_list` for a list value: create, extend a matching
      list in place, promote a matching scalar to a list (through
      `set_property`), or raise. An empty list against an existing property
      fails on `value_list[0]`. A legacy bool property has no
      `property_value`, so promoting it raises AttributeError. */
  function ExtendPropertyList(d: Dialect, props: seq<Property>, name: string, items: seq<Value>): (e: Edited)
  {
    match IndexOf(props, name)
    case None =>
      (match NewProperty(d, name, VList(items))
       case Ok(p) => Edited(props + [p], Pass)
       case Err(x) => Edited(props, Fail(x)))
    case Some(i) =>
      var prev := props[i].value;
      if TypeMatch(prev, VList(items)) then
        (match NewProperty(Current, name, VList(PropertyValue(prev).items + items))
         case Ok(p) => Edited(props[i := p], Pass)
         case Err(x) => Edited(props, Fail(x)))
      else if items == [] then Edited(props, Fail(IndexError))
      else if d == Legacy && prev.PBool? && TypeMatch(prev, items[0]) then Edited(props, Fail(AttributeError))
      else if TypeMatch(prev, items[0]) then SetProperty(d, props, name, VList(items + [PropertyValue(prev)]))
      else Edited(props, Fail(ValueError))
  }

  predicate AllInts(items: seq<Value>) { forall k | 0 <= k < |items| :: items[k].VInt? }
  predicate AllStrs(items: seq<Value>) { forall k | 0 <= k < |items| :: items[k].VStr? }
  predicate AllTuples(items: seq<Value>) { forall k | 0 <= k < |items| :: items[k].VTuple? }

  /** The list a property of this kind accepts when extended: items of its
      own element type. */
  predicate SameElements(p: PValue, items: seq<Value>) {
    match p
    case PIntList(_) => AllInts(items)
    case PStrList(_) => AllStrs(items)
    case PTupleList(_) => AllTuples(items)
    case PInt(_) => AllInts(items)
    case PStr(_) => AllStrs(items)
    case PTuple(_) => AllTuples(items)
    case PBool => false
  }

  /** Extending a list property appends the items where it stands. */
  lemma ExtendList(d: Dialect, props: seq<Property>, name: string, items: seq<Value>)
    requires UniqueNames(props) && Lookup(props, name).Some?
    requires IsListKind(Lookup(props, name).value) && WellFormed(Lookup(props, name).value)
    requires |items| > 0 && SameElements(Lookup(props, name).value, items)
    ensures var e := ExtendPropertyList(d, props, name, items);
      && e.outcome == Pass && UniqueNames(e.props)
      && IndexOf(e.props, name) == IndexOf(props, name)
      && PropertyValue(Lookup(e.props, name).value) == VList(PropertyValue(Lookup(props, name).value).items + items)
      && forall n | n != name :: Lookup(e.props, n) == Lookup(props, n)
  {
    var i := IndexOf(props, name).value;
    var prev := props[i].value;
    var all := PropertyValue(prev).items + items;
    assert TypeMatch(prev, VList(items));
    assert Accepted(Current, VList(all)) by {
      assert |all| > 0;
      assert prev.PIntList? ==> AllInts(all);
      assert prev.PStrList? ==> AllStrs(all);
      assert prev.PTupleList? ==> AllTuples(all);
    }
    var p := NewProperty(Current, name, VList(all)).value;
    ReplaceUnique(props, i, p);
  }

  /** Extending a scalar with items of its type replaces it by a list of the
      items followed by the prev value, placed last. */
  lemma ExtendPromotes(d: Dialect, props: seq<Property>, name: string, items: seq<Value>)
    requires UniqueNames(props) && Lookup(props, name).Some?
    requires !IsListKind(Lookup(props, name).value)
    requires |items| > 0 && SameElements(Lookup(props, name).value, items)
    ensures var e := ExtendPropertyList(d, props, name, items);
      && e.outcome == Pass && UniqueNames(e.props)
      && IndexOf(e.props, name) == Some(|props| - 1)
      && PropertyValue(Lookup(e.props, name).value) == VList(items + [PropertyValue(Lookup(props, name).value)])
      && forall n | n != name :: Lookup(e.props, n) == Lookup(props, n)
  {
    var i := IndexOf(props, name).value;
    var prev := props[i].value;
    var all := items + [PropertyValue(prev)];
    assert !TypeMatch(prev, VList(items));
    assert TypeMatch(prev, items[0]);
    assert Accepted(d, VList(all)) by {
      assert prev.PInt? ==> AllInts(all);
      assert prev.PStr? ==> AllStrs(all);
      assert prev.PTuple? ==> AllTuples(all);
    }
    assert !TypeMatch(prev, VList(all));
    RemoveAtUnique(props, i);
    var rest := RemoveAt(props, i);
    var p := NewProperty(d, name, VList(all)).value;
    AppendUnique(rest, p);
  }

  /** A legacy bool property extended by a list that starts with a bool
      raises AttributeError, as its class has no `property_value`, and
      nothing changes. */
  lemma ExtendLegacyBool(props: seq<Property>, name: string, items: seq<Value>)
    requires Lookup(props, name) == Some(PBool) && |items| > 0 && items[0].VBool?
    ensures ExtendPropertyList(Legacy, props, name, items) == Edited(props, Fail(AttributeError))
  {
  }

  /** A value of the wrong type raises ValueError and changes nothing. */
  lemma ExtendMismatch(d: Dialect, props: seq<Property>, name: string, items: seq<Value>)
    requires Lookup(props, name).Some? && |items| > 0
    requires !TypeMatch(Lookup(props, name).value, VList(items)) && !TypeMatch(Lookup(props, name).value, items[0])
    ensures ExtendPropertyList(d, props, name, items) == Edited(props, Fail(ValueError))
  {
  }

  /** Extending an absent name creates the list property. */
  lemma ExtendAbsent(d: Dialect, props: seq<Property>, name: string, items: seq<Value>)
    requires UniqueNames(props) && Lookup(props, name).None? && Accepted(d, VList(items))
    ensures var e := ExtendPropertyList(d, props, name, items);
      && e.outcome == Pass && UniqueNames(e.props)
      && PropertyValue(Lookup(e.props, name).value) == VList(items)
  {
    AppendUnique(props, NewProperty(d, name, VList(items)).value);
  }

  // ----- directives -----

  /** `node.dtc[key].append(value)`: the three directive lists are the only
      keys; any other raises KeyError. */
  function AddDirective(n: NodeRec, key: string, value: string): (r: Result<NodeRec>)
    ensures r.Err? <==> key !in {"include", "delete-node", "delete-property"}
    ensures r.Ok? ==> r.value.(includes := n.includes, deleteNodes := n.deleteNodes, deleteProps := n.deleteProps) == n
    ensures r.Ok? ==> |r.value.includes| + |r.value.deleteNodes| + |r.value.deleteProps|
                      == |n.includes| + |n.deleteNodes| + |n.deleteProps| + 1
  {
    if key == "include" then Ok(n.(includes := n.includes + [value]))
    else if key == "delete-node" then Ok(n.(deleteNodes := n.deleteNodes + [value]))
    else if key == "delete-property" then Ok(n.(deleteProps := n.deleteProps + [value]))
    else Err(KeyError)
  }
}
