/** The register dictionary loader: name tables, per-register validation
    with default and overridden ranges, duplicate checks for registers,
    categories and sub-categories, lookup and key enumeration.
    An XML element is represented by its attribute map (plus, for a
    register, its optional nested Range element); hash tables are maps. */
module Dict {
  import opened Outcomes
  import opened Registers

  /** The name tables, in the order get_dtype, get_access and get_phy scan
      them. */
  const DTypeTable: seq<(string, DType)> := [
    ("u8", U8), ("s8", S8), ("u16", U16), ("s16", S16), ("u32", U32),
    ("s32", S32), ("u64", U64), ("s64", S64), ("float", Float), ("str", Str)]

  const AccessTable: seq<(string, Access)> := [("r", RO), ("w", WO), ("rw", RW)]

  const PhyTable: seq<(string, Phy)> := [
    ("none", PhyNone), ("torque", Torque), ("pos", Pos), ("vel", Vel),
    ("acc", Acc), ("volt_rel", VoltRel), ("rad", Rad)]

  /** The dictionary spelling of each data type. */
  function DTypeName(t: DType): string
  {
    match t
    case U8 => "u8"
    case S8 => "s8"
    case U16 => "u16"
    case S16 => "s16"
    case U32 => "u32"
    case S32 => "s32"
    case U64 => "u64"
    case S64 => "s64"
    case Float => "float"
    case Str => "str"
  }

  /** The dictionary spelling of each access mode. */
  function AccessName(a: Access): string
  {
    match a
    case RO => "r"
    case WO => "w"
    case RW => "rw"
  }

  /** The dictionary spelling of each physical-unit kind. */
  function PhyName(p: Phy): string
  {
    match p
    case PhyNone => "none"
    case Torque => "torque"
    case Pos => "pos"
    case Vel => "vel"
    case Acc => "acc"
    case VoltRel => "volt_rel"
    case Rad => "rad"
  }

  /** First-match scan of a name table (the loops of get_dtype, get_access
      and get_phy). */
  function Find<T>(table: seq<(string, T)>, name: string): (r: Option<T>)
    ensures r.None? <==> forall i :: 0 <= i < |table| ==> table[i].0 != name
    ensures r.Some? ==> exists i :: 0 <= i < |table| && table[i] == (name, r.value)
  {
    if |table| == 0 then None
    else if table[0].0 == name then Some(table[0].1)
    else
      var r := Find(table[1..], name);
      assert r.Some? ==> exists i :: 1 <= i < |table| && table[i] == (name, r.value) by {
        if r.Some? {
          var i :| 0 <= i < |table[1..]| && table[1..][i] == (name, r.value);
          assert table[i + 1] == (name, r.value);
        }
      }
      assert r.None? ==> forall i :: 1 <= i < |table| ==> table[i].0 != name by {
        if r.None? {
          forall i | 1 <= i < |table| ensures table[i].0 != name {
            assert table[i] == table[1..][i - 1];
          }
        }
      }
      r
  }

  /** Where each value sits in its name table. */
  function DTypeIndex(t: DType): (i: nat)
    ensures i < |DTypeTable| && DTypeTable[i] == (DTypeName(t), t)
  {
    match t
    case U8 => 0 case S8 => 1 case U16 => 2 case S16 => 3 case U32 => 4
    case S32 => 5 case U64 => 6 case S64 => 7 case Float => 8 case Str => 9
  }

  function AccessIndex(a: Access): (i: nat)
    ensures i < |AccessTable| && AccessTable[i] == (AccessName(a), a)
  {
    match a
    case RO => 0 case WO => 1 case RW => 2
  }

  function PhyIndex(p: Phy): (i: nat)
    ensures i < |PhyTable| && PhyTable[i] == (PhyName(p), p)
  {
    match p
    case PhyNone => 0 case Torque => 1 case Pos => 2 case Vel => 3
    case Acc => 4 case VoltRel => 5 case Rad => 6
  }

  /** Each table entry pairs a value with its own name. */
  lemma TablesAreNamings()
    ensures forall i :: 0 <= i < |DTypeTable| ==> DTypeName(DTypeTable[i].1) == DTypeTable[i].0
    ensures forall i :: 0 <= i < |AccessTable| ==> AccessName(AccessTable[i].1) == AccessTable[i].0
    ensures forall i :: 0 <= i < |PhyTable| ==> PhyName(PhyTable[i].1) == PhyTable[i].0
  {
  }

  /** get_dtype: a known name gives its type, anything else IL_EINVAL. */
  function GetDType(name: string): (r: Result<DType>)
    ensures r.Ok? ==> DTypeName(r.value) == name
    ensures r.Err? ==> r.error == EInval && forall t :: DTypeName(t) != name
  {
    TablesAreNamings();
    match Find(DTypeTable, name)
    case None =>
      assert forall t :: DTypeName(t) != name by {
        forall t ensures DTypeName(t) != name {
          assert DTypeTable[DTypeIndex(t)].0 == DTypeName(t);
        }
      }
      Err(EInval)
    case Some(t) => Ok(t)
  }

  /** get_access: "r", "w" and "rw"; anything else IL_EINVAL. */
  function GetAccess(name: string): (r: Result<Access>)
    ensures r.Ok? ==> AccessName(r.value) == name
    ensures r.Err? ==> r.error == EInval && forall a :: AccessName(a) != name
  {
    TablesAreNamings();
    match Find(AccessTable, name)
    case Some(a) => Ok(a)
    case None =>
      assert forall a :: AccessName(a) != name by {
        forall a ensures AccessName(a) != name {
          assert AccessTable[AccessIndex(a)].0 == AccessName(a);
        }
      }
      Err(EInval)
  }

  /** get_phy: total; an unknown name means no physical unit. */
  function GetPhy(name: string): (r: Phy)
    ensures (exists p :: PhyName(p) == name) ==> PhyName(r) == name
    ensures (forall p :: PhyName(p) != name) ==> r == PhyNone
  {
    TablesAreNamings();
    match Find(PhyTable, name)
    case Some(p) => p
    case None =>
      assert forall p :: PhyName(p) != name by {
        forall p ensures PhyName(p) != name {
          assert PhyTable[PhyIndex(p)].0 == PhyName(p);
        }
      }
      PhyNone
  }

  /** The name tables and the spelling functions are inverse to each other. */
  lemma DTypeNameRoundTrip(t: DType)
    ensures GetDType(DTypeName(t)) == Ok(t)
  {
    var r := GetDType(DTypeName(t));
    assert DTypeTable[DTypeIndex(t)].0 == DTypeName(t);
    assert r.Ok?;
    DTypeNameInjective(r.value, t);
  }

  /** Recovers a data type from its spelling by length and two characters. */
  function SpelledDType(s: string): DType
  {
    if |s| == 5 then Float
    else if |s| == 2 then (if s[0] == 'u' then U8 else S8)
    else if |s| != 3 || s[1] == 't' then Str
    else if s[1] == '1' then (if s[0] == 'u' then U16 else S16)
    else if s[1] == '3' then (if s[0] == 'u' then U32 else S32)
    else if s[0] == 'u' then U64 else S64
  }

  /** No two data types share a spelling. */
  lemma DTypeNameInjective(a: DType, b: DType)
    requires DTypeName(a) == DTypeName(b)
    ensures a == b
  {
    assert SpelledDType(DTypeName(a)) == a;
    assert SpelledDType(DTypeName(b)) == b;
  }

  lemma AccessNameRoundTrip(a: Access)
    ensures GetAccess(AccessName(a)) == Ok(a)
  {
    match a
    case RO => assert Find(AccessTable, "r") == Some(RO);
    case WO => assert Find(AccessTable, "w") == Some(WO);
    case RW => assert Find(AccessTable, "rw") == Some(RW);
  }

  lemma PhyNameRoundTrip(p: Phy)
    ensures GetPhy(PhyName(p)) == p
  {
    var r := GetPhy(PhyName(p));
    PhyNameInjective(r, p);
  }

  /** Recovers a physical-unit kind from its spelling by length and first
      character. */
  function SpelledPhy(s: string): Phy
  {
    if |s| == 4 then PhyNone
    else if |s| == 6 then Torque
    else if |s| == 8 || |s| == 0 then VoltRel
    else if s[0] == 'p' then Pos
    else if s[0] == 'v' then Vel
    else if s[0] == 'a' then Acc
    else Rad
  }

  /** No two physical-unit kinds share a spelling. */
  lemma PhyNameInjective(a: Phy, b: Phy)
    requires PhyName(a) == PhyName(b)
    ensures a == b
  {
    assert SpelledPhy(PhyName(a)) == a;
    assert SpelledPhy(PhyName(b)) == b;
  }

  /** Numeric text conversions, which are not part of this model: `hex`
      stands for strtoul(s, NULL, 16) and `num` for strtol/strtoul(s, NULL, 0). */
  datatype Parsers = Parsers(hex: string -> int, num: string -> int)

  /** A nested `Range` element with its optional min and max attributes. */
  datatype RangeNode = RangeNode(min: Option<string>, max: Option<string>)

  /** A `Register` element: its attributes and its optional Range child. */
  datatype RegNode = RegNode(attrs: map<string, string>, range: Option<RangeNode>)

  /** The range a register gets before its nested properties are parsed. */
  function DefaultRange(t: DType): Range
  {
    if IsInteger(t) then Bounds(TypeMin(t), TypeMax(t)) else Unset
  }

  /** parse_reg_range: each present bound is converted to the register's
      type; float and str registers ignore the element. */
  function OverrideRange(t: DType, range: Range, node: RangeNode, num: string -> int): Range
    requires range.Bounds? <==> IsInteger(t)
  {
    if !IsInteger(t) then range
    else
      Bounds(
        if node.min.Some? then Wrap(t, num(node.min.value)) else range.min,
        if node.max.Some? then Wrap(t, num(node.max.value)) else range.max)
  }

  /** Every bound of an integer register is a value of its type; the other
      registers have no range. */
  predicate RangeFits(r: Reg)
  {
    match r.range
    case Unset => !IsInteger(r.dtype)
    case Bounds(lo, hi) =>
      IsInteger(r.dtype) && TypeMin(r.dtype) <= lo <= TypeMax(r.dtype)
      && TypeMin(r.dtype) <= hi <= TypeMax(r.dtype)
  }

  ghost predicate KnownDType(s: string)
  {
    exists t :: DTypeName(t) == s
  }

  ghost predicate KnownAccess(s: string)
  {
    exists a :: AccessName(a) == s
  }

  /** The attribute rules a register element must satisfy. */
  ghost predicate RegAttrsValid(a: map<string, string>)
  {
    && "address" in a && "dtype" in a && "access" in a
    && KnownDType(a["dtype"]) && KnownAccess(a["access"])
    && ("scat_id" in a ==> "cat_id" in a)
  }

  /** parse_reg after the id and duplicate checks: required attributes in
      source order, name lookups, optional attributes, default range, then
      the nested Range element. */
  function ParseReg(node: RegNode, p: Parsers): (r: Result<Reg>)
    ensures r.Ok? <==> RegAttrsValid(node.attrs)
    ensures r.Err? ==> (r.error == EFail || r.error == EInval)
    ensures r.Err? ==>
      (r.error == EInval <==>
        "address" in node.attrs && "dtype" in node.attrs
        && (!KnownDType(node.attrs["dtype"])
            || ("access" in node.attrs && !KnownAccess(node.attrs["access"]))))
    ensures r.Ok? ==>
      && r.value.address == p.hex(node.attrs["address"])
      && DTypeName(r.value.dtype) == node.attrs["dtype"]
      && AccessName(r.value.access) == node.attrs["access"]
      && OptionalsParsed(node.attrs, r.value)
      && RangeFits(r.value)
  {
    var a := node.attrs;
    if "address" !in a then Err(EFail)
    else if "dtype" !in a then Err(EFail)
    else
      var t :- GetDType(a["dtype"]);
      if "access" !in a then Err(EFail)
      else
        var acc :- GetAccess(a["access"]);
        if "scat_id" in a && "cat_id" !in a then Err(EFail)
        else Ok(BuildReg(node, p, t, acc))
  }

  /** The optional attributes as parse_reg reads them: an unknown or absent
      phy means no unit, a missing cat_id or scat_id no category. */
  ghost predicate OptionalsParsed(a: map<string, string>, r: Reg)
  {
    && ("phy" !in a ==> r.phy == PhyNone)
    && ("phy" in a && KnownPhy(a["phy"]) ==> PhyName(r.phy) == a["phy"])
    && ("phy" in a && !KnownPhy(a["phy"]) ==> r.phy == PhyNone)
    && (r.catId.Some? <==> "cat_id" in a)
    && (r.catId.Some? ==> r.catId.value == a["cat_id"])
    && (r.scatId.Some? <==> "scat_id" in a)
    && (r.scatId.Some? ==> r.scatId.value == a["scat_id"])
  }

  ghost predicate KnownPhy(s: string)
  {
    exists p :: PhyName(p) == s
  }

  /** The register parse_reg fills in once the required attributes are
      known good. */
  function BuildReg(node: RegNode, p: Parsers, t: DType, acc: Access): (r: Reg)
    requires "address" in node.attrs
    ensures r.address == p.hex(node.attrs["address"]) && r.dtype == t && r.access == acc
    ensures OptionalsParsed(node.attrs, r)
    ensures RangeFits(r)
  {
    var a := node.attrs;
    var phy := if "phy" in a then GetPhy(a["phy"]) else PhyNone;
    var cat := if "cat_id" in a then Some(a["cat_id"]) else None;
    var scat := if "scat_id" in a then Some(a["scat_id"]) else None;
    var range := DefaultRange(t);
    var range := if node.range.Some? then OverrideRange(t, range, node.range.value, p.num) else range;
    Reg(p.hex(a["address"]), t, acc, phy, range, cat, scat)
  }

  /** Without a Range element an integer register spans its whole type and
      a float or str register has no range; a present min or max replaces
      the default with the converted attribute value. */
  lemma RangeDefaultsAndOverride(node: RegNode, p: Parsers)
    requires RegAttrsValid(node.attrs)
    ensures ParseReg(node, p).Ok?
    ensures var reg := ParseReg(node, p).value;
      && (node.range.None? && IsInteger(reg.dtype) ==> reg.range == Bounds(TypeMin(reg.dtype), TypeMax(reg.dtype)))
      && (!IsInteger(reg.dtype) ==> reg.range == Unset)
      && (IsInteger(reg.dtype) && node.range.Some? && node.range.value.min.Some? ==>
            reg.range.min == Wrap(reg.dtype, p.num(node.range.value.min.value)))
      && (IsInteger(reg.dtype) && node.range.Some? && node.range.value.min.None? ==>
            reg.range.min == TypeMin(reg.dtype))
      && (IsInteger(reg.dtype) && node.range.Some? && node.range.value.max.Some? ==>
            reg.range.max == Wrap(reg.dtype, p.num(node.range.value.max.value)))
      && (IsInteger(reg.dtype) && node.range.Some? && node.range.value.max.None? ==>
            reg.range.max == TypeMax(reg.dtype))
  {
  }

  /** A register element whose attributes are valid is accepted whatever
      its id. */
  ghost predicate RegNodeOk(node: RegNode)
  {
    "id" in node.attrs && RegAttrsValid(node.attrs)
  }

  /** parse_reg with the hash-table insertion: a missing id or an id that is
      already present fails with IL_EFAIL before anything else is parsed. */
  function AddReg(regs: map<string, Reg>, node: RegNode, p: Parsers): (r: Result<map<string, Reg>>)
    ensures "id" !in node.attrs ==> r == Err(EFail)
    ensures "id" in node.attrs && node.attrs["id"] in regs ==> r == Err(EFail)
    ensures r.Ok? ==> r.value.Keys == regs.Keys + {node.attrs["id"]}
  {
    if "id" !in node.attrs then Err(EFail)
    else
      var id := node.attrs["id"];
      if id in regs then Err(EFail)
      else
        var reg :- ParseReg(node, p);
        Ok(regs[id := reg])
  }

  /** The register loop of il_dict_create: stop at the first failure. */
  function AddRegs(regs: map<string, Reg>, nodes: seq<RegNode>, p: Parsers): Result<map<string, Reg>>
    decreases |nodes|
  {
    if |nodes| == 0 then Ok(regs)
    else
      var regs' :- AddReg(regs, nodes[0], p);
      AddRegs(regs', nodes[1..], p)
  }

  /** Every element has an id absent from `keys`, the ids are pairwise
      distinct and every element passes the attribute rules. */
  ghost predicate RegsAccepted(keys: set<string>, nodes: seq<RegNode>)
  {
    && (forall i :: 0 <= i < |nodes| ==> RegNodeOk(nodes[i]) && nodes[i].attrs["id"] !in keys)
    && (forall i, j :: 0 <= i < j < |nodes| ==> nodes[i].attrs["id"] != nodes[j].attrs["id"])
  }

  /** Acceptance of a non-empty list splits into its head and its tail. */
  lemma AcceptedCons(keys: set<string>, nodes: seq<RegNode>)
    requires |nodes| > 0 && RegNodeOk(nodes[0])
    ensures RegsAccepted(keys, nodes) <==>
      nodes[0].attrs["id"] !in keys && RegsAccepted(keys + {nodes[0].attrs["id"]}, nodes[1..])
  {
    var id := nodes[0].attrs["id"];
    var tl := nodes[1..];
    if RegsAccepted(keys, nodes) {
      forall i | 0 <= i < |tl| ensures RegNodeOk(tl[i]) && tl[i].attrs["id"] !in keys + {id} {
        assert tl[i] == nodes[i + 1];
      }
      forall i, j | 0 <= i < j < |tl| ensures tl[i].attrs["id"] != tl[j].attrs["id"] {
        assert tl[i] == nodes[i + 1] && tl[j] == nodes[j + 1];
      }
    }
    if id !in keys && RegsAccepted(keys + {id}, tl) {
      forall i | 0 <= i < |nodes| ensures RegNodeOk(nodes[i]) && nodes[i].attrs["id"] !in keys {
        if i > 0 { assert nodes[i] == tl[i - 1]; }
      }
      forall i, j | 0 <= i < j < |nodes| ensures nodes[i].attrs["id"] != nodes[j].attrs["id"] {
        assert nodes[j] == tl[j - 1];
        if i > 0 { assert nodes[i] == tl[i - 1]; }
      }
    }
  }

  /** The register loop succeeds exactly when the elements are accepted. */
  lemma {:induction false} AddRegsAccepts(regs: map<string, Reg>, nodes: seq<RegNode>, p: Parsers)
    ensures AddRegs(regs, nodes, p).Ok? <==> RegsAccepted(regs.Keys, nodes)
    decreases |nodes|
  {
    if |nodes| > 0 {
      var step := AddReg(regs, nodes[0], p);
      if step.Ok? {
        AcceptedCons(regs.Keys, nodes);
        AddRegsAccepts(step.value, nodes[1..], p);
      } else {
        assert !RegNodeOk(nodes[0]) || nodes[0].attrs["id"] in regs;
      }
    }
  }

  /** A successful register loop keeps the earlier entries and adds one
      entry per element. */
  lemma {:induction false} AddRegsSize(regs: map<string, Reg>, nodes: seq<RegNode>, p: Parsers)
    requires RegsAccepted(regs.Keys, nodes)
    ensures AddRegs(regs, nodes, p).Ok?
    ensures var m := AddRegs(regs, nodes, p).value;
      && |m| == |regs| + |nodes|
      && (forall k :: k in regs ==> k in m && m[k] == regs[k])
    decreases |nodes|
  {
    if |nodes| > 0 {
      AddRegsAccepts(regs, nodes, p);
      AcceptedCons(regs.Keys, nodes);
      var id := nodes[0].attrs["id"];
      var regs' := AddReg(regs, nodes[0], p).value;
      assert id !in regs && regs' == regs[id := ParseReg(nodes[0], p).value];
      assert |regs'| == |regs| + 1;
      AddRegsSize(regs', nodes[1..], p);
    }
  }

  /** After a successful register loop each element's id holds that
      element's descriptor. */
  lemma {:induction false} AddRegsEntries(regs: map<string, Reg>, nodes: seq<RegNode>, p: Parsers)
    requires RegsAccepted(regs.Keys, nodes)
    ensures AddRegs(regs, nodes, p).Ok?
    ensures var m := AddRegs(regs, nodes, p).value;
      forall i :: 0 <= i < |nodes| ==>
        "id" in nodes[i].attrs && nodes[i].attrs["id"] in m && Ok(m[nodes[i].attrs["id"]]) == ParseReg(nodes[i], p)
    decreases |nodes|
  {
    if |nodes| > 0 {
      AddRegsAccepts(regs, nodes, p);
      AcceptedCons(regs.Keys, nodes);
      var id := nodes[0].attrs["id"];
      var regs' := AddReg(regs, nodes[0], p).value;
      assert regs' == regs[id := ParseReg(nodes[0], p).value];
      AddRegsEntries(regs', nodes[1..], p);
      AddRegsSize(regs', nodes[1..], p);
      var m := AddRegs(regs', nodes[1..], p).value;
      assert m == AddRegs(regs, nodes, p).value;
      forall i | 0 <= i < |nodes|
        ensures RegNodeOk(nodes[i]) && "id" in nodes[i].attrs && nodes[i].attrs["id"] in m && Ok(m[nodes[i].attrs["id"]]) == ParseReg(nodes[i], p)
      {
        if i > 0 { assert nodes[i] == nodes[1..][i - 1]; }
      }
    }
  }

  /** A successful register loop adds no key other than the elements' ids. */
  lemma {:induction false} AddRegsNoExtra(regs: map<string, Reg>, nodes: seq<RegNode>, p: Parsers)
    requires RegsAccepted(regs.Keys, nodes)
    ensures AddRegs(regs, nodes, p).Ok?
    ensures forall k :: k in AddRegs(regs, nodes, p).value ==>
      k in regs || exists i :: 0 <= i < |nodes| && "id" in nodes[i].attrs && nodes[i].attrs["id"] == k
    decreases |nodes|
  {
    if |nodes| > 0 {
      AddRegsAccepts(regs, nodes, p);
      AcceptedCons(regs.Keys, nodes);
      var id := nodes[0].attrs["id"];
      var regs' := AddReg(regs, nodes[0], p).value;
      assert regs'.Keys == regs.Keys + {id};
      AddRegsNoExtra(regs', nodes[1..], p);
      var m := AddRegs(regs', nodes[1..], p).value;
      assert m == AddRegs(regs, nodes, p).value;
      forall k | k in m
        ensures k in regs || exists i :: 0 <= i < |nodes| && "id" in nodes[i].attrs && nodes[i].attrs["id"] == k
      {
        if k !in regs && k != id {
          var i :| 0 <= i < |nodes[1..]| && "id" in nodes[1..][i].attrs && nodes[1..][i].attrs["id"] == k;
          assert nodes[i + 1] == nodes[1..][i];
        }
      }
    }
  }

  /** A `Category` element: its attributes and the attribute maps of the
      `Subcategory` elements nested in it. */
  datatype CatNode = CatNode(attrs: map<string, string>, scats: seq<map<string, string>>)

  /** A category entry (labels are not part of this model). */
  datatype Category = Category(scats: set<string>)

  /** parse_scat: the id is required and must not repeat within its
      category. */
  function AddScat(scats: set<string>, attrs: map<string, string>): (r: Result<set<string>>)
    ensures "id" !in attrs ==> r == Err(EFail)
    ensures "id" in attrs && attrs["id"] in scats ==> r == Err(EFail)
    ensures "id" in attrs && attrs["id"] !in scats ==> r == Ok(scats + {attrs["id"]})
    ensures r.Ok? ==> r.value == scats + {attrs["id"]}
  {
    if "id" !in attrs then Err(EFail)
    else if attrs["id"] in scats then Err(EFail)
    else Ok(scats + {attrs["id"]})
  }

  /** parse_scats: stop at the first failing sub-category. */
  function AddScats(scats: set<string>, nodes: seq<map<string, string>>): (r: Result<set<string>>)
    ensures r.Err? ==> r == Err(EFail)
    decreases |nodes|
  {
    if |nodes| == 0 then Ok(scats)
    else
      var scats' :- AddScat(scats, nodes[0]);
      AddScats(scats', nodes[1..])
  }

  /** Every sub-category has an id, none already in `seen`, all distinct. */
  ghost predicate IdsFresh(seen: set<string>, nodes: seq<map<string, string>>)
  {
    && (forall i :: 0 <= i < |nodes| ==> "id" in nodes[i] && nodes[i]["id"] !in seen)
    && (forall i, j :: 0 <= i < j < |nodes| ==> nodes[i]["id"] != nodes[j]["id"])
  }

  /** The sub-category loop succeeds exactly when the ids are present and
      fresh, and then records each of them. */
  lemma {:induction false} AddScatsSpec(scats: set<string>, nodes: seq<map<string, string>>)
    ensures AddScats(scats, nodes).Ok? <==> IdsFresh(scats, nodes)
    ensures AddScats(scats, nodes).Ok? ==> AddScats(scats, nodes).value == scats + Ids(nodes)
    decreases |nodes|
  {
    if |nodes| != 0 {
      IdsFreshCons(scats, nodes);
      if AddScat(scats, nodes[0]).Ok? {
        AddScatsSpec(scats + {nodes[0]["id"]}, nodes[1..]);
        if IdsFresh(scats, nodes) {
          IdsCons(nodes);
        }
      }
    }
  }

  /** The ids of a run of sub-category elements that all carry one. */
  ghost function Ids(nodes: seq<map<string, string>>): set<string>
  {
    set i | 0 <= i < |nodes| && "id" in nodes[i] :: nodes[i]["id"]
  }

  lemma IdsFreshCons(seen: set<string>, nodes: seq<map<string, string>>)
    requires nodes != []
    ensures IdsFresh(seen, nodes) <==>
      "id" in nodes[0] && nodes[0]["id"] !in seen && IdsFresh(seen + {nodes[0]["id"]}, nodes[1..])
  {
    if "id" in nodes[0] && nodes[0]["id"] !in seen {
      var seen' := seen + {nodes[0]["id"]};
      var rest := nodes[1..];
      if IdsFresh(seen, nodes) {
        forall i | 0 <= i < |rest| ensures "id" in rest[i] && rest[i]["id"] !in seen' {
          assert rest[i] == nodes[i + 1];
        }
        forall i, j | 0 <= i < j < |rest| ensures rest[i]["id"] != rest[j]["id"] {
          assert rest[i] == nodes[i + 1] && rest[j] == nodes[j + 1];
        }
      }
      if IdsFresh(seen', rest) {
        forall i | 0 <= i < |nodes| ensures "id" in nodes[i] && nodes[i]["id"] !in seen {
          if i > 0 { assert nodes[i] == rest[i - 1]; }
        }
        forall i, j | 0 <= i < j < |nodes| ensures nodes[i]["id"] != nodes[j]["id"] {
          assert nodes[j] == rest[j - 1];
          if i > 0 { assert nodes[i] == rest[i - 1]; }
        }
      }
    }
  }

  lemma IdsCons(nodes: seq<map<string, string>>)
    requires nodes != [] && "id" in nodes[0]
    ensures Ids(nodes) == {nodes[0]["id"]} + Ids(nodes[1..])
  {
    var rest := nodes[1..];
    forall k | k in Ids(nodes) ensures k in {nodes[0]["id"]} + Ids(rest) {
      var i :| 0 <= i < |nodes| && "id" in nodes[i] && nodes[i]["id"] == k;
      if i > 0 { assert rest[i - 1] == nodes[i]; }
    }
    forall k | k in Ids(rest) ensures k in Ids(nodes) {
      var i :| 0 <= i < |rest| && "id" in rest[i] && rest[i]["id"] == k;
      assert nodes[i + 1] == rest[i];
    }
  }

  /** parse_cat: the id is required and must not repeat; then its
      sub-categories are parsed into a fresh table. */
  function AddCat(cats: map<string, Category>, node: CatNode): (r: Result<map<string, Category>>)
    ensures "id" !in node.attrs ==> r == Err(EFail)
    ensures "id" in node.attrs && node.attrs["id"] in cats ==> r == Err(EFail)
    ensures "id" in node.attrs && node.attrs["id"] !in cats ==>
      && (r.Ok? <==> AddScats({}, node.scats).Ok?)
      && (r.Err? ==> r == Err(EFail))
      && (r.Ok? ==> node.attrs["id"] in r.value && r.value[node.attrs["id"]] == Category(AddScats({}, node.scats).value))
    ensures r.Ok? ==> r.value.Keys == cats.Keys + {node.attrs["id"]}
    ensures r.Ok? ==> forall k :: k in cats ==> r.value[k] == cats[k]
  {
    if "id" !in node.attrs then Err(EFail)
    else
      var id := node.attrs["id"];
      if id in cats then Err(EFail)
      else
        var scats :- AddScats({}, node.scats);
        Ok(cats[id := Category(scats)])
  }

  /** The category loop of il_dict_create. */
  function AddCats(cats: map<string, Category>, nodes: seq<CatNode>): Result<map<string, Category>>
    decreases |nodes|
  {
    if |nodes| == 0 then Ok(cats)
    else
      var cats' :- AddCat(cats, nodes[0]);
      AddCats(cats', nodes[1..])
  }

  /** Every category has an id absent from `keys`, the ids are pairwise
      distinct, and each category's sub-categories are accepted. */
  ghost predicate CatsAccepted(keys: set<string>, nodes: seq<CatNode>)
  {
    && (forall i :: 0 <= i < |nodes| ==>
          "id" in nodes[i].attrs && nodes[i].attrs["id"] !in keys && IdsFresh({}, nodes[i].scats))
    && (forall i, j :: 0 <= i < j < |nodes| ==> nodes[i].attrs["id"] != nodes[j].attrs["id"])
  }

  /** Acceptance of a non-empty category list splits into its head and its
      tail. */
  lemma CatsAcceptedCons(keys: set<string>, nodes: seq<CatNode>)
    requires |nodes| > 0 && "id" in nodes[0].attrs
    ensures CatsAccepted(keys, nodes) <==>
      nodes[0].attrs["id"] !in keys && IdsFresh({}, nodes[0].scats)
      && CatsAccepted(keys + {nodes[0].attrs["id"]}, nodes[1..])
  {
    var id := nodes[0].attrs["id"];
    var tl := nodes[1..];
    if CatsAccepted(keys, nodes) {
      forall i | 0 <= i < |tl|
        ensures "id" in tl[i].attrs && tl[i].attrs["id"] !in keys + {id} && IdsFresh({}, tl[i].scats)
      {
        assert tl[i] == nodes[i + 1];
      }
      forall i, j | 0 <= i < j < |tl| ensures tl[i].attrs["id"] != tl[j].attrs["id"] {
        assert tl[i] == nodes[i + 1] && tl[j] == nodes[j + 1];
      }
    }
    if id !in keys && IdsFresh({}, nodes[0].scats) && CatsAccepted(keys + {id}, tl) {
      forall i | 0 <= i < |nodes|
        ensures "id" in nodes[i].attrs && nodes[i].attrs["id"] !in keys && IdsFresh({}, nodes[i].scats)
      {
        if i > 0 { assert nodes[i] == tl[i - 1]; }
      }
      forall i, j | 0 <= i < j < |nodes| ensures nodes[i].attrs["id"] != nodes[j].attrs["id"] {
        assert nodes[j] == tl[j - 1];
        if i > 0 { assert nodes[i] == tl[i - 1]; }
      }
    }
  }

  /** The category loop succeeds exactly when the categories are accepted:
      a missing id, a repeated id or a failing sub-category list anywhere
      fails it. */
  lemma {:induction false} AddCatsAccepts(cats: map<string, Category>, nodes: seq<CatNode>)
    ensures AddCats(cats, nodes).Ok? <==> CatsAccepted(cats.Keys, nodes)
    decreases |nodes|
  {
    if |nodes| > 0 {
      var step := AddCat(cats, nodes[0]);
      if "id" in nodes[0].attrs {
        AddScatsSpec({}, nodes[0].scats);
        CatsAcceptedCons(cats.Keys, nodes);
        if step.Ok? {
          AddCatsAccepts(step.value, nodes[1..]);
        }
      }
    }
  }

  /** After a successful category loop the earlier entries are kept and
      each category's id holds exactly its sub-category ids. */
  lemma {:induction false} AddCatsEntries(cats: map<string, Category>, nodes: seq<CatNode>)
    requires CatsAccepted(cats.Keys, nodes)
    ensures AddCats(cats, nodes).Ok?
    ensures var m := AddCats(cats, nodes).value;
      && (forall k :: k in cats ==> k in m && m[k] == cats[k])
      && (forall i :: 0 <= i < |nodes| ==>
            nodes[i].attrs["id"] in m && m[nodes[i].attrs["id"]] == Category(Ids(nodes[i].scats)))
    decreases |nodes|
  {
    if |nodes| > 0 {
      AddCatsAccepts(cats, nodes);
      CatsAcceptedCons(cats.Keys, nodes);
      AddScatsSpec({}, nodes[0].scats);
      var id := nodes[0].attrs["id"];
      var cats' := AddCat(cats, nodes[0]).value;
      assert cats'[id] == Category(Ids(nodes[0].scats));
      AddCatsEntries(cats', nodes[1..]);
      var m := AddCats(cats', nodes[1..]).value;
      assert m == AddCats(cats, nodes).value;
      forall i | 0 <= i < |nodes|
        ensures nodes[i].attrs["id"] in m && m[nodes[i].attrs["id"]] == Category(Ids(nodes[i].scats))
      {
        if i > 0 { assert nodes[i] == nodes[1..][i - 1]; }
      }
    }
  }

  /** A repeated category id anywhere in the list makes the loop fail. */
  lemma {:induction false} AddCatsRejectsDuplicates(cats: map<string, Category>, nodes: seq<CatNode>, i: int, j: int)
    requires 0 <= i < j < |nodes|
    requires "id" in nodes[i].attrs && "id" in nodes[j].attrs
    requires nodes[i].attrs["id"] == nodes[j].attrs["id"]
    ensures AddCats(cats, nodes).Err?
    decreases |nodes|
  {
    var step := AddCat(cats, nodes[0]);
    if step.Ok? {
      if i == 0 {
        AddCatsKeepsKey(step.value, nodes[1..], j - 1, nodes[0].attrs["id"]);
      } else {
        AddCatsRejectsDuplicates(step.value, nodes[1..], i - 1, j - 1);
      }
    }
  }

  /** An id already in the table makes the element at position j fail. */
  lemma {:induction false} AddCatsKeepsKey(cats: map<string, Category>, nodes: seq<CatNode>, j: int, id: string)
    requires 0 <= j < |nodes| && id in cats
    requires "id" in nodes[j].attrs && nodes[j].attrs["id"] == id
    ensures AddCats(cats, nodes).Err?
    decreases |nodes|
  {
    var step := AddCat(cats, nodes[0]);
    if step.Ok? && j > 0 {
      AddCatsKeepsKey(step.value, nodes[1..], j - 1, id);
    }
  }

  /** The parsed dictionary: category table and register table. */
  datatype Dictionary = Dictionary(cats: map<string, Category>, regs: map<string, Reg>)

  /** The category and register elements the XPath queries select. */
  datatype XmlDoc = XmlDoc(cats: seq<CatNode>, regs: seq<RegNode>)

  /** il_dict_create after the document is read: all categories, then all
      registers; any failure yields NULL. */
  function Create(doc: XmlDoc, p: Parsers): (r: Option<Dictionary>)
    ensures AddCats(map[], doc.cats).Err? ==> r.None?
    ensures AddRegs(map[], doc.regs, p).Err? ==> r.None?
    ensures r.Some? ==> AddCats(map[], doc.cats).Ok? && AddRegs(map[], doc.regs, p).Ok?
  {
    match AddCats(map[], doc.cats)
    case Err(_) => None
    case Ok(cats) =>
      match AddRegs(map[], doc.regs, p)
      case Err(_) => None
      case Ok(regs) => Some(Dictionary(cats, regs))
  }

  /** il_dict_reg_get: the stored descriptor, or IL_EFAIL for an unknown id. */
  function RegGet(d: Dictionary, id: string): (r: Result<Reg>)
    ensures r.Ok? <==> id in d.regs
    ensures r.Ok? ==> r.value == d.regs[id]
    ensures r.Err? ==> r.error == EFail
  {
    if id in d.regs then Ok(d.regs[id]) else Err(EFail)
  }

  /** The register table built from accepted elements, on its own. */
  lemma RegTable(nodes: seq<RegNode>, p: Parsers)
    requires RegsAccepted({}, nodes)
    ensures AddRegs(map[], nodes, p).Ok?
    ensures var m := AddRegs(map[], nodes, p).value;
      && |m| == |nodes|
      && (forall i :: 0 <= i < |nodes| ==> nodes[i].attrs["id"] in m && Ok(m[nodes[i].attrs["id"]]) == ParseReg(nodes[i], p))
      && (forall id :: (forall i :: 0 <= i < |nodes| ==> nodes[i].attrs["id"] != id) ==> id !in m)
  {
    AddRegsSize(map[], nodes, p);
    AddRegsEntries(map[], nodes, p);
    AddRegsNoExtra(map[], nodes, p);
  }

  /** il_dict_create succeeds with valid categories exactly when every
      register element is accepted; the dictionary then holds one entry per
      element, found by its id, and nothing else. */
  lemma CreateSpec(doc: XmlDoc, p: Parsers)
    requires CatsAccepted({}, doc.cats)
    ensures Create(doc, p).Some? <==> RegsAccepted({}, doc.regs)
    ensures Create(doc, p).Some? ==>
      var d := Create(doc, p).value;
      && |d.regs| == |doc.regs|
      && (forall i :: 0 <= i < |doc.regs| ==> RegGet(d, doc.regs[i].attrs["id"]) == ParseReg(doc.regs[i], p))
      && (forall id :: (forall i :: 0 <= i < |doc.regs| ==> doc.regs[i].attrs["id"] != id) ==> RegGet(d, id) == Err(EFail))
  {
    CreateAccepts(doc, p);
    if RegsAccepted({}, doc.regs) {
      CreateRegs(doc, p);
    }
  }

  /** The register table of a created dictionary. */
  lemma CreateRegs(doc: XmlDoc, p: Parsers)
    requires CatsAccepted({}, doc.cats) && RegsAccepted({}, doc.regs)
    ensures Create(doc, p).Some?
    ensures var d := Create(doc, p).value;
      && |d.regs| == |doc.regs|
      && (forall i :: 0 <= i < |doc.regs| ==> RegGet(d, doc.regs[i].attrs["id"]) == ParseReg(doc.regs[i], p))
      && (forall id :: (forall i :: 0 <= i < |doc.regs| ==> doc.regs[i].attrs["id"] != id) ==> RegGet(d, id) == Err(EFail))
  {
    CreateAccepts(doc, p);
    RegTable(doc.regs, p);
    assert Create(doc, p).value.regs == AddRegs(map[], doc.regs, p).value;
  }

  /** il_dict_create succeeds exactly when the categories and the register
      elements are all accepted; a category without an id or with a failing
      sub-category list yields NULL like any register failure. */
  lemma CreateAccepts(doc: XmlDoc, p: Parsers)
    ensures Create(doc, p).Some? <==> CatsAccepted({}, doc.cats) && RegsAccepted({}, doc.regs)
  {
    AddCatsAccepts(map[], doc.cats);
    AddRegsAccepts(map[], doc.regs, p);
  }

  /** A created dictionary holds each category under its id with exactly
      the ids of its sub-categories. */
  lemma CreateCats(doc: XmlDoc, p: Parsers)
    requires CatsAccepted({}, doc.cats) && RegsAccepted({}, doc.regs)
    ensures Create(doc, p).Some?
    ensures forall i :: 0 <= i < |doc.cats| ==>
      doc.cats[i].attrs["id"] in Create(doc, p).value.cats
      && Create(doc, p).value.cats[doc.cats[i].attrs["id"]] == Category(Ids(doc.cats[i].scats))
  {
    CreateAccepts(doc, p);
    AddCatsEntries(map[], doc.cats);
  }

  /** A category without an id, or one whose sub-categories fail, makes
      il_dict_create fail. */
  lemma CreateRejectsInvalidCat(doc: XmlDoc, p: Parsers, i: int)
    requires 0 <= i < |doc.cats|
    requires "id" !in doc.cats[i].attrs || !IdsFresh({}, doc.cats[i].scats)
    ensures Create(doc, p).None?
  {
    CreateAccepts(doc, p);
  }

  /** Two register elements with the same id make il_dict_create fail. */
  lemma CreateRejectsDuplicateRegs(doc: XmlDoc, p: Parsers, i: int, j: int)
    requires 0 <= i < j < |doc.regs|
    requires "id" in doc.regs[i].attrs && "id" in doc.regs[j].attrs
    requires doc.regs[i].attrs["id"] == doc.regs[j].attrs["id"]
    ensures Create(doc, p).None?
  {
    AddRegsAccepts(map[], doc.regs, p);
  }

  /** Two categories with the same id make il_dict_create fail. */
  lemma CreateRejectsDuplicateCats(doc: XmlDoc, p: Parsers, i: int, j: int)
    requires 0 <= i < j < |doc.cats|
    requires "id" in doc.cats[i].attrs && "id" in doc.cats[j].attrs
    requires doc.cats[i].attrs["id"] == doc.cats[j].attrs["id"]
    ensures Create(doc, p).None?
  {
    AddCatsRejectsDuplicates(map[], doc.cats, i, j);
  }

  /** A register element failing its attribute rules makes il_dict_create
      fail. */
  lemma CreateRejectsInvalidReg(doc: XmlDoc, p: Parsers, i: int)
    requires 0 <= i < |doc.regs|
    requires ParseReg(doc.regs[i], p).Err?
    ensures Create(doc, p).None?
  {
    AddRegsAccepts(map[], doc.regs, p);
  }

  /** The keys of a hash table, each exactly once, in unspecified order
      (the kh_exist scans of the *_ids_get functions). */
  method Keys<V>(m: map<string, V>) returns (ids: seq<string>)
    ensures |ids| == |m|
    ensures forall i :: 0 <= i < |ids| ==> ids[i] in m
    ensures forall k :: k in m ==> k in ids
    ensures forall i, j :: 0 <= i < j < |ids| ==> ids[i] != ids[j]
  {
    ids := [];
    var rest := m.Keys;
    while rest != {}
      invariant rest <= m.Keys
      invariant forall i :: 0 <= i < |ids| ==> ids[i] in m && ids[i] !in rest
      invariant forall k :: k in m ==> k in rest || k in ids
      invariant forall i, j :: 0 <= i < j < |ids| ==> ids[i] != ids[j]
      invariant |ids| + |rest| == |m.Keys|
      decreases |rest|
    {
      var k :| k in rest;
      ids := ids + [k];
      rest := rest - {k};
    }
  }

  /** il_dict_reg_ids_get: every register id exactly once, il_dict_reg_cnt
      of them in all. */
  method RegIdsGet(d: Dictionary) returns (ids: seq<string>)
    ensures |ids| == |d.regs|
    ensures forall id :: id in ids <==> RegGet(d, id).Ok?
    ensures forall i, j :: 0 <= i < j < |ids| ==> ids[i] != ids[j]
  {
    ids := Keys(d.regs);
  }

  /** il_dict_cat_ids_get: every category id exactly once. */
  method CatIdsGet(d: Dictionary) returns (ids: seq<string>)
    ensures |ids| == |d.cats|
    ensures forall id :: id in ids <==> id in d.cats
    ensures forall i, j :: 0 <= i < j < |ids| ==> ids[i] != ids[j]
  {
    ids := Keys(d.cats);
  }

  /** il_dict_scat_ids_get: NULL for an unknown category, else every
      sub-category id of that category exactly once. */
  method ScatIdsGet(d: Dictionary, cat: string) returns (ids: Option<seq<string>>)
    ensures ids.None? <==> cat !in d.cats
    ensures ids.Some? ==> |ids.value| == |d.cats[cat].scats|
    ensures ids.Some? ==> forall id :: id in ids.value <==> id in d.cats[cat].scats
    ensures ids.Some? ==> forall i, j :: 0 <= i < j < |ids.value| ==> ids.value[i] != ids.value[j]
  {
    if cat !in d.cats {
      return None;
    }
    var s := d.cats[cat].scats;
    var table := map k | k in s :: true;
    assert table.Keys == s;
    var keys := Keys(table);
    ids := Some(keys);
  }
}
