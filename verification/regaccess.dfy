/** Register resolution, access checks and the typed read/write dispatch of
    the servo. The transport itself is not part of this model: an access
    yields either an error reported before the transport is touched, or the
    single transport call the servo issues. */
module RegAccess {
  import opened Outcomes
  import opened Registers
  import opened Dict

  /** A transport call addressed to the servo's node: il_net__read of
      `size` bytes, or il_net__write of `value` with a confirm flag. */
  datatype NetCall =
    | NetRead(address: int, size: nat)
    | NetWrite(address: int, value: int, size: nat, confirmed: int)

  /** get_reg: a predefined descriptor wins; otherwise the loaded dictionary
      is consulted, and without one the result is IL_EFAIL. */
  function GetReg(dict: Option<Dictionary>, pdef: Option<Reg>, id: string): (r: Result<Reg>)
    ensures r.Ok? <==> pdef.Some? || (dict.Some? && id in dict.value.regs)
    ensures r.Ok? ==> r.value == (if pdef.Some? then pdef.value else dict.value.regs[id])
    ensures r.Err? ==> r.error == EFail
    ensures pdef.None? && dict.Some? ==> r == RegGet(dict.value, id)
  {
    if pdef.Some? then Ok(pdef.value)
    else if dict.None? then Err(EFail)
    else RegGet(dict.value, id)
  }

  /** A predefined descriptor makes the dictionary and the id irrelevant. */
  lemma PredefinedIgnoresDictionary(d1: Option<Dictionary>, d2: Option<Dictionary>, reg: Reg, id1: string, id2: string)
    ensures GetReg(d1, Some(reg), id1) == GetReg(d2, Some(reg), id2) == Ok(reg)
  {
  }

  /** raw_read: type check first (IL_EINVAL), then the write-only check
      (IL_EACCESS); only a register passing both is read from the transport. */
  function RawRead(dict: Option<Dictionary>, pdef: Option<Reg>, id: string, want: Scalar): (r: Result<NetCall>)
    ensures GetReg(dict, pdef, id).Err? ==> r == Err(GetReg(dict, pdef, id).error)
    ensures GetReg(dict, pdef, id).Ok? ==>
      var reg := GetReg(dict, pdef, id).value;
      && (reg.dtype != want ==> r == Err(EInval))
      && (reg.dtype == want && reg.access == WO ==> r == Err(EAccess))
      && (r.Ok? <==> reg.dtype == want && reg.access != WO)
      && (r.Ok? ==> r.value == NetRead(reg.address, Size(want)))
  {
    var reg :- GetReg(dict, pdef, id);
    if reg.dtype != want then Err(EInval)
    else if reg.access == WO then Err(EAccess)
    else Ok(NetRead(reg.address, Size(want)))
  }

  /** raw_write: type check (IL_EINVAL), read-only check (IL_EACCESS); the
      confirm flag is dropped to 0 for write-only registers and passed on
      unchanged otherwise. */
  function RawWrite(dict: Option<Dictionary>, pdef: Option<Reg>, id: string, want: Scalar, value: int, confirm: int): (r: Result<NetCall>)
    ensures GetReg(dict, pdef, id).Err? ==> r == Err(GetReg(dict, pdef, id).error)
    ensures GetReg(dict, pdef, id).Ok? ==>
      var reg := GetReg(dict, pdef, id).value;
      && (reg.dtype != want ==> r == Err(EInval))
      && (reg.dtype == want && reg.access == RO ==> r == Err(EAccess))
      && (r.Ok? <==> reg.dtype == want && reg.access != RO)
      && (r.Ok? ==> (r.value.NetWrite? && r.value.address == reg.address
                     && r.value.value == value && r.value.size == Size(want)))
      && (r.Ok? && reg.access == WO ==> r.value.confirmed == 0)
      && (r.Ok? && reg.access == RW ==> r.value.confirmed == confirm)
  {
    var reg :- GetReg(dict, pdef, id);
    if reg.dtype != want then Err(EInval)
    else if reg.access == RO then Err(EAccess)
    else
      var confirmed := if reg.access == WO then 0 else confirm;
      Ok(NetWrite(reg.address, value, Size(want), confirmed))
  }

  /** The resolved descriptor and the transport call of a scaled access. */
  datatype Dispatch = Dispatch(reg: Reg, call: NetCall)

  /** il_servo_base__read up to the unit scaling: resolve, then dispatch to
      the raw read of the register's own type; a str register is
      IL_EINVAL. The value read is then multiplied by the factor of
      `reg.phy` (floating point, not part of this model). */
  function Read(dict: Option<Dictionary>, pdef: Option<Reg>, id: string): (r: Result<Dispatch>)
    ensures GetReg(dict, pdef, id).Err? ==> r.Err? && r.error == GetReg(dict, pdef, id).error
    ensures GetReg(dict, pdef, id).Ok? ==>
      var reg := GetReg(dict, pdef, id).value;
      && (reg.dtype.Str? ==> r == Err(EInval))
      && (!reg.dtype.Str? && reg.access == WO ==> r == Err(EAccess))
      && (r.Ok? <==> !reg.dtype.Str? && reg.access != WO)
      && (r.Ok? ==> r.value.reg == reg && r.value.call == NetRead(reg.address, Size(reg.dtype)))
  {
    var reg :- GetReg(dict, pdef, id);
    if reg.dtype.Str? then Err(EInval)
    else
      var call :- RawRead(dict, Some(reg), "", reg.dtype);
      Ok(Dispatch(reg, call))
  }

  /** il_servo_base__write after the conversion to native units: `native`
      is the already converted and narrowed value. A str register is
      IL_EINVAL; the rest goes to the raw write of the register's type. */
  function Write(dict: Option<Dictionary>, pdef: Option<Reg>, id: string, native: int, confirm: int): (r: Result<NetCall>)
    ensures GetReg(dict, pdef, id).Err? ==> r.Err? && r.error == GetReg(dict, pdef, id).error
    ensures GetReg(dict, pdef, id).Ok? ==>
      var reg := GetReg(dict, pdef, id).value;
      && (reg.dtype.Str? ==> r == Err(EInval))
      && (!reg.dtype.Str? && reg.access == RO ==> r == Err(EAccess))
      && (r.Ok? <==> !reg.dtype.Str? && reg.access != RO)
      && (r.Ok? ==> r.value == NetWrite(reg.address, native, Size(reg.dtype), if reg.access == WO then 0 else confirm))
  {
    var reg :- GetReg(dict, pdef, id);
    if reg.dtype.Str? then Err(EInval)
    else RawWrite(dict, Some(reg), "", reg.dtype, native, confirm)
  }

  /** The scaled accessors never report a type mismatch for a scalar
      register: each issues exactly the raw access of the register's own
      type, with the same outcome. */
  lemma DispatchMatchesRaw(dict: Option<Dictionary>, pdef: Option<Reg>, id: string, native: int, confirm: int)
    requires GetReg(dict, pdef, id).Ok? && !GetReg(dict, pdef, id).value.dtype.Str?
    ensures var reg := GetReg(dict, pdef, id).value;
      && (Read(dict, pdef, id).Ok? <==> RawRead(dict, pdef, id, reg.dtype).Ok?)
      && (Read(dict, pdef, id).Ok? ==> Read(dict, pdef, id).value.call == RawRead(dict, pdef, id, reg.dtype).value)
      && Write(dict, pdef, id, native, confirm) == RawWrite(dict, pdef, id, reg.dtype, native, confirm)
      && Read(dict, pdef, id) != Err(EInval)
      && Write(dict, pdef, id, native, confirm) != Err(EInval)
  {
  }
}
