/** Register descriptors: data types, access rights, physical-unit kinds and
    the per-type numeric ranges of the register dictionary. */
module Registers {
  import opened Outcomes

  /** IL_REG_DTYPE_*: the nine scalar types plus the string type that only
      the dictionary knows about. */
  datatype DType = U8 | S8 | U16 | S16 | U32 | S32 | U64 | S64 | Float | Str

  /** IL_REG_ACCESS_*: read-only, write-only, read-write. */
  datatype Access = RO | WO | RW

  /** IL_REG_PHY_*: the physical-unit kind that selects a unit factor. */
  datatype Phy = PhyNone | Torque | Pos | Vel | Acc | VoltRel | Rad

  /** The types with a raw read/write accessor (every type but `str`). */
  type Scalar = t: DType | !t.Str? witness U8

  predicate IsInteger(t: DType)
  {
    !t.Float? && !t.Str?
  }

  predicate IsSigned(t: DType)
  {
    t.S8? || t.S16? || t.S32? || t.S64?
  }

  /** Number of distinct values of an integer type: 2^width. */
  function Modulus(t: DType): int
    requires IsInteger(t)
  {
    match t
    case U8 | S8 => 0x100
    case U16 | S16 => 0x1_0000
    case U32 | S32 => 0x1_0000_0000
    case U64 | S64 => 0x1_0000_0000_0000_0000
  }

  /** INT*_MIN, or 0 for the unsigned types. */
  function TypeMin(t: DType): int
    requires IsInteger(t)
  {
    if IsSigned(t) then -(Modulus(t) / 2) else 0
  }

  /** INT*_MAX or UINT*_MAX. */
  function TypeMax(t: DType): int
    requires IsInteger(t)
  {
    TypeMin(t) + Modulus(t) - 1
  }

  /** Buffer size in bytes (`sizeof`) of a scalar type on the wire. */
  function Size(t: Scalar): nat
  {
    match t
    case U8 | S8 => 1
    case U16 | S16 => 2
    case U32 | S32 | Float => 4
    case U64 | S64 => 8
  }

  /** A C conversion of an integer to the type `t` (two's complement
      truncation: the result is the unique value of `t` congruent to n). */
  function Wrap(t: DType, n: int): (r: int)
    requires IsInteger(t)
    ensures TypeMin(t) <= r <= TypeMax(t)
    ensures (r - n) % Modulus(t) == 0
    ensures TypeMin(t) <= n <= TypeMax(t) ==> r == n
  {
    var m := Modulus(t);
    var r := TypeMin(t) + (n - TypeMin(t)) % m;
    assert n - TypeMin(t) == m * ((n - TypeMin(t)) / m) + (n - TypeMin(t)) % m;
    assert r - n == m * -((n - TypeMin(t)) / m);
    r
  }

  /** The numeric range of a register: set for integer types, and left
      unset (never written) for float and string registers. */
  datatype Range = Unset | Bounds(min: int, max: int)

  /** A register descriptor (il_reg_t) without its localized labels. */
  datatype Reg = Reg(
    address: int,
    dtype: DType,
    access: Access,
    phy: Phy,
    range: Range,
    catId: Option<string>,
    scatId: Option<string>)
}
