/** The parts of the servo record that calls other than register access
    change: the loaded dictionary and the selected units. */
module Servo {
  import opened Outcomes
  import opened Dict
  import RegAccess

  /** The physical quantities whose units can be selected. */
  datatype Quantity = Torque | Position | Velocity | Acceleration

  /** A units selection: the native units, or another unit of the
      quantity's enumeration. */
  datatype Unit = Native | Selected(code: int)

  datatype Units = Units(torque: Unit, pos: Unit, vel: Unit, acc: Unit)

  datatype Servo = Servo(dict: Option<Dictionary>, units: Units)

  /** Units after initialisation: native for every quantity. */
  const InitialUnits: Units := Units(Native, Native, Native, Native)

  /** il_servo_base__init selects the native unit of every quantity. */
  lemma InitialUnitsNative(q: Quantity)
    ensures UnitsGet(InitialUnits, q) == Native
  {
  }

  /** il_servo_base__units_*_get */
  function UnitsGet(u: Units, q: Quantity): Unit
  {
    match q
    case Torque => u.torque
    case Position => u.pos
    case Velocity => u.vel
    case Acceleration => u.acc
  }

  /** il_servo_base__units_*_set */
  function UnitsSet(u: Units, q: Quantity, unit: Unit): (u': Units)
    ensures UnitsGet(u', q) == unit
    ensures forall other :: other != q ==> UnitsGet(u', other) == UnitsGet(u, other)
  {
    match q
    case Torque => u.(torque := unit)
    case Position => u.(pos := unit)
    case Velocity => u.(vel := unit)
    case Acceleration => u.(acc := unit)
  }

  /** Setting what is already selected changes nothing, and the last of two
      settings of one quantity wins. */
  lemma UnitsSetLastWins(u: Units, q: Quantity, a: Unit, b: Unit)
    ensures UnitsSet(u, q, UnitsGet(u, q)) == u
    ensures UnitsSet(UnitsSet(u, q, a), q, b) == UnitsSet(u, q, b)
  {
  }

  /** il_servo_base__dict_load: refused with IL_EALREADY when a dictionary
      is loaded; otherwise the dictionary is created from the document, and
      a failure to create it is IL_EFAIL with no dictionary loaded. */
  function DictLoad(s: Servo, doc: XmlDoc, p: Parsers): (r: (Result<()>, Servo))
    ensures s.dict.Some? ==> r == (Err(EAlready), s)
    ensures s.dict.None? && Create(doc, p).Some? ==> r.0 == Ok(()) && r.1 == s.(dict := Create(doc, p))
    ensures s.dict.None? && Create(doc, p).None? ==> r == (Err(EFail), s)
    ensures r.1.units == s.units
  {
    if s.dict.Some? then (Err(EAlready), s)
    else
      match Create(doc, p)
      case None => (Err(EFail), s)
      case Some(d) => (Ok(()), s.(dict := Some(d)))
  }

  /** A second load never replaces the first dictionary, and once loaded
      the registers of the document resolve by id. */
  lemma LoadOnce(s: Servo, doc1: XmlDoc, doc2: XmlDoc, p: Parsers, id: string)
    requires s.dict.None? && DictLoad(s, doc1, p).0.Ok?
    ensures var s1 := DictLoad(s, doc1, p).1;
      && DictLoad(s1, doc2, p) == (Err(EAlready), s1)
      && RegAccess.GetReg(s1.dict, None, id) == RegGet(Create(doc1, p).value, id)
  {
  }
}
