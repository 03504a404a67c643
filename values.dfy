/** The values a polymorphic envelope can hold, one constructor per concrete wire type.
    Matching on the constructor stands for the runtime downcast each type's `equals` performs. */
module Values {
  import opened Wire

  datatype Value =
    | BoolV(b: bool)
    | PidV(pid: u64)
    | CvcV(structureVersion: u32, classVersions: map<Ident, u16>)
    | DummyV

  /** Both values are of the same concrete type. */
  predicate SameKind(a: Value, b: Value) {
    match a
    case BoolV(_) => b.BoolV?
    case PidV(_) => b.PidV?
    case CvcV(_, _) => b.CvcV?
    case DummyV => b.DummyV?
  }
}
