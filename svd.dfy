/**
 * The parsed register description of one device, as far as the normaliser,
 * the skeleton eraser and the fingerprinting read or write it.
 * Each datatype keeps the components that the pipeline strips, sorts by or
 * erases, plus the identity data (names, offsets, array element counts)
 * that it must leave alone.
 */
module Svd {
  import opened Wrappers

  /** The write constraint of a field or register. */
  datatype WriteConstraint =
    | WriteAsRead(asRead: bool)
    | UseEnumeratedValues(useEnum: bool)
    | Range(min: nat, max: nat)

  /** One enumerated value; `value` is optional in the source (`Option<u64>`). */
  datatype EnumeratedValue = EnumeratedValue(
    name: string,
    description: Option<string>,
    value: Option<nat>,
    isDefault: Option<bool>)

  /** A group of enumerated values attached to a field. */
  datatype EnumeratedValues = EnumeratedValues(
    name: Option<string>,
    values: seq<EnumeratedValue>)

  /** A bit field; `dim` is the element count when the field is an array. */
  datatype Field = Field(
    name: string,
    description: Option<string>,
    bitOffset: nat,
    bitWidth: nat,
    dim: Option<nat>,
    writeConstraint: Option<WriteConstraint>,
    enumeratedValues: seq<EnumeratedValues>)

  datatype Register = Register(
    name: string,
    displayName: Option<string>,
    description: Option<string>,
    addressOffset: nat,
    dim: Option<nat>,
    writeConstraint: Option<WriteConstraint>,
    fields: Option<seq<Field>>)

  datatype Cluster = Cluster(
    name: string,
    description: Option<string>,
    addressOffset: nat,
    dim: Option<nat>,
    children: seq<RegisterCluster>)

  /** The tagged union of the register tree. */
  datatype RegisterCluster = Reg(register: Register) | Clu(cluster: Cluster)

  datatype Interrupt = Interrupt(name: string, description: Option<string>, value: nat)

  datatype Peripheral = Peripheral(
    name: string,
    displayName: Option<string>,
    description: Option<string>,
    groupName: Option<string>,
    baseAddress: nat,
    interrupts: seq<Interrupt>,
    registers: Option<seq<RegisterCluster>>)

  datatype Device = Device(name: string, peripherals: seq<Peripheral>)

  /** Sort key of a register-tree node: its `address_offset`. */
  function RcKey(rc: RegisterCluster): int {
    match rc
    case Reg(r) => r.addressOffset
    case Clu(c) => c.addressOffset
  }

  /** Sort key of a field: the offset of its bit range. */
  function FieldKey(f: Field): int {
    f.bitOffset
  }

  /**
   * Sort key of an enumerated value. The source sorts by `Option<u64>`,
   * whose order puts `None` before every `Some`; -1 below every natural
   * number gives the same order.
   */
  function EnumValueKey(ev: EnumeratedValue): (k: int)
    ensures ev.value.None? ==> k < 0
    ensures ev.value.Some? ==> k == ev.value.value
  {
    match ev.value
    case None => -1
    case Some(v) => v
  }

  /** What identifies a tree node apart from its text and its children. */
  datatype NodeIdent = NodeIdent(isCluster: bool, name: string, addressOffset: nat, dim: Option<nat>)

  function RcIdent(rc: RegisterCluster): NodeIdent {
    match rc
    case Reg(r) => NodeIdent(false, r.name, r.addressOffset, r.dim)
    case Clu(c) => NodeIdent(true, c.name, c.addressOffset, c.dim)
  }

  datatype FieldIdent = FieldIdentOf(name: string, bitOffset: nat, bitWidth: nat, dim: Option<nat>)

  function FieldIdentity(f: Field): FieldIdent {
    FieldIdentOf(f.name, f.bitOffset, f.bitWidth, f.dim)
  }

  datatype ValueIdent = ValueIdentOf(name: string, value: Option<nat>, isDefault: Option<bool>)

  function ValueIdentity(ev: EnumeratedValue): ValueIdent {
    ValueIdentOf(ev.name, ev.value, ev.isDefault)
  }
}
