/**
 * The skeleton eraser (`clear_fields`): in every register of the tree,
 * nested clusters included, every field loses its enumerated values and its
 * write constraint. Nothing else changes. It runs on a copy of the
 * normalised peripheral, so the structural copy keeps both.
 */
module Skeleton {
  import opened Wrappers
  import opened Svd
  import opened Sorting

  // ---------------------------------------------------------------- what it produces

  function ErasedField(f: Field): (r: Field)
    ensures r.enumeratedValues == [] && r.writeConstraint.None?
  {
    f.(enumeratedValues := [], writeConstraint := None)
  }

  function ErasedRegister(r: Register): Register {
    r.(fields := match r.fields
                 case None => None
                 case Some(fs) => Some(MapSeq(ErasedField, fs)))
  }

  function ErasedCluster(c: Cluster): Cluster
    decreases c
  {
    c.(children := seq(|c.children|, i requires 0 <= i < |c.children| => ErasedNode(c.children[i])))
  }

  function ErasedNode(rc: RegisterCluster): RegisterCluster
    decreases rc
  {
    match rc
    case Reg(reg) => Reg(ErasedRegister(reg))
    case Clu(c) => Clu(ErasedCluster(c))
  }

  function ErasedPeripheral(p: Peripheral): (r: Peripheral)
    ensures r.registers.Some? <==> p.registers.Some?
  {
    p.(registers := match p.registers
                    case None => None
                    case Some(rs) => Some(MapSeq(ErasedNode, rs)))
  }

  // ---------------------------------------------------------------- the source's loops

  method ClearRegister(reg: Register) returns (r: Register)
    ensures r == ErasedRegister(reg)
  {
    r := reg;
    if reg.fields.Some? {
      var fields := reg.fields.value;
      var i := 0;
      while i < |fields|
        invariant 0 <= i <= |fields| == |reg.fields.value|
        invariant forall j :: 0 <= j < i ==> fields[j] == ErasedField(reg.fields.value[j])
        invariant forall j :: i <= j < |fields| ==> fields[j] == reg.fields.value[j]
      {
        fields := fields[i := fields[i].(enumeratedValues := [], writeConstraint := None)];
        i := i + 1;
      }
      assert fields == MapSeq(ErasedField, reg.fields.value);
      r := reg.(fields := Some(fields));
    }
  }

  method ClearRegisterCluster(rc: RegisterCluster) returns (r: RegisterCluster)
    ensures r == ErasedNode(rc)
    decreases rc
  {
    match rc
    case Reg(reg) =>
      var reg' := ClearRegister(reg);
      r := Reg(reg');
    case Clu(c) =>
      var c' := ClearCluster(c);
      r := Clu(c');
  }

  method ClearCluster(c: Cluster) returns (r: Cluster)
    ensures r == ErasedCluster(c)
    decreases c
  {
    var children := c.children;
    var i := 0;
    while i < |children|
      invariant 0 <= i <= |children| == |c.children|
      invariant forall j :: 0 <= j < i ==> children[j] == ErasedNode(c.children[j])
      invariant forall j :: i <= j < |children| ==> children[j] == c.children[j]
    {
      var child := ClearRegisterCluster(c.children[i]);
      children := children[i := child];
      i := i + 1;
    }
    r := c.(children := children);
  }

  /** `clear_fields`, applied to (a copy of) `p`. */
  method ClearFields(p: Peripheral) returns (r: Peripheral)
    ensures r == ErasedPeripheral(p)
  {
    r := p;
    if p.registers.Some? {
      var registers := p.registers.value;
      var i := 0;
      while i < |registers|
        invariant 0 <= i <= |registers| == |p.registers.value|
        invariant forall j :: 0 <= j < i ==> registers[j] == ErasedNode(p.registers.value[j])
        invariant forall j :: i <= j < |registers| ==> registers[j] == p.registers.value[j]
      {
        var rc := ClearRegisterCluster(registers[i]);
        registers := registers[i := rc];
        i := i + 1;
      }
      assert registers == MapSeq(ErasedNode, p.registers.value);
      r := p.(registers := Some(registers));
    }
  }

  // ---------------------------------------------------------------- properties

  /** No field anywhere in the tree has enumerated values or a write constraint. */
  ghost predicate ErasedFields(fs: seq<Field>) {
    forall k :: 0 <= k < |fs| ==> fs[k].enumeratedValues == [] && fs[k].writeConstraint.None?
  }

  ghost predicate ErasedTreeNode(rc: RegisterCluster)
    decreases rc
  {
    match rc
    case Reg(r) => r.fields.Some? ==> ErasedFields(r.fields.value)
    case Clu(c) => forall i :: 0 <= i < |c.children| ==> ErasedTreeNode(c.children[i])
  }

  ghost predicate ErasedTree(p: Peripheral) {
    p.registers.Some? ==> forall k :: 0 <= k < |p.registers.value| ==> ErasedTreeNode(p.registers.value[k])
  }

  /** Two fields that differ at most in their enumerated values and write constraint. */
  ghost predicate SameFieldLayout(f: Field, g: Field) {
    && f.name == g.name
    && f.description == g.description
    && f.bitOffset == g.bitOffset
    && f.bitWidth == g.bitWidth
    && f.dim == g.dim
  }

  ghost predicate SameFieldsLayout(a: Option<seq<Field>>, b: Option<seq<Field>>) {
    match a
    case None => b.None?
    case Some(fs) => b.Some? && |b.value| == |fs| && forall k :: 0 <= k < |fs| ==> SameFieldLayout(fs[k], b.value[k])
  }

  ghost predicate SameRegisterLayout(r: Register, s: Register) {
    && r.name == s.name
    && r.displayName == s.displayName
    && r.description == s.description
    && r.addressOffset == s.addressOffset
    && r.dim == s.dim
    && r.writeConstraint == s.writeConstraint
    && SameFieldsLayout(r.fields, s.fields)
  }

  ghost predicate SameNodeLayout(a: RegisterCluster, b: RegisterCluster)
    decreases a
  {
    match a
    case Reg(r) => b.Reg? && SameRegisterLayout(r, b.register)
    case Clu(c) =>
      && b.Clu?
      && c.name == b.cluster.name
      && c.description == b.cluster.description
      && c.addressOffset == b.cluster.addressOffset
      && c.dim == b.cluster.dim
      && |c.children| == |b.cluster.children|
      && forall i :: 0 <= i < |c.children| ==> SameNodeLayout(c.children[i], b.cluster.children[i])
  }

  ghost predicate SameTreeLayout(a: Option<seq<RegisterCluster>>, b: Option<seq<RegisterCluster>>) {
    match a
    case None => b.None?
    case Some(rs) => b.Some? && |b.value| == |rs| && forall k :: 0 <= k < |rs| ==> SameNodeLayout(rs[k], b.value[k])
  }

  /** Two peripherals that differ at most in the enumerated values and write constraints of fields. */
  ghost predicate SameLayout(p: Peripheral, q: Peripheral) {
    && p.name == q.name
    && p.displayName == q.displayName
    && p.description == q.description
    && p.groupName == q.groupName
    && p.baseAddress == q.baseAddress
    && p.interrupts == q.interrupts
    && SameTreeLayout(p.registers, q.registers)
  }

  lemma {:induction false} ErasedNodeLayout(rc: RegisterCluster)
    ensures SameNodeLayout(rc, ErasedNode(rc)) && ErasedTreeNode(ErasedNode(rc))
    decreases rc
  {
    match rc
    case Reg(r) =>
    case Clu(c) =>
      forall i | 0 <= i < |c.children|
        ensures SameNodeLayout(c.children[i], ErasedCluster(c).children[i])
             && ErasedTreeNode(ErasedCluster(c).children[i])
      {
        ErasedNodeLayout(c.children[i]);
      }
  }

  /** The erased copy has the same layout as the original and no enumerated data left. */
  lemma ErasedPeripheralLayout(p: Peripheral)
    ensures SameLayout(p, ErasedPeripheral(p)) && ErasedTree(ErasedPeripheral(p))
  {
    if p.registers.Some? {
      forall k | 0 <= k < |p.registers.value|
        ensures SameNodeLayout(p.registers.value[k], ErasedPeripheral(p).registers.value[k])
             && ErasedTreeNode(ErasedPeripheral(p).registers.value[k])
      {
        ErasedNodeLayout(p.registers.value[k]);
      }
    }
  }

  lemma {:induction false} ErasedNodeUnique(a: RegisterCluster, b: RegisterCluster)
    requires SameNodeLayout(a, b) && ErasedTreeNode(b)
    ensures b == ErasedNode(a)
    decreases a
  {
    match a
    case Reg(r) =>
      if r.fields.Some? {
        assert b.register.fields.value == MapSeq(ErasedField, r.fields.value);
      }
    case Clu(c) =>
      var e := ErasedCluster(c);
      forall i | 0 <= i < |c.children| ensures b.cluster.children[i] == e.children[i] {
        ErasedNodeUnique(c.children[i], b.cluster.children[i]);
      }
      assert b.cluster.children == e.children;
  }

  /**
   * The erased copy is the ONLY peripheral with the same layout and no
   * enumerated data: the eraser touches nothing but those two components.
   */
  lemma ErasedPeripheralUnique(p: Peripheral, q: Peripheral)
    requires SameLayout(p, q) && ErasedTree(q)
    ensures q == ErasedPeripheral(p)
  {
    if p.registers.Some? {
      forall k | 0 <= k < |p.registers.value| ensures q.registers.value[k] == ErasedNode(p.registers.value[k]) {
        ErasedNodeUnique(p.registers.value[k], q.registers.value[k]);
      }
      assert q.registers.value == MapSeq(ErasedNode, p.registers.value);
    }
  }

  lemma {:induction false} SameNodeLayoutReflexive(a: RegisterCluster)
    ensures SameNodeLayout(a, a)
    decreases a
  {
    match a
    case Reg(r) =>
    case Clu(c) =>
      forall i | 0 <= i < |c.children| ensures SameNodeLayout(c.children[i], c.children[i]) {
        SameNodeLayoutReflexive(c.children[i]);
      }
  }

  /** Erasing twice is erasing once. */
  lemma ErasedPeripheralIdempotent(p: Peripheral)
    ensures ErasedPeripheral(ErasedPeripheral(p)) == ErasedPeripheral(p)
  {
    var e := ErasedPeripheral(p);
    ErasedPeripheralLayout(p);
    if e.registers.Some? {
      forall k | 0 <= k < |e.registers.value| ensures SameNodeLayout(e.registers.value[k], e.registers.value[k]) {
        SameNodeLayoutReflexive(e.registers.value[k]);
      }
    }
    ErasedPeripheralUnique(e, e);
  }

  lemma {:induction false} SameNodeLayoutErased(a: RegisterCluster, b: RegisterCluster)
    requires SameNodeLayout(a, b)
    ensures ErasedNode(a) == ErasedNode(b)
    decreases a
  {
    match a
    case Reg(r) =>
      if r.fields.Some? {
        assert MapSeq(ErasedField, r.fields.value) == MapSeq(ErasedField, b.register.fields.value);
      }
    case Clu(c) =>
      forall i | 0 <= i < |c.children| ensures ErasedNode(c.children[i]) == ErasedNode(b.cluster.children[i]) {
        SameNodeLayoutErased(c.children[i], b.cluster.children[i]);
      }
      assert ErasedCluster(c).children == ErasedCluster(b.cluster).children;
  }

  /**
   * Peripherals that differ only in enumerated values and write constraints
   * have the same skeleton, hence the same skeleton serialisation and digest.
   */
  lemma SameLayoutSameSkeleton(p: Peripheral, q: Peripheral)
    requires SameLayout(p, q)
    ensures ErasedPeripheral(p) == ErasedPeripheral(q)
  {
    if p.registers.Some? {
      forall k | 0 <= k < |p.registers.value|
        ensures ErasedNode(p.registers.value[k]) == ErasedNode(q.registers.value[k])
      {
        SameNodeLayoutErased(p.registers.value[k], q.registers.value[k]);
      }
      assert MapSeq(ErasedNode, p.registers.value) == MapSeq(ErasedNode, q.registers.value);
    }
  }
}
