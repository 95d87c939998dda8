/**
 * The tree normaliser (`clean_device` and the functions it calls): it drops
 * every description and display name and puts the top-level registers and
 * clusters, the fields of each register and the values of each
 * enumerated-value group in stable key order. The children of a cluster are
 * cleaned but keep their order.
 *
 * The `Normalized*` functions say what the rewrite produces; the `Clean*`
 * methods are the loops of the source, each proved to produce it.
 */
module Normalize {
  import opened Wrappers
  import opened Svd
  import opened Sorting

  // ---------------------------------------------------------------- what it produces

  function NormalizedValue(ev: EnumeratedValue): (r: EnumeratedValue)
    ensures r.description.None? && ValueIdentity(r) == ValueIdentity(ev)
  {
    ev.(description := None)
  }

  function NormalizedValues(evs: EnumeratedValues): EnumeratedValues {
    evs.(values := MapSeq(NormalizedValue, SortByKey(evs.values, EnumValueKey)))
  }

  function NormalizedField(f: Field): (r: Field)
    ensures r.description.None? && FieldIdentity(r) == FieldIdentity(f)
    ensures |r.enumeratedValues| == |f.enumeratedValues|
  {
    f.(description := None, enumeratedValues := MapSeq(NormalizedValues, f.enumeratedValues))
  }

  function NormalizedRegister(r: Register): Register {
    r.(description := None, displayName := None,
       fields := match r.fields
                 case None => None
                 case Some(fs) => Some(MapSeq(NormalizedField, SortByKey(fs, FieldKey))))
  }

  function NormalizedCluster(c: Cluster): (r: Cluster)
    decreases c
  {
    c.(description := None,
       children := seq(|c.children|, i requires 0 <= i < |c.children| => NormalizedNode(c.children[i])))
  }

  function NormalizedNode(rc: RegisterCluster): (r: RegisterCluster)
    ensures RcIdent(r) == RcIdent(rc) && RcKey(r) == RcKey(rc)
    decreases rc
  {
    match rc
    case Reg(reg) => Reg(NormalizedRegister(reg))
    case Clu(c) => Clu(NormalizedCluster(c))
  }

  function NormalizedInterrupt(i: Interrupt): (r: Interrupt)
    ensures r.description.None? && r.name == i.name && r.value == i.value
  {
    i.(description := None)
  }

  function NormalizedPeripheral(p: Peripheral): (r: Peripheral)
    ensures r.name == p.name && r.groupName == p.groupName && r.baseAddress == p.baseAddress
    ensures r.registers.Some? <==> p.registers.Some?
  {
    p.(description := None, displayName := None,
       interrupts := MapSeq(NormalizedInterrupt, p.interrupts),
       registers := match p.registers
                    case None => None
                    case Some(rs) => Some(MapSeq(NormalizedNode, SortByKey(rs, RcKey))))
  }

  function NormalizedDevice(d: Device): (r: Device)
    ensures r.name == d.name && |r.peripherals| == |d.peripherals|
  {
    d.(peripherals := MapSeq(NormalizedPeripheral, d.peripherals))
  }

  // ---------------------------------------------------------------- the source's loops

  method CleanValues(evs: EnumeratedValues) returns (r: EnumeratedValues)
    ensures r == NormalizedValues(evs)
  {
    var sorted := SortByKey(evs.values, EnumValueKey);
    var values := sorted;
    var i := 0;
    while i < |values|
      invariant 0 <= i <= |values| == |sorted|
      invariant forall j :: 0 <= j < i ==> values[j] == NormalizedValue(sorted[j])
      invariant forall j :: i <= j < |values| ==> values[j] == sorted[j]
    {
      values := values[i := values[i].(description := None)];
      i := i + 1;
    }
    r := evs.(values := values);
  }

  method CleanField(f: Field) returns (r: Field)
    ensures r == NormalizedField(f)
  {
    var groups := f.enumeratedValues;
    var i := 0;
    while i < |groups|
      invariant 0 <= i <= |groups| == |f.enumeratedValues|
      invariant forall j :: 0 <= j < i ==> groups[j] == NormalizedValues(f.enumeratedValues[j])
      invariant forall j :: i <= j < |groups| ==> groups[j] == f.enumeratedValues[j]
    {
      var g := CleanValues(groups[i]);
      groups := groups[i := g];
      i := i + 1;
    }
    r := f.(description := None, enumeratedValues := groups);
  }

  method CleanRegister(reg: Register) returns (r: Register)
    ensures r == NormalizedRegister(reg)
  {
    r := reg.(description := None, displayName := None);
    if reg.fields.Some? {
      var sorted := SortByKey(reg.fields.value, FieldKey);
      var fields := sorted;
      var i := 0;
      while i < |fields|
        invariant 0 <= i <= |fields| == |sorted|
        invariant forall j :: 0 <= j < i ==> fields[j] == NormalizedField(sorted[j])
        invariant forall j :: i <= j < |fields| ==> fields[j] == sorted[j]
      {
        var f := CleanField(fields[i]);
        fields := fields[i := f];
        i := i + 1;
      }
      assert fields == MapSeq(NormalizedField, sorted);
      r := r.(fields := Some(fields));
    }
  }

  method CleanRegisterCluster(rc: RegisterCluster) returns (r: RegisterCluster)
    ensures r == NormalizedNode(rc)
    decreases rc
  {
    match rc
    case Reg(reg) =>
      var reg' := CleanRegister(reg);
      r := Reg(reg');
    case Clu(c) =>
      var c' := CleanCluster(c);
      r := Clu(c');
  }

  method CleanCluster(c: Cluster) returns (r: Cluster)
    ensures r == NormalizedCluster(c)
    decreases c
  {
    var children := c.children;
    var i := 0;
    while i < |children|
      invariant 0 <= i <= |children| == |c.children|
      invariant forall j :: 0 <= j < i ==> children[j] == NormalizedNode(c.children[j])
      invariant forall j :: i <= j < |children| ==> children[j] == c.children[j]
    {
      var child := CleanRegisterCluster(c.children[i]);
      children := children[i := child];
      i := i + 1;
    }
    r := c.(description := None, children := children);
  }

  method CleanPeripheral(p: Peripheral) returns (r: Peripheral)
    ensures r == NormalizedPeripheral(p)
  {
    var interrupts := p.interrupts;
    var i := 0;
    while i < |interrupts|
      invariant 0 <= i <= |interrupts| == |p.interrupts|
      invariant forall j :: 0 <= j < i ==> interrupts[j] == NormalizedInterrupt(p.interrupts[j])
      invariant forall j :: i <= j < |interrupts| ==> interrupts[j] == p.interrupts[j]
    {
      interrupts := interrupts[i := interrupts[i].(description := None)];
      i := i + 1;
    }
    assert interrupts == MapSeq(NormalizedInterrupt, p.interrupts);
    r := p.(description := None, displayName := None, interrupts := interrupts);
    if p.registers.Some? {
      var sorted := SortByKey(p.registers.value, RcKey);
      var registers := sorted;
      var k := 0;
      while k < |registers|
        invariant 0 <= k <= |registers| == |sorted|
        invariant forall j :: 0 <= j < k ==> registers[j] == NormalizedNode(sorted[j])
        invariant forall j :: k <= j < |registers| ==> registers[j] == sorted[j]
      {
        var rc := CleanRegisterCluster(registers[k]);
        registers := registers[k := rc];
        k := k + 1;
      }
      assert registers == MapSeq(NormalizedNode, sorted);
      r := r.(registers := Some(registers));
    }
  }

  method CleanDevice(d: Device) returns (r: Device)
    ensures r == NormalizedDevice(d)
  {
    var peripherals := d.peripherals;
    var i := 0;
    while i < |peripherals|
      invariant 0 <= i <= |peripherals| == |d.peripherals|
      invariant forall j :: 0 <= j < i ==> peripherals[j] == NormalizedPeripheral(d.peripherals[j])
      invariant forall j :: i <= j < |peripherals| ==> peripherals[j] == d.peripherals[j]
    {
      var p := CleanPeripheral(peripherals[i]);
      peripherals := peripherals[i := p];
      i := i + 1;
    }
    r := d.(peripherals := peripherals);
  }
}
