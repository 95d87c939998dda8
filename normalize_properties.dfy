/**
 * What the normaliser guarantees: no free text is left at any depth, the
 * three sorted levels are stable sorts of what they were, identities are
 * kept, cluster children keep their order, and normalising twice is
 * normalising once.
 */
module NormalizeProperties {
  import opened Wrappers
  import opened Svd
  import opened Sorting
  import opened Normalize

  // ---------------------------------------------------------------- no text left

  ghost predicate StrippedField(f: Field) {
    && f.description.None?
    && forall g, v :: 0 <= g < |f.enumeratedValues| && 0 <= v < |f.enumeratedValues[g].values|
         ==> f.enumeratedValues[g].values[v].description.None?
  }

  ghost predicate StrippedRegister(r: Register) {
    && r.description.None?
    && r.displayName.None?
    && (r.fields.Some? ==> forall k :: 0 <= k < |r.fields.value| ==> StrippedField(r.fields.value[k]))
  }

  ghost predicate StrippedNode(rc: RegisterCluster)
    decreases rc
  {
    match rc
    case Reg(r) => StrippedRegister(r)
    case Clu(c) => c.description.None? && forall i :: 0 <= i < |c.children| ==> StrippedNode(c.children[i])
  }

  ghost predicate StrippedPeripheral(p: Peripheral) {
    && p.description.None?
    && p.displayName.None?
    && (forall i :: 0 <= i < |p.interrupts| ==> p.interrupts[i].description.None?)
    && (p.registers.Some? ==> forall k :: 0 <= k < |p.registers.value| ==> StrippedNode(p.registers.value[k]))
  }

  lemma {:induction false} NormalizedNodeStripped(rc: RegisterCluster)
    ensures StrippedNode(NormalizedNode(rc))
    decreases rc
  {
    match rc
    case Reg(r) =>
    case Clu(c) =>
      forall i | 0 <= i < |c.children| ensures StrippedNode(NormalizedCluster(c).children[i]) {
        NormalizedNodeStripped(c.children[i]);
      }
  }

  /** Every description and display name, down to the enumerated values, is gone. */
  lemma NormalizedPeripheralStripped(p: Peripheral)
    ensures StrippedPeripheral(NormalizedPeripheral(p))
  {
    var r := NormalizedPeripheral(p);
    if p.registers.Some? {
      forall k | 0 <= k < |r.registers.value| ensures StrippedNode(r.registers.value[k]) {
        NormalizedNodeStripped(SortByKey(p.registers.value, RcKey)[k]);
      }
    }
  }

  // ---------------------------------------------------------------- order at each level

  /** Values of an enumerated-value group: sorted by value, a permutation, ties in input order. */
  lemma NormalizedValuesOrder(evs: EnumeratedValues)
    ensures SortedBy(NormalizedValues(evs).values, EnumValueKey)
    ensures multiset(MapSeq(ValueIdentity, NormalizedValues(evs).values)) == multiset(MapSeq(ValueIdentity, evs.values))
    ensures forall k :: MapSeq(ValueIdentity, FilterKey(NormalizedValues(evs).values, EnumValueKey, k))
                     == MapSeq(ValueIdentity, FilterKey(evs.values, EnumValueKey, k))
  {
    SortThenMapOrder(evs.values, NormalizedValue, EnumValueKey, ValueIdentity);
  }

  /** Fields of a register: sorted by bit offset, a permutation, ties in input order. */
  lemma NormalizedFieldsOrder(r: Register)
    requires r.fields.Some?
    ensures NormalizedRegister(r).fields.Some?
    ensures SortedBy(NormalizedRegister(r).fields.value, FieldKey)
    ensures multiset(MapSeq(FieldIdentity, NormalizedRegister(r).fields.value)) == multiset(MapSeq(FieldIdentity, r.fields.value))
    ensures forall k :: MapSeq(FieldIdentity, FilterKey(NormalizedRegister(r).fields.value, FieldKey, k))
                     == MapSeq(FieldIdentity, FilterKey(r.fields.value, FieldKey, k))
  {
    SortThenMapOrder(r.fields.value, NormalizedField, FieldKey, FieldIdentity);
  }

  /** Top-level registers and clusters: sorted by address offset, a permutation, ties in input order. */
  lemma NormalizedTopLevelOrder(p: Peripheral)
    requires p.registers.Some?
    ensures NormalizedPeripheral(p).registers.Some?
    ensures SortedBy(NormalizedPeripheral(p).registers.value, RcKey)
    ensures multiset(MapSeq(RcIdent, NormalizedPeripheral(p).registers.value)) == multiset(MapSeq(RcIdent, p.registers.value))
    ensures forall k :: MapSeq(RcIdent, FilterKey(NormalizedPeripheral(p).registers.value, RcKey, k))
                     == MapSeq(RcIdent, FilterKey(p.registers.value, RcKey, k))
  {
    SortThenMapOrder(p.registers.value, NormalizedNode, RcKey, RcIdent);
  }

  /** The children of a cluster are not reordered: the same identities in the same order. */
  lemma NormalizedClusterKeepsOrder(c: Cluster)
    ensures MapSeq(RcIdent, NormalizedCluster(c).children) == MapSeq(RcIdent, c.children)
  {
    assert |MapSeq(RcIdent, NormalizedCluster(c).children)| == |c.children|;
    forall i | 0 <= i < |c.children|
      ensures MapSeq(RcIdent, NormalizedCluster(c).children)[i] == MapSeq(RcIdent, c.children)[i]
    {
      assert NormalizedCluster(c).children[i] == NormalizedNode(c.children[i]);
    }
  }

  /** Concretely: a cluster whose children are out of offset order stays out of order. */
  lemma ClusterChildrenStayUnsorted()
    ensures var late := Reg(Register("B", None, None, 4, None, None, None));
            var early := Reg(Register("A", None, None, 0, None, None, None));
            var c := Cluster("C", None, 0, None, [late, early]);
            !SortedBy(NormalizedCluster(c).children, RcKey)
  {
    var late := Reg(Register("B", None, None, 4, None, None, None));
    var early := Reg(Register("A", None, None, 0, None, None, None));
    var c := Cluster("C", None, 0, None, [late, early]);
    assert RcKey(NormalizedCluster(c).children[0]) == 4;
    assert RcKey(NormalizedCluster(c).children[1]) == 0;
  }

  /** Fields sorted by bit offset and values by value, in every register at every depth. */
  ghost predicate OrderedRegister(r: Register) {
    r.fields.Some? ==>
      && SortedBy(r.fields.value, FieldKey)
      && forall k, g :: 0 <= k < |r.fields.value| && 0 <= g < |r.fields.value[k].enumeratedValues|
           ==> SortedBy(r.fields.value[k].enumeratedValues[g].values, EnumValueKey)
  }

  ghost predicate OrderedNode(rc: RegisterCluster)
    decreases rc
  {
    match rc
    case Reg(r) => OrderedRegister(r)
    case Clu(c) => forall i :: 0 <= i < |c.children| ==> OrderedNode(c.children[i])
  }

  lemma NormalizedRegisterOrdered(r: Register)
    ensures OrderedRegister(NormalizedRegister(r))
  {
    if r.fields.Some? {
      NormalizedFieldsOrder(r);
      var sorted := SortByKey(r.fields.value, FieldKey);
      var fs := NormalizedRegister(r).fields.value;
      forall k, g | 0 <= k < |fs| && 0 <= g < |fs[k].enumeratedValues|
        ensures SortedBy(fs[k].enumeratedValues[g].values, EnumValueKey)
      {
        NormalizedValuesOrder(sorted[k].enumeratedValues[g]);
      }
    }
  }

  lemma {:induction false} NormalizedNodeOrdered(rc: RegisterCluster)
    ensures OrderedNode(NormalizedNode(rc))
    decreases rc
  {
    match rc
    case Reg(r) =>
      NormalizedRegisterOrdered(r);
    case Clu(c) =>
      forall i | 0 <= i < |c.children| ensures OrderedNode(NormalizedCluster(c).children[i]) {
        NormalizedNodeOrdered(c.children[i]);
      }
  }

  /** After normalisation the whole tree is in canonical order (cluster children aside). */
  lemma NormalizedPeripheralOrdered(p: Peripheral)
    ensures var r := NormalizedPeripheral(p);
            r.registers.Some? ==>
              && SortedBy(r.registers.value, RcKey)
              && forall k :: 0 <= k < |r.registers.value| ==> OrderedNode(r.registers.value[k])
  {
    if p.registers.Some? {
      NormalizedTopLevelOrder(p);
      var r := NormalizedPeripheral(p);
      forall k | 0 <= k < |r.registers.value| ensures OrderedNode(r.registers.value[k]) {
        NormalizedNodeOrdered(SortByKey(p.registers.value, RcKey)[k]);
      }
    }
  }

  // ---------------------------------------------------------------- idempotence

  lemma NormalizedValuesIdempotent(evs: EnumeratedValues)
    ensures NormalizedValues(NormalizedValues(evs)) == NormalizedValues(evs)
  {
    SortThenMapIdempotent(evs.values, NormalizedValue, EnumValueKey);
  }

  lemma NormalizedFieldIdempotent(f: Field)
    ensures NormalizedField(NormalizedField(f)) == NormalizedField(f)
  {
    var once := NormalizedField(f).enumeratedValues;
    var twice := NormalizedField(NormalizedField(f)).enumeratedValues;
    assert |twice| == |once|;
    forall g | 0 <= g < |once| ensures twice[g] == once[g] {
      NormalizedValuesIdempotent(f.enumeratedValues[g]);
    }
  }

  lemma NormalizedRegisterIdempotent(r: Register)
    ensures NormalizedRegister(NormalizedRegister(r)) == NormalizedRegister(r)
  {
    if r.fields.Some? {
      forall f ensures NormalizedField(NormalizedField(f)) == NormalizedField(f) {
        NormalizedFieldIdempotent(f);
      }
      SortThenMapIdempotent(r.fields.value, NormalizedField, FieldKey);
    }
  }

  lemma {:induction false} NormalizedNodeIdempotent(rc: RegisterCluster)
    ensures NormalizedNode(NormalizedNode(rc)) == NormalizedNode(rc)
    decreases rc
  {
    match rc
    case Reg(r) =>
      NormalizedRegisterIdempotent(r);
    case Clu(c) =>
      var once := NormalizedCluster(c);
      var twice := NormalizedCluster(once);
      assert |twice.children| == |once.children|;
      forall i | 0 <= i < |once.children| ensures twice.children[i] == once.children[i] {
        NormalizedNodeIdempotent(c.children[i]);
      }
      assert twice.children == once.children;
  }

  /** Normalising a normalised peripheral changes nothing. */
  lemma NormalizedPeripheralIdempotent(p: Peripheral)
    ensures NormalizedPeripheral(NormalizedPeripheral(p)) == NormalizedPeripheral(p)
  {
    var once := NormalizedPeripheral(p);
    var twice := NormalizedPeripheral(once);
    assert twice.interrupts == once.interrupts;
    if p.registers.Some? {
      forall rc ensures NormalizedNode(NormalizedNode(rc)) == NormalizedNode(rc) {
        NormalizedNodeIdempotent(rc);
      }
      SortThenMapIdempotent(p.registers.value, NormalizedNode, RcKey);
    }
  }
}
