/** Inference depends on which values a column holds, not on their order or number,
    except that the first datetime along a path decides its zone. */
module ArrowOrder {
  import opened Wrappers
  import opened Decimals
  import opened ArrowTypes
  import opened ArrowSoundness
  import opened ArrowZones

  /** The same non-null values, in any order and any number of times. */
  ghost predicate SameValues(a: seq<Value>, b: seq<Value>) {
    forall v :: v != Null ==> (v in a <==> v in b)
  }

  /** Equal up to the order of struct members and, unless `zoned`, up to whether
      a timestamp carries its time zone. */
  ghost predicate SameType(zoned: bool, t: ArrowType, u: ArrowType)
    decreases t
  {
    match t
    case TList(elem) => u.TList? && SameType(zoned, elem, u.elem)
    case TStruct(members) =>
      && u.TStruct?
      && |members| == |u.members|
      && forall i | 0 <= i < |members| :: HasMember(zoned, members[i], u.members)
    case TTimestamp(utc) => u.TTimestamp? && (zoned ==> u.utc == utc)
    case _ => t == u
  }

  ghost predicate HasMember(zoned: bool, m: ArrowField, members: seq<ArrowField>)
    decreases m
  {
    exists j | 0 <= j < |members| ::
      members[j].name == m.name && SameType(zoned, m.fieldType, members[j].fieldType)
  }

  /** The first datetimes along every path have the same zone. */
  ghost predicate ZonesMatch(a: seq<Value>, b: seq<Value>) {
    forall path :: FirstZone(a, path) == FirstZone(b, path)
  }

  // Decimals and scalars.

  lemma MaximaGrow(ds: seq<Decimal>, es: seq<Decimal>)
    requires AllFinite(ds) && AllFinite(es)
    requires forall d | d in ds :: d in es
    ensures MaxScale(ds) <= MaxScale(es) && MaxIntegerDigits(ds) <= MaxIntegerDigits(es)
  {}

  lemma SameDecimals(ds: seq<Decimal>, es: seq<Decimal>)
    requires forall d | d in ds :: d in es
    requires forall e | e in es :: e in ds
    ensures InferDecimal(ds) == InferDecimal(es)
  {
    assert AllFinite(ds) <==> AllFinite(es);
    if AllFinite(ds) {
      MaximaGrow(ds, es);
      MaximaGrow(es, ds);
      assert Precision(ds) == Precision(es);
    }
  }

  lemma SameDecimalColumn(us: seq<Value>, ws: seq<Value>)
    requires forall v :: v in us <==> v in ws
    ensures InferDecimal(AsDecimals(us)) == InferDecimal(AsDecimals(ws))
  {
    SameDecimals(AsDecimals(us), AsDecimals(ws));
  }

  lemma FlatTypesAreSame(zoned: bool, r: Inference)
    requires r.Inferred? ==> FlatType(r.t)
    ensures SameInference(zoned, r, r)
  {}

  lemma SameTags(us: seq<Value>, ws: seq<Value>)
    requires forall v :: v in us <==> v in ws
    ensures Tags(us) == Tags(ws)
  {}

  lemma SameSingleScalar(us: seq<Value>, ws: seq<Value>, zoned: bool)
    requires us != [] && ws != [] && forall v :: v in us <==> v in ws
    requires zoned && us[0].DateTime? && ws[0].DateTime? ==> us[0].aware == ws[0].aware
    requires Tags(us) == {TagOf(us[0])} && TagOf(us[0]) != EnumTag && TagOf(us[0]) != DecimalTag
    ensures SameInference(zoned, InferUnenumed(us), InferUnenumed(ws))
  {
    var r, s := ScalarType(us[0]), ScalarType(ws[0]);
    SameSeedKind(us, ws);
    assert us[0] in us && ws[0] in us;
    SameScalarType(us[0], ws[0], zoned);
    SingleScalar(us, r);
    SingleScalar(ws, s);
  }

  lemma SeedIsDecimal(us: seq<Value>)
    requires us != [] && Tags(us) == {DecimalTag}
    ensures us[0].Dec? && Tags(us) == {TagOf(us[0])}
  {
    assert us[0] in us;
    TagsOfAll(us);
  }

  lemma SameSingleDecimal(us: seq<Value>, ws: seq<Value>, r: Inference)
    requires us != [] && ws != [] && forall v :: v in us <==> v in ws
    requires Tags(us) == {DecimalTag} && r == InferUnenumed(us)
    ensures InferUnenumed(ws) == r && (r.Inferred? ==> FlatType(r.t))
  {
    var decimal := InferDecimal(AsDecimals(us));
    SameTags(us, ws);
    SeedIsDecimal(us);
    SeedIsDecimal(ws);
    SameDecimalColumn(us, ws);
    SingleDecimal(us, decimal);
    SingleDecimal(ws, decimal);
    DecimalsAreFlat(AsDecimals(us));
  }

  lemma SameSeedKind(us: seq<Value>, ws: seq<Value>)
    requires us != [] && ws != [] && forall v :: v in us <==> v in ws
    requires Tags(us) == {TagOf(us[0])}
    ensures Tags(ws) == {TagOf(ws[0])} && TagOf(ws[0]) == TagOf(us[0])
  {
    assert us[0] in us && ws[0] in us;
    SameTags(us, ws);
    TagsOfAll(us);
  }

  lemma SameMixedKinds(us: seq<Value>, ws: seq<Value>, r: Inference)
    requires us != [] && ws != [] && forall v :: v in us <==> v in ws
    requires Tags(us) != {TagOf(us[0])} && r == InferUnenumed(us)
    ensures InferUnenumed(ws) == r && (r.Inferred? ==> FlatType(r.t))
  {
    MixedSeed(us, ws);
    SameDecimalColumn(us, ws);
    MixedNumbers(us, Tags(us), InferDecimal(AsDecimals(us)));
    MixedNumbers(ws, Tags(us), InferDecimal(AsDecimals(us)));
    DecimalsAreFlat(AsDecimals(us));
  }

  lemma MixedSeed(us: seq<Value>, ws: seq<Value>)
    requires us != [] && ws != [] && forall v :: v in us <==> v in ws
    requires Tags(us) != {TagOf(us[0])}
    ensures Tags(ws) == Tags(us) && Tags(ws) != {TagOf(ws[0])}
  {
    SameTags(us, ws);
    TagsOfAll(ws);
    assert us[0] in us && us[0] in ws;
  }

  lemma SameUnenumed(us: seq<Value>, ws: seq<Value>, zoned: bool)
    requires us != [] && ws != [] && forall v :: v in us <==> v in ws
    requires forall v | v in us :: !v.Enum?
    requires zoned && us[0].DateTime? && ws[0].DateTime? ==> us[0].aware == ws[0].aware
    ensures SameInference(zoned, InferUnenumed(us), InferUnenumed(ws))
  {
    if Tags(us) != {TagOf(us[0])} {
      SameMixedKinds(us, ws, InferUnenumed(us));
      FlatTypesAreSame(zoned, InferUnenumed(us));
    } else if TagOf(us[0]) == DecimalTag {
      SameSingleDecimal(us, ws, InferUnenumed(us));
      FlatTypesAreSame(zoned, InferUnenumed(us));
    } else {
      assert us[0] in us;
      SameSingleScalar(us, ws, zoned);
    }
  }

  lemma SameScalarType(v: Value, w: Value, zoned: bool)
    requires TagOf(v) == TagOf(w) && !v.Enum? && !v.Dec?
    requires zoned && v.DateTime? ==> v.aware == w.aware
    ensures SameInference(zoned, ScalarType(v), ScalarType(w))
  {}

  /** Both refuse, or both infer the same type. */
  ghost predicate SameInference(zoned: bool, r: Inference, s: Inference) {
    && (r.Inferred? <==> s.Inferred?)
    && (r.Inferred? ==> SameType(zoned, r.t, s.t))
  }

  /** Dicts beside anything else are refused whatever comes first, and so are lists. */
  lemma MixedKindsRefused(values: seq<Value>, odd: Value)
    requires odd in NonNull(values)
    requires odd.Struct? || odd.List?
    requires !AllStructs(NonNull(values)) && !AllLists(NonNull(values))
    ensures InferColumn(values).Rejected?
  {
    var present := NonNull(values);
    if !present[0].Struct? && !present[0].List? {
      assert present[0] in present;
      UnenumedElements(present);
      assert Unenum(odd) in UnenumAll(present);
      if InferUnenumed(UnenumAll(present)).Inferred? {
        UnenumedAdmitted(UnenumAll(present));
        assert false;
      }
    }
  }

  // Structs and lists.

  lemma {:induction false} DistinctCount(names: seq<string>)
    requires Distinct(names)
    ensures |set n | n in names| == |names|
  {
    if names == [] {
    } else {
      var init, last := names[..|names| - 1], names[|names| - 1];
      DistinctCount(init);
      assert (set n | n in names) == (set n | n in init) + {last};
    }
  }

  lemma SameFieldNames(a: seq<Value>, b: seq<Value>)
    requires AllStructs(a) && AllStructs(b) && forall v :: v in a <==> v in b
    ensures forall name :: name in FieldNames(a) <==> name in FieldNames(b)
    ensures |FieldNames(a)| == |FieldNames(b)|
  {
    FieldNamesExact(a);
    FieldNamesExact(b);
    DistinctCount(FieldNames(a));
    DistinctCount(FieldNames(b));
    assert (set n | n in FieldNames(a)) == (set n | n in FieldNames(b));
  }

  lemma SameColumns(a: seq<Value>, b: seq<Value>, name: string)
    requires AllStructs(a) && AllStructs(b) && forall v :: v in a <==> v in b
    ensures SameValues(Column(a, name), Column(b, name))
  {
    forall v | v in Column(a, name) ensures v in Column(b, name) {
      var i :| 0 <= i < |a| && Column(a, name)[i] == v;
      assert a[i] in b;
      var j :| 0 <= j < |b| && b[j] == a[i];
      assert Column(b, name)[j] == v;
    }
    forall v | v in Column(b, name) ensures v in Column(a, name) {
      var i :| 0 <= i < |b| && Column(b, name)[i] == v;
      assert b[i] in a;
      var j :| 0 <= j < |a| && a[j] == b[i];
      assert Column(a, name)[j] == v;
    }
  }

  /** Two columns with the same present values are accepted alike and get the same type,
      up to member order and, unless their first datetimes match, up to the zone flag. */
  lemma {:induction false} OrderIndependence(a: seq<Value>, b: seq<Value>, zoned: bool)
    requires SameValues(a, b)
    requires zoned ==> ZonesMatch(a, b)
    ensures SameInference(zoned, InferColumn(a), InferColumn(b))
    decreases MaxDepth(a), 2
  {
    var pa, pb := NonNull(a), NonNull(b);
    NonNullDepth(a);
    if pa == [] || pb == [] {
      SamePresent(pa, pb);
    } else {
      PresentZonesMatch(a, b, zoned);
      assert forall v :: v in pa <==> v in pb;
      assert pa[0] in pa && pb[0] in pb;
      if AllStructs(pa) {
        StructOrder(pa, pb, zoned);
      } else if AllLists(pa) {
        ListOrder(pa, pb, zoned);
      } else if odd :| odd in pa && (odd.Struct? || odd.List?) {
        MixedKindsRefused(a, odd);
        MixedKindsRefused(b, odd);
      } else {
        ScalarOrder(pa, pb, zoned);
      }
    }
  }

  lemma PresentZonesMatch(a: seq<Value>, b: seq<Value>, zoned: bool)
    requires zoned ==> ZonesMatch(a, b)
    ensures zoned ==> ZonesMatch(NonNull(a), NonNull(b))
  {
    forall path | zoned ensures FirstZone(NonNull(a), path) == FirstZone(NonNull(b), path) {
      FirstZonePresent(a, path);
      FirstZonePresent(b, path);
    }
  }

  lemma ColumnZonesMatch(a: seq<Value>, b: seq<Value>, name: string)
    requires AllStructs(a) && AllStructs(b) && ZonesMatch(a, b)
    ensures ZonesMatch(Column(a, name), Column(b, name))
  {
    forall path ensures FirstZone(Column(a, name), path) == FirstZone(Column(b, name), path) {
      FirstZoneOfColumn(a, name, path);
      FirstZoneOfColumn(b, name, path);
    }
  }

  lemma ItemZonesMatch(a: seq<Value>, b: seq<Value>)
    requires AllLists(a) && AllLists(b) && ZonesMatch(a, b)
    ensures ZonesMatch(Concat(a), Concat(b))
  {
    forall path ensures FirstZone(Concat(a), path) == FirstZone(Concat(b), path) {
      FirstZoneOfItems(a, path);
      FirstZoneOfItems(b, path);
    }
  }

  lemma SamePresent(pa: seq<Value>, pb: seq<Value>)
    requires forall v :: v in pa <==> v in pb
    ensures pa == [] <==> pb == []
  {
    if pa != [] {
      assert pa[0] in pb;
    }
    if pb != [] {
      assert pb[0] in pa;
    }
  }

  lemma ScalarOrder(pa: seq<Value>, pb: seq<Value>, zoned: bool)
    requires pa != [] && pb != [] && forall v :: v in pa <==> v in pb
    requires zoned ==> ZonesMatch(pa, pb)
    ensures SameInference(zoned, InferUnenumed(UnenumAll(pa)), InferUnenumed(UnenumAll(pb)))
  {
    UnenumedElements(pa);
    UnenumedElements(pb);
    assert zoned ==> FirstZone(pa, []) == FirstZone(pb, []);
    assert Unenum(pa[0]).DateTime? ==> FirstZone(pa, []) == Some(Unenum(pa[0]).aware);
    assert Unenum(pb[0]).DateTime? ==> FirstZone(pb, []) == Some(Unenum(pb[0]).aware);
    SameUnenumed(UnenumAll(pa), UnenumAll(pb), zoned);
  }

  lemma {:induction false} ListOrder(a: seq<Value>, b: seq<Value>, zoned: bool)
    requires a != [] && b != [] && AllLists(a) && AllLists(b)
    requires forall v :: v in a <==> v in b
    requires zoned ==> ZonesMatch(a, b)
    ensures Concat(a) == [] <==> Concat(b) == []
    ensures SameInference(zoned, InferColumn(Concat(a)), InferColumn(Concat(b)))
    decreases MaxDepth(a), 1
  {
    SameItems(a, b);
    SamePresent(Concat(a), Concat(b));
    ConcatIsShallower(a);
    if zoned {
      ItemZonesMatch(a, b);
    }
    OrderIndependence(Concat(a), Concat(b), zoned);
  }

  lemma {:induction false} StructOrder(a: seq<Value>, b: seq<Value>, zoned: bool)
    requires a != [] && b != [] && AllStructs(a) && AllStructs(b)
    requires forall v :: v in a <==> v in b
    requires zoned ==> ZonesMatch(a, b)
    ensures SameInference(zoned, InferStruct(a), InferStruct(b))
    decreases MaxDepth(a), 1
  {
    var na, nb := FieldNames(a), FieldNames(b);
    var ca, cb := InferColumns(a, na), InferColumns(b, nb);
    SameFieldNames(a, b);
    forall i, j | 0 <= i < |na| && 0 <= j < |nb| && na[i] == nb[j]
      ensures SameInference(zoned, ca[i], cb[j])
    {
      ColumnInference(a, na, i, InferColumn(Column(a, na[i])));
      ColumnInference(b, nb, j, InferColumn(Column(b, nb[j])));
      SameColumns(a, b, na[i]);
      ColumnIsShallower(a, na[i]);
      if zoned {
        ColumnZonesMatch(a, b, na[i]);
      }
      OrderIndependence(Column(a, na[i]), Column(b, na[i]), zoned);
    }
    AssembleOrder(na, ca, nb, cb, zoned);
  }

  lemma AssembleAcceptance(na: seq<string>, ca: seq<Inference>, nb: seq<string>, cb: seq<Inference>)
    requires |na| == |ca| && |nb| == |cb|
    requires forall i | 0 <= i < |na| :: na[i] in nb
    requires forall i, j | 0 <= i < |na| && 0 <= j < |nb| && na[i] == nb[j] :: ca[i].Inferred? <==> cb[j].Inferred?
    requires Assemble(nb, cb).Inferred?
    ensures Assemble(na, ca).Inferred?
  {
    forall i | 0 <= i < |na| ensures ca[i].Inferred? {
      assert na[i] in nb;
      var j :| 0 <= j < |nb| && nb[j] == na[i];
    }
  }

  lemma AssembleMember(na: seq<string>, ca: seq<Inference>, nb: seq<string>, cb: seq<Inference>, zoned: bool, i: nat)
    requires |na| == |ca| == |nb| == |cb| && i < |na| && na[i] in nb
    requires forall j | 0 <= j < |nb| && na[i] == nb[j] :: SameInference(zoned, ca[i], cb[j])
    requires Assemble(na, ca).Inferred? && Assemble(nb, cb).Inferred?
    ensures HasMember(zoned, Assemble(na, ca).t.members[i], Assemble(nb, cb).t.members)
  {
    var j :| 0 <= j < |nb| && nb[j] == na[i];
    var m := Assemble(nb, cb).t.members[j];
    assert m == ArrowField(nb[j], cb[j].t);
  }

  lemma AssembleOrder(na: seq<string>, ca: seq<Inference>, nb: seq<string>, cb: seq<Inference>, zoned: bool)
    requires |na| == |ca| == |nb| == |cb|
    requires forall name :: name in na <==> name in nb
    requires forall i, j | 0 <= i < |na| && 0 <= j < |nb| && na[i] == nb[j] :: SameInference(zoned, ca[i], cb[j])
    ensures SameInference(zoned, Assemble(na, ca), Assemble(nb, cb))
  {
    var r, s := Assemble(na, ca), Assemble(nb, cb);
    if s.Inferred? {
      AssembleAcceptance(na, ca, nb, cb);
    }
    if r.Inferred? {
      AssembleAcceptance(nb, cb, na, ca);
      forall i | 0 <= i < |na| ensures HasMember(zoned, r.t.members[i], s.t.members) {
        AssembleMember(na, ca, nb, cb, zoned, i);
      }
    }
  }

  // Exactly when order matters.

  ghost predicate Compatible(x: Option<bool>, y: Option<bool>) {
    x.Some? && y.Some? ==> x == y
  }

  /** Along every path, the first datetimes of any two rows are both aware or both naive. */
  ghost predicate RowsAgree(values: seq<Value>) {
    forall v, w, path | v in values && w in values :: Compatible(ZoneOf(v, path), ZoneOf(w, path))
  }

  ghost predicate Reorders(a: seq<Value>, values: seq<Value>) {
    multiset(a) == multiset(values)
  }

  /** Every order of the rows is accepted alike and gets the same type, zones included. */
  ghost predicate OrderIrrelevant(values: seq<Value>) {
    forall a, b | Reorders(a, values) && Reorders(b, values) :: SameInference(true, InferColumn(a), InferColumn(b))
  }

  lemma ReordersHaveSameRows(a: seq<Value>, values: seq<Value>)
    requires Reorders(a, values)
    ensures forall v :: v in a <==> v in values
  {
    forall v ensures v in a <==> v in values {
      assert v in a <==> v in multiset(a);
      assert v in values <==> v in multiset(values);
    }
  }

  lemma AgreeingRowsMatch(a: seq<Value>, b: seq<Value>)
    requires RowsAgree(a) && forall v :: v in a <==> v in b
    ensures ZonesMatch(a, b)
  {
    forall path ensures FirstZone(a, path) == FirstZone(b, path) {
      FirstZoneIsSome(a, path);
      FirstZoneIsSome(b, path);
    }
  }

  /** Reordering rows changes neither whether they are accepted nor, for rows that agree,
      the type. */
  lemma PermutedRows(a: seq<Value>, b: seq<Value>)
    requires Reorders(a, b)
    ensures InferColumn(a).Inferred? <==> InferColumn(b).Inferred?
    ensures InferColumn(a).Inferred? ==> SameType(RowsAgree(a), InferColumn(a).t, InferColumn(b).t)
  {
    ReordersHaveSameRows(a, b);
    if RowsAgree(a) {
      AgreeingRowsMatch(a, b);
    }
    OrderIndependence(a, b, RowsAgree(a));
  }

  /** Columns of the same values and the same type, zones included, have matching first
      datetimes. */
  lemma {:induction false} SameTypesMatchZones(a: seq<Value>, t: ArrowType, b: seq<Value>, u: ArrowType, path: seq<Hop>)
    requires SameValues(a, b) && InferColumn(a) == Inferred(t) && InferColumn(b) == Inferred(u) && SameType(true, t, u)
    ensures FirstZone(a, path) == FirstZone(b, path)
    decreases |path|
  {
    var pa, pb := NonNull(a), NonNull(b);
    FirstZonePresent(a, path);
    FirstZonePresent(b, path);
    SamePresent(pa, pb);
    if path == [] || pa == [] || (!pa[0].Struct? && !pa[0].List?) {
      FlatTypesMatchZones(a, t, b, u, path);
    } else if pa[0].Struct? {
      assert pb[0] in pa;
      StructsMatchZones(pa, t, pb, u, path);
    } else {
      assert pb[0] in pa;
      SameItems(pa, pb);
      ListsMatchZones(pa, Concat(pa), t.elem, pb, Concat(pb), u.elem, path);
    }
  }

  lemma FlatTypesMatchZones(a: seq<Value>, t: ArrowType, b: seq<Value>, u: ArrowType, path: seq<Hop>)
    requires InferColumn(a) == Inferred(t) && InferColumn(b) == Inferred(u) && SameType(true, t, u)
    requires path == [] || NonNull(a) == [] || (!NonNull(a)[0].Struct? && !NonNull(a)[0].List?)
    ensures FirstZone(a, path) == FirstZone(b, path)
  {
    var pa := NonNull(a);
    if pa == [] {
    } else if !pa[0].Struct? && !pa[0].List? {
      UnenumedElements(pa);
      ScalarTypeShape(UnenumAll(pa), t);
    }
    InferredZone(a, t, path);
    InferredZone(b, u, path);
  }

  lemma SameMember(members: seq<ArrowField>, others: seq<ArrowField>, i: nat) returns (j: nat)
    requires i < |members| && HasMember(true, members[i], others)
    ensures j < |others| && others[j].name == members[i].name && SameType(true, members[i].fieldType, others[j].fieldType)
  {
    j :| 0 <= j < |others| && others[j].name == members[i].name
         && SameType(true, members[i].fieldType, others[j].fieldType);
  }

  lemma SameMembersSameColumns(a: seq<Value>, t: ArrowType, b: seq<Value>, u: ArrowType, name: string)
    returns (x: ArrowType, y: ArrowType)
    requires a != [] && b != [] && AllStructs(a) && AllStructs(b) && name in FieldNames(a)
    requires InferStruct(a) == Inferred(t) && InferStruct(b) == Inferred(u) && SameType(true, t, u)
    ensures InferColumn(Column(a, name)) == Inferred(x) && InferColumn(Column(b, name)) == Inferred(y)
    ensures SameType(true, x, y)
  {
    var i :| 0 <= i < |FieldNames(a)| && FieldNames(a)[i] == name;
    StructMember(a, i);
    var j := SameMember(t.members, u.members, i);
    StructMember(b, j);
    x, y := t.members[i].fieldType, u.members[j].fieldType;
  }

  lemma {:induction false} StructsMatchZones(a: seq<Value>, t: ArrowType, b: seq<Value>, u: ArrowType, path: seq<Hop>)
    requires a != [] && b != [] && AllStructs(a) && AllStructs(b) && forall v :: v in a <==> v in b
    requires InferStruct(a) == Inferred(t) && InferStruct(b) == Inferred(u) && SameType(true, t, u)
    requires path != []
    ensures FirstZone(a, path) == FirstZone(b, path)
    decreases |path|, 0
  {
    RowsZone(a, path);
    RowsZone(b, path);
    if path[0].Key? {
      var name := path[0].name;
      SameFieldNames(a, b);
      if name in FieldNames(a) {
        var x, y := SameMembersSameColumns(a, t, b, u, name);
        SameColumns(a, b, name);
        SameTypesMatchZones(Column(a, name), x, Column(b, name), y, path[1..]);
      } else {
        UnnamedColumnHasNoZone(a, name, path[1..]);
        UnnamedColumnHasNoZone(b, name, path[1..]);
      }
    }
  }

  /** `c` and `d` are the items of the lists `a` and `b`. */
  lemma {:induction false} ListsMatchZones(a: seq<Value>, c: seq<Value>, t: ArrowType,
                                           b: seq<Value>, d: seq<Value>, u: ArrowType, path: seq<Hop>)
    requires AllLists(a) && AllLists(b) && c == Concat(a) && d == Concat(b) && SameValues(c, d) && path != []
    requires InferColumn(c) == Inferred(t) && InferColumn(d) == Inferred(u) && SameType(true, t, u)
    ensures FirstZone(a, path) == FirstZone(b, path)
    decreases |path|, 0
  {
    ListsZone(a, c, path);
    ListsZone(b, d, path);
    if path[0].Items? {
      SameTypesMatchZones(c, t, d, u, path[1..]);
    }
  }

  lemma SameItems(a: seq<Value>, b: seq<Value>)
    requires AllLists(a) && AllLists(b) && forall v :: v in a <==> v in b
    ensures forall v :: v in Concat(a) <==> v in Concat(b)
  {}

  function BroughtFirst(values: seq<Value>, i: nat): seq<Value>
    requires i < |values|
  {
    [values[i]] + values[..i] + values[i + 1..]
  }

  lemma BroughtFirstReorders(values: seq<Value>, i: nat)
    requires i < |values|
    ensures Reorders(BroughtFirst(values, i), values)
  {
    assert values == values[..i] + [values[i]] + values[i + 1..];
  }

  lemma BroughtFirstZone(values: seq<Value>, i: nat, path: seq<Hop>)
    requires i < |values| && ZoneOf(values[i], path).Some?
    ensures FirstZone(BroughtFirst(values, i), path) == ZoneOf(values[i], path)
  {
    assert BroughtFirst(values, i)[0] == values[i];
  }

  lemma DisagreementMatters(values: seq<Value>, i: nat, j: nat, path: seq<Hop>)
    requires InferColumn(values).Inferred? && i < |values| && j < |values|
    requires !Compatible(ZoneOf(values[i], path), ZoneOf(values[j], path))
    ensures !OrderIrrelevant(values)
  {
    var a, b := BroughtFirst(values, i), BroughtFirst(values, j);
    BroughtFirstReorders(values, i);
    BroughtFirstReorders(values, j);
    BroughtFirstZone(values, i, path);
    BroughtFirstZone(values, j, path);
    PermutedRows(values, a);
    PermutedRows(values, b);
    ReordersHaveSameRows(a, values);
    ReordersHaveSameRows(b, values);
    if SameInference(true, InferColumn(a), InferColumn(b)) {
      SameTypesMatchZones(a, InferColumn(a).t, b, InferColumn(b).t, path);
    }
  }

  /** The order of the rows is irrelevant exactly when the column is refused or its rows
      agree, path by path, on whether their first datetime is aware. */
  lemma OrderIrrelevantIff(values: seq<Value>)
    ensures OrderIrrelevant(values) <==> InferColumn(values).Rejected? || RowsAgree(values)
  {
    if InferColumn(values).Rejected? || RowsAgree(values) {
      forall a, b | Reorders(a, values) && Reorders(b, values)
        ensures SameInference(true, InferColumn(a), InferColumn(b))
      {
        PermutedRows(a, values);
        ReordersHaveSameRows(a, values);
        ReordersHaveSameRows(b, values);
        PermutedRows(a, b);
      }
    } else {
      var v, w, path :| v in values && w in values && !Compatible(ZoneOf(v, path), ZoneOf(w, path));
      var i :| 0 <= i < |values| && values[i] == v;
      var j :| 0 <= j < |values| && values[j] == w;
      DisagreementMatters(values, i, j, path);
    }
  }

  /** Every datetime inside the value has this awareness. */
  ghost predicate AllZoned(v: Value, aware: bool) {
    match v
    case DateTime(z, _) => z == aware
    case Enum(u) => AllZoned(u, aware)
    case Struct(fields) => forall i | 0 <= i < |fields| :: AllZoned(fields[i].value, aware)
    case List(items) => forall i | 0 <= i < |items| :: AllZoned(items[i], aware)
    case _ => true
  }

  lemma {:induction false} UniformZone(v: Value, aware: bool, path: seq<Hop>)
    requires AllZoned(v, aware)
    ensures ZoneOf(v, path).Some? ==> ZoneOf(v, path).value == aware
    decreases |path|
  {
    if path == [] {
      SerializedZone(v, aware);
    } else if path[0].Key? && v.Struct? {
      GetZoned(v.fields, path[0].name, aware);
      UniformZone(Get(v.fields, path[0].name), aware, path[1..]);
    } else if path[0].Items? && v.List? {
      FirstZoneIsSome(v.items, path[1..]);
      forall i | 0 <= i < |v.items| ensures ZoneOf(v.items[i], path[1..]).Some? ==> ZoneOf(v.items[i], path[1..]).value == aware {
        UniformZone(v.items[i], aware, path[1..]);
      }
    }
  }

  lemma {:induction false} GetZoned(fs: seq<Field>, name: string, aware: bool)
    requires forall i | 0 <= i < |fs| :: AllZoned(fs[i].value, aware)
    ensures AllZoned(Get(fs, name), aware)
  {
    if fs == [] || fs[0].name == name {
    } else {
      GetZoned(fs[1..], name, aware);
    }
  }

  lemma SerializeKeepsDatetime(v: Value)
    ensures Serialize(v).DateTime? ==> Serialize(v) == Unenum(v)
  {}

  lemma {:induction false} SerializedZone(v: Value, aware: bool)
    requires AllZoned(v, aware)
    ensures Unenum(v).DateTime? ==> Unenum(v).aware == aware
  {
    if v.Enum? {
      SerializedZone(v.underlying, aware);
      SerializeKeepsDatetime(v.underlying);
    }
  }

  /** In particular order is irrelevant to a column of only aware, or only naive, datetimes. */
  lemma UniformColumn(values: seq<Value>, aware: bool)
    requires forall v | v in values :: AllZoned(v, aware)
    ensures OrderIrrelevant(values)
  {
    forall v, w, path | v in values && w in values ensures Compatible(ZoneOf(v, path), ZoneOf(w, path)) {
      UniformZone(v, aware, path);
      UniformZone(w, aware, path);
    }
    OrderIrrelevantIff(values);
  }

  /** An order that matters: one aware and one naive datetime. */
  lemma MixedDatetimesDependOnOrder()
    ensures var naive, utc := DateTime(false, 0), DateTime(true, 0);
            && Reorders([naive, utc], [utc, naive])
            && InferColumn([naive, utc]) == Inferred(TTimestamp(false))
            && InferColumn([utc, naive]) == Inferred(TTimestamp(true))
  {
    PairOfDatetimes(DateTime(false, 0), DateTime(true, 0));
    PairOfDatetimes(DateTime(true, 0), DateTime(false, 0));
  }

  lemma PairOfDatetimes(v: Value, w: Value)
    requires v.DateTime? && w.DateTime?
    ensures InferColumn([v, w]) == Inferred(TTimestamp(v.aware))
  {
    PairIsPresent(v, w);
    PairTags(v, w);
    SingleScalar([v, w], ScalarType(v));
  }
}
