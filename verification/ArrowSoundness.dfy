/** An inferred Arrow type admits every value of its column, at every depth. */
module ArrowSoundness {
  import opened Decimals
  import opened ArrowTypes

  predicate InInt64(n: int) {
    -0x8000_0000_0000_0000 <= n < 0x8000_0000_0000_0000
  }

  /** Up to 2^53 every integer is a float64. */
  predicate InFloat64(n: int) {
    -0x20_0000_0000_0000 <= n <= 0x20_0000_0000_0000
  }

  /** `v`, as serialized, is a value of type `t`, up to the promotion of bool to
      int64, and of bool and int to float64 and decimal. Null is in every type. */
  ghost predicate Admits(t: ArrowType, v: Value)
    decreases t
  {
    v.Null? ||
    match t
    case TString => v.Str?
    case TBinary => v.Bytes?
    case TBool => v.Bool?
    case TInt64 => v.Bool? || (v.Int? && InInt64(v.n))
    case TFloat64 => v.Float? || v.Bool? || (v.Int? && InFloat64(v.n))
    case TDecimal128(p, s) => p <= 38 && s <= p && Exact(v) && Fits(AsDecimal(v), p, s)
    case TDecimal256(p, s) => 38 < p <= 76 && s <= p && Exact(v) && Fits(AsDecimal(v), p, s)
    case TTimestamp(_) => v.DateTime?
    case TDate32 => v.Date?
    case TList(elem) => v.List? && forall i | 0 <= i < |v.items| :: Admits(elem, v.items[i])
    case TStruct(members) =>
      && v.Struct?
      && (forall i | 0 <= i < |members| :: Admits(members[i].fieldType, Get(v.fields, members[i].name)))
      && (forall f | f in v.fields :: exists m | m in members :: m.name == f.name)
  }

  /** Every value of a column, as it is handed to Arrow, is in the type. */
  ghost predicate AdmitsAll(t: ArrowType, values: seq<Value>) {
    forall v | v in values :: Admits(t, Serialize(v))
  }

  /** An integer fits beside values of these kinds: decimals hold it whatever its size,
      beside floats it becomes one, and else it becomes an int64. */
  predicate IntegerFits(tags: set<Tag>, n: int) {
    DecimalTag in tags || if FloatTag in tags then InFloat64(n) else InInt64(n)
  }

  /** Along every path, each integer fits beside the kinds it stands with. It looks at
      the values alone. */
  ghost predicate IntegersFit(values: seq<Value>)
    decreases MaxDepth(values), 1
  {
    var present := NonNull(values);
    NonNullDepth(values);
    if present == [] then true
    else if AllStructs(present) then ColumnsFit(present)
    else if AllLists(present) then
      ConcatIsShallower(present); IntegersFit(Concat(present))
    else ScalarsFit(present)
  }

  ghost predicate ScalarsFit(present: seq<Value>) {
    forall u | u in UnenumAll(present) :: u.Int? ==> IntegerFits(Tags(UnenumAll(present)), u.n)
  }

  ghost predicate ColumnsFit(rows: seq<Value>)
    requires AllStructs(rows) && rows != []
    decreases MaxDepth(rows), 0, 1
  {
    forall name: string :: ColumnFits(rows, name)
  }

  ghost predicate ColumnFits(rows: seq<Value>, name: string)
    requires AllStructs(rows) && rows != []
    decreases MaxDepth(rows), 0, 0
  {
    ColumnIsShallower(rows, name);
    IntegersFit(Column(rows, name))
  }

  // Field names.

  ghost predicate Distinct(names: seq<string>) {
    forall i, j | 0 <= i < j < |names| :: names[i] != names[j]
  }

  lemma {:induction false} AddNamesCollects(seen: seq<string>, fs: seq<Field>)
    requires Distinct(seen)
    ensures seen <= AddNames(seen, fs) && Distinct(AddNames(seen, fs))
    ensures forall name :: name in AddNames(seen, fs) <==> name in seen || HasName(fs, name)
  {
    if fs == [] {
    } else {
      var init, last := fs[..|fs| - 1], fs[|fs| - 1];
      AddNamesCollects(seen, init);
      assert fs == init + [last];
      forall name ensures HasName(fs, name) <==> HasName(init, name) || name == last.name {
        if name == last.name { assert last in fs; }
      }
    }
  }

  /** The struct type has one member per key that occurs, and no other. */
  lemma {:induction false} FieldNamesExact(rows: seq<Value>)
    requires AllStructs(rows)
    ensures Distinct(FieldNames(rows))
    ensures forall name :: name in FieldNames(rows) <==> exists r | r in rows :: HasName(r.fields, name)
  {
    if rows == [] {
    } else {
      var init, last := rows[..|rows| - 1], rows[|rows| - 1];
      FieldNamesExact(init);
      AddNamesCollects(FieldNames(init), last.fields);
      assert rows == init + [last];
    }
  }

  lemma {:induction false} GetOfMissing(fs: seq<Field>, name: string)
    requires !HasName(fs, name)
    ensures Get(fs, name) == Null
  {
    if fs == [] {
    } else {
      assert fs[0] in fs;
      GetOfMissing(fs[1..], name);
    }
  }

  lemma {:induction false} ColumnInference(rows: seq<Value>, names: seq<string>, i: nat, column: Inference)
    requires AllStructs(rows) && rows != [] && i < |names|
    requires column == InferColumn(Column(rows, names[i]))
    ensures InferColumns(rows, names)[i] == column
    decreases |names|
  {
    if i < |names| - 1 {
      ColumnInference(rows, names[..|names| - 1], i, column);
    }
  }

  // Soundness, one shape of column at a time.

  lemma AdmitsAllPresent(t: ArrowType, values: seq<Value>)
    ensures AdmitsAll(t, values) <==> AdmitsAll(t, NonNull(values))
  {}

  lemma ListAdmitsItem(elem: ArrowType, list: Value, v: Value)
    requires list.List? && Admits(TList(elem), Serialize(list)) && v in list.items
    ensures Admits(elem, Serialize(v))
  {
    var i :| 0 <= i < |list.items| && list.items[i] == v;
    assert Serialize(list).items[i] == Serialize(v);
  }

  lemma ListsAdmitItems(elem: ArrowType, lists: seq<Value>)
    requires AllLists(lists) && AdmitsAll(TList(elem), lists)
    ensures AdmitsAll(elem, Concat(lists))
  {
    forall v | v in Concat(lists) ensures Admits(elem, Serialize(v)) {
      var l :| l in lists && v in l.items;
      ListAdmitsItem(elem, l, v);
    }
  }

  lemma ItemsAdmitLists(elem: ArrowType, lists: seq<Value>)
    requires AllLists(lists) && AdmitsAll(elem, Concat(lists))
    ensures AdmitsAll(TList(elem), lists)
  {
    forall l | l in lists ensures Admits(TList(elem), Serialize(l)) {
      forall i | 0 <= i < |l.items| ensures Admits(elem, Serialize(l).items[i]) {
        assert l.items[i] in Concat(lists);
      }
    }
  }

  lemma ListsAdmitted(elem: ArrowType, lists: seq<Value>)
    requires AllLists(lists)
    ensures AdmitsAll(TList(elem), lists) <==> AdmitsAll(elem, Concat(lists))
  {
    if AdmitsAll(TList(elem), lists) {
      ListsAdmitItems(elem, lists);
    }
    if AdmitsAll(elem, Concat(lists)) {
      ItemsAdmitLists(elem, lists);
    }
  }

  ghost predicate ColumnsAdmitted(members: seq<ArrowField>, rows: seq<Value>)
    requires AllStructs(rows)
  {
    forall i | 0 <= i < |members| :: AdmitsAll(members[i].fieldType, Column(rows, members[i].name))
  }

  lemma StructAdmitsMember(members: seq<ArrowField>, row: Value, i: nat)
    requires row.Struct? && i < |members| && Admits(TStruct(members), Serialize(row))
    ensures Admits(members[i].fieldType, Serialize(Get(row.fields, members[i].name)))
  {
    GetOfSerialized(row.fields, members[i].name);
  }

  lemma StructsAdmitColumns(members: seq<ArrowField>, rows: seq<Value>)
    requires AllStructs(rows) && AdmitsAll(TStruct(members), rows)
    ensures ColumnsAdmitted(members, rows)
  {
    forall i, v | 0 <= i < |members| && v in Column(rows, members[i].name)
      ensures Admits(members[i].fieldType, Serialize(v))
    {
      var j :| 0 <= j < |rows| && v == Get(rows[j].fields, members[i].name);
      StructAdmitsMember(members, rows[j], i);
    }
  }

  lemma ColumnsAdmitStructs(members: seq<ArrowField>, rows: seq<Value>)
    requires AllStructs(rows) && ColumnsAdmitted(members, rows)
    requires forall r, name | r in rows && HasName(r.fields, name) :: exists m | m in members :: m.name == name
    ensures AdmitsAll(TStruct(members), rows)
  {
    forall r | r in rows ensures Admits(TStruct(members), Serialize(r)) {
      var j :| 0 <= j < |rows| && rows[j] == r;
      forall i | 0 <= i < |members|
        ensures Admits(members[i].fieldType, Get(Serialize(r).fields, members[i].name))
      {
        GetOfSerialized(r.fields, members[i].name);
        assert Column(rows, members[i].name)[j] in Column(rows, members[i].name);
      }
      forall f | f in Serialize(r).fields
        ensures exists m | m in members :: m.name == f.name
      {
        var k :| 0 <= k < |r.fields| && Serialize(r).fields[k] == f;
        assert HasName(r.fields, r.fields[k].name);
      }
    }
  }

  // Scalars.

  lemma DecimalsAdmitted(ds: seq<Decimal>, v: Value)
    requires InferDecimal(ds).Inferred? && Exact(v) && AsDecimal(v) in ds
    ensures Admits(InferDecimal(ds).t, v)
  {
    PrecisionFitsAll(ds);
  }

  lemma {:induction false} SerializeIdempotent(v: Value)
    ensures !Serialize(v).Enum?
    ensures Serialize(Serialize(v)) == Serialize(v)
    decreases v
  {
    match v
    case Enum(u) => SerializeIdempotent(u);
    case Struct(fields) =>
      forall i | 0 <= i < |fields| ensures Serialize(Serialize(fields[i].value)) == Serialize(fields[i].value) {
        SerializeIdempotent(fields[i].value);
      }
      assert SerializeFields(SerializeFields(fields)) == SerializeFields(fields);
    case List(items) =>
      forall i | 0 <= i < |items| ensures Serialize(Serialize(items[i])) == Serialize(items[i]) {
        SerializeIdempotent(items[i]);
      }
      assert SerializeAll(SerializeAll(items)) == SerializeAll(items);
    case _ =>
  }

  lemma TagsOfAll(vs: seq<Value>)
    ensures forall v | v in vs :: TagOf(v) in Tags(vs)
  {}

  /** `v` is a scalar, admitted unless it is an integer that does not fit. */
  ghost predicate ScalarVerdict(t: ArrowType, tags: set<Tag>, v: Value) {
    && !v.Struct? && !v.List? && v != Null
    && (Admits(t, v) <==> (v.Int? ==> IntegerFits(tags, v.n)))
  }

  lemma DecimalColumnInference(vs: seq<Value>)
    requires vs != [] && DecimalTag in Tags(vs) && InferUnenumed(vs).Inferred?
    ensures InferUnenumed(vs) == InferDecimal(AsDecimals(vs))
    ensures Tags(vs) <= {BoolTag, IntTag, DecimalTag}
  {
    if Tags(vs) == {TagOf(vs[0])} {
      assert DecimalTag in {TagOf(vs[0])};
    }
  }

  lemma DecimalColumnIsExact(vs: seq<Value>)
    requires vs != [] && Tags(vs) <= {BoolTag, IntTag, DecimalTag}
    ensures forall v | v in vs :: Exact(v) && AsDecimal(v) in AsDecimals(vs)
  {
    TagsOfAll(vs);
  }

  lemma DecimalColumnAdmitted(vs: seq<Value>)
    requires vs != [] && DecimalTag in Tags(vs) && InferUnenumed(vs).Inferred?
    ensures forall v | v in vs :: ScalarVerdict(InferUnenumed(vs).t, Tags(vs), v)
  {
    DecimalColumnInference(vs);
    DecimalColumnIsExact(vs);
    forall v | v in vs ensures Admits(InferDecimal(AsDecimals(vs)).t, v) {
      DecimalsAdmitted(AsDecimals(vs), v);
    }
  }

  lemma NumberColumnAdmitted(vs: seq<Value>)
    requires vs != [] && DecimalTag !in Tags(vs) && Tags(vs) <= NUMERIC && InferUnenumed(vs).Inferred?
    requires Tags(vs) != {TagOf(vs[0])}
    ensures forall v | v in vs :: ScalarVerdict(InferUnenumed(vs).t, Tags(vs), v)
  {
    TagsOfAll(vs);
    assert InferUnenumed(vs).t == if FloatTag in Tags(vs) then TFloat64 else TInt64;
  }

  lemma SingleKindAdmitted(vs: seq<Value>)
    requires vs != [] && DecimalTag !in Tags(vs) && InferUnenumed(vs).Inferred?
    requires Tags(vs) == {TagOf(vs[0])} && TagOf(vs[0]) != EnumTag
    ensures forall v | v in vs :: ScalarVerdict(InferUnenumed(vs).t, Tags(vs), v)
  {
    TagsOfAll(vs);
    assert vs[0] in vs;
    assert InferUnenumed(vs) == ScalarType(vs[0]);
    assert forall v | v in vs :: TagOf(v) == TagOf(vs[0]);
  }

  lemma UnenumedAdmitted(vs: seq<Value>)
    requires vs != [] && InferUnenumed(vs).Inferred?
    requires forall v | v in vs :: !v.Enum?
    ensures forall v | v in vs :: ScalarVerdict(InferUnenumed(vs).t, Tags(vs), v)
  {
    assert vs[0] in vs;
    if DecimalTag in Tags(vs) {
      DecimalColumnAdmitted(vs);
    } else if Tags(vs) == {TagOf(vs[0])} {
      SingleKindAdmitted(vs);
    } else {
      NumberColumnAdmitted(vs);
    }
  }

  lemma ScalarsAdmitted(present: seq<Value>)
    requires present != [] && forall v | v in present :: v != Null
    requires !present[0].Struct? && !present[0].List?
    requires InferUnenumed(UnenumAll(present)).Inferred?
    ensures !AllStructs(present) && !AllLists(present)
    ensures AdmitsAll(InferUnenumed(UnenumAll(present)).t, present) <==> ScalarsFit(present)
  {
    var us := UnenumAll(present);
    assert present[0] in present;
    UnenumedElements(present);
    UnenumedAdmitted(us);
    forall v | v in present ensures !v.Struct? && !v.List? && Serialize(v) == Unenum(v) {
      assert ScalarVerdict(InferUnenumed(us).t, Tags(us), Unenum(v));
    }
  }

  lemma UnenumedElements(present: seq<Value>)
    ensures forall v | v in present :: Unenum(v) in UnenumAll(present)
    ensures forall u | u in UnenumAll(present) :: !u.Enum? && exists v | v in present :: u == Unenum(v)
  {
    var us := UnenumAll(present);
    forall u | u in us ensures !u.Enum? && exists v | v in present :: u == Unenum(v) {
      var i :| 0 <= i < |us| && us[i] == u;
      SerializeIdempotent(present[i]);
      assert present[i] in present;
    }
    forall v | v in present ensures Unenum(v) in us {
      var i :| 0 <= i < |present| && present[i] == v;
      assert us[i] == Unenum(v);
    }
  }

  /** Type soundness: the inferred type admits every value of the column, at every
      depth, exactly when the integers it must hold fit. */
  lemma {:induction false} InferenceIsSound(values: seq<Value>)
    requires InferColumn(values).Inferred?
    ensures AdmitsAll(InferColumn(values).t, values) <==> IntegersFit(values)
    decreases MaxDepth(values)
  {
    var present := NonNull(values);
    var t := InferColumn(values).t;
    NonNullDepth(values);
    AdmitsAllPresent(t, values);
    if present == [] {
    } else if present[0].Struct? {
      StructSound(present);
    } else if present[0].List? {
      ListSound(present);
    } else {
      ScalarsAdmitted(present);
    }
  }

  lemma {:induction false} ListSound(present: seq<Value>)
    requires present != [] && AllLists(present)
    requires InferColumn(Concat(present)).Inferred?
    ensures var t := if Concat(present) == [] then TList(TString) else TList(InferColumn(Concat(present)).t);
            AdmitsAll(t, present) <==> IntegersFit(Concat(present))
    decreases MaxDepth(present), 0
  {
    ConcatIsShallower(present);
    ListsAdmitted(InferColumn(Concat(present)).t, present);
    InferenceIsSound(Concat(present));
  }

  lemma {:induction false} StructSound(rows: seq<Value>)
    requires rows != [] && AllStructs(rows) && InferStruct(rows).Inferred?
    ensures AdmitsAll(InferStruct(rows).t, rows) <==>
            ColumnsFit(rows)
    decreases MaxDepth(rows), 0
  {
    var names := FieldNames(rows);
    var members := InferStruct(rows).t.members;
    FieldNamesExact(rows);
    forall i | 0 <= i < |names|
      ensures AdmitsAll(members[i].fieldType, Column(rows, members[i].name)) <==> ColumnFits(rows, names[i])
    {
      ColumnInference(rows, names, i, InferColumn(Column(rows, names[i])));
      ColumnIsShallower(rows, names[i]);
      InferenceIsSound(Column(rows, names[i]));
    }
    if ColumnsFit(rows) {
      forall r, name | r in rows && HasName(r.fields, name)
        ensures exists m | m in members :: m.name == name
      {
        assert name in names;
        var i :| 0 <= i < |names| && names[i] == name;
        assert members[i] in members;
      }
      ColumnsAdmitStructs(members, rows);
    }
    if AdmitsAll(TStruct(members), rows) {
      StructsAdmitColumns(members, rows);
      forall name: string ensures ColumnFits(rows, name) {
        if name in names {
          var i :| 0 <= i < |names| && names[i] == name;
        } else {
          UnnamedColumnIsNull(rows, name);
        }
      }
    }
  }

  lemma UnnamedColumnIsNull(rows: seq<Value>, name: string)
    requires AllStructs(rows) && forall r | r in rows :: !HasName(r.fields, name)
    ensures NonNull(Column(rows, name)) == []
  {
    forall i | 0 <= i < |rows| ensures Column(rows, name)[i] == Null {
      assert rows[i] in rows;
      GetOfMissing(rows[i].fields, name);
    }
    NullsHaveNoPresent(Column(rows, name));
  }

  lemma {:induction false} NullsHaveNoPresent(vs: seq<Value>)
    requires forall i | 0 <= i < |vs| :: vs[i] == Null
    ensures NonNull(vs) == []
  {
    if vs == [] {
    } else {
      NullsHaveNoPresent(vs[..|vs| - 1]);
    }
  }

  // Integers that do not fit: the inference looks at kinds, never at sizes.

  lemma OneValueColumn(v: Value)
    requires v.Int?
    ensures InferColumn([v]) == Inferred(TInt64)
    ensures NonNull([v]) == [v] && UnenumAll([v]) == [v] && Tags([v]) == {IntTag}
  {
    assert [v][..0] == [];
    assert NonNull([v]) == NonNull([]) + [v] == [v];
    assert UnenumAll([v]) == UnenumAll([]) + [v] == [v];
    assert v in [v];
  }

  lemma WideIntegerIsInferredInt64()
    ensures InferColumn([Int(0x8000_0000_0000_0000)]) == Inferred(TInt64)
    ensures !AdmitsAll(TInt64, [Int(0x8000_0000_0000_0000)])
  {
    var v := Int(0x8000_0000_0000_0000);
    OneValueColumn(v);
    assert v in [v] && !Admits(TInt64, Serialize(v));
  }

  predicate PlainScalar(v: Value) {
    !v.Null? && !v.Enum? && !v.Struct? && !v.List?
  }

  lemma PairIsPresent(v: Value, w: Value)
    requires PlainScalar(v) && PlainScalar(w)
    ensures NonNull([v, w]) == [v, w] && UnenumAll([v, w]) == [v, w]
  {
    assert [v, w][..1] == [v] && [v][..0] == [];
    assert NonNull([]) == [];
    assert NonNull([v]) == [] + [v];
    assert NonNull([v, w]) == [v] + [w];
  }

  lemma PairTags(v: Value, w: Value)
    ensures Tags([v, w]) == {TagOf(v), TagOf(w)}
  {
    assert v in [v, w] && w in [v, w];
  }

  lemma FloatAndInteger(v: Value, w: Value)
    requires v.Float? && w.Int?
    ensures InferColumn([v, w]) == Inferred(TFloat64)
  {
    PairIsPresent(v, w);
    PairTags(v, w);
  }

  lemma WideIntegerIsInferredFloat64()
    ensures InferColumn([Float(0), Int(0x20_0000_0000_0001)]) == Inferred(TFloat64)
    ensures !AdmitsAll(TFloat64, [Float(0), Int(0x20_0000_0000_0001)])
  {
    var v, w := Float(0), Int(0x20_0000_0000_0001);
    FloatAndInteger(v, w);
    assert w in [v, w] && !Admits(TFloat64, Serialize(w));
  }
}
