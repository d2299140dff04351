/** Which datetime decides the zone of each timestamp that is inferred. */
module ArrowZones {
  import opened Wrappers
  import opened Decimals
  import opened ArrowTypes
  import opened ArrowSoundness

  /** One level down: into a key of a struct, or into the items of a list. */
  datatype Hop = Key(name: string) | Items

  /** Whether the first datetime of a value along a path is timezone-aware; None without
      one. */
  function ZoneOf(v: Value, path: seq<Hop>): Option<bool>
    decreases |path|, 0, 0
  {
    if path == [] then
      if Unenum(v).DateTime? then Some(Unenum(v).aware) else None
    else
      match path[0]
      case Key(name) => if v.Struct? then ZoneOf(Get(v.fields, name), path[1..]) else None
      case Items => if v.List? then FirstZone(v.items, path[1..]) else None
  }

  /** The same for a column: its first value that has a datetime there. */
  function FirstZone(vs: seq<Value>, path: seq<Hop>): Option<bool>
    decreases |path|, 1, |vs|
  {
    if vs == [] then None
    else if ZoneOf(vs[0], path).Some? then ZoneOf(vs[0], path)
    else FirstZone(vs[1..], path)
  }

  lemma {:induction false} FirstZoneConcat(a: seq<Value>, b: seq<Value>, path: seq<Hop>)
    ensures FirstZone(a + b, path) == if FirstZone(a, path).Some? then FirstZone(a, path) else FirstZone(b, path)
  {
    if a == [] {
      assert a + b == b;
    } else {
      assert (a + b)[1..] == a[1..] + b;
      FirstZoneConcat(a[1..], b, path);
    }
  }

  lemma FirstZoneOfOne(v: Value, path: seq<Hop>)
    ensures FirstZone([v], path) == ZoneOf(v, path)
  {
    assert [v][1..] == [];
  }

  /** A column's zone is some value's, and it has none only when no value does. */
  lemma {:induction false} FirstZoneIsSome(vs: seq<Value>, path: seq<Hop>)
    ensures FirstZone(vs, path).Some? ==> exists v | v in vs :: ZoneOf(v, path) == FirstZone(vs, path)
    ensures FirstZone(vs, path).None? ==> forall v | v in vs :: ZoneOf(v, path).None?
  {
    if vs == [] {
    } else {
      FirstZoneIsSome(vs[1..], path);
      assert vs[0] in vs;
    }
  }

  lemma FirstZoneNone(vs: seq<Value>, path: seq<Hop>)
    requires forall v | v in vs :: ZoneOf(v, path).None?
    ensures FirstZone(vs, path).None?
  {
    FirstZoneIsSome(vs, path);
  }

  lemma LastValue(vs: seq<Value>)
    requires vs != []
    ensures vs == vs[..|vs| - 1] + [vs[|vs| - 1]]
  {}

  lemma NullHasNoZone(path: seq<Hop>)
    ensures ZoneOf(Null, path) == None
  {}

  lemma {:induction false} FirstZonePresent(vs: seq<Value>, path: seq<Hop>)
    ensures FirstZone(NonNull(vs), path) == FirstZone(vs, path)
  {
    if vs == [] {
    } else {
      var init, last := vs[..|vs| - 1], vs[|vs| - 1];
      FirstZonePresent(init, path);
      LastValue(vs);
      FirstZoneConcat(init, [last], path);
      FirstZoneConcat(NonNull(init), [last], path);
      FirstZoneOfOne(last, path);
      NullHasNoZone(path);
    }
  }

  lemma KeyZone(row: Value, name: string, rest: seq<Hop>)
    requires row.Struct?
    ensures ZoneOf(row, [Key(name)] + rest) == ZoneOf(Get(row.fields, name), rest)
  {
    assert ([Key(name)] + rest)[1..] == rest;
  }

  lemma ItemsZone(list: Value, rest: seq<Hop>)
    requires list.List?
    ensures ZoneOf(list, [Items] + rest) == FirstZone(list.items, rest)
  {
    assert ([Items] + rest)[1..] == rest;
  }

  lemma {:induction false} FirstZoneOfColumn(rows: seq<Value>, name: string, rest: seq<Hop>)
    requires AllStructs(rows)
    ensures FirstZone(Column(rows, name), rest) == FirstZone(rows, [Key(name)] + rest)
    decreases |rows|
  {
    if rows == [] {
    } else {
      var init, last := rows[..|rows| - 1], rows[|rows| - 1];
      FirstZoneOfColumn(init, name, rest);
      LastValue(rows);
      FirstZoneConcat(init, [last], [Key(name)] + rest);
      FirstZoneConcat(Column(init, name), [Get(last.fields, name)], rest);
      FirstZoneOfOne(last, [Key(name)] + rest);
      FirstZoneOfOne(Get(last.fields, name), rest);
      KeyZone(last, name, rest);
    }
  }

  lemma {:induction false} FirstZoneOfItems(lists: seq<Value>, rest: seq<Hop>)
    requires AllLists(lists)
    ensures FirstZone(Concat(lists), rest) == FirstZone(lists, [Items] + rest)
    decreases |lists|
  {
    if lists == [] {
    } else {
      var init, last := lists[..|lists| - 1], lists[|lists| - 1];
      FirstZoneOfItems(init, rest);
      LastValue(lists);
      FirstZoneConcat(init, [last], [Items] + rest);
      FirstZoneConcat(Concat(init), last.items, rest);
      FirstZoneOfOne(last, [Items] + rest);
      ItemsZone(last, rest);
    }
  }

  lemma ListsZone(lists: seq<Value>, items: seq<Value>, path: seq<Hop>)
    requires AllLists(lists) && items == Concat(lists) && path != []
    ensures FirstZone(lists, path) == if path[0].Items? then FirstZone(items, path[1..]) else None
  {
    if path[0].Items? {
      assert path == [Items] + path[1..];
      FirstZoneOfItems(lists, path[1..]);
    } else {
      FirstZoneNone(lists, path);
    }
  }

  lemma RowsZone(rows: seq<Value>, path: seq<Hop>)
    requires AllStructs(rows) && path != []
    ensures FirstZone(rows, path) == if path[0].Key? then FirstZone(Column(rows, path[0].name), path[1..]) else None
  {
    if path[0].Key? {
      assert path == [Key(path[0].name)] + path[1..];
      FirstZoneOfColumn(rows, path[0].name, path[1..]);
    } else {
      FirstZoneNone(rows, path);
    }
  }

  // The zone of a type.

  function MemberType(members: seq<ArrowField>, name: string): Option<ArrowType> {
    if members == [] then None
    else if members[0].name == name then Some(members[0].fieldType)
    else MemberType(members[1..], name)
  }

  /** The zone flag of the timestamp at a path of a type. */
  function ZoneAt(t: ArrowType, path: seq<Hop>): Option<bool>
    decreases |path|
  {
    if path == [] then
      if t.TTimestamp? then Some(t.utc) else None
    else
      match path[0]
      case Key(name) =>
        if t.TStruct? && MemberType(t.members, name).Some? then ZoneAt(MemberType(t.members, name).value, path[1..]) else None
      case Items => if t.TList? then ZoneAt(t.elem, path[1..]) else None
  }

  lemma {:induction false} MemberTypeIs(members: seq<ArrowField>, name: string)
    ensures MemberType(members, name).Some? ==>
              exists i | 0 <= i < |members| :: members[i].name == name && MemberType(members, name) == Some(members[i].fieldType)
    ensures MemberType(members, name).None? ==> forall i | 0 <= i < |members| :: members[i].name != name
  {
    if members == [] {
    } else {
      MemberTypeIs(members[1..], name);
      if MemberType(members[1..], name).Some? && members[0].name != name {
        var i :| 0 <= i < |members| - 1 && members[1..][i].name == name
                 && MemberType(members[1..], name) == Some(members[1..][i].fieldType);
        assert members[i + 1].name == name;
      }
      forall i | 0 <= i < |members| && MemberType(members, name).None? ensures members[i].name != name {
        assert i > 0 ==> members[i] == members[1..][i - 1];
      }
    }
  }

  lemma StructMember(rows: seq<Value>, i: nat)
    requires AllStructs(rows) && rows != [] && InferStruct(rows).Inferred? && i < |FieldNames(rows)|
    ensures |InferStruct(rows).t.members| == |FieldNames(rows)|
    ensures InferColumn(Column(rows, FieldNames(rows)[i])).Inferred?
    ensures InferStruct(rows).t.members[i] ==
            ArrowField(FieldNames(rows)[i], InferColumn(Column(rows, FieldNames(rows)[i])).t)
  {
    var names := FieldNames(rows);
    ColumnInference(rows, names, i, InferColumn(Column(rows, names[i])));
  }

  // The inferred type carries, at every path, the zone of the column's first datetime there.

  ghost predicate FlatType(t: ArrowType) {
    !t.TStruct? && !t.TList? && !t.TTimestamp?
  }

  lemma DecimalsAreFlat(ds: seq<Decimal>)
    ensures InferDecimal(ds).Inferred? ==> FlatType(InferDecimal(ds).t)
  {}

  lemma SingleDecimal(us: seq<Value>, r: Inference)
    requires us != [] && us[0].Dec? && Tags(us) == {TagOf(us[0])} && r == InferDecimal(AsDecimals(us))
    ensures InferUnenumed(us) == r
  {}

  lemma SingleScalar(us: seq<Value>, r: Inference)
    requires us != [] && Tags(us) == {TagOf(us[0])} && !us[0].Dec? && r == ScalarType(us[0])
    ensures InferUnenumed(us) == r
  {}

  lemma MixedNumbers(us: seq<Value>, tags: set<Tag>, decimal: Inference)
    requires us != [] && Tags(us) == tags && tags != {TagOf(us[0])} && decimal == InferDecimal(AsDecimals(us))
    ensures InferUnenumed(us) ==
            if !(tags <= NUMERIC) then Rejected(MixedScalars)
            else if FloatTag in tags && DecimalTag in tags then Rejected(FloatWithDecimal)
            else if DecimalTag in tags then decimal
            else if FloatTag in tags then Inferred(TFloat64)
            else Inferred(TInt64)
  {}

  /** The type of a scalar column by its first value. */
  ghost predicate ShapedBy(t: ArrowType, seed: Value) {
    if seed.DateTime? then t == TTimestamp(seed.aware) else FlatType(t)
  }

  lemma NumbersShape(us: seq<Value>, t: ArrowType)
    requires us != [] && InferUnenumed(us) == Inferred(t) && Tags(us) != {TagOf(us[0])}
    ensures FlatType(t) && Tags(us) <= NUMERIC
  {
    DecimalsAreFlat(AsDecimals(us));
    MixedNumbers(us, Tags(us), InferDecimal(AsDecimals(us)));
  }

  lemma SingleKindShape(us: seq<Value>, t: ArrowType)
    requires us != [] && InferUnenumed(us) == Inferred(t) && Tags(us) == {TagOf(us[0])} && !us[0].Enum?
    ensures ShapedBy(t, us[0])
  {
    if us[0].Dec? {
      DecimalsAreFlat(AsDecimals(us));
    } else {
      SingleScalar(us, ScalarType(us[0]));
    }
  }

  lemma DatetimesStandAlone(us: seq<Value>, u: Value)
    requires us != [] && u in us && u.DateTime?
    requires Tags(us) == {TagOf(us[0])} || Tags(us) <= NUMERIC
    ensures us[0].DateTime?
  {
    TagsOfAll(us);
  }

  lemma NumbersHaveNoDatetime(us: seq<Value>)
    requires us != [] && Tags(us) <= NUMERIC
    ensures !us[0].DateTime?
  {
    assert us[0] in us;
    TagsOfAll(us);
  }

  lemma ScalarTypeShape(us: seq<Value>, t: ArrowType)
    requires us != [] && InferUnenumed(us) == Inferred(t) && !us[0].Enum?
    ensures ShapedBy(t, us[0])
    ensures Tags(us) == {TagOf(us[0])} || Tags(us) <= NUMERIC
  {
    if Tags(us) == {TagOf(us[0])} {
      SingleKindShape(us, t);
    } else {
      NumbersShape(us, t);
      NumbersHaveNoDatetime(us);
    }
  }

  lemma ScalarHasNoZone(v: Value, path: seq<Hop>)
    requires !Unenum(v).Struct? && !Unenum(v).List? && (path == [] ==> !Unenum(v).DateTime?)
    ensures ZoneOf(v, path).None?
  {}

  lemma AllScalars(present: seq<Value>)
    requires present != [] && InferUnenumed(UnenumAll(present)).Inferred?
    ensures forall v | v in present :: !Unenum(v).Struct? && !Unenum(v).List?
  {
    UnenumedElements(present);
    UnenumedAdmitted(UnenumAll(present));
    forall v | v in present ensures !Unenum(v).Struct? && !Unenum(v).List? {
      assert ScalarVerdict(InferUnenumed(UnenumAll(present)).t, Tags(UnenumAll(present)), Unenum(v));
    }
  }

  lemma ScalarZone(present: seq<Value>, us: seq<Value>, t: ArrowType, path: seq<Hop>)
    requires present != [] && us == UnenumAll(present) && InferUnenumed(us) == Inferred(t)
    ensures ZoneAt(t, path) == FirstZone(present, path)
  {
    AllScalars(present);
    UnenumedElements(present);
    assert us[0] in us;
    ScalarTypeShape(us, t);
    if path == [] && us[0].DateTime? {
      assert ZoneOf(present[0], path) == Some(us[0].aware);
    } else {
      forall v | v in present ensures ZoneOf(v, path).None? {
        if Unenum(v).DateTime? {
          DatetimesStandAlone(us, Unenum(v));
        }
        ScalarHasNoZone(v, path);
      }
      FirstZoneNone(present, path);
    }
  }

  lemma UnnamedColumnHasNoZone(rows: seq<Value>, name: string, path: seq<Hop>)
    requires AllStructs(rows) && name !in FieldNames(rows)
    ensures FirstZone(Column(rows, name), path).None?
  {
    FieldNamesExact(rows);
    UnnamedColumnIsNull(rows, name);
    FirstZonePresent(Column(rows, name), path);
  }

  lemma NameWithoutMember(rows: seq<Value>, t: ArrowType, name: string)
    requires AllStructs(rows) && rows != [] && InferStruct(rows) == Inferred(t)
    requires forall i | 0 <= i < |t.members| :: t.members[i].name != name
    ensures name !in FieldNames(rows)
  {}

  lemma {:induction false} StructZone(rows: seq<Value>, t: ArrowType, path: seq<Hop>)
    requires AllStructs(rows) && rows != [] && InferStruct(rows) == Inferred(t)
    ensures ZoneAt(t, path) == FirstZone(rows, path)
    decreases |path|, 0
  {
    if path == [] {
      FirstZoneNone(rows, path);
    } else {
      RowsZone(rows, path);
      if path[0].Key? {
        var name := path[0].name;
        MemberTypeIs(t.members, name);
        if MemberType(t.members, name).Some? {
          var i :| 0 <= i < |t.members| && t.members[i].name == name && MemberType(t.members, name) == Some(t.members[i].fieldType);
          StructMember(rows, i);
          InferredZone(Column(rows, name), t.members[i].fieldType, path[1..]);
        } else {
          NameWithoutMember(rows, t, name);
          UnnamedColumnHasNoZone(rows, name, path[1..]);
        }
      }
    }
  }

  lemma {:induction false} ListZone(lists: seq<Value>, items: seq<Value>, elem: ArrowType, path: seq<Hop>)
    requires AllLists(lists) && items == Concat(lists) && InferColumn(items) == Inferred(elem)
    ensures ZoneAt(TList(elem), path) == FirstZone(lists, path)
    decreases |path|, 0
  {
    if path == [] {
      FirstZoneNone(lists, path);
    } else {
      ListsZone(lists, items, path);
      if path[0].Items? {
        InferredZone(items, elem, path[1..]);
      }
    }
  }

  /** Whatever the column, the zone of each inferred timestamp is that of its first row
      with a datetime there. */
  lemma {:induction false} InferredZone(values: seq<Value>, t: ArrowType, path: seq<Hop>)
    requires InferColumn(values) == Inferred(t)
    ensures ZoneAt(t, path) == FirstZone(values, path)
    decreases |path|, 1
  {
    var present := NonNull(values);
    FirstZonePresent(values, path);
    if present == [] {
    } else if present[0].Struct? {
      StructZone(present, t, path);
    } else if present[0].List? {
      ListZone(present, Concat(present), t.elem, path);
    } else {
      ScalarZone(present, UnenumAll(present), t, path);
    }
  }
}
