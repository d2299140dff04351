/** The loops of the inference, proved against its functions, and the column that
    is finally handed to Arrow (src/polymarket/frames/_arrow.py). */
module ArrowColumns {
  import opened Decimals
  import opened ArrowTypes
  import opened ArrowSoundness

  method CollectFieldNames(rows: seq<Value>) returns (names: seq<string>)
    requires AllStructs(rows)
    ensures names == FieldNames(rows)
  {
    names := [];
    var seen: set<string> := {};
    for i := 0 to |rows|
      invariant names == FieldNames(rows[..i])
      invariant forall n :: n in seen <==> n in names
    {
      var fields := rows[i].fields;
      ghost var before := names;
      for j := 0 to |fields|
        invariant names == AddNames(before, fields[..j])
        invariant forall n :: n in seen <==> n in names
      {
        assert fields[..j + 1][..j] == fields[..j];
        if fields[j].name !in seen {
          seen := seen + {fields[j].name};
          names := names + [fields[j].name];
        }
      }
      assert fields[..|fields|] == fields;
      assert rows[..i + 1][..i] == rows[..i];
    }
    assert rows[..|rows|] == rows;
  }

  /** The kinds found beside the expected one, each once; none means the column may
      be nested. */
  method Offenders(values: seq<Value>, expected: Tag) returns (offenders: seq<Tag>)
    ensures forall k :: k in offenders <==> exists v | v in values :: TagOf(v) == k && k != expected
    ensures forall i, j | 0 <= i < j < |offenders| :: offenders[i] != offenders[j]
  {
    offenders := [];
    var seen: set<Tag> := {};
    for i := 0 to |values|
      invariant forall k :: k in offenders <==> exists v | v in values[..i] :: TagOf(v) == k && k != expected
      invariant forall k :: k in seen <==> k in offenders
      invariant forall i, j | 0 <= i < j < |offenders| :: offenders[i] != offenders[j]
    {
      var kind := TagOf(values[i]);
      assert values[..i + 1] == values[..i] + [values[i]];
      if kind != expected && kind !in seen {
        seen := seen + {kind};
        offenders := offenders + [kind];
      }
    }
    assert values[..|values|] == values;
  }

  lemma MaximaOfPrefix(values: seq<Decimal>, i: nat)
    requires i < |values| && AllFinite(values[..i]) && values[i].Finite?
    ensures AllFinite(values[..i + 1])
    ensures MaxScale(values[..i + 1]) == Max(MaxScale(values[..i]), Scale(values[i]))
    ensures MaxIntegerDigits(values[..i + 1]) == Max(MaxIntegerDigits(values[..i]), IntegerDigits(values[i]))
  {
    assert values[..i + 1] == values[..i] + [values[i]];
    assert values[..i + 1][..i] == values[..i];
  }

  method InferDecimalType(values: seq<Decimal>) returns (r: Inference)
    ensures r == InferDecimal(values)
  {
    var maxScale, maxIntegerDigits := 0, 0;
    for i := 0 to |values|
      invariant AllFinite(values[..i])
      invariant maxScale == MaxScale(values[..i])
      invariant maxIntegerDigits == MaxIntegerDigits(values[..i])
    {
      if values[i].Special? {
        assert values[i] in values;
        return Rejected(SpecialDecimal);
      }
      MaximaOfPrefix(values, i);
      maxScale := Max(maxScale, Scale(values[i]));
      maxIntegerDigits := Max(maxIntegerDigits, IntegerDigits(values[i]));
    }
    assert values[..|values|] == values;
    return DecimalOfWidth(Max(1, maxIntegerDigits + maxScale), maxScale);
  }

  lemma {:induction false} FirstRefusalDecides(names: seq<string>, columns: seq<Inference>, i: nat)
    requires |names| == |columns| && i < |columns|
    requires Assemble(names[..i], columns[..i]).Inferred? && columns[i].Rejected?
    ensures Assemble(names, columns) == columns[i]
  {
    if i < |columns| - 1 {
      var n, c := names[..|names| - 1], columns[..|columns| - 1];
      assert n[..i] == names[..i] && c[..i] == columns[..i];
      FirstRefusalDecides(n, c, i);
    }
  }

  lemma AssembleNext(names: seq<string>, columns: seq<Inference>, i: nat)
    requires |names| == |columns| && i < |columns|
    requires Assemble(names[..i], columns[..i]).Inferred? && columns[i].Inferred?
    ensures Assemble(names[..i + 1], columns[..i + 1]) ==
            Inferred(TStruct(Assemble(names[..i], columns[..i]).t.members + [ArrowField(names[i], columns[i].t)]))
  {
    assert names[..i + 1][..i] == names[..i] && columns[..i + 1][..i] == columns[..i];
  }

  method InferStructType(rows: seq<Value>) returns (r: Inference)
    requires AllStructs(rows) && rows != []
    ensures r == InferStruct(rows)
    decreases MaxDepth(rows), 0
  {
    var names := CollectFieldNames(rows);
    ghost var columns := InferColumns(rows, names);
    var members: seq<ArrowField> := [];
    for i := 0 to |names|
      invariant Assemble(names[..i], columns[..i]) == Inferred(TStruct(members))
    {
      ColumnIsShallower(rows, names[i]);
      ColumnInference(rows, names, i, InferColumn(Column(rows, names[i])));
      var column := InferColumnType(Column(rows, names[i]));
      if column.Rejected? {
        FirstRefusalDecides(names, columns, i);
        return column;
      }
      AssembleNext(names, columns, i);
      members := members + [ArrowField(names[i], column.t)];
    }
    assert names[..|names|] == names && columns[..|names|] == columns;
    return Inferred(TStruct(members));
  }

  lemma AsDecimalsNext(values: seq<Value>, i: nat)
    requires i < |values|
    ensures AsDecimals(values[..i + 1]) == AsDecimals(values[..i]) + if Exact(values[i]) then [AsDecimal(values[i])] else []
  {
    assert values[..i + 1][..i] == values[..i];
  }

  /** The decimals, and the bools and integers as decimals, of a column. */
  method Promote(values: seq<Value>) returns (promoted: seq<Decimal>)
    ensures promoted == AsDecimals(values)
  {
    promoted := [];
    for i := 0 to |values|
      invariant promoted == AsDecimals(values[..i])
    {
      AsDecimalsNext(values, i);
      match values[i] {
        case Dec(d) => promoted := promoted + [d];
        case Bool(b) => promoted := promoted + [FromInt(if b then 1 else 0)];
        case Int(n) => promoted := promoted + [FromInt(n)];
        case _ =>
      }
    }
    assert values[..|values|] == values;
  }

  /** The type of a column of scalars, its enums already written out. */
  method InferScalarColumn(values: seq<Value>) returns (r: Inference)
    requires values != []
    ensures r == InferUnenumed(values)
  {
    var kinds := Tags(values);
    if kinds == {TagOf(values[0])} {
      if !values[0].Dec? {
        return ScalarType(values[0]);
      }
      var decimals := Promote(values);
      r := InferDecimalType(decimals);
    } else if !(kinds <= NUMERIC) {
      r := Rejected(MixedScalars);
    } else if FloatTag in kinds && DecimalTag in kinds {
      r := Rejected(FloatWithDecimal);
    } else if DecimalTag in kinds {
      var promoted := Promote(values);
      r := InferDecimalType(promoted);
    } else {
      r := Inferred(if FloatTag in kinds then TFloat64 else TInt64);
    }
  }

  method RequireHomogeneous(values: seq<Value>, expected: Tag) returns (ok: bool)
    ensures ok <==> forall v | v in values :: TagOf(v) == expected
    ensures expected == DictTag ==> (ok <==> AllStructs(values))
    ensures expected == ListTag ==> (ok <==> AllLists(values))
  {
    var offenders := Offenders(values, expected);
    NoOffenders(values, expected, offenders);
    return offenders == [];
  }

  lemma ListColumn(values: seq<Value>, present: seq<Value>, elem: Inference)
    requires present == NonNull(values) && present != [] && present[0].List? && AllLists(present)
    requires Concat(present) != [] && elem == InferColumn(Concat(present))
    ensures InferColumn(values) == if elem.Inferred? then Inferred(TList(elem.t)) else elem
  {}

  lemma StructColumn(values: seq<Value>, present: seq<Value>, members: Inference)
    requires present == NonNull(values) && present != [] && present[0].Struct? && AllStructs(present)
    requires members == InferStruct(present)
    ensures InferColumn(values) == members
  {}

  method InferColumnType(values: seq<Value>) returns (r: Inference)
    ensures r == InferColumn(values)
    decreases MaxDepth(values), 1
  {
    var present := NonNull(values);
    if present == [] {
      return Inferred(TString);
    }
    NonNullDepth(values);
    if present[0].Struct? {
      var ok := RequireHomogeneous(present, DictTag);
      if !ok {
        return Rejected(MixedKinds);
      }
      r := InferStructType(present);
      StructColumn(values, present, r);
    } else if present[0].List? {
      var ok := RequireHomogeneous(present, ListTag);
      if !ok {
        return Rejected(MixedKinds);
      }
      var nonEmpty := Gather(present);
      if nonEmpty == [] {
        return Inferred(TList(TString));
      }
      ConcatIsShallower(present);
      r := InferColumnType(nonEmpty);
      ListColumn(values, present, r);
      if r.Inferred? {
        r := Inferred(TList(r.t));
      }
    } else {
      UnenumedElements(present);
      r := InferScalarColumn(UnenumAll(present));
    }
  }

  method Gather(lists: seq<Value>) returns (items: seq<Value>)
    requires AllLists(lists)
    ensures items == Concat(lists)
  {
    items := [];
    for i := 0 to |lists|
      invariant items == Concat(lists[..i])
    {
      assert lists[..i + 1][..i] == lists[..i];
      if |lists[i].items| > 0 {
        items := items + lists[i].items;
      }
    }
    assert lists[..|lists|] == lists;
  }

  lemma NoOffenders(values: seq<Value>, expected: Tag, offenders: seq<Tag>)
    requires forall k :: k in offenders <==> exists v | v in values :: TagOf(v) == k && k != expected
    ensures offenders == [] <==> forall v | v in values :: TagOf(v) == expected
  {
    if offenders != [] {
      assert offenders[0] in offenders;
    }
    forall v | v in values && TagOf(v) != expected ensures offenders != [] {
      assert TagOf(v) in offenders;
    }
  }

  // The column handed to Arrow.

  function Coerce(t: ArrowType, v: Value): Value {
    match t
    case TInt64 => if v.Bool? then Int(if v.b then 1 else 0) else v
    case TDecimal128(_, _) => if Exact(v) then Dec(AsDecimal(v)) else v
    case TDecimal256(_, _) => if Exact(v) then Dec(AsDecimal(v)) else v
    case _ => v
  }

  function BuildColumn(values: seq<Value>, t: ArrowType): (r: seq<Value>)
    ensures |r| == |values|
    ensures forall i | 0 <= i < |r| :: r[i] == Coerce(t, Serialize(values[i]))
  {
    if values == [] then []
    else BuildColumn(values[..|values| - 1], t) + [Coerce(t, Serialize(values[|values| - 1]))]
  }

  /** Top-level numbers need no promotion any more: an int64 column holds integers in
      range and a decimal column exact decimals of its own precision and scale. */
  ghost predicate Unpromoted(t: ArrowType, v: Value) {
    v.Null? ||
    match t
    case TInt64 => v.Int? && InInt64(v.n)
    case TDecimal128(p, s) => v.Dec? && Fits(v.d, p, s)
    case TDecimal256(p, s) => v.Dec? && Fits(v.d, p, s)
    case _ => Admits(t, v)
  }

  lemma CoercionUnpromotes(t: ArrowType, v: Value)
    requires Admits(t, v)
    ensures Unpromoted(t, Coerce(t, v))
  {}

  /** The number an exact value stands for: its sign, digits and exponent. */
  function NumberOf(v: Value): Decimal
    requires Exact(v)
  {
    match v
    case Bool(b) => Finite(false, if b then 1 else 0, 0)
    case Int(n) => Finite(n < 0, if n < 0 then -n else n, 0)
    case Dec(d) => d
  }

  /** Coercion changes how a number is written, never the number, and nothing else. */
  ghost predicate SameNumber(before: Value, after: Value) {
    if Exact(before) then Exact(after) && NumberOf(after) == NumberOf(before) else after == before
  }

  lemma BuiltValue(t: ArrowType, v: Value)
    requires Admits(t, v)
    ensures Unpromoted(t, Coerce(t, v)) && SameNumber(v, Coerce(t, v))
  {
    CoercionUnpromotes(t, v);
  }

  lemma BuiltColumnIsUnpromoted(values: seq<Value>)
    requires InferColumn(values).Inferred? && IntegersFit(values)
    ensures var t := InferColumn(values).t;
            && |BuildColumn(values, t)| == |values|
            && forall i | 0 <= i < |values| ::
                 && Unpromoted(t, BuildColumn(values, t)[i])
                 && SameNumber(Serialize(values[i]), BuildColumn(values, t)[i])
  {
    InferenceIsSound(values);
    BuiltValues(values, InferColumn(values).t);
  }

  lemma BuiltValues(values: seq<Value>, t: ArrowType)
    requires AdmitsAll(t, values)
    ensures forall i | 0 <= i < |values| ::
              Unpromoted(t, BuildColumn(values, t)[i]) && SameNumber(Serialize(values[i]), BuildColumn(values, t)[i])
  {
    forall i | 0 <= i < |values|
      ensures Unpromoted(t, BuildColumn(values, t)[i]) && SameNumber(Serialize(values[i]), BuildColumn(values, t)[i])
    {
      assert values[i] in values;
      BuiltValue(t, Serialize(values[i]));
    }
  }
}
