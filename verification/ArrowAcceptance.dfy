/** Which columns the inference accepts, and with which types, said of the values alone
    (src/polymarket/frames/_arrow.py). */
module ArrowAcceptance {
  import opened Numerals
  import opened Decimals
  import opened ArrowTypes
  import opened ArrowSoundness
  import opened ArrowZones

  /** An enum stands for what it wraps. */
  function Plain(v: Value): Value {
    match v
    case Enum(u) => Plain(u)
    case _ => v
  }

  function PlainAll(vs: seq<Value>): (r: seq<Value>)
    ensures |r| == |vs| && forall i | 0 <= i < |vs| :: r[i] == Plain(vs[i])
  {
    seq(|vs|, i requires 0 <= i < |vs| => Plain(vs[i]))
  }

  // The specification, of values that are not enums.

  function IntegerDigitsOf(v: Value): nat {
    match v
    case Bool(_) => 1
    case Int(n) => DigitCount(if n < 0 then -n else n)
    case Dec(Finite(_, coefficient, exponent)) =>
      if DigitCount(coefficient) + exponent < 0 then 0 else DigitCount(coefficient) + exponent
    case _ => 0
  }

  function FractionDigitsOf(v: Value): nat {
    match v
    case Dec(Finite(_, _, exponent)) => if exponent < 0 then -exponent else 0
    case _ => 0
  }

  predicate IsNumber(v: Value) {
    v.Bool? || v.Int? || v.Float? || v.Dec?
  }

  ghost predicate HoldsFloat(vs: seq<Value>) {
    exists v | v in vs :: v.Float?
  }

  ghost predicate HoldsDecimal(vs: seq<Value>) {
    exists v | v in vs :: v.Dec?
  }

  /** The decimals are finite and 76 digits hold every number of the column at one scale. */
  ghost predicate DecimalsFit(vs: seq<Value>) {
    && (forall v | v in vs && v.Dec? :: v.d.Finite?)
    && forall v, w | v in vs && w in vs :: IntegerDigitsOf(v) + FractionDigitsOf(w) <= 76
  }

  /** Scalars of one mappable kind, or numbers with no float beside a decimal. */
  ghost predicate ScalarsTogether(vs: seq<Value>) {
    || (forall v | v in vs :: v.Str?)
    || (forall v | v in vs :: v.Bytes?)
    || (forall v | v in vs :: v.DateTime?)
    || (forall v | v in vs :: v.Date?)
    || ((forall v | v in vs :: IsNumber(v)) && (HoldsDecimal(vs) ==> !HoldsFloat(vs) && DecimalsFit(vs)))
  }

  /** At every path the present values are all dicts, or all lists, or such scalars. */
  ghost predicate Acceptable(values: seq<Value>)
    decreases MaxDepth(values), 1
  {
    var present := NonNull(values);
    NonNullDepth(values);
    if present == [] then true
    else if AllStructs(present) then KeysAcceptable(present)
    else if AllLists(present) then
      ConcatIsShallower(present); Acceptable(Concat(present))
    else ScalarsTogether(PlainAll(present))
  }

  ghost predicate KeysAcceptable(rows: seq<Value>)
    requires AllStructs(rows) && rows != []
    decreases MaxDepth(rows), 0, 1
  {
    forall name: string :: KeyAcceptable(rows, name)
  }

  ghost predicate KeyAcceptable(rows: seq<Value>, name: string)
    requires AllStructs(rows) && rows != []
    decreases MaxDepth(rows), 0, 0
  {
    ColumnIsShallower(rows, name);
    Acceptable(Column(rows, name))
  }

  // Enums.

  lemma {:induction false} PlainIsSerialized(v: Value)
    ensures TagOf(Plain(v)) == TagOf(Serialize(v)) && !Plain(v).Enum?
    ensures !Plain(v).Struct? && !Plain(v).List? ==> Plain(v) == Serialize(v)
  {
    match v
    case Enum(u) => PlainIsSerialized(u);
    case _ =>
  }

  predicate AllScalar(vs: seq<Value>) {
    forall i | 0 <= i < |vs| :: !vs[i].Struct? && !vs[i].List?
  }

  lemma PlainIsUnenumed(v: Value)
    ensures TagOf(Unenum(v)) == TagOf(Plain(v)) && !Plain(v).Enum?
    ensures !Plain(v).Struct? && !Plain(v).List? ==> Unenum(v) == Plain(v)
  {
    PlainIsSerialized(v);
  }

  lemma PlainAreUnenumed(present: seq<Value>, us: seq<Value>, ps: seq<Value>)
    requires us == UnenumAll(present) && ps == PlainAll(present)
    ensures forall i | 0 <= i < |present| :: TagOf(us[i]) == TagOf(ps[i]) && !ps[i].Enum?
    ensures forall i | 0 <= i < |present| :: ps[i].Struct? || ps[i].List? || us[i] == ps[i]
  {
    forall i | 0 <= i < |present|
      ensures TagOf(us[i]) == TagOf(ps[i]) && !ps[i].Enum? && (ps[i].Struct? || ps[i].List? || us[i] == ps[i])
    {
      PlainIsUnenumed(present[i]);
    }
  }

  /** Written out, scalars are the plain values, and nested values stay nested. */
  lemma SameScalars(us: seq<Value>, ps: seq<Value>)
    requires |us| == |ps| && forall i | 0 <= i < |us| :: TagOf(us[i]) == TagOf(ps[i])
    requires forall i | 0 <= i < |us| :: ps[i].Struct? || ps[i].List? || us[i] == ps[i]
    ensures AllScalar(ps) <==> AllScalar(us)
    ensures AllScalar(ps) ==> ps == us
  {
    forall i | 0 <= i < |us| ensures (us[i].Struct? || us[i].List?) <==> (ps[i].Struct? || ps[i].List?) {
      assert TagOf(us[i]) == TagOf(ps[i]);
    }
  }

  // Decimals.

  lemma SameDigits(v: Value)
    requires Exact(v) && AsDecimal(v).Finite?
    ensures IntegerDigits(AsDecimal(v)) == IntegerDigitsOf(v) && Scale(AsDecimal(v)) == FractionDigitsOf(v)
  {}

  lemma FiniteTogether(us: seq<Value>)
    requires forall u | u in us :: Exact(u)
    ensures AllFinite(AsDecimals(us)) <==> forall u | u in us && u.Dec? :: u.d.Finite?
  {
    forall u | u in us ensures AsDecimal(u) in AsDecimals(us) && (u.Dec? || AsDecimal(u).Finite?) {
    }
  }

  /** The widest integer part and the deepest fraction of a column. */
  ghost predicate Widest(us: seq<Value>, m: nat, k: nat) {
    && (forall u | u in us :: IntegerDigitsOf(u) <= m && FractionDigitsOf(u) <= k)
    && (exists u | u in us :: IntegerDigitsOf(u) == m)
    && (exists u | u in us :: FractionDigitsOf(u) == k)
  }

  lemma DigitsFit(us: seq<Value>, ds: seq<Decimal>)
    requires us != [] && (forall u | u in us :: Exact(u)) && ds == AsDecimals(us) && AllFinite(ds)
    ensures Widest(us, MaxIntegerDigits(ds), MaxScale(ds))
  {
    forall u | u in us ensures AsDecimal(u) in ds && IntegerDigitsOf(u) <= MaxIntegerDigits(ds) && FractionDigitsOf(u) <= MaxScale(ds) {
      SameDigits(u);
    }
    WidestValue(us, ds);
    DeepestValue(us, ds);
  }

  lemma WidestValue(us: seq<Value>, ds: seq<Decimal>)
    requires us != [] && (forall u | u in us :: Exact(u)) && ds == AsDecimals(us) && AllFinite(ds)
    requires forall u | u in us :: IntegerDigitsOf(u) <= MaxIntegerDigits(ds)
    ensures exists u | u in us :: IntegerDigitsOf(u) == MaxIntegerDigits(ds)
  {
    if MaxIntegerDigits(ds) == 0 {
      assert us[0] in us;
    } else {
      var d :| d in ds && IntegerDigits(d) == MaxIntegerDigits(ds);
      var u :| u in us && Exact(u) && AsDecimal(u) == d;
      SameDigits(u);
    }
  }

  lemma DeepestValue(us: seq<Value>, ds: seq<Decimal>)
    requires us != [] && (forall u | u in us :: Exact(u)) && ds == AsDecimals(us) && AllFinite(ds)
    requires forall u | u in us :: FractionDigitsOf(u) <= MaxScale(ds)
    ensures exists u | u in us :: FractionDigitsOf(u) == MaxScale(ds)
  {
    if MaxScale(ds) == 0 {
      assert us[0] in us;
    } else {
      var d :| d in ds && Scale(d) == MaxScale(ds);
      var u :| u in us && Exact(u) && AsDecimal(u) == d;
      SameDigits(u);
    }
  }

  /** One pair of values decides whether the digits fit. */
  lemma WidthFits(us: seq<Value>, m: nat, k: nat)
    requires Widest(us, m, k)
    ensures m + k <= 76 <==> forall u, w | u in us && w in us :: IntegerDigitsOf(u) + FractionDigitsOf(w) <= 76
  {
    var u :| u in us && IntegerDigitsOf(u) == m;
    var w :| w in us && FractionDigitsOf(w) == k;
  }

  lemma WidthDecides(ds: seq<Decimal>)
    ensures InferDecimal(ds).Inferred? <==> AllFinite(ds) && MaxIntegerDigits(ds) + MaxScale(ds) <= 76
  {}

  lemma DecimalsAcceptedIff(us: seq<Value>)
    requires us != [] && forall u | u in us :: Exact(u)
    ensures InferDecimal(AsDecimals(us)).Inferred? <==> DecimalsFit(us)
  {
    var ds := AsDecimals(us);
    FiniteTogether(us);
    WidthDecides(ds);
    if AllFinite(ds) {
      DigitsFit(us, ds);
      WidthFits(us, MaxIntegerDigits(ds), MaxScale(ds));
    }
  }

  // Scalars.

  lemma AllOfKind(us: seq<Value>)
    requires us != []
    ensures Tags(us) == {TagOf(us[0])} <==> forall u | u in us :: TagOf(u) == TagOf(us[0])
  {
    TagsOfAll(us);
    assert us[0] in us;
  }

  lemma AllNumbers(us: seq<Value>)
    ensures Tags(us) <= NUMERIC <==> forall u | u in us :: IsNumber(u)
    ensures FloatTag in Tags(us) <==> HoldsFloat(us)
    ensures DecimalTag in Tags(us) <==> HoldsDecimal(us)
  {
    TagsOfAll(us);
    if HoldsFloat(us) {
      var u :| u in us && u.Float?;
    }
    if HoldsDecimal(us) {
      var u :| u in us && u.Dec?;
    }
  }

  lemma OneKindAccepted(us: seq<Value>)
    requires us != [] && !us[0].Enum? && !us[0].Dec? && Tags(us) == {TagOf(us[0])}
    ensures InferUnenumed(us).Inferred? <==> ScalarsTogether(us)
  {
    AllOfKind(us);
    AllNumbers(us);
    assert us[0] in us;
    SingleScalar(us, ScalarType(us[0]));
  }

  lemma AllDecimals(us: seq<Value>)
    requires us != [] && us[0].Dec? && Tags(us) == {TagOf(us[0])}
    ensures forall u | u in us :: u.Dec?
  {
    AllOfKind(us);
  }

  lemma DecimalsTogether(us: seq<Value>)
    requires us != [] && forall u | u in us :: u.Dec?
    ensures ScalarsTogether(us) <==> DecimalsFit(us)
  {
    assert us[0] in us;
  }

  lemma DecimalsOnlyAccepted(us: seq<Value>)
    requires us != [] && us[0].Dec? && Tags(us) == {TagOf(us[0])}
    ensures InferUnenumed(us).Inferred? <==> ScalarsTogether(us)
  {
    AllDecimals(us);
    DecimalsTogether(us);
    SingleDecimal(us, InferDecimal(AsDecimals(us)));
    DecimalsAcceptedIff(us);
  }

  lemma NotOneKind(us: seq<Value>)
    requires us != [] && Tags(us) != {TagOf(us[0])}
    ensures !(forall v | v in us :: v.Str?) && !(forall v | v in us :: v.Bytes?)
    ensures !(forall v | v in us :: v.DateTime?) && !(forall v | v in us :: v.Date?)
  {
    AllOfKind(us);
    assert us[0] in us;
  }

  lemma MixedAccepted(us: seq<Value>)
    requires us != [] && Tags(us) != {TagOf(us[0])}
    ensures InferUnenumed(us).Inferred? <==> ScalarsTogether(us)
  {
    NotOneKind(us);
    AllNumbers(us);
    if Tags(us) <= NUMERIC && HoldsDecimal(us) && !HoldsFloat(us) {
      assert forall u | u in us :: Exact(u);
      DecimalsAcceptedIff(us);
    }
    MixedNumbers(us, Tags(us), InferDecimal(AsDecimals(us)));
  }

  lemma ScalarsAcceptedIff(us: seq<Value>)
    requires us != [] && !us[0].Enum?
    ensures InferUnenumed(us).Inferred? <==> ScalarsTogether(us)
  {
    if Tags(us) != {TagOf(us[0])} {
      MixedAccepted(us);
    } else if us[0].Dec? {
      DecimalsOnlyAccepted(us);
    } else {
      OneKindAccepted(us);
    }
  }

  lemma NestedAreNotTogether(vs: seq<Value>)
    requires !AllScalar(vs)
    ensures !ScalarsTogether(vs)
  {
    var i :| 0 <= i < |vs| && (vs[i].Struct? || vs[i].List?);
    assert vs[i] in vs;
  }

  lemma NestedAreRefused(us: seq<Value>)
    requires us != [] && !us[0].Enum? && !AllScalar(us)
    ensures InferUnenumed(us).Rejected?
  {
    NestedAreNotTogether(us);
    ScalarsAcceptedIff(us);
  }

  lemma WrittenOut(present: seq<Value>, us: seq<Value>, ps: seq<Value>)
    requires present != [] && us == UnenumAll(present) && ps == PlainAll(present)
    ensures |us| == |ps| > 0 && !us[0].Enum? && (AllScalar(ps) <==> AllScalar(us)) && (AllScalar(ps) ==> ps == us)
  {
    PlainAreUnenumed(present, us, ps);
    SameScalars(us, ps);
    assert TagOf(us[0]) == TagOf(ps[0]);
  }

  lemma ScalarColumnAccepted(present: seq<Value>)
    requires present != []
    ensures InferUnenumed(UnenumAll(present)).Inferred? <==> ScalarsTogether(PlainAll(present))
  {
    var us, ps := UnenumAll(present), PlainAll(present);
    WrittenOut(present, us, ps);
    if AllScalar(us) {
      ScalarsAcceptedIff(us);
    } else {
      NestedAreRefused(us);
      NestedAreNotTogether(ps);
    }
  }

  // Acceptance.

  lemma {:induction false} StructsAcceptedIff(rows: seq<Value>)
    requires AllStructs(rows) && rows != []
    ensures InferStruct(rows).Inferred? <==> KeysAcceptable(rows)
    decreases MaxDepth(rows), 0
  {
    var names := FieldNames(rows);
    forall i | 0 <= i < |names|
      ensures InferColumns(rows, names)[i].Inferred? <==> KeyAcceptable(rows, names[i])
    {
      ColumnIsShallower(rows, names[i]);
      ColumnInference(rows, names, i, InferColumn(Column(rows, names[i])));
      AcceptanceIff(Column(rows, names[i]));
    }
    forall name: string | name !in names ensures KeyAcceptable(rows, name) {
      FieldNamesExact(rows);
      UnnamedColumnIsNull(rows, name);
    }
  }

  /** A column is accepted if and only if at every path its present values are all dicts, or
      all lists, or scalars that go together. */
  lemma {:induction false} AcceptanceIff(values: seq<Value>)
    ensures InferColumn(values).Inferred? <==> Acceptable(values)
    decreases MaxDepth(values), 1
  {
    var present := NonNull(values);
    NonNullDepth(values);
    if present == [] {
    } else if present[0].Struct? {
      if AllStructs(present) {
        StructsAcceptedIff(present);
      } else {
        OddOneOut(present);
      }
    } else if present[0].List? {
      if AllLists(present) {
        ConcatIsShallower(present);
        AcceptanceIff(Concat(present));
      } else {
        OddOneOut(present);
      }
    } else {
      assert present[0] in present;
      ScalarColumnAccepted(present);
    }
  }

  lemma OddOneOut(present: seq<Value>)
    requires present != [] && (present[0].Struct? || present[0].List?)
    requires !AllStructs(present) || present[0].List?
    requires !AllLists(present) || present[0].Struct?
    ensures !ScalarsTogether(PlainAll(present))
    ensures !(present[0].Struct? && AllLists(present)) && !(present[0].List? && AllStructs(present))
  {
    assert present[0] in present;
    assert !AllScalar(PlainAll(present)) by {
      assert PlainAll(present)[0] == present[0];
    }
    NestedAreNotTogether(PlainAll(present));
  }

  // The types.

  /** The least scale and, for it, the least precision that the digits of the column need. */
  ghost predicate Tightest(precision: nat, scale: nat, vs: seq<Value>) {
    && precision >= 1
    && (forall v | v in vs :: FractionDigitsOf(v) <= scale && IntegerDigitsOf(v) + scale <= precision)
    && (exists v | v in vs :: FractionDigitsOf(v) == scale)
    && (precision == 1 || exists v | v in vs :: IntegerDigitsOf(v) + scale == precision)
  }

  /** The tightest decimal type that holds every number of the column. */
  ghost predicate DecimalTyped(t: ArrowType, vs: seq<Value>) {
    match t
    case TDecimal128(precision, scale) => precision <= 38 && Tightest(precision, scale, vs)
    case TDecimal256(precision, scale) => precision > 38 && Tightest(precision, scale, vs)
    case _ => false
  }

  /** The type of scalars that go together. */
  ghost predicate ScalarTyped(t: ArrowType, vs: seq<Value>)
    requires vs != []
  {
    && ((forall v | v in vs :: v.Str?) ==> t == TString)
    && ((forall v | v in vs :: v.Bytes?) ==> t == TBinary)
    && ((forall v | v in vs :: v.Date?) ==> t == TDate32)
    && ((forall v | v in vs :: v.DateTime?) ==> vs[0].DateTime? && t == TTimestamp(vs[0].aware))
    && ((forall v | v in vs :: v.Bool?) ==> t == TBool)
    && ((forall v | v in vs :: IsNumber(v)) && !(forall v | v in vs :: v.Bool?) ==>
          if HoldsDecimal(vs) then DecimalTyped(t, vs) else if HoldsFloat(vs) then t == TFloat64 else t == TInt64)
  }

  /** `t` is the type of a column of these values: a struct of exactly the keys that occur,
      a list of what the lists hold, or the type of the scalars; a column of nulls is text. */
  ghost predicate Typed(t: ArrowType, values: seq<Value>)
    decreases MaxDepth(values), 1
  {
    var present := NonNull(values);
    NonNullDepth(values);
    if present == [] then t == TString
    else if AllStructs(present) then t.TStruct? && MembersTyped(t.members, present)
    else if AllLists(present) then
      ConcatIsShallower(present); t.TList? && Typed(t.elem, Concat(present))
    else ScalarTyped(t, PlainAll(present))
  }

  ghost predicate MembersTyped(members: seq<ArrowField>, rows: seq<Value>)
    requires AllStructs(rows) && rows != []
    decreases MaxDepth(rows), 0, 1
  {
    && (forall i, j | 0 <= i < j < |members| :: members[i].name != members[j].name)
    && (forall i | 0 <= i < |members| :: exists r | r in rows :: HasName(r.fields, members[i].name))
    && (forall r, name | r in rows && HasName(r.fields, name) :: exists i | 0 <= i < |members| :: members[i].name == name)
    && forall i | 0 <= i < |members| :: MemberTyped(members[i], rows)
  }

  ghost predicate MemberTyped(m: ArrowField, rows: seq<Value>)
    requires AllStructs(rows) && rows != []
    decreases MaxDepth(rows), 0, 0
  {
    ColumnIsShallower(rows, m.name);
    Typed(m.fieldType, Column(rows, m.name))
  }

  lemma WidthOfType(precision: nat, scale: nat, t: ArrowType)
    requires DecimalOfWidth(precision, scale) == Inferred(t)
    ensures (t.TDecimal128? || t.TDecimal256?) && (t.TDecimal128? <==> t.precision <= 38)
    ensures t.precision == precision && t.scale == scale
  {}

  lemma WidthOfDecimals(ds: seq<Decimal>, t: ArrowType)
    requires InferDecimal(ds) == Inferred(t)
    ensures AllFinite(ds) && (t.TDecimal128? || t.TDecimal256?) && (t.TDecimal128? <==> t.precision <= 38)
    ensures t.scale == MaxScale(ds) && t.precision == Max(1, MaxIntegerDigits(ds) + MaxScale(ds))
  {
    WidthOfType(Precision(ds), MaxScale(ds), t);
  }

  lemma TightestWidth(us: seq<Value>, precision: nat, m: nat, k: nat)
    requires precision == Max(1, m + k) && Widest(us, m, k)
    ensures Tightest(precision, k, us)
  {
    var u :| u in us && IntegerDigitsOf(u) == m;
    assert precision == 1 || IntegerDigitsOf(u) + k == precision;
  }

  lemma WidestTyped(us: seq<Value>, ds: seq<Decimal>, t: ArrowType)
    requires InferDecimal(ds) == Inferred(t) && AllFinite(ds) && Widest(us, MaxIntegerDigits(ds), MaxScale(ds))
    ensures DecimalTyped(t, us)
  {
    WidthOfDecimals(ds, t);
    TightestWidth(us, t.precision, MaxIntegerDigits(ds), MaxScale(ds));
  }

  lemma DecimalsTyped(us: seq<Value>, ds: seq<Decimal>, t: ArrowType)
    requires us != [] && (forall u | u in us :: Exact(u)) && ds == AsDecimals(us) && InferDecimal(ds) == Inferred(t)
    ensures DecimalTyped(t, us)
  {
    DigitsFit(us, ds);
    WidestTyped(us, ds, t);
  }

  lemma OneKindTyped(us: seq<Value>, t: ArrowType)
    requires us != [] && !us[0].Enum? && !us[0].Dec? && Tags(us) == {TagOf(us[0])} && InferUnenumed(us) == Inferred(t)
    ensures ScalarTyped(t, us)
  {
    AllOfKind(us);
    AllNumbers(us);
    assert us[0] in us;
    SingleScalar(us, ScalarType(us[0]));
  }

  lemma DecimalsDecide(us: seq<Value>, t: ArrowType)
    requires us != [] && (forall u | u in us :: u.Dec?) && DecimalTyped(t, us)
    ensures ScalarTyped(t, us)
  {
    assert us[0] in us;
  }

  lemma DecimalsOnlyTyped(us: seq<Value>, t: ArrowType)
    requires us != [] && us[0].Dec? && Tags(us) == {TagOf(us[0])} && InferUnenumed(us) == Inferred(t)
    ensures ScalarTyped(t, us)
  {
    AllDecimals(us);
    SingleDecimal(us, InferDecimal(AsDecimals(us)));
    DecimalsTyped(us, AsDecimals(us), t);
    DecimalsDecide(us, t);
  }

  lemma MixedTyped(us: seq<Value>, t: ArrowType)
    requires us != [] && Tags(us) != {TagOf(us[0])} && InferUnenumed(us) == Inferred(t)
    ensures ScalarTyped(t, us)
  {
    NotOneKind(us);
    NotAllBools(us);
    AllNumbers(us);
    MixedNumbers(us, Tags(us), InferDecimal(AsDecimals(us)));
    if HoldsDecimal(us) {
      assert forall u | u in us :: Exact(u);
      DecimalsTyped(us, AsDecimals(us), t);
    }
  }

  lemma NotAllBools(us: seq<Value>)
    requires us != [] && Tags(us) != {TagOf(us[0])}
    ensures !(forall v | v in us :: v.Bool?)
  {
    AllOfKind(us);
    assert us[0] in us;
  }

  lemma UnenumedTyped(us: seq<Value>, t: ArrowType)
    requires us != [] && !us[0].Enum? && InferUnenumed(us) == Inferred(t)
    ensures ScalarTyped(t, us)
  {
    if Tags(us) != {TagOf(us[0])} {
      MixedTyped(us, t);
    } else if us[0].Dec? {
      DecimalsOnlyTyped(us, t);
    } else {
      OneKindTyped(us, t);
    }
  }

  lemma AcceptedScalarsArePlain(present: seq<Value>, us: seq<Value>)
    requires present != [] && us == UnenumAll(present) && InferUnenumed(us).Inferred?
    ensures us == PlainAll(present) && !us[0].Enum?
  {
    WrittenOut(present, us, PlainAll(present));
    if !AllScalar(us) {
      NestedAreRefused(us);
    }
  }

  lemma ScalarColumnTyped(present: seq<Value>, us: seq<Value>, t: ArrowType)
    requires present != [] && us == UnenumAll(present) && InferUnenumed(us) == Inferred(t)
    ensures ScalarTyped(t, PlainAll(present))
  {
    AcceptedScalarsArePlain(present, us);
    UnenumedTyped(us, t);
  }

  lemma MembersAreKeys(rows: seq<Value>, t: ArrowType)
    requires AllStructs(rows) && rows != [] && InferStruct(rows) == Inferred(t)
    ensures |t.members| == |FieldNames(rows)| && forall i | 0 <= i < |t.members| :: t.members[i].name == FieldNames(rows)[i]
    ensures forall i, j | 0 <= i < j < |t.members| :: t.members[i].name != t.members[j].name
    ensures forall i | 0 <= i < |t.members| :: exists r | r in rows :: HasName(r.fields, t.members[i].name)
    ensures forall r, name | r in rows && HasName(r.fields, name) :: exists i | 0 <= i < |t.members| :: t.members[i].name == name
  {
    var names := FieldNames(rows);
    FieldNamesExact(rows);
    forall i | 0 <= i < |t.members| ensures t.members[i].name == names[i] && names[i] in names {
      StructMember(rows, i);
    }
    forall r, name | r in rows && HasName(r.fields, name) ensures exists i | 0 <= i < |t.members| :: t.members[i].name == name {
      assert name in names;
      var i :| 0 <= i < |names| && names[i] == name;
      assert t.members[i].name == name;
    }
  }

  lemma {:induction false} StructsTyped(rows: seq<Value>, t: ArrowType)
    requires AllStructs(rows) && rows != [] && InferStruct(rows) == Inferred(t)
    ensures t.TStruct? && MembersTyped(t.members, rows)
    decreases MaxDepth(rows), 0
  {
    MembersAreKeys(rows, t);
    forall i | 0 <= i < |t.members| ensures MemberTyped(t.members[i], rows) {
      StructMember(rows, i);
      ColumnIsShallower(rows, t.members[i].name);
      InferredTypeIs(Column(rows, t.members[i].name), t.members[i].fieldType);
    }
  }

  /** The type of an accepted column, at every depth. */
  lemma {:induction false} InferredTypeIs(values: seq<Value>, t: ArrowType)
    requires InferColumn(values) == Inferred(t)
    ensures Typed(t, values)
    decreases MaxDepth(values), 1
  {
    var present := NonNull(values);
    NonNullDepth(values);
    if present == [] {
    } else if present[0].Struct? {
      OnlyStructs(present);
      StructsTyped(present, t);
    } else if present[0].List? {
      OnlyLists(present);
      ConcatIsShallower(present);
      InferredTypeIs(Concat(present), t.elem);
    } else {
      assert present[0] in present;
      ScalarColumnTyped(present, UnenumAll(present), t);
    }
  }

  lemma OnlyStructs(present: seq<Value>)
    requires present != [] && present[0].Struct?
    ensures !AllLists(present)
  {
    assert present[0] in present;
  }

  lemma OnlyLists(present: seq<Value>)
    requires present != [] && present[0].List?
    ensures !AllStructs(present)
  {
    assert present[0] in present;
  }

  // Member order: keys come in the order of their first appearance.

  /** More rows only append new keys. */
  lemma {:induction false} FieldNamesGrow(a: seq<Value>, b: seq<Value>)
    requires AllStructs(a) && AllStructs(b)
    ensures AllStructs(a + b) && FieldNames(a) <= FieldNames(a + b)
    decreases |b|
  {
    if b == [] {
      assert a + b == a;
    } else {
      var init, last := b[..|b| - 1], b[|b| - 1];
      FieldNamesGrow(a, init);
      assert (a + b)[..|a + b| - 1] == a + init;
      FieldNamesExact(a + init);
      AddNamesCollects(FieldNames(a + init), last.fields);
    }
  }

  function KeysOf(fs: seq<Field>): seq<string> {
    seq(|fs|, i requires 0 <= i < |fs| => fs[i].name)
  }

  lemma {:induction false} AddNamesOfOne(fs: seq<Field>)
    requires Distinct(KeysOf(fs))
    ensures AddNames([], fs) == KeysOf(fs)
  {
    if fs == [] {
    } else {
      var init, last := fs[..|fs| - 1], fs[|fs| - 1];
      assert forall i | 0 <= i < |init| :: KeysOf(init)[i] == KeysOf(fs)[i];
      AddNamesOfOne(init);
      assert KeysOf(fs) == KeysOf(init) + [last.name];
      assert KeysOf(fs)[|fs| - 1] == last.name;
    }
  }

  /** The first row's keys come first, in its own order. */
  lemma FirstRowComesFirst(rows: seq<Value>)
    requires AllStructs(rows) && rows != [] && Distinct(KeysOf(rows[0].fields))
    ensures KeysOf(rows[0].fields) <= FieldNames(rows)
  {
    AddNamesOfOne(rows[0].fields);
    assert [rows[0]][..0] == [];
    assert FieldNames([rows[0]]) == AddNames([], rows[0].fields);
    FieldNamesGrow([rows[0]], rows[1..]);
    assert [rows[0]] + rows[1..] == rows;
  }
}
