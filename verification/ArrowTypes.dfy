/** Python values, Arrow types, and the inference of one from the other
    (src/polymarket/frames/_arrow.py). */
module ArrowTypes {
  import opened Decimals

  datatype Field = Field(name: string, value: Value)

  /** What a dumped model holds. A dict is the list of its entries in insertion
      order; `Other` stands for any class the module does not name. */
  datatype Value =
    | Null
    | Bool(b: bool)
    | Int(n: int)
    | Float(bits: int)
    | Dec(d: Decimal)
    | Str(s: string)
    | Bytes(bs: seq<int>)
    | DateTime(aware: bool, us: int)
    | Date(day: int)
    | Enum(underlying: Value)
    | Struct(fields: seq<Field>)
    | List(items: seq<Value>)
    | Other(typeName: string)

  datatype ArrowField = ArrowField(name: string, fieldType: ArrowType)

  datatype ArrowType =
    | TString
    | TBinary
    | TBool
    | TInt64
    | TFloat64
    | TDecimal128(precision: nat, scale: nat)
    | TDecimal256(precision: nat, scale: nat)
    | TTimestamp(utc: bool)
    | TDate32
    | TList(elem: ArrowType)
    | TStruct(members: seq<ArrowField>)

  datatype Reason = MixedKinds | MixedScalars | FloatWithDecimal | Unmappable | SpecialDecimal | DecimalTooWide

  datatype Inference = Inferred(t: ArrowType) | Rejected(reason: Reason)

  /** `row.get(name)`: a missing key reads as null. */
  function Get(fields: seq<Field>, name: string): Value {
    if fields == [] then Null
    else if fields[0].name == name then fields[0].value
    else Get(fields[1..], name)
  }

  predicate HasName(fields: seq<Field>, name: string) {
    exists f | f in fields :: f.name == name
  }

  function Serialize(v: Value): Value {
    match v
    case Enum(u) => Serialize(u)
    case Struct(fields) => Struct(SerializeFields(fields))
    case List(items) => List(SerializeAll(items))
    case _ => v
  }

  function SerializeAll(vs: seq<Value>): (r: seq<Value>)
    ensures |r| == |vs|
    ensures forall i | 0 <= i < |vs| :: r[i] == Serialize(vs[i])
  {
    if vs == [] then [] else [Serialize(vs[0])] + SerializeAll(vs[1..])
  }

  function SerializeFields(fs: seq<Field>): (r: seq<Field>)
    ensures |r| == |fs|
    ensures forall i | 0 <= i < |fs| :: r[i] == Field(fs[i].name, Serialize(fs[i].value))
  {
    if fs == [] then []
    else [Field(fs[0].name, Serialize(fs[0].value))] + SerializeFields(fs[1..])
  }

  lemma {:induction false} GetOfSerialized(fs: seq<Field>, name: string)
    ensures Get(SerializeFields(fs), name) == Serialize(Get(fs, name))
  {
    if fs == [] {
    } else {
      GetOfSerialized(fs[1..], name);
      assert SerializeFields(fs)[1..] == SerializeFields(fs[1..]);
    }
  }

  // Nesting depth: what the recursion of the inference consumes.

  function Depth(v: Value): nat {
    match v
    case Struct(fields) => 1 + FieldsDepth(fields)
    case List(items) => 1 + MaxDepth(items)
    case _ => 0
  }

  function FieldsDepth(fs: seq<Field>): (r: nat)
    ensures forall f | f in fs :: Depth(f.value) <= r
  {
    if fs == [] then 0 else Max(Depth(fs[0].value), FieldsDepth(fs[1..]))
  }

  function MaxDepth(vs: seq<Value>): (r: nat)
    ensures forall v | v in vs :: Depth(v) <= r
  {
    if vs == [] then 0 else Max(Depth(vs[0]), MaxDepth(vs[1..]))
  }

  lemma {:induction false} DepthBelow(vs: seq<Value>, bound: nat)
    requires bound > 0 && forall v | v in vs :: Depth(v) < bound
    ensures MaxDepth(vs) < bound
  {
    if vs == [] {
    } else {
      DepthBelow(vs[1..], bound);
      assert vs[0] in vs;
    }
  }

  // The columns of a column.

  function NonNull(vs: seq<Value>): (r: seq<Value>)
    ensures forall v :: v in r <==> v in vs && v != Null
  {
    if vs == [] then []
    else if vs[|vs| - 1] == Null then NonNull(vs[..|vs| - 1])
    else NonNull(vs[..|vs| - 1]) + [vs[|vs| - 1]]
  }

  predicate AllStructs(vs: seq<Value>) {
    forall v | v in vs :: v.Struct?
  }

  predicate AllLists(vs: seq<Value>) {
    forall v | v in vs :: v.List?
  }

  function Column(rows: seq<Value>, name: string): (r: seq<Value>)
    requires AllStructs(rows)
    ensures |r| == |rows|
    ensures forall i | 0 <= i < |rows| :: r[i] == Get(rows[i].fields, name)
  {
    if rows == [] then []
    else Column(rows[..|rows| - 1], name) + [Get(rows[|rows| - 1].fields, name)]
  }

  function Concat(lists: seq<Value>): (r: seq<Value>)
    requires AllLists(lists)
    ensures forall v :: v in r <==> exists l | l in lists :: v in l.items
  {
    if lists == [] then [] else Concat(lists[..|lists| - 1]) + lists[|lists| - 1].items
  }

  function AddNames(seen: seq<string>, fs: seq<Field>): seq<string> {
    if fs == [] then seen
    else
      var before := AddNames(seen, fs[..|fs| - 1]);
      var name := fs[|fs| - 1].name;
      if name in before then before else before + [name]
  }

  /** Every key of every row, once, in order of first appearance. */
  function FieldNames(rows: seq<Value>): seq<string>
    requires AllStructs(rows)
  {
    if rows == [] then [] else AddNames(FieldNames(rows[..|rows| - 1]), rows[|rows| - 1].fields)
  }

  lemma GetDepth(fs: seq<Field>, name: string)
    ensures Depth(Get(fs, name)) <= FieldsDepth(fs)
  {}

  lemma ColumnIsShallower(rows: seq<Value>, name: string)
    requires AllStructs(rows) && rows != []
    ensures MaxDepth(Column(rows, name)) < MaxDepth(rows)
  {
    forall v | v in Column(rows, name)
      ensures Depth(v) < MaxDepth(rows)
    {
      var i :| 0 <= i < |rows| && v == Get(rows[i].fields, name);
      GetDepth(rows[i].fields, name);
      assert rows[i] in rows;
    }
    assert rows[0] in rows && Depth(rows[0]) >= 1;
    DepthBelow(Column(rows, name), MaxDepth(rows));
  }

  lemma ConcatIsShallower(lists: seq<Value>)
    requires AllLists(lists) && lists != []
    ensures MaxDepth(Concat(lists)) < MaxDepth(lists)
  {
    forall v | v in Concat(lists)
      ensures Depth(v) < MaxDepth(lists)
    {
      var l :| l in lists && v in l.items;
    }
    assert lists[0] in lists && Depth(lists[0]) >= 1;
    DepthBelow(Concat(lists), MaxDepth(lists));
  }

  lemma NonNullDepth(vs: seq<Value>)
    ensures MaxDepth(NonNull(vs)) <= MaxDepth(vs)
  {
    DepthBelow(NonNull(vs), MaxDepth(vs) + 1);
  }

  // Scalars.

  datatype Tag =
    | NullTag | BoolTag | IntTag | FloatTag | DecimalTag | StrTag | BytesTag
    | DateTimeTag | DateTag | EnumTag | DictTag | ListTag | OtherTag(typeName: string)

  /** `type(v)`; bool is a type of its own. */
  function TagOf(v: Value): Tag {
    match v
    case Null => NullTag
    case Bool(_) => BoolTag
    case Int(_) => IntTag
    case Float(_) => FloatTag
    case Dec(_) => DecimalTag
    case Str(_) => StrTag
    case Bytes(_) => BytesTag
    case DateTime(_, _) => DateTimeTag
    case Date(_) => DateTag
    case Enum(_) => EnumTag
    case Struct(_) => DictTag
    case List(_) => ListTag
    case Other(name) => OtherTag(name)
  }

  function Unenum(v: Value): Value {
    if v.Enum? then Serialize(v) else v
  }

  function UnenumAll(vs: seq<Value>): (r: seq<Value>)
    ensures |r| == |vs|
    ensures forall i | 0 <= i < |vs| :: r[i] == Unenum(vs[i])
  {
    if vs == [] then [] else UnenumAll(vs[..|vs| - 1]) + [Unenum(vs[|vs| - 1])]
  }

  const NUMERIC: set<Tag> := {BoolTag, IntTag, FloatTag, DecimalTag}

  predicate Exact(v: Value) {
    v.Dec? || v.Bool? || v.Int?
  }

  /** The decimal a number is promoted to beside decimals. */
  function AsDecimal(v: Value): Decimal
    requires Exact(v)
  {
    match v
    case Dec(d) => d
    case Bool(b) => FromInt(if b then 1 else 0)
    case Int(n) => FromInt(n)
  }

  function AsDecimals(vs: seq<Value>): (r: seq<Decimal>)
    ensures forall v | v in vs && Exact(v) :: AsDecimal(v) in r
    ensures forall d | d in r :: exists v | v in vs :: Exact(v) && AsDecimal(v) == d
  {
    if vs == [] then []
    else
      var before := AsDecimals(vs[..|vs| - 1]);
      var last := vs[|vs| - 1];
      assert vs == vs[..|vs| - 1] + [last];
      if Exact(last) then before + [AsDecimal(last)] else before
  }

  const DECIMAL128_MAX_PRECISION := 38
  const DECIMAL256_MAX_PRECISION := 76

  function DecimalOfWidth(precision: nat, scale: nat): Inference {
    if precision <= DECIMAL128_MAX_PRECISION then Inferred(TDecimal128(precision, scale))
    else if precision <= DECIMAL256_MAX_PRECISION then Inferred(TDecimal256(precision, scale))
    else Rejected(DecimalTooWide)
  }

  function InferDecimal(ds: seq<Decimal>): Inference {
    if AllFinite(ds) then DecimalOfWidth(Precision(ds), MaxScale(ds))
    else Rejected(SpecialDecimal)
  }

  function ScalarType(v: Value): Inference {
    match v
    case Bool(_) => Inferred(TBool)
    case Int(_) => Inferred(TInt64)
    case Float(_) => Inferred(TFloat64)
    case Dec(d) => InferDecimal([d])
    case DateTime(aware, _) => Inferred(TTimestamp(aware))
    case Date(_) => Inferred(TDate32)
    case Enum(u) => ScalarType(u)
    case Str(_) => Inferred(TString)
    case Bytes(_) => Inferred(TBinary)
    case _ => Rejected(Unmappable)
  }

  function Tags(vs: seq<Value>): set<Tag> {
    set v | v in vs :: TagOf(v)
  }

  function InferUnenumed(vs: seq<Value>): Inference
    requires vs != []
  {
    var tags := Tags(vs);
    if tags == {TagOf(vs[0])} then
      if vs[0].Dec? then InferDecimal(AsDecimals(vs))
      else ScalarType(vs[0])
    else if tags <= NUMERIC then
      if FloatTag in tags && DecimalTag in tags then Rejected(FloatWithDecimal)
      else if DecimalTag in tags then InferDecimal(AsDecimals(vs))
      else if FloatTag in tags then Inferred(TFloat64)
      else Inferred(TInt64)
    else Rejected(MixedScalars)
  }

  // Columns.

  function InferColumn(values: seq<Value>): Inference
    decreases MaxDepth(values), 1, 0
  {
    var present := NonNull(values);
    if present == [] then Inferred(TString)
    else
      NonNullDepth(values);
      match present[0]
      case Struct(_) =>
        if AllStructs(present) then InferStruct(present) else Rejected(MixedKinds)
      case List(_) =>
        if !AllLists(present) then Rejected(MixedKinds)
        else if Concat(present) == [] then Inferred(TList(TString))
        else
          ConcatIsShallower(present);
          var elem := InferColumn(Concat(present));
          if elem.Inferred? then Inferred(TList(elem.t)) else elem
      case _ => InferUnenumed(UnenumAll(present))
  }

  function InferStruct(rows: seq<Value>): Inference
    requires AllStructs(rows) && rows != []
    decreases MaxDepth(rows), 0, 1
  {
    Assemble(FieldNames(rows), InferColumns(rows, FieldNames(rows)))
  }

  function InferColumns(rows: seq<Value>, names: seq<string>): (r: seq<Inference>)
    requires AllStructs(rows) && rows != []
    ensures |r| == |names|
    decreases MaxDepth(rows), 0, 0, |names|
  {
    if names == [] then []
    else
      ColumnIsShallower(rows, names[|names| - 1]);
      InferColumns(rows, names[..|names| - 1]) + [InferColumn(Column(rows, names[|names| - 1]))]
  }

  /** The struct of the named columns, or the first refusal among them. */
  function Assemble(names: seq<string>, columns: seq<Inference>): (r: Inference)
    requires |names| == |columns|
    ensures r.Inferred? <==> forall i | 0 <= i < |columns| :: columns[i].Inferred?
    ensures r.Inferred? ==>
              && r.t.TStruct? && |r.t.members| == |names|
              && forall i | 0 <= i < |names| :: r.t.members[i] == ArrowField(names[i], columns[i].t)
  {
    if names == [] then Inferred(TStruct([]))
    else
      var before := Assemble(names[..|names| - 1], columns[..|names| - 1]);
      var last := columns[|names| - 1];
      if before.Rejected? then before
      else if last.Rejected? then last
      else Inferred(TStruct(before.t.members + [ArrowField(names[|names| - 1], last.t)]))
  }
}
