/** The order of index keys (src/include/index/generic_key.h, src/record/types.cpp): CompareKeys decodes two serialized
    key rows and compares them field by field. */
module KeyOrder {
  import opened Common
  import opened RowFormat
  import opened Floats

  // ---------------------------------------------------------------- strings

  /** memcmp of the first n bytes. */
  function Memcmp(a: seq<Byte>, b: seq<Byte>, n: nat): int
    requires n <= |a| && n <= |b|
  {
    if n == 0 then 0 else if a[0] != b[0] then a[0] as int - b[0] as int else Memcmp(a[1..], b[1..], n - 1)
  }

  function CompareStrings(a: seq<Byte>, b: seq<Byte>): int {
    var ret := Memcmp(a, b, if |a| < |b| then |a| else |b|);
    if ret == 0 && |a| != |b| then |a| - |b| else ret
  }

  /** Dictionary order: a proper prefix comes first. */
  predicate Before(a: seq<Byte>, b: seq<Byte>) {
    b != [] && (a == [] || a[0] < b[0] || (a[0] == b[0] && Before(a[1..], b[1..])))
  }

  lemma {:induction false} CompareStringsIsDictionaryOrder(a: seq<Byte>, b: seq<Byte>)
    ensures CompareStrings(a, b) < 0 <==> Before(a, b)
    ensures CompareStrings(a, b) > 0 <==> Before(b, a)
    ensures CompareStrings(a, b) == 0 <==> a == b
    decreases |a|
  {
    if a != [] && b != [] && a[0] == b[0] {
      assert a == [a[0]] + a[1..] && b == [b[0]] + b[1..];
      CompareStringsIsDictionaryOrder(a[1..], b[1..]);
    }
  }

  lemma {:induction false} BeforeIsTransitive(a: seq<Byte>, b: seq<Byte>, c: seq<Byte>)
    requires Before(a, b) && Before(b, c)
    ensures Before(a, c)
    decreases |a|
  {
    if a != [] && a[0] == b[0] && b[0] == c[0] {
      BeforeIsTransitive(a[1..], b[1..], c[1..]);
    }
  }

  // ---------------------------------------------------------------- fields

  datatype CmpBool = CmpFalse | CmpTrue | CmpNull

  function GetCmpBool(b: bool): CmpBool { if b then CmpTrue else CmpFalse }

  /** CompareLessThan; CheckComparable asserts equal types. */
  function CompareLessThan(a: Field, b: Field, t: ColumnType): CmpBool
    requires FieldOk(a, t) && FieldOk(b, t)
  {
    if a.Null? || b.Null? then CmpNull
    else
      match t
      case IntType => GetCmpBool(a.i < b.i)
      case FloatType => GetCmpBool(FloatLess(a.bits, b.bits))
      case CharType => GetCmpBool(CompareStrings(a.chars, b.chars) < 0)
  }

  function CompareGreaterThan(a: Field, b: Field, t: ColumnType): CmpBool
    requires FieldOk(a, t) && FieldOk(b, t)
  {
    if a.Null? || b.Null? then CmpNull
    else
      match t
      case IntType => GetCmpBool(a.i > b.i)
      case FloatType => GetCmpBool(FloatLess(b.bits, a.bits))
      case CharType => GetCmpBool(CompareStrings(a.chars, b.chars) > 0)
  }

  function FieldSign(a: Field, b: Field, t: ColumnType): int
    requires FieldOk(a, t) && FieldOk(b, t)
  {
    if CompareLessThan(a, b, t) == CmpTrue then -1 else if CompareGreaterThan(a, b, t) == CmpTrue then 1 else 0
  }

  /** The field has a place in the order: it is not null and not a NaN. */
  predicate Ordered(f: Field) { !f.Null? && (f.FloatValue? ==> !IsNaN(f.bits)) }

  /** Equal as numbers or strings; only the two float zeros are equal without being the same. */
  predicate SameValue(a: Field, b: Field) {
    a == b || (a.FloatValue? && b.FloatValue? && FloatNumber(a.bits) == FloatNumber(b.bits))
  }

  /** Less as numbers, or earlier in the dictionary. */
  predicate Below(a: Field, b: Field) {
    || (a.IntValue? && b.IntValue? && a.i < b.i)
    || (a.FloatValue? && b.FloatValue? && FloatNumber(a.bits) < FloatNumber(b.bits))
    || (a.CharValue? && b.CharValue? && Before(a.chars, b.chars))
  }

  /** Comparing two fields compares their values. */
  lemma FieldSigns(a: Field, b: Field, t: ColumnType)
    requires FieldOk(a, t) && FieldOk(b, t) && Ordered(a) && Ordered(b)
    ensures FieldSign(a, b, t) == -1 <==> Below(a, b)
    ensures FieldSign(a, b, t) == 1 <==> Below(b, a)
    ensures FieldSign(a, b, t) == 0 <==> SameValue(a, b)
    ensures FieldSign(b, a, t) == -FieldSign(a, b, t)
  {
    match t
    case IntType =>
    case FloatType =>
      RankIsNumber(a.bits, b.bits);
      RankIsNumber(b.bits, a.bits);
    case CharType =>
      CompareStringsIsDictionaryOrder(a.chars, b.chars);
      CompareStringsIsDictionaryOrder(b.chars, a.chars);
  }

  lemma FieldSignsCompose(a: Field, b: Field, c: Field, t: ColumnType)
    requires FieldOk(a, t) && FieldOk(b, t) && FieldOk(c, t) && Ordered(a) && Ordered(b) && Ordered(c)
    requires FieldSign(a, b, t) <= 0 && FieldSign(b, c, t) <= 0
    ensures FieldSign(a, c, t) == if FieldSign(a, b, t) == 0 then FieldSign(b, c, t) else -1
  {
    if t.CharType? {
      CompareStringsIsDictionaryOrder(a.chars, b.chars);
      CompareStringsIsDictionaryOrder(b.chars, c.chars);
      CompareStringsIsDictionaryOrder(a.chars, c.chars);
      if Before(a.chars, b.chars) && Before(b.chars, c.chars) {
        BeforeIsTransitive(a.chars, b.chars, c.chars);
      }
    }
  }

  // ---------------------------------------------------------------- keys

  /** Field by field: the first difference decides. */
  function CompareRows(a: seq<Field>, b: seq<Field>, schema: seq<ColumnType>): int
    requires RowOk(a, schema) && RowOk(b, schema)
  {
    if schema == [] then 0
    else
      var s := FieldSign(a[0], b[0], schema[0]);
      if s != 0 then s else CompareRows(a[1..], b[1..], schema[1..])
  }

  ghost predicate OrderedRow(row: seq<Field>) { forall i :: 0 <= i < |row| ==> Ordered(row[i]) }

  lemma {:induction false} KeysAreAntisymmetric(a: seq<Field>, b: seq<Field>, schema: seq<ColumnType>)
    requires RowOk(a, schema) && RowOk(b, schema) && OrderedRow(a) && OrderedRow(b)
    ensures CompareRows(b, a, schema) == -CompareRows(a, b, schema)
    ensures CompareRows(a, b, schema) == 0 <==> forall i :: 0 <= i < |a| ==> SameValue(a[i], b[i])
    decreases |schema|
  {
    if schema != [] {
      FieldSigns(a[0], b[0], schema[0]);
      KeysAreAntisymmetric(a[1..], b[1..], schema[1..]);
      assert (forall i :: 0 <= i < |a| ==> SameValue(a[i], b[i])) <==>
             SameValue(a[0], b[0]) && forall i :: 0 <= i < |a[1..]| ==> SameValue(a[1..][i], b[1..][i]);
    }
  }

  /** Row `a` comes first: the first column in which the values differ decides. */
  ghost predicate RowBelow(a: seq<Field>, b: seq<Field>)
    requires |a| == |b|
  {
    exists k :: 0 <= k < |a| && Below(a[k], b[k]) && forall i :: 0 <= i < k ==> SameValue(a[i], b[i])
  }

  lemma RowBelowStep(a: seq<Field>, b: seq<Field>)
    requires |a| == |b| > 0
    ensures RowBelow(a, b) <==> Below(a[0], b[0]) || (SameValue(a[0], b[0]) && RowBelow(a[1..], b[1..]))
  {
    if SameValue(a[0], b[0]) && RowBelow(a[1..], b[1..]) {
      var k :| 0 <= k < |a[1..]| && Below(a[1..][k], b[1..][k]) &&
               forall i :: 0 <= i < k ==> SameValue(a[1..][i], b[1..][i]);
      assert a[k + 1] == a[1..][k] && b[k + 1] == b[1..][k];
      forall i | 0 <= i < k + 1 ensures SameValue(a[i], b[i]) {
        if i > 0 { assert a[i] == a[1..][i - 1] && b[i] == b[1..][i - 1]; }
      }
    }
    if RowBelow(a, b) && !Below(a[0], b[0]) {
      var k :| 0 <= k < |a| && Below(a[k], b[k]) && forall i :: 0 <= i < k ==> SameValue(a[i], b[i]);
      assert a[1..][k - 1] == a[k] && b[1..][k - 1] == b[k];
    }
  }

  /** Keys are in the order of their values. */
  lemma {:induction false} KeysFollowValues(a: seq<Field>, b: seq<Field>, schema: seq<ColumnType>)
    requires RowOk(a, schema) && RowOk(b, schema) && OrderedRow(a) && OrderedRow(b)
    ensures CompareRows(a, b, schema) == -1 <==> RowBelow(a, b)
    ensures CompareRows(a, b, schema) == 1 <==> RowBelow(b, a)
    decreases |schema|
  {
    if schema != [] {
      FieldSigns(a[0], b[0], schema[0]);
      KeysFollowValues(a[1..], b[1..], schema[1..]);
      RowBelowStep(a, b);
      RowBelowStep(b, a);
    }
  }

  /** Keys are totally ordered, up to the two float zeros. */
  lemma {:induction false} KeysAreTransitive(a: seq<Field>, b: seq<Field>, c: seq<Field>, schema: seq<ColumnType>)
    requires RowOk(a, schema) && RowOk(b, schema) && RowOk(c, schema)
    requires OrderedRow(a) && OrderedRow(b) && OrderedRow(c)
    requires CompareRows(a, b, schema) <= 0 && CompareRows(b, c, schema) <= 0
    ensures CompareRows(a, c, schema) == if CompareRows(a, b, schema) == 0 then CompareRows(b, c, schema) else -1
    decreases |schema|
  {
    if schema != [] {
      FieldSignsCompose(a[0], b[0], c[0], schema[0]);
      if FieldSign(a[0], b[0], schema[0]) == 0 && FieldSign(b[0], c[0], schema[0]) == 0 {
        KeysAreTransitive(a[1..], b[1..], c[1..], schema[1..]);
      }
    }
  }

  /** Two values of a type, the first below the second. */
  function Sample(t: ColumnType, above: bool): (f: Field)
    ensures FieldOk(f, t) && Ordered(f)
  {
    match t
    case IntType => IntValue(if above then 1 else 0)
    case FloatType => FloatValue(if above then 1 else 0)
    case CharType => CharValue(if above then [0] else [])
  }

  /** NULL, and a float that is no number, compares equal to everything. */
  lemma UnorderedField(f: Field, g: Field, t: ColumnType)
    requires FieldOk(f, t) && FieldOk(g, t) && !Ordered(f)
    ensures FieldSign(f, g, t) == 0 && FieldSign(g, f, t) == 0
  {
  }

  lemma OneFieldMore(f: Field, a: seq<Field>, g: Field, b: seq<Field>, t: ColumnType, schema: seq<ColumnType>)
    requires FieldOk(f, t) && FieldOk(g, t) && RowOk(a, schema) && RowOk(b, schema) && |schema| + 1 < 0x1_0000_0000
    ensures RowOk([f] + a, [t] + schema) && RowOk([g] + b, [t] + schema)
    ensures CompareRows([f] + a, [g] + b, [t] + schema) ==
            if FieldSign(f, g, t) != 0 then FieldSign(f, g, t) else CompareRows(a, b, schema)
  {
    assert ([f] + a)[1..] == a && ([g] + b)[1..] == b && ([t] + schema)[1..] == schema;
  }

  /** Any row compares equal, both ways, with some row that has a place in the order. */
  lemma {:induction false} Tame(r: seq<Field>, schema: seq<ColumnType>) returns (a: seq<Field>)
    requires RowOk(r, schema)
    ensures RowOk(a, schema) && OrderedRow(a)
    ensures CompareRows(a, r, schema) == 0 && CompareRows(r, a, schema) == 0
    decreases |r|
  {
    if r == [] {
      a := [];
    } else {
      var t, types := schema[0], schema[1..];
      var rest := Tame(r[1..], types);
      var f := if Ordered(r[0]) then r[0] else Sample(t, false);
      if Ordered(r[0]) { FieldSigns(r[0], r[0], t); } else { UnorderedField(r[0], f, t); }
      OneFieldMore(f, rest, r[0], r[1..], t, types);
      OneFieldMore(r[0], r[1..], f, rest, t, types);
      assert r == [r[0]] + r[1..] && schema == [t] + types;
      a := [f] + rest;
    }
  }

  /** A row with a field that has no place in the order lies between two different keys and compares equal with both. */
  lemma {:induction false} Breaks(r: seq<Field>, schema: seq<ColumnType>) returns (a: seq<Field>, b: seq<Field>)
    requires RowOk(r, schema) && !OrderedRow(r)
    ensures RowOk(a, schema) && OrderedRow(a) && RowOk(b, schema) && OrderedRow(b)
    ensures CompareRows(a, r, schema) == 0 && CompareRows(r, b, schema) == 0 && CompareRows(a, b, schema) == -1
    decreases |r|
  {
    var t, types := schema[0], schema[1..];
    var f, g, restA, restB;
    if Ordered(r[0]) {
      assert !OrderedRow(r[1..]) by {
        var i :| 0 <= i < |r| && !Ordered(r[i]);
        assert r[1..][i - 1] == r[i];
      }
      restA, restB := Breaks(r[1..], types);
      f, g := r[0], r[0];
      FieldSigns(r[0], r[0], t);
    } else {
      restA := Tame(r[1..], types);
      f, g, restB := Sample(t, false), Sample(t, true), restA;
      UnorderedField(r[0], f, t);
      UnorderedField(r[0], g, t);
      SampleOrder(t);
    }
    OneFieldMore(f, restA, r[0], r[1..], t, types);
    OneFieldMore(r[0], r[1..], g, restB, t, types);
    OneFieldMore(f, restA, g, restB, t, types);
    assert r == [r[0]] + r[1..] && schema == [t] + types;
    a, b := [f] + restA, [g] + restB;
  }

  lemma SampleOrder(t: ColumnType)
    ensures FieldSign(Sample(t, false), Sample(t, true), t) == -1
  {
    if t.CharType? { CompareStringsIsDictionaryOrder([], [0]); }
  }

  /** Keys that the row compares equal with are equal to each other. */
  ghost predicate FitsOrder(r: seq<Field>, schema: seq<ColumnType>)
    requires RowOk(r, schema)
  {
    forall a, b :: Beside(a, r, b, schema) ==> CompareRows(a, b, schema) == 0
  }

  /** Two keys that the row compares equal with. */
  ghost predicate Beside(a: seq<Field>, r: seq<Field>, b: seq<Field>, schema: seq<ColumnType>)
    requires RowOk(r, schema)
  {
    && RowOk(a, schema) && OrderedRow(a) && RowOk(b, schema) && OrderedRow(b)
    && CompareRows(a, r, schema) == 0 && CompareRows(r, b, schema) == 0
  }

  /** A row has a place in the order if and only if none of its fields is NULL or a float that is no number. */
  lemma OrderedRowsAreTheKeys(r: seq<Field>, schema: seq<ColumnType>)
    requires RowOk(r, schema)
    ensures FitsOrder(r, schema) <==> OrderedRow(r)
  {
    if OrderedRow(r) {
      forall a, b | Beside(a, r, b, schema) ensures CompareRows(a, b, schema) == 0 {
        KeysAreTransitive(a, r, b, schema);
      }
    } else {
      var a, b := Breaks(r, schema);
      assert Beside(a, r, b, schema);
    }
  }

  // ---------------------------------------------------------------- serialized keys

  /** A key of `keySize` bytes: the encoded row and padding. */
  function KeyOf(row: seq<Field>, schema: seq<ColumnType>, keySize: nat): (r: seq<Byte>)
    requires RowOk(row, schema) && SerializedSize(row) <= keySize
    ensures |r| == keySize
  {
    Encode(row, schema) + Zeros(keySize - SerializedSize(row))
  }

  method SerializeFromKey(key: array<Byte>, row: seq<Field>, schema: seq<ColumnType>)
    requires RowOk(row, schema) && SerializedSize(row) <= key.Length
    modifies key
    ensures key[..] == KeyOf(row, schema, key.Length)
  {
    WriteAt(key, 0, Zeros(key.Length));
    AllZeros(key[..], key.Length);
    var size := SerializeTo(key, 0, row, schema);
    Padded(Encode(row, schema), key.Length);
  }

  lemma AllZeros(b: seq<Byte>, n: nat)
    requires |b| == n && b == Written(b, 0, Zeros(n))
    ensures b == Zeros(n)
  {
  }

  lemma Padded(bytes: seq<Byte>, n: nat)
    requires |bytes| <= n
    ensures Written(Zeros(n), 0, bytes) == bytes + Zeros(n - |bytes|)
  {
  }

  /** On serialized keys the comparison is the order of the rows they stand for. */
  method CompareKeys(lhs: seq<Byte>, rhs: seq<Byte>, schema: seq<ColumnType>, ghost a: seq<Field>, ghost b: seq<Field>)
    returns (order: int)
    requires RowOk(a, schema) && SerializedSize(a) <= |lhs| && lhs == KeyOf(a, schema, |lhs|)
    requires RowOk(b, schema) && SerializedSize(b) <= |rhs| && rhs == KeyOf(b, schema, |rhs|)
    ensures order == CompareRows(a, b, schema)
    ensures OrderedRow(a) && OrderedRow(b) ==>
              && (order == -1 <==> RowBelow(a, b))
              && (order == 1 <==> RowBelow(b, a))
              && (order == 0 <==> forall i :: 0 <= i < |a| ==> SameValue(a[i], b[i]))
  {
    if OrderedRow(a) && OrderedRow(b) {
      KeysFollowValues(a, b, schema);
      KeysAreAntisymmetric(a, b, schema);
    }
    RoundTrip(a, schema, Zeros(|lhs| - SerializedSize(a)));
    RoundTrip(b, schema, Zeros(|rhs| - SerializedSize(b)));
    var lhsKey, _ := DeserializeFrom(lhs, schema);
    var rhsKey, _ := DeserializeFrom(rhs, schema);
    assert a[0..] == a && b[0..] == b && schema[0..] == schema;
    for i := 0 to |schema|
      invariant CompareRows(a, b, schema) == CompareRows(a[i..], b[i..], schema[i..])
    {
      assert a[i..][1..] == a[i + 1..] && b[i..][1..] == b[i + 1..] && schema[i..][1..] == schema[i + 1..];
      if CompareLessThan(lhsKey[i], rhsKey[i], schema[i]) == CmpTrue {
        return -1;
      }
      if CompareGreaterThan(lhsKey[i], rhsKey[i], schema[i]) == CmpTrue {
        return 1;
      }
    }
    order := 0;
  }

  // ---------------------------------------------------------------- key sizes

  /** A key column: its type and declared length, which is 4 for numbers. */
  datatype Column = Column(columnType: ColumnType, length: nat)

  ghost predicate Fits(row: seq<Field>, columns: seq<Column>) {
    |row| == |columns| && forall i :: 0 <= i < |row| ==> FieldFits(row[i], columns[i])
  }

  predicate FieldFits(f: Field, c: Column) {
    FieldOk(f, c.columnType) &&
    (if c.columnType.CharType? then f.CharValue? ==> |f.chars| <= c.length else c.length == 4)
  }

  function ColumnSizes(columns: seq<Column>): nat {
    if columns == [] then 0
    else (if columns[0].columnType.CharType? then 4 else 0) + columns[0].length + ColumnSizes(columns[1..])
  }

  function BitmapBytes(n: nat): nat { if n % 8 != 0 then n / 8 + 1 else n / 8 }

  /** The key size class IndexInfo::CreateIndex picks, if the key is not too long for all of them. */
  function KeySize(columns: seq<Column>): Option<nat> {
    var size := 4 + BitmapBytes(|columns|) + ColumnSizes(columns);
    if size <= 8 then Some(16)
    else if size <= 24 then Some(32)
    else if size <= 56 then Some(64)
    else if size <= 120 then Some(128)
    else if size <= 248 then Some(256)
    else None
  }

  lemma {:induction false} FieldsFitColumns(row: seq<Field>, columns: seq<Column>)
    requires Fits(row, columns)
    ensures SizeOfFields(row) <= ColumnSizes(columns)
    decreases |row|
  {
    if row != [] {
      assert FieldFits(row[0], columns[0]);
      assert Fits(row[1..], columns[1..]);
      FieldsFitColumns(row[1..], columns[1..]);
    }
  }

  /** Every key row within its column lengths fits the key size of its index, nulls or not. */
  lemma KeyRowFits(row: seq<Field>, columns: seq<Column>)
    requires Fits(row, columns) && KeySize(columns).Some?
    ensures SerializedSize(row) <= KeySize(columns).value
  {
    FieldsFitColumns(row, columns);
  }

  function LongestField(c: Column): (f: Field)
    requires ColumnOk(c)
    ensures FieldFits(f, c) && FieldSize(f) == (if c.columnType.CharType? then 4 else 0) + c.length
  {
    match c.columnType
    case IntType => IntValue(0)
    case FloatType => FloatValue(0)
    case CharType => CharValue(Zeros(c.length))
  }

  /** The longest key row of these columns: every string as long as declared. */
  function LongestRow(columns: seq<Column>): (row: seq<Field>)
    requires forall i :: 0 <= i < |columns| ==> ColumnOk(columns[i])
    ensures Fits(row, columns) && SizeOfFields(row) == ColumnSizes(columns)
  {
    if columns == [] then []
    else
      var rest := LongestRow(columns[1..]);
      var row := [LongestField(columns[0])] + rest;
      assert row[1..] == rest;
      assert forall i :: 0 < i < |row| ==> row[i] == rest[i - 1] && columns[i] == columns[1..][i - 1];
      row
  }

  predicate ColumnOk(c: Column) { if c.columnType.CharType? then c.length < VARCHAR_MAX_LEN else c.length == 4 }

  /** The key size is the least power of two, from 16 to 256, that leaves eight bytes beside the longest key row. */
  lemma KeySizeIsLeast(columns: seq<Column>)
    requires forall i :: 0 <= i < |columns| ==> ColumnOk(columns[i])
    ensures var need := SerializedSize(LongestRow(columns)) + 8;
            && (KeySize(columns) == None <==> need > 256)
            && (KeySize(columns).Some? ==> IsLeastClass(KeySize(columns).value, need))
  {
    assert SerializedSize(LongestRow(columns)) == 4 + BitmapBytes(|columns|) + ColumnSizes(columns);
  }

  predicate IsLeastClass(size: nat, need: nat) {
    size in {16, 32, 64, 128, 256} && need <= size && (size > 16 ==> need > size / 2)
  }
}
