/** The byte format of rows (src/record/row.cpp, src/record/types.cpp): a field count, a null bitmap and the non-null
    fields one after the other. */
module RowFormat {
  import opened Common
  import opened Bytes

  // ---------------------------------------------------------------- the null bitmap

  function BitmapSize(n: nat): nat { (n + 7) / 8 }

  /** One bit per field, eight to a byte. */
  function NullBitmap(nulls: seq<bool>): (r: seq<Byte>)
    ensures |r| == BitmapSize(|nulls|)
  {
    if nulls == [] then []
    else
      var k := if |nulls| < 8 then |nulls| else 8;
      var byte := Packed(nulls[..k]);
      PowersUpTo8(k);
      [byte as Byte] + NullBitmap(nulls[k..])
  }

  lemma {:induction false} NullBitmapBit(nulls: seq<bool>, i: nat)
    requires i / 8 < BitmapSize(|nulls|)
    ensures Bit(NullBitmap(nulls)[i / 8] as nat, i % 8) <==> i < |nulls| && nulls[i]
    decreases |nulls|
  {
    var k := if |nulls| < 8 then |nulls| else 8;
    if i < 8 {
      PackedBits(nulls[..k], i);
    } else {
      NullBitmapBit(nulls[k..], i - 8);
      assert NullBitmap(nulls)[1..] == NullBitmap(nulls[k..]) && (i - 8) / 8 == i / 8 - 1;
      assert NullBitmap(nulls)[i / 8] == NullBitmap(nulls[k..])[i / 8 - 1];
    }
  }

  // ---------------------------------------------------------------- fields

  const VARCHAR_MAX_LEN := 2048

  datatype ColumnType = IntType | FloatType | CharType

  /** A float is known by its 32 bits. */
  datatype Field = Null(columnType: ColumnType) | IntValue(i: int) | FloatValue(bits: nat) | CharValue(chars: seq<Byte>)

  predicate FieldOk(f: Field, t: ColumnType) {
    match f
    case Null(u) => t == u
    case IntValue(i) => t.IntType? && -0x8000_0000 <= i < 0x8000_0000
    case FloatValue(bits) => t.FloatType? && bits < 0x1_0000_0000
    case CharValue(chars) => t.CharType? && |chars| < VARCHAR_MAX_LEN
  }

  function Unsigned(i: int): nat
    requires -0x8000_0000 <= i < 0x8000_0000
  {
    if i < 0 then i + 0x1_0000_0000 else i
  }

  function Signed(u: nat): int { if u < 0x8000_0000 then u else u - 0x1_0000_0000 }

  function FieldSize(f: Field): nat {
    match f case Null(_) => 0 case IntValue(_) => 4 case FloatValue(_) => 4 case CharValue(chars) => |chars| + 4
  }

  function EncodeField(f: Field, t: ColumnType): (r: seq<Byte>)
    requires FieldOk(f, t)
    ensures |r| == FieldSize(f)
  {
    match f
    case Null(_) => []
    case IntValue(i) => Little(Unsigned(i), 4)
    case FloatValue(bits) => Little(bits, 4)
    case CharValue(chars) => Little(|chars|, 4) + chars
  }

  /** A field at the start of `buf` and the number of bytes it takes. */
  function DecodeField(buf: seq<Byte>, t: ColumnType, isNull: bool): (r: Option<(Field, nat)>)
    ensures r.Some? ==> r.value.1 <= |buf| && r.value.1 == FieldSize(r.value.0)
  {
    if isNull then Some((Null(t), 0))
    else if |buf| < 4 then None
    else
      var u := Number(buf[..4]);
      match t
      case IntType => Some((IntValue(Signed(u)), 4))
      case FloatType => Some((FloatValue(u), 4))
      case CharType => if |buf| < 4 + u || u >= VARCHAR_MAX_LEN then None else Some((CharValue(buf[4..4 + u]), 4 + u))
  }

  lemma CharsRoundTrip(length: seq<Byte>, chars: seq<Byte>, tail: seq<Byte>)
    requires |length| == 4
    ensures length + chars + tail == length + (chars + tail)
    ensures (length + chars + tail)[4..4 + |chars|] == chars
  {
  }

  lemma {:induction false} FieldRoundTrip(f: Field, t: ColumnType, tail: seq<Byte>)
    requires FieldOk(f, t)
    ensures DecodeField(EncodeField(f, t) + tail, t, f.Null?) == Some((f, FieldSize(f)))
  {
    match f
    case Null(_) =>
    case IntValue(i) =>
      WordNumber(Unsigned(i), tail);
    case FloatValue(bits) =>
      WordNumber(bits, tail);
    case CharValue(chars) =>
      WordNumber(|chars|, chars + tail);
      CharsRoundTrip(Little(|chars|, 4), chars, tail);
  }

  // ---------------------------------------------------------------- rows

  ghost predicate RowOk(row: seq<Field>, schema: seq<ColumnType>) {
    |row| == |schema| < 0x1_0000_0000 && forall i :: 0 <= i < |row| ==> FieldOk(row[i], schema[i])
  }

  function SizeOfFields(row: seq<Field>): nat {
    if row == [] then 0 else FieldSize(row[0]) + SizeOfFields(row[1..])
  }

  /** GetSerializedSize. */
  function SerializedSize(row: seq<Field>): nat { 4 + BitmapSize(|row|) + SizeOfFields(row) }

  function EncodeFields(row: seq<Field>, schema: seq<ColumnType>): (r: seq<Byte>)
    requires RowOk(row, schema)
    ensures |r| == SizeOfFields(row)
  {
    if row == [] then [] else EncodeField(row[0], schema[0]) + EncodeFields(row[1..], schema[1..])
  }

  function Nulls(row: seq<Field>): seq<bool> { seq(|row|, i requires 0 <= i < |row| => row[i].Null?) }

  function Encode(row: seq<Field>, schema: seq<ColumnType>): (r: seq<Byte>)
    requires RowOk(row, schema)
    ensures |r| == SerializedSize(row)
  {
    Little(|row|, 4) + NullBitmap(Nulls(row)) + EncodeFields(row, schema)
  }

  /** The fields at the start of `buf`, and the number of bytes they take. */
  function DecodeFields(buf: seq<Byte>, schema: seq<ColumnType>, nulls: seq<bool>): (r: Option<(seq<Field>, nat)>)
    requires |schema| == |nulls|
    ensures r.Some? ==> r.value.1 <= |buf|
    decreases |schema|
  {
    if schema == [] then Some(([], 0))
    else
      match DecodeField(buf, schema[0], nulls[0])
      case None => None
      case Some((f, n)) =>
        match DecodeFields(buf[n..], schema[1..], nulls[1..])
        case None => None
        case Some((fs, m)) => Some(([f] + fs, n + m))
  }

  function NullsIn(bitmap: seq<Byte>, count: nat): (r: seq<bool>)
    requires |bitmap| == BitmapSize(count)
    ensures |r| == count
  {
    seq(count, i requires 0 <= i < count => Bit(bitmap[i / 8] as nat, i % 8))
  }

  function Decode(buf: seq<Byte>, schema: seq<ColumnType>): (r: Option<(seq<Field>, nat)>)
    ensures r.Some? ==> r.value.1 <= |buf|
  {
    var n := |schema|;
    if |buf| < 4 + BitmapSize(n) || Number(buf[..4]) != n then None
    else
      match DecodeFields(buf[4 + BitmapSize(n)..], schema, NullsIn(buf[4..4 + BitmapSize(n)], n))
      case None => None
      case Some((row, m)) => Some((row, 4 + BitmapSize(n) + m))
  }

  lemma Parts(a: seq<Byte>, b: seq<Byte>)
    ensures (a + b)[..|a|] == a && (a + b)[|a|..] == b
  {
  }

  lemma Regrouped(a: seq<Byte>, b: seq<Byte>, c: seq<Byte>)
    ensures a + b + c == a + (b + c)
  {
  }

  lemma {:induction false} DecodeFieldsStep(buf: seq<Byte>, schema: seq<ColumnType>, nulls: seq<bool>, n: nat, m: nat,
                                            row: seq<Field>, size: nat)
    requires |schema| == |nulls| == |row| > 0 && n <= |buf| && size == n + m
    requires DecodeField(buf, schema[0], nulls[0]) == Some((row[0], n))
    requires DecodeFields(buf[n..], schema[1..], nulls[1..]) == Some((row[1..], m))
    ensures DecodeFields(buf, schema, nulls) == Some((row, size))
  {
    assert row == [row[0]] + row[1..];
  }

  lemma {:induction false} FieldsRoundTrip(row: seq<Field>, schema: seq<ColumnType>, tail: seq<Byte>)
    requires RowOk(row, schema)
    ensures DecodeFields(EncodeFields(row, schema) + tail, schema, Nulls(row)) == Some((row, SizeOfFields(row)))
    decreases |row|
  {
    if row != [] {
      var fs, types := row[1..], schema[1..];
      var head, rest := EncodeField(row[0], schema[0]), EncodeFields(fs, types) + tail;
      FieldRoundTrip(row[0], schema[0], rest);
      FieldsRoundTrip(fs, types, tail);
      Parts(head, rest);
      Regrouped(head, EncodeFields(fs, types), tail);
      var nulls := Nulls(row);
      assert nulls[1..] == Nulls(fs);
      DecodeFieldsStep(EncodeFields(row, schema) + tail, schema, nulls, |head|,
                       SizeOfFields(fs), row, SizeOfFields(row));
    }
  }

  lemma {:induction false} DecodeStep(buf: seq<Byte>, count: seq<Byte>, bitmap: seq<Byte>, rest: seq<Byte>,
                                      schema: seq<ColumnType>, row: seq<Field>, m: nat, size: nat)
    requires size == 4 + BitmapSize(|schema|) + m && buf == count + bitmap + rest
    requires |count| == 4 && Number(count) == |schema| && |bitmap| == BitmapSize(|schema|)
    requires DecodeFields(rest, schema, NullsIn(bitmap, |schema|)) == Some((row, m))
    ensures Decode(buf, schema) == Some((row, size))
  {
    assert buf[..4] == count && buf[4..4 + |bitmap|] == bitmap && buf[4 + |bitmap|..] == rest;
  }

  lemma {:induction false} NullsRoundTrip(nulls: seq<bool>)
    ensures NullsIn(NullBitmap(nulls), |nulls|) == nulls
  {
    forall i | 0 <= i < |nulls| ensures NullsIn(NullBitmap(nulls), |nulls|)[i] == nulls[i] {
      NullBitmapBit(nulls, i);
    }
  }

  /** Reading back what was written gives the row, whatever its nulls, and consumes exactly its serialized size. */
  lemma {:induction false} RoundTrip(row: seq<Field>, schema: seq<ColumnType>, tail: seq<Byte>)
    requires RowOk(row, schema)
    ensures Decode(Encode(row, schema) + tail, schema) == Some((row, SerializedSize(row)))
  {
    var count, bitmap, fields := Little(|row|, 4), NullBitmap(Nulls(row)), EncodeFields(row, schema);
    WordNumber(|row|, []);
    assert (count + [])[..4] == count;
    NullsRoundTrip(Nulls(row));
    FieldsRoundTrip(row, schema, tail);
    Regrouped(count + bitmap, fields, tail);
    DecodeStep(Encode(row, schema) + tail, count, bitmap, fields + tail, schema, row, SizeOfFields(row),
               SerializedSize(row));
  }

  /** `piece` stands at place `at` of `bytes`. */
  predicate StandsAt(bytes: seq<Byte>, at: nat, piece: seq<Byte>) {
    at + |piece| <= |bytes| && bytes[at..at + |piece|] == piece
  }

  lemma StandsBehind(front: seq<Byte>, bytes: seq<Byte>, at: nat, piece: seq<Byte>)
    requires StandsAt(bytes, at, piece)
    ensures StandsAt(front + bytes, |front| + at, piece)
  {
  }

  lemma StandsInFront(piece: seq<Byte>, rest: seq<Byte>)
    ensures StandsAt(piece + rest, 0, piece)
  {
  }

  lemma {:induction false} FieldPlace(row: seq<Field>, schema: seq<ColumnType>, i: nat)
    requires RowOk(row, schema) && i < |row|
    ensures StandsAt(EncodeFields(row, schema), SizeOfFields(row[..i]), EncodeField(row[i], schema[i]))
    decreases i
  {
    var first, rest := EncodeField(row[0], schema[0]), EncodeFields(row[1..], schema[1..]);
    if i == 0 {
      StandsInFront(first, rest);
    } else {
      FieldPlace(row[1..], schema[1..], i - 1);
      assert row[..i][1..] == row[1..][..i - 1];
      StandsBehind(first, rest, SizeOfFields(row[1..][..i - 1]), EncodeField(row[i], schema[i]));
    }
  }

  /** The null bit of field i, at its place behind the field count. */
  lemma NullPlace(row: seq<Field>, count: seq<Byte>, fields: seq<Byte>, i: nat)
    requires |count| == 4 && i < |row|
    ensures BitOf(count + NullBitmap(Nulls(row)) + fields, 4, i) <==> row[i].Null?
  {
    var bitmap := NullBitmap(Nulls(row));
    NullBitmapBit(Nulls(row), i);
    assert (count + bitmap + fields)[4 + i / 8] == bitmap[i / 8];
  }

  /** Where things stand in an encoded row: the number of fields, then a bit for every field, set if it is null, then
      the fields in order. */
  lemma {:induction false} RowLayout(row: seq<Field>, schema: seq<ColumnType>, i: nat)
    requires RowOk(row, schema) && i < |row|
    ensures StandsAt(Encode(row, schema), 0, Little(|row|, 4))
    ensures BitOf(Encode(row, schema), 4, i) <==> row[i].Null?
    ensures StandsAt(Encode(row, schema), 4 + BitmapSize(|row|) + SizeOfFields(row[..i]),
                     EncodeField(row[i], schema[i]))
  {
    var count, bitmap, fields := Little(|row|, 4), NullBitmap(Nulls(row)), EncodeFields(row, schema);
    NullPlace(row, count, fields, i);
    FieldPlace(row, schema, i);
    StandsBehind(count + bitmap, fields, SizeOfFields(row[..i]), EncodeField(row[i], schema[i]));
    StandsInFront(count, bitmap + fields);
    Regrouped(count, bitmap, fields);
  }

  /** Integers are stored in two's complement. */
  lemma UnsignedIsCongruent(i: int)
    requires -0x8000_0000 <= i < 0x8000_0000
    ensures Unsigned(i) < 0x1_0000_0000 && (Unsigned(i) - i) % 0x1_0000_0000 == 0
  {
  }

  // ---------------------------------------------------------------- reading and writing buffers

  lemma WrittenTwice(b: seq<Byte>, at: nat, first: seq<Byte>, second: seq<Byte>)
    requires at + |first| + |second| <= |b|
    ensures Written(Written(b, at, first), at + |first|, second) == Written(b, at, first + second)
  {
  }

  /** memset, then one bit set for every null field. */
  method WriteBitmap(buf: array<Byte>, at: nat, nulls: seq<bool>)
    requires at + BitmapSize(|nulls|) <= buf.Length
    modifies buf
    ensures buf[..] == Written(old(buf[..]), at, NullBitmap(nulls))
  {
    var size := BitmapSize(|nulls|);
    WriteAt(buf, at, Zeros(size));
    ghost var b := old(buf[..]);
    forall j | 0 <= j < 8 * size ensures !BitOf(buf[..], at, j) { ZeroBit(j % 8); }
    for i := 0 to |nulls|
      invariant buf[..at] == b[..at] && buf[at + size..] == b[at + size..]
      invariant forall j :: 0 <= j < 8 * size ==> (BitOf(buf[..], at, j) <==> j < i && nulls[j])
    {
      if nulls[i] {
        SetNull(buf, at, i, size);
      }
    }
    BitsMakeBitmap(buf[..], at, nulls);
  }

  method SetNull(buf: array<Byte>, at: nat, i: nat, size: nat)
    requires i / 8 < size && at + size <= buf.Length
    modifies buf
    ensures buf[..at] == old(buf[..at]) && buf[at + size..] == old(buf[at + size..])
    ensures forall j :: 0 <= j < 8 * size ==> (BitOf(buf[..], at, j) <==> j == i || BitOf(old(buf[..]), at, j))
  {
    SetBit(buf, at, i, true);
  }

  lemma {:induction false} BitsMakeByte(b: seq<Byte>, at: nat, nulls: seq<bool>, k: nat)
    requires k < BitmapSize(|nulls|) && at + BitmapSize(|nulls|) <= |b|
    requires forall j :: 0 <= j < 8 * BitmapSize(|nulls|) ==> (BitOf(b, at, j) <==> j < |nulls| && nulls[j])
    ensures b[at + k] == NullBitmap(nulls)[k]
  {
    var x, y := b[at + k] as nat, NullBitmap(nulls)[k] as nat;
    forall j | 0 <= j < 8 ensures Bit(x, j) == Bit(y, j) {
      var i := 8 * k + j;
      assert i / 8 == k && i % 8 == j;
      assert BitOf(b, at, i) == Bit(x, j);
      NullBitmapBit(nulls, i);
    }
    PowersUpTo8(8);
    SameBits(x, y, 8);
  }

  lemma {:induction false} BitsMakeBitmap(b: seq<Byte>, at: nat, nulls: seq<bool>)
    requires at + BitmapSize(|nulls|) <= |b|
    requires forall j :: 0 <= j < 8 * BitmapSize(|nulls|) ==> (BitOf(b, at, j) <==> j < |nulls| && nulls[j])
    ensures b[at..at + BitmapSize(|nulls|)] == NullBitmap(nulls)
  {
    forall k | 0 <= k < BitmapSize(|nulls|) ensures b[at + k] == NullBitmap(nulls)[k] {
      BitsMakeByte(b, at, nulls, k);
    }
  }

  lemma {:induction false} OneMoreField(row: seq<Field>, schema: seq<ColumnType>, i: nat)
    requires RowOk(row, schema) && i < |row|
    ensures RowOk(row[..i], schema[..i]) && RowOk(row[..i + 1], schema[..i + 1])
    ensures EncodeFields(row[..i + 1], schema[..i + 1]) ==
            EncodeFields(row[..i], schema[..i]) + EncodeField(row[i], schema[i])
    decreases i
  {
    if i > 0 {
      OneMoreField(row[1..], schema[1..], i - 1);
      assert row[..i + 1][1..] == row[1..][..i] && schema[..i + 1][1..] == schema[1..][..i];
      assert row[..i][1..] == row[1..][..i - 1] && schema[..i][1..] == schema[1..][..i - 1];
      Regrouped(EncodeField(row[0], schema[0]), EncodeFields(row[1..][..i - 1], schema[1..][..i - 1]),
                EncodeField(row[i], schema[i]));
    } else {
      assert row[..1][1..] == [] && EncodeFields(row[..1][1..], schema[..1][1..]) == [];
    }
  }

  lemma {:induction false} SizeOfPrefix(row: seq<Field>, i: nat)
    requires i <= |row|
    ensures SizeOfFields(row[..i]) <= SizeOfFields(row)
    decreases i
  {
    if i > 0 {
      SizeOfPrefix(row[1..], i - 1);
      assert row[..i][1..] == row[1..][..i - 1];
    }
  }

  /** Writing one more field behind the first i writes the first i + 1. */
  lemma OneMoreWritten(b: seq<Byte>, at: nat, row: seq<Field>, schema: seq<ColumnType>, i: nat, done: seq<Byte>,
                       end: nat, bytes: seq<Byte>)
    returns (next: seq<Byte>)
    requires RowOk(row, schema) && i < |row| && at + SizeOfFields(row) <= |b|
    requires RowOk(row[..i], schema[..i]) && end == at + SizeOfFields(row[..i]) <= |b|
    requires done == Written(b, at, EncodeFields(row[..i], schema[..i])) && bytes == EncodeField(row[i], schema[i])
    ensures RowOk(row[..i + 1], schema[..i + 1]) && end + |bytes| == at + SizeOfFields(row[..i + 1]) <= |b|
    ensures next == Written(done, end, bytes) == Written(b, at, EncodeFields(row[..i + 1], schema[..i + 1]))
  {
    OneMoreField(row, schema, i);
    SizeOfPrefix(row, i + 1);
    WrittenTwice(b, at, EncodeFields(row[..i], schema[..i]), bytes);
    next := Written(done, end, bytes);
  }

  method WriteFields(buf: array<Byte>, at: nat, row: seq<Field>, schema: seq<ColumnType>) returns (end: nat)
    requires RowOk(row, schema) && at + SizeOfFields(row) <= buf.Length
    modifies buf
    ensures end == at + SizeOfFields(row) && buf[..] == Written(old(buf[..]), at, EncodeFields(row, schema))
  {
    end := at;
    ghost var b := buf[..];
    for i := 0 to |row|
      invariant RowOk(row[..i], schema[..i]) && end == at + SizeOfFields(row[..i]) <= |b|
      invariant buf[..] == Written(b, at, EncodeFields(row[..i], schema[..i]))
    {
      var bytes := EncodeField(row[i], schema[i]);
      ghost var next := OneMoreWritten(b, at, row, schema, i, buf[..], end, bytes);
      WriteAt(buf, end, bytes);
      assert buf[..] == next;
      end := end + |bytes|;
    }
    assert row[..|row|] == row && schema[..|schema|] == schema;
  }

  method SerializeTo(buf: array<Byte>, at: nat, row: seq<Field>, schema: seq<ColumnType>) returns (size: nat)
    requires RowOk(row, schema) && at + SerializedSize(row) <= buf.Length
    modifies buf
    ensures size == SerializedSize(row) && buf[..] == Written(old(buf[..]), at, Encode(row, schema))
  {
    ghost var b := buf[..];
    WritePrefix(buf, at, row);
    ghost var prefix := Little(|row|, 4) + NullBitmap(Nulls(row));
    WrittenTwice(b, at, prefix, EncodeFields(row, schema));
    ghost var whole := Written(buf[..], at + |prefix|, EncodeFields(row, schema));
    var end := WriteFields(buf, at + 4 + BitmapSize(|row|), row, schema);
    assert buf[..] == whole;
    size := end - at;
  }

  /** The field count and the null bitmap. */
  method WritePrefix(buf: array<Byte>, at: nat, row: seq<Field>)
    requires at + 4 + BitmapSize(|row|) <= buf.Length
    modifies buf
    ensures buf[..] == Written(old(buf[..]), at, Little(|row|, 4) + NullBitmap(Nulls(row)))
  {
    ghost var b := buf[..];
    WriteAt(buf, at, Little(|row|, 4));
    WriteBitmap(buf, at + 4, Nulls(row));
    WrittenTwice(b, at, Little(|row|, 4), NullBitmap(Nulls(row)));
  }

  /** What is left to read decides what the whole read gives. */
  ghost predicate Continues(whole: Option<(seq<Field>, nat)>, rest: Option<(seq<Field>, nat)>,
                            done: seq<Field>, read: nat) {
    && rest.Some? && whole.Some?
    && whole.value.0 == done + rest.value.0 && whole.value.1 == read + rest.value.1
  }

  lemma {:induction false} ContinueStep(whole: Option<(seq<Field>, nat)>, buf: seq<Byte>, schema: seq<ColumnType>,
                                        nulls: seq<bool>, i: nat, done: seq<Field>, read: nat)
    requires |schema| == |nulls| > i && read <= |buf|
    requires Continues(whole, DecodeFields(buf[read..], schema[i..], nulls[i..]), done, read)
    ensures var field := DecodeField(buf[read..], schema[i], nulls[i]);
            && field.Some? && read + field.value.1 <= |buf|
            && Continues(whole, DecodeFields(buf[read + field.value.1..], schema[i + 1..], nulls[i + 1..]),
                         done + [field.value.0], read + field.value.1)
  {
    var field := DecodeField(buf[read..], schema[i], nulls[i]);
    assert schema[i..][1..] == schema[i + 1..] && nulls[i..][1..] == nulls[i + 1..];
    assert buf[read..][field.value.1..] == buf[read + field.value.1..];
    var rest := DecodeFields(buf[read + field.value.1..], schema[i + 1..], nulls[i + 1..]);
    assert done + ([field.value.0] + rest.value.0) == (done + [field.value.0]) + rest.value.0;
  }

  method ReadFields(buf: seq<Byte>, schema: seq<ColumnType>, nulls: seq<bool>) returns (row: seq<Field>, read: nat)
    requires |schema| == |nulls| && DecodeFields(buf, schema, nulls).Some?
    ensures DecodeFields(buf, schema, nulls) == Some((row, read))
  {
    row, read := [], 0;
    ghost var whole := DecodeFields(buf, schema, nulls);
    assert buf[0..] == buf && schema[0..] == schema && nulls[0..] == nulls;
    for i := 0 to |schema|
      invariant read <= |buf|
      invariant Continues(whole, DecodeFields(buf[read..], schema[i..], nulls[i..]), row, read)
    {
      ContinueStep(whole, buf, schema, nulls, i, row, read);
      var field := DecodeField(buf[read..], schema[i], nulls[i]);
      row, read := row + [field.value.0], read + field.value.1;
    }
    assert schema[|schema|..] == [] && row + [] == row;
  }

  /** Reads a row back; a buffer that does not hold one is an assertion failure in the program. */
  method DeserializeFrom(buf: seq<Byte>, schema: seq<ColumnType>) returns (row: seq<Field>, read: nat)
    requires Decode(buf, schema).Some?
    ensures Decode(buf, schema) == Some((row, read))
  {
    var n := |schema|;
    var nulls := NullsIn(buf[4..4 + BitmapSize(n)], n);
    row, read := ReadFields(buf[4 + BitmapSize(n)..], schema, nulls);
    read := read + 4 + BitmapSize(n);
  }
}
