/** Binary rows with their NULL bitmap (`mysql/result.go`, `mysql/encoding.go`). */
module BinaryRows {
  import opened Arithmetic
  import opened Lists
  import opened Options
  import opened Decimal
  import opened Encoding

  // ---------------------------------------------------------------- bits

  /** Bit `k` of a byte, counted from the lowest. */
  predicate HasBit(b: nat, k: nat)
    decreases k
  {
    if k == 0 then b % 2 == 1 else HasBit(b / 2, k - 1)
  }

  /** The byte with bit `k` also set. */
  function SetBit(b: nat, k: nat): nat
    decreases k
  {
    if k == 0 then b - b % 2 + 1 else b % 2 + 2 * SetBit(b / 2, k - 1)
  }

  function PowerOfTwo(k: nat): nat { if k == 0 then 1 else 2 * PowerOfTwo(k - 1) }

  lemma {:induction false} SetBitRange(b: nat, k: nat, n: nat)
    requires k < n && b < PowerOfTwo(n)
    ensures SetBit(b, k) < PowerOfTwo(n)
    decreases k
  {
    var half := PowerOfTwo(n - 1);
    assert PowerOfTwo(n) == 2 * half && b / 2 < half;
    if k > 0 { SetBitRange(b / 2, k - 1, n - 1); }
  }

  /** Setting a bit sets that bit and no other. */
  lemma {:induction false} SetBitExact(b: nat, k: nat, j: nat)
    ensures HasBit(SetBit(b, k), j) <==> j == k || HasBit(b, j)
    decreases k
  {
    if k > 0 && j > 0 {
      SetBitExact(b / 2, k - 1, j - 1);
      assert SetBit(b, k) / 2 == SetBit(b / 2, k - 1);
    } else if j > 0 {
      assert SetBit(b, 0) / 2 == b / 2;
    }
  }

  lemma {:induction false} NoBits(j: nat)
    ensures !HasBit(0, j)
  {
    if j > 0 { NoBits(j - 1); }
  }

  // ---------------------------------------------------------------- the NULL bitmap

  function BitmapLen(columns: nat): nat { (columns + 7 + 2) / 8 }

  predicate NullAt(bitmap: seq<Byte>, i: nat)
    requires (i + 2) / 8 < |bitmap|
  {
    HasBit(bitmap[(i + 2) / 8], (i + 2) % 8)
  }

  function WithNull(bitmap: seq<Byte>, i: nat): (r: seq<Byte>)
    requires (i + 2) / 8 < |bitmap|
    ensures |r| == |bitmap|
  {
    assert PowerOfTwo(8) == 256 by { assert PowerOfTwo(4) == 16; }
    SetBitRange(bitmap[(i + 2) / 8], (i + 2) % 8, 8);
    bitmap[(i + 2) / 8 := SetBit(bitmap[(i + 2) / 8], (i + 2) % 8)]
  }

  /** Marking one column marks no other, within its byte or in another. */
  lemma WithNullExact(bitmap: seq<Byte>, i: nat, j: nat)
    requires (i + 2) / 8 < |bitmap| && (j + 2) / 8 < |bitmap|
    ensures NullAt(WithNull(bitmap, i), j) <==> j == i || NullAt(bitmap, j)
  {
    SetBitExact(bitmap[(i + 2) / 8], (i + 2) % 8, (j + 2) % 8);
  }

  // ---------------------------------------------------------------- one value

  /** AppendBinaryValue: integers as 64-bit two's complement cut to the field's width, strings with their length. */
  function BinaryCell(kind: FieldType, value: Value): Option<seq<Byte>> {
    if value.Null? then None
    else
      var t := match value
        case Null => []
        case Int(v) => LittleEndian(v % TWO_64, 8)
        case UInt(u) => LittleEndian(u, 8)
        case Str(bytes) => bytes;
      if kind.VarString? then if |t| < TWO_63 then Some(LenEncString(t)) else None
      else if |t| < Width(kind) then None
      else Some(t[..Width(kind)])
  }

  /** The range of a signed integer of `w` bytes. */
  predicate FitsBytes(v: int, w: nat) { 0 <= 2 * v + Cap(w) && 2 * v < Cap(w) }

  /** A signed integer as `w` bytes of two's complement hold it, and back. */
  function Unsigned(v: int, w: nat): (n: nat)
    requires FitsBytes(v, w)
    ensures n < Cap(w) && Signed(n, w) == v
  {
    if v < 0 then v + Cap(w) else v
  }

  function Signed(n: nat, w: nat): int { if 2 * n < Cap(w) then n else n - Cap(w) }

  /** One value of ParseBinary; TypeTiny is widened without its sign. */
  function ReadCell(field: Field, row: seq<Byte>, pos: nat): Option<Cell> {
    if field.kind.VarString? then
      var chunk := ReadLenEncString(row, pos);
      if chunk.None? then None
      else Some(Cell(if chunk.value.isNull then Null else Str(chunk.value.bytes), chunk.value.next))
    else
      var w := Width(field.kind);
      if pos + w > |row| then None
      else
        var n := FromLittleEndian(row, pos, w);
        Some(Cell(if field.unsigned then UInt(n) else if field.kind.Tiny? then Int(n) else Int(Signed(n, w)), pos + w))
  }

  /** A non-NULL value in the range of its column. */
  predicate InRange(field: Field, value: Value) {
    match value
    case Null => false
    case Int(v) => !field.kind.VarString? && !field.unsigned && FitsBytes(v, Width(field.kind))
    case UInt(u) => !field.kind.VarString? && field.unsigned && u < Cap(Width(field.kind))
    case Str(bytes) => field.kind.VarString? && |bytes| < TWO_63
  }

  predicate NegativeTiny(field: Field, value: Value) { field.kind.Tiny? && value.Int? && value.v < 0 }

  lemma Wrapped(v: int)
    requires FitsBytes(v, 8)
    ensures v % TWO_64 == Unsigned(v, 8)
  {
    Caps();
  }

  /** The range of eight bytes is a multiple of the range of a field. */
  lemma FieldCap(kind: FieldType) returns (k: nat)
    requires !kind.VarString?
    ensures Cap(8) == Cap(Width(kind)) * (k + 1)
  {
    Caps();
    k := match kind
      case Tiny => 0xff_ffff_ffff_ffff
      case Short | Year => 0xffff_ffff_ffff
      case Int24 | Long => 0xffff_ffff
      case Longlong => 0;
  }

  /** The low bytes of a 64-bit two's complement number are its two's complement in fewer bytes. */
  lemma LowBytes(kind: FieldType, v: int)
    requires !kind.VarString? && FitsBytes(v, Width(kind))
    ensures LittleEndian(v % TWO_64, 8)[..Width(kind)] == LittleEndian(Unsigned(v, Width(kind)), Width(kind))
  {
    var w := Width(kind);
    var k := FieldCap(kind);
    assert Cap(w) * (k + 1) == Cap(w) * k + Cap(w) && Cap(w) * k >= 0;
    Wrapped(v);
    LittleEndianPrefix(Unsigned(v, 8), 8, w);
    if v < 0 { LittleEndianWraps(Unsigned(v, w), w, k); }
  }

  function Stored(value: Value, w: nat): nat
    requires (value.Int? && FitsBytes(value.v, w)) || value.UInt?
  {
    if value.Int? then Unsigned(value.v, w) else value.u
  }

  lemma IntegerCell(field: Field, value: Value)
    requires InRange(field, value) && !value.Str?
    ensures BinaryCell(field.kind, value) ==
            Some(LittleEndian(Stored(value, Width(field.kind)), Width(field.kind)))
  {
    if value.Int? { LowBytes(field.kind, value.v); } else { LittleEndianPrefix(value.u, 8, Width(field.kind)); }
  }

  lemma IntegerRead(pre: seq<Byte>, field: Field, n: nat, post: seq<Byte>)
    requires !field.kind.VarString? && n < Cap(Width(field.kind))
    ensures var w := Width(field.kind);
            ReadCell(field, pre + LittleEndian(n, w) + post, |pre|) ==
            var value := if field.unsigned then UInt(n) else if field.kind.Tiny? then Int(n) else Int(Signed(n, w));
            Some(Cell(value, |pre| + w))
  {
    LittleEndianInverse(pre, n, Width(field.kind), post);
  }

  /** What a value comes back as: itself, but for a negative TypeTiny, which loses its sign. */
  function AsRead(field: Field, value: Value): Value {
    if NegativeTiny(field, value) then Int(value.v + 256) else value
  }

  /** An integer or string of its column's range reads back from any place in a row. */
  lemma BinaryCellRoundTrip(pre: seq<Byte>, field: Field, value: Value, post: seq<Byte>)
    requires InRange(field, value)
    ensures var cell := BinaryCell(field.kind, value);
            && cell.Some?
            && ReadCell(field, pre + cell.value + post, |pre|) ==
               Some(Cell(AsRead(field, value), |pre| + |cell.value|))
  {
    if value.Str? {
      LenEncStringRoundTrip(pre, value.bytes, post);
    } else {
      IntegerCell(field, value);
      IntegerRead(pre, field, Stored(value, Width(field.kind)), post);
    }
  }

  // ---------------------------------------------------------------- rows

  /** Every value has an encoding; a NULL needs none. */
  ghost predicate Encodable(fields: seq<Field>, values: seq<Value>) {
    && |fields| == |values|
    && forall i :: 0 <= i < |values| ==> values[i].Null? || BinaryCell(fields[i].kind, values[i]).Some?
  }

  /** The values' cells; a NULL takes no bytes. */
  function CellBytes(field: Field, value: Value): seq<Byte> {
    var cell := BinaryCell(field.kind, value);
    if cell.None? then [] else cell.value
  }

  function BinaryCells(fields: seq<Field>, values: seq<Value>): seq<seq<Byte>>
    requires |fields| == |values|
  {
    seq(|fields|, i requires 0 <= i < |fields| => CellBytes(fields[i], values[i]))
  }

  /** The bitmap marks exactly the NULL columns. */
  ghost predicate Marks(bitmap: seq<Byte>, values: seq<Value>) {
    |bitmap| == BitmapLen(|values|) && forall i :: 0 <= i < |values| ==> (NullAt(bitmap, i) <==> values[i].Null?)
  }

  /** A zero byte, the bitmap, and the cells. */
  ghost predicate IsRow(fields: seq<Field>, values: seq<Value>, row: seq<Byte>)
    requires |fields| == |values|
  {
    var at := 1 + BitmapLen(|fields|);
    |row| >= at && row[0] == 0 && Marks(row[1..at], values) && row[at..] == Flatten(BinaryCells(fields, values))
  }

  /** The marks of the first `i` columns. */
  ghost predicate MarksFirst(bitmap: seq<Byte>, values: seq<Value>, i: nat)
    requires i <= |values|
  {
    && |bitmap| == BitmapLen(|values|)
    && forall j :: 0 <= j < |values| ==> (NullAt(bitmap, j) <==> j < i && values[j].Null?)
  }

  lemma MarksStep(bitmap: seq<Byte>, values: seq<Value>, i: nat)
    requires i < |values| && MarksFirst(bitmap, values, i)
    ensures MarksFirst(if values[i].Null? then WithNull(bitmap, i) else bitmap, values, i + 1)
  {
    if values[i].Null? {
      forall j | 0 <= j < |values| { WithNullExact(bitmap, i, j); }
    }
  }

  lemma MarksNone(values: seq<Value>)
    ensures MarksFirst(seq(BitmapLen(|values|), _ => 0), values, 0)
  {
    var bitmap := seq(BitmapLen(|values|), _ => 0);
    forall j | 0 <= j < |values| ensures !NullAt(bitmap, j) { NoBits((j + 2) % 8); }
  }

  lemma GrowRow(head: seq<Byte>, cells: seq<seq<Byte>>, j: nat, row: seq<Byte>)
    requires j < |cells| && row == head + Flatten(cells[..j])
    ensures row + cells[j] == head + Flatten(cells[..j + 1])
    ensures cells[j] == [] ==> row == head + Flatten(cells[..j + 1])
  {
    FlattenStep(cells, j);
    assert head + (Flatten(cells[..j]) + cells[j]) == head + Flatten(cells[..j]) + cells[j];
    if cells[j] == [] { assert row + cells[j] == row; }
  }

  /** BuildBinaryResultset on one row. */
  method BuildBinaryRow(fields: seq<Field>, values: seq<Value>) returns (r: Option<seq<Byte>>)
    ensures r.Some? <==> Encodable(fields, values)
    ensures r.Some? ==> IsRow(fields, values, r.value)
  {
    if |fields| != |values| { return None; }
    var bitmapLen := BitmapLen(|fields|);
    var nullBitMap: seq<Byte> := seq(bitmapLen, _ => 0);
    MarksNone(values);
    var row: seq<Byte> := [0] + nullBitMap;
    ghost var head, cells := row, BinaryCells(fields, values);
    for j := 0 to |values|
      invariant MarksFirst(nullBitMap, values, j)
      invariant forall i :: 0 <= i < j ==> values[i].Null? || BinaryCell(fields[i].kind, values[i]).Some?
      invariant row == head + Flatten(cells[..j])
    {
      MarksStep(nullBitMap, values, j);
      GrowRow(head, cells, j, row);
      if values[j].Null? {
        nullBitMap := WithNull(nullBitMap, j);
        continue;
      }
      var cell := BinaryCell(fields[j].kind, values[j]);
      if cell.None? { return None; }
      row := row + cell.value;
    }
    assert cells[..|values|] == cells;
    row := row[..1] + nullBitMap + row[1 + bitmapLen..];
    assert row[1..1 + bitmapLen] == nullBitMap && row[1 + bitmapLen..] == Flatten(cells);
    return Some(row);
  }

  // ---------------------------------------------------------------- parsing

  /** A column and its bit in the bitmap. */
  datatype Column = Column(field: Field, isNull: bool)

  function Columns(fields: seq<Field>, bitmap: seq<Byte>): (r: seq<Column>)
    requires |bitmap| == BitmapLen(|fields|)
    ensures |r| == |fields|
  {
    seq(|fields|, i requires 0 <= i < |fields| => Column(fields[i], NullAt(bitmap, i)))
  }

  /** One column of ParseBinary: a NULL column takes no bytes. */
  function ReadColumn(column: Column, row: seq<Byte>, pos: nat): Option<Cell> {
    if column.isNull then Some(Cell(Null, pos)) else ReadCell(column.field, row, pos)
  }

  function BinaryReader(row: seq<Byte>): (Column, nat) -> Option<Cell> {
    (column: Column, pos: nat) => ReadColumn(column, row, pos)
  }

  /** What a whole row holds; a row too short for its bitmap has no reading. */
  function ParsedRow(fields: seq<Field>, row: seq<Byte>): Option<seq<Value>> {
    var at := 1 + BitmapLen(|fields|);
    if |row| < at || row[0] != 0 then None else ReadAll(Columns(fields, row[1..at]), BinaryReader(row), at)
  }

  /** ParseBinary. */
  method ParseBinary(fields: seq<Field>, row: seq<Byte>) returns (r: Option<seq<Value>>)
    ensures r == ParsedRow(fields, row)
  {
    var pos: nat := 1 + BitmapLen(|fields|);
    if |row| < pos || row[0] != 0 { return None; }
    var nullBitmap := row[1..pos];
    ghost var columns, read, at := Columns(fields, nullBitmap), BinaryReader(row), pos;
    var data: seq<Value> := [];
    PrefixNone(ReadAll(columns, read, at));
    assert columns[0..] == columns;
    for i := 0 to |fields|
      invariant ReadAll(columns, read, at) == Prefix(data, ReadAll(columns[i..], read, pos))
    {
      ReadAllStep(columns, read, i, pos, data);
      var value := Null;
      if !NullAt(nullBitmap, i) {
        var cell := ReadCell(fields[i], row, pos);
        if cell.None? { return None; }
        value, pos := cell.value.value, cell.value.next;
      }
      data := data + [value];
    }
    assert data + [] == data;
    return Some(data);
  }

  /** Values in the range of their columns; NULL always is. */
  ghost predicate Storable(fields: seq<Field>, values: seq<Value>) {
    |fields| == |values| && forall i :: 0 <= i < |fields| ==> values[i].Null? || InRange(fields[i], values[i])
  }

  ghost predicate NoNegativeTiny(fields: seq<Field>, values: seq<Value>)
    requires |fields| == |values|
  {
    forall i :: 0 <= i < |fields| ==> !NegativeTiny(fields[i], values[i])
  }

  /** Values in range always encode. */
  lemma StorableEncodes(fields: seq<Field>, values: seq<Value>)
    requires Storable(fields, values)
    ensures Encodable(fields, values)
  {
    forall i | 0 <= i < |values| && !values[i].Null? ensures BinaryCell(fields[i].kind, values[i]).Some? {
      BinaryCellRoundTrip([], fields[i], values[i], []);
    }
  }

  lemma ReadColumnBack(column: Column, value: Value, cell: seq<Byte>, row: seq<Byte>, pre: seq<Byte>, post: seq<Byte>)
    requires column.isNull == value.Null? && (value.Null? || InRange(column.field, value))
    requires cell == CellBytes(column.field, value) && row == pre + cell + post
    ensures ReadColumn(column, row, |pre|) == Some(Cell(AsRead(column.field, value), |pre| + |cell|))
  {
    if !value.Null? { BinaryCellRoundTrip(pre, column.field, value, post); }
  }

  lemma ColumnReadsBack(column: Column, value: Value, cell: seq<Byte>, row: seq<Byte>)
    requires column.isNull == value.Null? && (value.Null? || InRange(column.field, value))
    requires cell == CellBytes(column.field, value)
    ensures ReadsBack(BinaryReader(row), column, AsRead(column.field, value), cell, row)
  {
    forall pre, post | row == pre + cell + post
      ensures ReadColumn(column, row, |pre|) == Some(Cell(AsRead(column.field, value), |pre| + |cell|))
    {
      ReadColumnBack(column, value, cell, row, pre, post);
    }
  }

  lemma ColumnsMarked(fields: seq<Field>, values: seq<Value>, bitmap: seq<Byte>, i: nat)
    requires |fields| == |values| && Marks(bitmap, values) && i < |fields|
    ensures Columns(fields, bitmap)[i] == Column(fields[i], values[i].Null?)
  {
    assert NullAt(bitmap, i) <==> values[i].Null?;
  }

  function AllAsRead(fields: seq<Field>, values: seq<Value>): seq<Value>
    requires |fields| == |values|
  {
    seq(|fields|, i requires 0 <= i < |fields| => AsRead(fields[i], values[i]))
  }

  /** A built row parses back column by column, for any number of columns and any pattern of NULLs. */
  lemma BinaryRowParses(fields: seq<Field>, values: seq<Value>, row: seq<Byte>)
    requires Storable(fields, values) && IsRow(fields, values, row)
    ensures ParsedRow(fields, row) == Some(AllAsRead(fields, values))
  {
    var at := 1 + BitmapLen(|fields|);
    var cells, seen := BinaryCells(fields, values), AllAsRead(fields, values);
    var columns, read := Columns(fields, row[1..at]), BinaryReader(row);
    forall i | 0 <= i < |fields| ensures ReadsBack(read, columns[i], seen[i], cells[i], row) {
      ColumnsMarked(fields, values, row[1..at], i);
      ColumnReadsBack(columns[i], values[i], cells[i], row);
    }
    RowReadsBack(columns, read, seen, cells, row, at);
  }

  /** The row round trip holds exactly when no TypeTiny value is negative. */
  lemma BinaryRowRoundTripIff(fields: seq<Field>, values: seq<Value>, row: seq<Byte>)
    requires Storable(fields, values) && IsRow(fields, values, row)
    ensures ParsedRow(fields, row) == Some(values) <==> NoNegativeTiny(fields, values)
  {
    BinaryRowParses(fields, values, row);
    var seen := AllAsRead(fields, values);
    if NoNegativeTiny(fields, values) {
      assert seen == values;
    } else {
      var i :| 0 <= i < |fields| && NegativeTiny(fields[i], values[i]);
      assert seen[i] != values[i];
    }
  }

  /** A signed TypeTiny column holding -1: every row built from it parses to 255. */
  lemma NegativeTinyExample(row: seq<Byte>)
    requires IsRow([Field(Tiny, false)], [Int(-1)], row)
    ensures Storable([Field(Tiny, false)], [Int(-1)]) && Encodable([Field(Tiny, false)], [Int(-1)])
    ensures ParsedRow([Field(Tiny, false)], row) == Some([Int(255)])
  {
    Caps();
    assert InRange(Field(Tiny, false), Int(-1));
    StorableEncodes([Field(Tiny, false)], [Int(-1)]);
    BinaryRowParses([Field(Tiny, false)], [Int(-1)], row);
    assert AllAsRead([Field(Tiny, false)], [Int(-1)]) == [Int(255)];
  }
}
