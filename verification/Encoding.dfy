/** Length-encoded and fixed-width values, and the text and binary rows made of them (`mysql/encoding.go`,
    `mysql/result.go`). */
module Encoding {
  import opened Arithmetic
  import opened Lists
  import opened Options
  import opened Decimal

  const NULL_MARK: Byte := 0xfb

  // ---------------------------------------------------------------- little-endian integers

  /** The number of values of `w` bytes. */
  function Cap(w: nat): nat { if w == 0 then 1 else 256 * Cap(w - 1) }

  /** The low `w` bytes of an integer, low byte first. */
  function LittleEndian(x: nat, w: nat): (s: seq<Byte>)
    ensures |s| == w
    decreases x, w
  {
    if w == 0 then [] else [x % 256] + LittleEndian(x / 256, w - 1)
  }

  /** The integer in the `w` bytes at `pos`. */
  function FromLittleEndian(data: seq<Byte>, pos: nat, w: nat): nat
    requires pos + w <= |data|
    decreases |data| - pos
  {
    if w == 0 then 0
    else
      var low: int := data[pos];
      low + 256 * FromLittleEndian(data, pos + 1, w - 1)
  }

  lemma {:induction false} LittleEndianInverse(pre: seq<Byte>, x: nat, w: nat, post: seq<Byte>)
    requires x < Cap(w)
    ensures FromLittleEndian(pre + LittleEndian(x, w) + post, |pre|, w) == x
    decreases w
  {
    if w > 0 {
      var b: Byte := x % 256;
      LittleEndianInverse(pre + [b], x / 256, w - 1, post);
      assert pre + LittleEndian(x, w) + post == pre + [b] + LittleEndian(x / 256, w - 1) + post;
    }
  }

  /** The low bytes do not see a multiple of their range. */
  lemma {:induction false} LittleEndianWraps(x: nat, w: nat, k: nat)
    ensures LittleEndian(x + Cap(w) * k, w) == LittleEndian(x, w)
    decreases w
  {
    if w > 0 {
      var c := Cap(w - 1) * k;
      assert Cap(w) * k == 256 * c;
      LittleEndianWraps(x / 256, w - 1, k);
      assert (x + 256 * c) / 256 == x / 256 + c;
    }
  }

  lemma {:induction false} LittleEndianPrefix(x: nat, w: nat, n: nat)
    requires n <= w
    ensures LittleEndian(x, w)[..n] == LittleEndian(x, n)
    decreases w
  {
    if n > 0 {
      LittleEndianPrefix(x / 256, w - 1, n - 1);
      assert LittleEndian(x, w)[..n] == [x % 256] + LittleEndian(x / 256, w - 1)[..n - 1];
    }
  }

  lemma Caps()
    ensures Cap(1) == 256 && Cap(2) == 0x1_0000 && Cap(3) == 0x100_0000 && Cap(4) == 0x1_0000_0000
    ensures Cap(8) == TWO_64
  {
    assert Cap(2) == 256 * Cap(1);
    assert Cap(3) == 256 * Cap(2);
    assert Cap(4) == 256 * Cap(3);
    assert Cap(5) == 256 * Cap(4);
    assert Cap(6) == 256 * Cap(5);
    assert Cap(7) == 256 * Cap(6);
    assert Cap(8) == 256 * Cap(7);
  }

  // ---------------------------------------------------------------- length-encoded integers

  function LenEncIntSize(i: nat): nat {
    if i < 251 then 1 else if i < 0x1_0000 then 3 else if i < 0x100_0000 then 4 else 9
  }

  /** AppendLenEncInt, and what WriteLenEncInt writes. */
  function LenEncInt(i: nat): (s: seq<Byte>)
    requires i < TWO_64
    ensures |s| == LenEncIntSize(i) && s[0] != NULL_MARK
    ensures s[0] == if |s| == 1 then i else if |s| == 3 then 0xfc else if |s| == 4 then 0xfd else 0xfe
  {
    if i <= 250 then [i]
    else [if i <= 0xffff then 0xfc else if i <= 0xff_ffff then 0xfd else 0xfe] + LittleEndian(i, LenEncIntSize(i) - 1)
  }

  /** A length read off a row: its value, the next position, and whether it was the NULL mark. */
  datatype Length = Length(value: nat, next: nat, isNull: bool)

  function ReadLenEncInt(data: seq<Byte>, pos: nat): (r: Option<Length>)
    ensures r.Some? ==> pos < r.value.next <= |data|
  {
    if pos >= |data| then None
    else if data[pos] == NULL_MARK then Some(Length(0, pos + 1, true))
    else if data[pos] < NULL_MARK || data[pos] == 0xff then Some(Length(data[pos], pos + 1, false))
    else
      var w := if data[pos] == 0xfc then 2 else if data[pos] == 0xfd then 3 else 8;
      if pos + w >= |data| then None else Some(Length(FromLittleEndian(data, pos + 1, w), pos + 1 + w, false))
  }

  /** A written length reads back from any place in a row, and is never taken for the NULL mark. */
  lemma LenEncIntRoundTrip(pre: seq<Byte>, i: nat, post: seq<Byte>)
    requires i < TWO_64
    ensures ReadLenEncInt(pre + LenEncInt(i) + post, |pre|) == Some(Length(i, |pre| + LenEncIntSize(i), false))
  {
    var enc := LenEncInt(i);
    assert (pre + enc + post)[|pre|] == enc[0];
    if i > 250 {
      Caps();
      var w := |enc| - 1;
      assert pre + enc + post == pre + [enc[0]] + LittleEndian(i, w) + post;
      LittleEndianInverse(pre + [enc[0]], i, w, post);
    }
  }

  /** AppendLenEncStringBytes. */
  function LenEncString(bytes: seq<Byte>): seq<Byte>
    requires |bytes| < TWO_63
  {
    LenEncInt(|bytes|) + bytes
  }

  /** A string read off a row. */
  datatype Chunk = Chunk(bytes: seq<Byte>, next: nat, isNull: bool)

  /** ReadLenEncStringAsBytes; a length that is negative as an `int` is refused here. */
  function ReadLenEncString(data: seq<Byte>, pos: nat): (r: Option<Chunk>)
    ensures r.Some? ==> pos < r.value.next <= |data|
  {
    var size := ReadLenEncInt(data, pos);
    if size.None? then None
    else
      var Length(n, at, isNull) := size.value;
      if n >= TWO_63 || at + n - 1 >= |data| then None else Some(Chunk(data[at..at + n], at + n, isNull))
  }

  lemma LenEncStringRoundTrip(pre: seq<Byte>, bytes: seq<Byte>, post: seq<Byte>)
    requires |bytes| < TWO_63
    ensures var data := pre + LenEncString(bytes) + post;
            ReadLenEncString(data, |pre|) == Some(Chunk(bytes, |pre| + |LenEncString(bytes)|, false))
  {
    var enc := LenEncInt(|bytes|);
    var data := pre + LenEncString(bytes) + post;
    assert data == pre + enc + (bytes + post);
    LenEncIntRoundTrip(pre, |bytes|, bytes + post);
    var at := |pre| + |enc|;
    assert data[at..at + |bytes|] == bytes;
  }

  // ---------------------------------------------------------------- fields and values

  datatype FieldType = Tiny | Short | Year | Int24 | Long | Longlong | VarString

  datatype Field = Field(kind: FieldType, unsigned: bool)

  /** A cell: NULL, a signed or unsigned 64-bit integer, or a string. */
  datatype Value = Null | Int(v: int) | UInt(u: nat) | Str(bytes: seq<Byte>)

  /** The number of bytes of an integer field in a binary row. */
  function Width(kind: FieldType): nat {
    match kind
    case Tiny => 1
    case Short | Year => 2
    case Int24 | Long => 4
    case Longlong => 8
    case VarString => 0
  }

  /** Parsed values put before the rest, if the rest parses. */
  function Prefix(data: seq<Value>, rest: Option<seq<Value>>): Option<seq<Value>> {
    if rest.None? then None else Some(data + rest.value)
  }

  lemma PrefixNone(rest: Option<seq<Value>>)
    ensures Prefix([], rest) == rest
  {
    if rest.Some? { assert [] + rest.value == rest.value; }
  }

  lemma PrefixTwice(a: seq<Value>, b: seq<Value>, rest: Option<seq<Value>>)
    ensures Prefix(a, Prefix(b, rest)) == Prefix(a + b, rest)
  {
    if rest.Some? { assert a + (b + rest.value) == a + b + rest.value; }
  }

  // ---------------------------------------------------------------- reading a row column by column

  /** A value read off a row, and the position after it. */
  datatype Cell = Cell(value: Value, next: nat)

  /** Columns read one after the other from `pos` on, by any reader. */
  function ReadAll<F>(columns: seq<F>, read: (F, nat) -> Option<Cell>, pos: nat): Option<seq<Value>>
    decreases |columns|
  {
    if columns == [] then Some([])
    else
      var cell := read(columns[0], pos);
      if cell.None? then None else Prefix([cell.value.value], ReadAll(columns[1..], read, cell.value.next))
  }

  lemma ReadAllStep<F>(columns: seq<F>, read: (F, nat) -> Option<Cell>, i: nat, pos: nat, data: seq<Value>)
    requires i < |columns|
    ensures var cell := read(columns[i], pos);
            Prefix(data, ReadAll(columns[i..], read, pos)) ==
            if cell.None? then None
            else Prefix(data + [cell.value.value], ReadAll(columns[i + 1..], read, cell.value.next))
  {
    assert columns[i..][1..] == columns[i + 1..];
    var cell := read(columns[i], pos);
    if cell.Some? { PrefixTwice(data, [cell.value.value], ReadAll(columns[i + 1..], read, cell.value.next)); }
  }

  /** If each column reads back at its own place, the row reads back. */
  lemma {:induction false} ReadAllBack<F>(columns: seq<F>, read: (F, nat) -> Option<Cell>, values: seq<Value>,
                                          places: seq<nat>)
    requires |values| == |columns| && |places| == |columns| + 1
    requires forall i :: 0 <= i < |columns| ==> read(columns[i], places[i]) == Some(Cell(values[i], places[i + 1]))
    ensures ReadAll(columns, read, places[0]) == Some(values)
    decreases |columns|
  {
    if columns == [] {
      assert values == [];
    } else {
      forall i | 0 <= i < |columns| - 1
        ensures read(columns[1..][i], places[1..][i]) == Some(Cell(values[1..][i], places[1..][i + 1]))
      {
        assert read(columns[i + 1], places[i + 1]) == Some(Cell(values[i + 1], places[i + 2]));
      }
      ReadAllBack(columns[1..], read, values[1..], places[1..]);
      assert [values[0]] + values[1..] == values;
    }
  }

  /** Where each cell of a row starts, and where the last one ends. */
  function Places(offset: nat, cells: seq<seq<Byte>>): (r: seq<nat>)
    ensures |r| == |cells| + 1
  {
    seq(|cells| + 1, i requires 0 <= i <= |cells| => offset + |Flatten(cells[..i])|)
  }

  /** Where a cell stands in its row. */
  lemma CellPlace(row: seq<Byte>, at: nat, cells: seq<seq<Byte>>, i: nat) returns (pre: seq<Byte>, post: seq<Byte>)
    requires at <= |row| && row[at..] == Flatten(cells) && i < |cells|
    ensures row == pre + cells[i] + post
    ensures |pre| == Places(at, cells)[i] && |pre| + |cells[i]| == Places(at, cells)[i + 1]
  {
    FlattenStep(cells, i);
    FlattenSplit(cells, i);
    pre, post := row[..at] + Flatten(cells[..i]), Flatten(cells[i + 1..]);
    assert row == row[..at] + (Flatten(cells[..i]) + cells[i] + post);
  }

  /** The reader finds `value` wherever `cell` stands in the row. */
  ghost predicate ReadsBack<F>(read: (F, nat) -> Option<Cell>, column: F, value: Value, cell: seq<Byte>,
                               row: seq<Byte>) {
    forall pre, post :: row == pre + cell + post ==> read(column, |pre|) == Some(Cell(value, |pre| + |cell|))
  }

  /** If each column reads back from its own cell, the row of all cells reads back. */
  lemma RowReadsBack<F>(columns: seq<F>, read: (F, nat) -> Option<Cell>, values: seq<Value>, cells: seq<seq<Byte>>,
                        row: seq<Byte>, at: nat)
    requires |columns| == |values| == |cells| && at <= |row| && row[at..] == Flatten(cells)
    requires forall i :: 0 <= i < |columns| ==> ReadsBack(read, columns[i], values[i], cells[i], row)
    ensures ReadAll(columns, read, at) == Some(values)
  {
    var places := Places(at, cells);
    forall i | 0 <= i < |columns| ensures read(columns[i], places[i]) == Some(Cell(values[i], places[i + 1])) {
      assert ReadsBack(read, columns[i], values[i], cells[i], row);
      var pre, post := CellPlace(row, at, cells, i);
    }
    assert cells[..0] == [];
    ReadAllBack(columns, read, values, places);
  }

  // ---------------------------------------------------------------- text rows

  /** A value a column of this type can hold in a text row. */
  predicate TextFits(field: Field, value: Value) {
    match value
    case Null => true
    case Int(v) => !field.kind.VarString? && !field.unsigned && -TWO_63 <= v < TWO_63
    case UInt(u) => !field.kind.VarString? && field.unsigned && u < TWO_64
    case Str(bytes) => field.kind.VarString? && |bytes| < TWO_63
  }

  /** formatValue. */
  function TextOf(value: Value): seq<Byte> {
    match value
    case Null => []
    case Int(v) => Format(v)
    case UInt(u) => Format(u)
    case Str(bytes) => bytes
  }

  function Ten(k: nat): nat { if k == 0 then 1 else 10 * Ten(k - 1) }

  lemma {:induction false} DigitsLength(n: nat, k: nat)
    requires k > 0 && n < Ten(k)
    ensures |Digits(n)| <= k
    decreases k
  {
    if n >= 10 {
      assert k > 1 by { assert Ten(1) == 10; }
      DigitsLength(n / 10, k - 1);
    }
  }

  lemma TenTwenty()
    ensures Ten(20) == 100_000_000_000_000_000_000
  {
    assert Ten(5) == 100_000;
    assert Ten(10) == 10_000_000_000;
    assert Ten(15) == 1_000_000_000_000_000;
  }

  lemma TextShort(field: Field, value: Value)
    requires TextFits(field, value)
    ensures |TextOf(value)| < TWO_63
  {
    TenTwenty();
    if value.Int? { DigitsLength(if value.v < 0 then -value.v else value.v, 20); }
    if value.UInt? { DigitsLength(value.u, 20); }
  }

  /** One cell of a text row: the NULL mark, or the value's text after its length. */
  function TextCell(field: Field, value: Value): seq<Byte>
    requires TextFits(field, value)
  {
    TextShort(field, value);
    if value.Null? then [NULL_MARK] else LenEncString(TextOf(value))
  }

  /** One cell of ParseText: strconv's result, which is an error out of the 64-bit range. */
  function ParseTextCell(field: Field, chunk: Chunk): Option<Value> {
    if chunk.isNull then Some(Null)
    else if field.kind.VarString? then Some(Str(chunk.bytes))
    else if field.unsigned then
      var n := ParseUint(chunk.bytes);
      if n.Some? && 0 <= n.value < TWO_64 then Some(UInt(n.value)) else None
    else
      var n := ParseInt(chunk.bytes);
      if n.Some? && -TWO_63 <= n.value < TWO_63 then Some(Int(n.value)) else None
  }

  ghost predicate TextRow(fields: seq<Field>, values: seq<Value>) {
    |fields| == |values| && forall i :: 0 <= i < |fields| ==> TextFits(fields[i], values[i])
  }

  function TextCells(fields: seq<Field>, values: seq<Value>): seq<seq<Byte>>
    requires TextRow(fields, values)
  {
    seq(|fields|, i requires 0 <= i < |fields| => TextCell(fields[i], values[i]))
  }

  /** GenerateSelectResultRowData on one row, which refuses a row of another width. */
  method GenerateRowData(fields: seq<Field>, values: seq<Value>) returns (r: Option<seq<Byte>>)
    requires |fields| == |values| ==> TextRow(fields, values)
    ensures r == if |fields| == |values| then Some(Flatten(TextCells(fields, values))) else None
  {
    if |fields| != |values| { return None; }
    var row := [];
    ghost var cells := TextCells(fields, values);
    for i := 0 to |values|
      invariant row == Flatten(cells[..i])
    {
      FlattenStep(cells, i);
      row := row + TextCell(fields[i], values[i]);
    }
    assert cells[..|values|] == cells;
    return Some(row);
  }

  /** One column of ParseText. */
  function ReadTextCell(field: Field, row: seq<Byte>, pos: nat): Option<Cell> {
    var chunk := ReadLenEncString(row, pos);
    if chunk.None? then None
    else
      var value := ParseTextCell(field, chunk.value);
      if value.None? then None else Some(Cell(value.value, chunk.value.next))
  }

  function TextReader(row: seq<Byte>): (Field, nat) -> Option<Cell> {
    (field: Field, pos: nat) => ReadTextCell(field, row, pos)
  }

  /** ParseText. */
  method ParseText(fields: seq<Field>, row: seq<Byte>) returns (r: Option<seq<Value>>)
    ensures r == ReadAll(fields, TextReader(row), 0)
  {
    var data: seq<Value>, pos := [], 0;
    ghost var read := TextReader(row);
    PrefixNone(ReadAll(fields, read, 0));
    assert fields[0..] == fields;
    for i := 0 to |fields|
      invariant ReadAll(fields, read, 0) == Prefix(data, ReadAll(fields[i..], read, pos))
    {
      ReadAllStep(fields, read, i, pos, data);
      var cell := ReadTextCell(fields[i], row, pos);
      if cell.None? { return None; }
      data, pos := data + [cell.value.value], cell.value.next;
    }
    assert data + [] == data;
    return Some(data);
  }

  /** A value's own text parses back to it. */
  lemma TextParsesBack(field: Field, value: Value, next: nat)
    requires TextFits(field, value) && !value.Null?
    ensures ParseTextCell(field, Chunk(TextOf(value), next, false)) == Some(value)
  {
    if value.Int? { ParseInverse(value.v); }
    if value.UInt? { ParseInverse(value.u); }
  }

  lemma NullReadsBack(field: Field, row: seq<Byte>)
    ensures ReadsBack(TextReader(row), field, Null, [NULL_MARK], row)
  {
    forall pre, post | row == pre + [NULL_MARK] + post
      ensures ReadTextCell(field, row, |pre|) == Some(Cell(Null, |pre| + 1))
    {
      assert row[|pre|] == NULL_MARK;
    }
  }

  lemma CellFromChunk(field: Field, row: seq<Byte>, pos: nat, chunk: Chunk, value: Value)
    requires ReadLenEncString(row, pos) == Some(chunk) && ParseTextCell(field, chunk) == Some(value)
    ensures ReadTextCell(field, row, pos) == Some(Cell(value, chunk.next))
  {
  }

  lemma TextBytesRead(pre: seq<Byte>, text: seq<Byte>, cell: seq<Byte>, post: seq<Byte>, row: seq<Byte>)
    requires |text| < TWO_63 && cell == LenEncString(text) && row == pre + cell + post
    ensures ReadLenEncString(row, |pre|) == Some(Chunk(text, |pre| + |cell|, false))
  {
    LenEncStringRoundTrip(pre, text, post);
  }

  /** A text after its length reads back wherever it stands. */
  lemma TextBytesReadBack(field: Field, value: Value, text: seq<Byte>, cell: seq<Byte>, row: seq<Byte>)
    requires |text| < TWO_63 && cell == LenEncString(text)
    requires forall next :: ParseTextCell(field, Chunk(text, next, false)) == Some(value)
    ensures ReadsBack(TextReader(row), field, value, cell, row)
  {
    forall pre, post | row == pre + cell + post
      ensures ReadTextCell(field, row, |pre|) == Some(Cell(value, |pre| + |cell|))
    {
      TextBytesRead(pre, text, cell, post, row);
      CellFromChunk(field, row, |pre|, Chunk(text, |pre| + |cell|, false), value);
    }
  }

  /** A text cell reads back wherever it stands. */
  lemma TextReadsBack(field: Field, value: Value, cell: seq<Byte>, row: seq<Byte>)
    requires TextFits(field, value) && cell == TextCell(field, value)
    ensures ReadsBack(TextReader(row), field, value, cell, row)
  {
    if value.Null? {
      NullReadsBack(field, row);
    } else {
      TextShort(field, value);
      forall next: nat { TextParsesBack(field, value, next); }
      TextBytesReadBack(field, value, TextOf(value), cell, row);
    }
  }

  /** Parsing the row regenerated from merged values gives the values: NULLs, integers and strings of any length. */
  lemma TextRowRoundTrip(fields: seq<Field>, values: seq<Value>)
    requires TextRow(fields, values)
    ensures ReadAll(fields, TextReader(Flatten(TextCells(fields, values))), 0) == Some(values)
  {
    var cells := TextCells(fields, values);
    var row := Flatten(cells);
    forall i | 0 <= i < |fields| ensures ReadsBack(TextReader(row), fields[i], values[i], cells[i], row) {
      TextReadsBack(fields[i], values[i], cells[i], row);
    }
    RowReadsBack(fields, TextReader(row), values, cells, row, 0);
  }
}
