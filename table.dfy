/** Table decoding (ElementsReader.NewTable and ElementsReader.NewRow,
    ElementsReader.cs:83-120) as functions of the stream and the cursor: the
    column filter, the optional row count, the row loop and the per-column
    type dispatch. */
module TableDecoding {
  import opened Bytes
  import opened Schema
  import opened Stream
  import opened SkipDecoding

  /** A decoded cell. Float cells keep the four IEEE-754 bytes ReadSingle
      consumed; text cells keep the encoding name and the bytes handed to
      `Encoding.GetString`. */
  datatype Value = IntValue(v: int32) | FloatValue(bits: seq<byte>) | TextValue(encoding: string, bytes: seq<byte>)

  /** A DataTable reduced to its name, its columns and its rows. */
  datatype DataTable = DataTable(name: string, columns: seq<ElementsType>, rows: seq<seq<Value>>)

  /** A cell has the shape its column's type tag promises; a string cell may
      be shorter than its size when the stream ends early. */
  predicate Conforms(v: Value, tag: TypeTag) {
    match tag
    case Int => v.IntValue?
    case Float => v.FloatValue? && |v.bits| == 4
    case Str(size, encoding) => v.TextValue? && v.encoding == encoding && |v.bytes| <= size
    case Unknown(_) => false
  }

  /** Every cell of a row conforms to its column, in column order. */
  predicate RowConforms(row: seq<Value>, types: seq<ElementsType>) {
    |row| == |types| && forall k :: 0 <= k < |row| ==> Conforms(row[k], types[k].tag)
  }

  /** One case of the `switch (type.Type)` of NewRow: an unrecognised tag
      throws before anything is read. */
  function DecodeColumn(s: seq<byte>, p: nat, t: ElementsType): (r: Read<Value>)
    requires p <= |s|
    ensures p <= r.pos <= |s|
    ensures t.tag.Unknown? ==> r == Fail(UnsupportedType(t.tag.tag), p)
    ensures r.Ok? ==> Conforms(r.value, t.tag)
    ensures r.Ok? && t.tag.Int? ==> r.pos == p + 4 && r.value.v == Int32At(s, p)
    ensures r.Ok? && t.tag.Float? ==> r.pos == p + 4 && r.value.bits == s[p..p + 4]
    ensures r.Ok? && t.tag.Str? ==> r.pos == (if p + t.tag.size <= |s| then p + t.tag.size else |s|)
    ensures r.Ok? && t.tag.Str? ==> r.value.bytes == s[p..r.pos]
    ensures r.Fail? && (t.tag.Int? || t.tag.Float?) ==> r == Fail(EndOfStream, |s|) && p + 4 > |s|
    ensures r.Fail? && t.tag.Str? ==> r == Fail(NegativeByteCount(t.tag.size), p)
  {
    match t.tag
    case Int =>
      var c := ReadInt32At(s, p);
      if c.Fail? then c.Propagate() else Ok(IntValue(c.value), c.pos)
    case Float =>
      var f := ReadSingleAt(s, p);
      if f.Fail? then f.Propagate() else Ok(FloatValue(f.value), f.pos)
    case Str(size, encoding) =>
      var b := ReadBytesAt(s, p, size);
      if b.Fail? then b.Propagate() else Ok(TextValue(encoding, b.value), b.pos)
    case Unknown(tag) => Fail(UnsupportedType(tag), p)
  }

  /** NewRow: the columns decoded one after the other. */
  function DecodeRow(s: seq<byte>, p: nat, types: seq<ElementsType>): (r: Read<seq<Value>>)
    requires p <= |s|
    ensures p <= r.pos <= |s|
    ensures r.Ok? ==> RowConforms(r.value, types)
    decreases |types|
  {
    if |types| == 0 then Ok([], p)
    else
      var c := DecodeColumn(s, p, types[0]);
      if c.Fail? then c.Propagate()
      else
        var rest := DecodeRow(s, c.pos, types[1..]);
        assert rest.Ok? ==> forall k :: 1 <= k < |types| ==> types[1..][k - 1] == types[k];
        Cons([c.value], rest)
  }

  /** The loop `for (var i = 0; i < length; i++)` of NewTable: n rows. */
  function DecodeRows(s: seq<byte>, p: nat, types: seq<ElementsType>, n: nat): (r: Read<seq<seq<Value>>>)
    requires p <= |s|
    ensures p <= r.pos <= |s|
    ensures r.Ok? ==> |r.value| == n
    ensures r.Ok? ==> forall j :: 0 <= j < |r.value| ==> RowConforms(r.value[j], types)
    decreases n
  {
    if n == 0 then Ok([], p)
    else
      var row := DecodeRow(s, p, types);
      if row.Fail? then row.Propagate()
      else Cons([row.value], DecodeRows(s, row.pos, types, n - 1))
  }

  /** The list after the assignment `list.Types = list.Types.Where(...)`. */
  function Filtered(list: ElementsList, version: int): (l: ElementsList)
    ensures l.name == list.name && l.version == list.version && l.skip == list.skip
    ensures l.types == ActiveTypes(list.types, version)
  {
    list.(types := ActiveTypes(list.types, version))
  }

  /** NewTable: the active columns; no row count and no rows when there are
      none; otherwise an int32 row count and max(count, 0) rows. */
  function DecodeTable(s: seq<byte>, p: nat, list: ElementsList, version: int): (r: Read<DataTable>)
    requires p <= |s|
    ensures p <= r.pos <= |s|
    ensures r.Ok? ==> r.value.name == list.name && r.value.columns == ActiveTypes(list.types, version)
    ensures r.Ok? ==> forall j :: 0 <= j < |r.value.rows| ==> RowConforms(r.value.rows[j], r.value.columns)
    ensures |ActiveTypes(list.types, version)| == 0 ==> r == Ok(DataTable(list.name, [], []), p)
    ensures |ActiveTypes(list.types, version)| > 0 && r.Ok? ==>
      p + 4 <= |s| && |r.value.rows| == Iterations(Int32At(s, p))
  {
    var columns := ActiveTypes(list.types, version);
    if |columns| == 0 then Ok(DataTable(list.name, columns, []), p)
    else
      var length := ReadInt32At(s, p);
      if length.Fail? then length.Propagate()
      else
        var rows := DecodeRows(s, length.pos, columns, Iterations(length.value));
        if rows.Fail? then rows.Propagate()
        else Ok(DataTable(list.name, columns, rows.value), rows.pos)
  }

  // ---------------------------------------------------------------------
  // Failure on an unrecognised type

  /** A row whose column k has an unrecognised tag fails with
      UnsupportedType exactly where column k starts, once the columns before
      it have been read: no byte of column k is consumed. */
  lemma {:induction false} UnknownColumnFailsAtItsStart(s: seq<byte>, p: nat, types: seq<ElementsType>, k: nat)
    requires p <= |s| && k < |types| && types[k].tag.Unknown?
    requires DecodeRow(s, p, types[..k]).Ok?
    ensures DecodeRow(s, p, types) == Fail(UnsupportedType(types[k].tag.tag), DecodeRow(s, p, types[..k]).pos)
    decreases k
  {
    if k > 0 {
      var c := DecodeColumn(s, p, types[0]);
      assert types[..k][0] == types[0];
      assert types[..k][1..] == types[1..][..k - 1];
      UnknownColumnFailsAtItsStart(s, c.pos, types[1..], k - 1);
    }
  }

  // ---------------------------------------------------------------------
  // Bytes consumed by rows of fixed width

  /** The bytes a column of the given tag occupies. */
  function ColumnWidth(tag: TypeTag): nat {
    match tag
    case Int => 4
    case Float => 4
    case Str(size, _) => if size < 0 then 0 else size
    case Unknown(_) => 0
  }

  /** The bytes one row occupies. */
  function RowWidth(types: seq<ElementsType>): nat
    decreases |types|
  {
    if |types| == 0 then 0 else ColumnWidth(types[0].tag) + RowWidth(types[1..])
  }

  /** Every column can be decoded: a known tag, and no negative string size. */
  predicate Decodable(types: seq<ElementsType>) {
    forall k :: 0 <= k < |types| ==> !types[k].tag.Unknown? && (types[k].tag.Str? ==> types[k].tag.size >= 0)
  }

  lemma PeelFactor(n: nat, w: nat)
    requires n > 0
    ensures n * w == w + (n - 1) * w
  {
  }

  lemma Regroup(n: nat, c: nat)
    ensures n * (4 * c) == n * 4 * c
  {
  }

  /** With a whole row's bytes available, a row of decodable columns reads
      exactly RowWidth bytes. */
  lemma {:induction false} RowReadsItsWidth(s: seq<byte>, p: nat, types: seq<ElementsType>)
    requires Decodable(types) && p + RowWidth(types) <= |s|
    ensures DecodeRow(s, p, types).Ok? && DecodeRow(s, p, types).pos == p + RowWidth(types)
    decreases |types|
  {
    if |types| > 0 {
      var c := DecodeColumn(s, p, types[0]);
      assert c.Ok? && c.pos == p + ColumnWidth(types[0].tag);
      assert forall k :: 0 <= k < |types[1..]| ==> types[1..][k] == types[k + 1];
      RowReadsItsWidth(s, c.pos, types[1..]);
    }
  }

  /** n such rows read exactly n * RowWidth bytes. */
  lemma {:induction false} RowsReadTheirWidth(s: seq<byte>, p: nat, types: seq<ElementsType>, n: nat)
    requires Decodable(types) && p + n * RowWidth(types) <= |s|
    ensures DecodeRows(s, p, types, n).Ok? && DecodeRows(s, p, types, n).pos == p + n * RowWidth(types)
    decreases n
  {
    if n > 0 {
      var w := RowWidth(types);
      PeelFactor(n, w);
      RowReadsItsWidth(s, p, types);
      var row := DecodeRow(s, p, types);
      RowsReadTheirWidth(s, row.pos, types, n - 1);
      assert DecodeRows(s, p, types, n) == Cons([row.value], DecodeRows(s, row.pos, types, n - 1));
    }
  }

  /** Cell k of a decoded row is column k decoded where the row's first k
      columns end. */
  lemma {:induction false} RowSplitsAt(s: seq<byte>, p: nat, types: seq<ElementsType>, k: nat)
    requires p <= |s| && k < |types| && DecodeRow(s, p, types).Ok?
    ensures DecodeRow(s, p, types[..k]).Ok? && DecodeColumn(s, DecodeRow(s, p, types[..k]).pos, types[k]).Ok?
    ensures DecodeRow(s, p, types).value[k] == DecodeColumn(s, DecodeRow(s, p, types[..k]).pos, types[k]).value
    decreases k
  {
    var c := DecodeColumn(s, p, types[0]);
    var rest := DecodeRow(s, c.pos, types[1..]);
    assert DecodeRow(s, p, types) == Cons([c.value], rest);
    if k > 0 {
      RowSplitsAt(s, c.pos, types[1..], k - 1);
      assert types[..k][0] == types[0];
      assert types[..k][1..] == types[1..][..k - 1];
      assert DecodeRow(s, p, types[..k]) == Cons([c.value], DecodeRow(s, c.pos, types[1..][..k - 1]));
    }
  }

  /** Row j of decoded rows is the row decoded where the first j rows end. */
  lemma {:induction false} RowsSplitAt(s: seq<byte>, p: nat, types: seq<ElementsType>, n: nat, j: nat)
    requires p <= |s| && j < n && DecodeRows(s, p, types, n).Ok?
    ensures DecodeRows(s, p, types, j).Ok? && DecodeRow(s, DecodeRows(s, p, types, j).pos, types).Ok?
    ensures DecodeRows(s, p, types, n).value[j] == DecodeRow(s, DecodeRows(s, p, types, j).pos, types).value
    decreases j
  {
    var row := DecodeRow(s, p, types);
    var rest := DecodeRows(s, row.pos, types, n - 1);
    assert DecodeRows(s, p, types, n) == Cons([row.value], rest);
    if j == 0 {
      assert DecodeRows(s, p, types, j) == Ok([], p);
    } else {
      RowsSplitAt(s, row.pos, types, n - 1, j - 1);
      var before := DecodeRows(s, row.pos, types, j - 1);
      assert DecodeRows(s, p, types, j) == Cons([row.value], before);
      var next := DecodeRow(s, before.pos, types);
      assert rest.value[j - 1] == next.value;
    }
  }


  /** Where row j starts, counted from the first row. */
  function RowOffset(j: nat, types: seq<ElementsType>): nat {
    j * RowWidth(types)
  }

  /** The first k columns and column k fit in the row. */
  lemma {:induction false} PrefixWidth(types: seq<ElementsType>, k: nat)
    requires k < |types|
    ensures RowWidth(types[..k]) + ColumnWidth(types[k].tag) <= RowWidth(types)
    decreases k
  {
    if k > 0 {
      PrefixWidth(types[1..], k - 1);
      assert types[..k][0] == types[0];
      assert types[..k][1..] == types[1..][..k - 1];
    }
  }

  /** j rows and one more fit in n rows when j < n. */
  lemma {:induction false} RowsBefore(n: nat, j: nat, w: nat)
    requires j < n
    ensures j * w + w <= n * w
    decreases n
  {
    PeelFactor(n, w);
    if j < n - 1 {
      RowsBefore(n - 1, j, w);
    }
  }

  /** Cell k of a row of decodable columns, with the whole row's bytes
      available, is column k decoded after the widths of the k columns
      before it. */
  lemma DecodeRowCellAt(s: seq<byte>, p: nat, types: seq<ElementsType>, k: nat)
    requires Decodable(types) && p + RowWidth(types) <= |s| && k < |types|
    ensures p + RowWidth(types[..k]) + ColumnWidth(types[k].tag) <= |s|
    ensures DecodeRow(s, p, types).Ok?
    ensures DecodeRow(s, p, types).value[k] == DecodeColumn(s, p + RowWidth(types[..k]), types[k]).value
  {
    PrefixWidth(types, k);
    RowReadsItsWidth(s, p, types);
    RowReadsItsWidth(s, p, types[..k]);
    RowSplitsAt(s, p, types, k);
  }

  /** Row j of n rows of decodable columns, with all n rows' bytes
      available, is the row decoded j row widths after the first. */
  lemma DecodeRowsAt(s: seq<byte>, p: nat, types: seq<ElementsType>, n: nat, j: nat)
    requires Decodable(types) && p + n * RowWidth(types) <= |s| && j < n
    ensures p + RowOffset(j, types) + RowWidth(types) <= |s|
    ensures DecodeRows(s, p, types, n).Ok? && DecodeRow(s, p + RowOffset(j, types), types).Ok?
    ensures DecodeRows(s, p, types, n).value[j] == DecodeRow(s, p + RowOffset(j, types), types).value
  {
    RowsBefore(n, j, RowWidth(types));
    RowsReadTheirWidth(s, p, types, n);
    RowsReadTheirWidth(s, p, types, j);
    RowsSplitAt(s, p, types, n, j);
  }

  /** A table whose decodable columns are not all filtered out consumes the
      4-byte row count and then rows * RowWidth bytes, rows = max(count, 0). */
  lemma TableReadsItsWidth(s: seq<byte>, p: nat, list: ElementsList, version: int)
    requires var columns := ActiveTypes(list.types, version);
      |columns| > 0 && Decodable(columns) && p + 4 <= |s| &&
      p + 4 + Iterations(Int32At(s, p)) * RowWidth(columns) <= |s|
    ensures var columns := ActiveTypes(list.types, version);
      var r := DecodeTable(s, p, list, version);
      && r.Ok?
      && |r.value.rows| == Iterations(Int32At(s, p))
      && r.pos == p + 4 + |r.value.rows| * RowWidth(columns)
  {
    var columns := ActiveTypes(list.types, version);
    RowsReadTheirWidth(s, p + 4, columns, Iterations(Int32At(s, p)));
  }

  /** All columns are int columns. */
  predicate AllInt(types: seq<ElementsType>) {
    forall k :: 0 <= k < |types| ==> types[k].tag == Int
  }

  /** An all-int row is four bytes per column. */
  lemma {:induction false} IntRowWidth(types: seq<ElementsType>)
    requires AllInt(types)
    ensures Decodable(types) && RowWidth(types) == 4 * |types|
    decreases |types|
  {
    if |types| > 0 {
      assert forall k :: 0 <= k < |types[1..]| ==> types[1..][k] == types[k + 1];
      IntRowWidth(types[1..]);
    }
  }

  /** An all-int row holds, in column k, the int32 stored 4k bytes after the
      start of the row. */
  lemma {:induction false} IntRowValues(s: seq<byte>, p: nat, types: seq<ElementsType>)
    requires AllInt(types) && p + 4 * |types| <= |s|
    ensures var r := DecodeRow(s, p, types);
      && r.Ok? && r.pos == p + 4 * |types|
      && forall k :: 0 <= k < |types| ==> r.value[k] == IntValue(Int32At(s, p + 4 * k))
    decreases |types|
  {
    if |types| > 0 {
      var c := DecodeColumn(s, p, types[0]);
      assert c == Ok(IntValue(Int32At(s, p)), p + 4);
      var rest := DecodeRow(s, p + 4, types[1..]);
      assert rest.Ok? && rest.pos == p + 4 * |types|
        && forall k :: 0 <= k < |types| - 1 ==> rest.value[k] == IntValue(Int32At(s, p + 4 + 4 * k)) by {
        assert forall k :: 0 <= k < |types[1..]| ==> types[1..][k] == types[k + 1];
        IntRowValues(s, p + 4, types[1..]);
      }
      var row := [c.value] + rest.value;
      assert DecodeRow(s, p, types) == Ok(row, rest.pos);
      forall k | 1 <= k < |types|
        ensures row[k] == IntValue(Int32At(s, p + 4 * k))
      {
        assert row[k] == rest.value[k - 1];
        assert p + 4 + 4 * (k - 1) == p + 4 * k;
      }
    }
  }

  /** A table of int columns consumes 4 + rows * 4 * |columns| bytes. */
  lemma IntTableWidth(s: seq<byte>, p: nat, list: ElementsList, version: int)
    requires var columns := ActiveTypes(list.types, version);
      |columns| > 0 && AllInt(columns) && p + 4 <= |s| &&
      p + 4 + Iterations(Int32At(s, p)) * (4 * |columns|) <= |s|
    ensures var columns := ActiveTypes(list.types, version);
      var r := DecodeTable(s, p, list, version);
      && r.Ok?
      && |r.value.rows| == Iterations(Int32At(s, p))
      && r.pos == p + 4 + |r.value.rows| * 4 * |columns|
  {
    var columns := ActiveTypes(list.types, version);
    var n := Iterations(Int32At(s, p));
    IntRowWidth(columns);
    Regroup(n, |columns|);
    TableReadsItsWidth(s, p, list, version);
  }

  // ---------------------------------------------------------------------
  // AUTO skip followed by a table

  /** After an AUTO skip region, a table with columns reads as its row count
      the value the scan stopped on, so it has between 1 and 10000 rows. */
  lemma AutoSkipThenTable(s: seq<byte>, p: nat, list: ElementsList, version: int)
    requires p <= |s|
    requires SkipRegion(s, p, Auto).Ok?
    requires |ActiveTypes(list.types, version)| > 0
    ensures var q := SkipRegion(s, p, Auto).pos;
      var t := DecodeTable(s, q, list, version);
      t.Ok? ==> InWindow(|t.value.rows|)
  {
  }
}
