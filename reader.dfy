/** ElementsReader itself (ElementsReader.cs:18-166): the decoder as a class
    whose methods advance a BinaryReader step by step, each proved to compute
    what the corresponding function of Decoding, TableDecoding or
    SkipDecoding says. */
module Reader {
  import opened Bytes
  import opened Schema
  import opened Stream
  import opened SkipDecoding
  import opened TableDecoding
  import opened Decoding

  // ---------------------------------------------------------------------
  // How the loops of ReadSkip walk the RAW and AUTO functions

  /** One rejected value of the AUTO scan, seen from the loop: its four
      bytes, then the rest of the scan. */
  lemma AutoScanRejects(s: seq<byte>, q: nat, vals: Blob, c: int32)
    requires q + 4 <= |s| && c == Int32At(s, q) && !InWindow(c)
    ensures Cons(vals, AutoScan(s, q)) == Cons(vals + [Int32Bytes(c)], AutoScan(s, q + 4))
  {
    ConsCons(vals, [Int32Bytes(c)], AutoScan(s, q + 4));
  }

  /** One more outer entry of the RAW region read as e: its chunks join
      the values and the loop continues with one entry fewer. */
  lemma RawOuterNext(s: seq<byte>, q: nat, k: nat, vals: Blob, e: Read<Blob>)
    requires q <= |s| && k > 0 && e == RawOuterEntry(s, q)
    ensures e.Fail? ==> Cons(vals, RawOuter(s, q, k)) == e
    ensures e.Ok? ==> Cons(vals, RawOuter(s, q, k)) == Cons(vals + e.value, RawOuter(s, e.pos, k - 1))
  {
    if e.Ok? {
      ConsCons(vals, e.value, RawOuter(s, e.pos, k - 1));
    }
  }

  /** One more inner entry read as e: its chunks join the values and the
      loop continues with one entry fewer. */
  lemma RawInnerNext(s: seq<byte>, q: nat, k: nat, vals: Blob, e: Read<Blob>)
    requires q <= |s| && k > 0 && e == RawInnerEntry(s, q)
    ensures e.Fail? ==> Cons(vals, RawInner(s, q, k)) == e
    ensures e.Ok? ==> Cons(vals, RawInner(s, q, k)) == Cons(vals + e.value, RawInner(s, e.pos, k - 1))
  {
    if e.Ok? {
      ConsCons(vals, e.value, RawInner(s, e.pos, k - 1));
    }
  }

  // ---------------------------------------------------------------------
  // How the loops of NewRow, NewTable and Read walk their functions

  /** Column j decoded as c: the cell joins the row and the loop continues
      with the columns after it. */
  lemma DecodeRowNext(s: seq<byte>, q: nat, types: seq<ElementsType>, j: nat, row: seq<Value>, c: Read<Value>)
    requires q <= |s| && j < |types| && c == DecodeColumn(s, q, types[j])
    ensures c.Fail? ==> Cons(row, DecodeRow(s, q, types[j..])) == c.Propagate()
    ensures c.Ok? ==> Cons(row, DecodeRow(s, q, types[j..])) == Cons(row + [c.value], DecodeRow(s, c.pos, types[j + 1..]))
  {
    assert types[j..][0] == types[j];
    assert types[j..][1..] == types[j + 1..];
    if c.Ok? {
      ConsCons(row, [c.value], DecodeRow(s, c.pos, types[j + 1..]));
    }
  }

  /** The next row decoded as row: it joins the rows and the loop continues
      with k - 1 rows to go. */
  lemma DecodeRowsNext(s: seq<byte>, q: nat, types: seq<ElementsType>, k: nat, rows: seq<seq<Value>>, row: Read<seq<Value>>)
    requires q <= |s| && k > 0 && row == DecodeRow(s, q, types)
    ensures row.Fail? ==> Cons(rows, DecodeRows(s, q, types, k)) == row.Propagate()
    ensures row.Ok? ==> Cons(rows, DecodeRows(s, q, types, k)) == Cons(rows + [row.value], DecodeRows(s, row.pos, types, k - 1))
  {
    if row.Ok? {
      ConsCons(rows, [row.value], DecodeRows(s, row.pos, types, k - 1));
    }
  }

  /** The k-th iteration of the list loop whose skip region throws: the
      exception ends the whole pass. */
  lemma PassSkipFails(s: seq<byte>, p: nat, active: seq<ElementsList>, k: nat, version: int,
                      acc: Pass, q: nat, sk: Read<Option<Blob>>)
    requires p <= |s| && k < |active|
    requires DecodeLists(s, p, active[..k], version) == Ok(acc, q)
    requires sk == SkipEntry(s, q, active[k]) && sk.Fail?
    ensures DecodeLists(s, p, active, version) == sk.Propagate()
  {
    DecodeListsStep(s, p, active, k, version);
    DecodeListsFailurePersists(s, p, active, k + 1, version);
  }

  /** An iteration whose skip region was read: its table either ends the
      pass with its exception or extends the pass by one table. */
  lemma PassNext(s: seq<byte>, p: nat, active: seq<ElementsList>, k: nat, version: int,
                 acc: Pass, q: nat, sk: Read<Option<Blob>>, t: Read<DataTable>)
    requires p <= |s| && k < |active|
    requires DecodeLists(s, p, active[..k], version) == Ok(acc, q)
    requires sk == SkipEntry(s, q, active[k]) && sk.Ok?
    requires t == DecodeTable(s, sk.pos, active[k], version)
    ensures t.Fail? ==> DecodeLists(s, p, active, version) == t.Propagate()
    ensures t.Ok? ==> (DecodeLists(s, p, active[..k + 1], version) ==
      Ok(Pass(acc.tables + [t.value],
              if sk.value.Some? then acc.skipValues[k := sk.value.value] else acc.skipValues,
              acc.lists + [Filtered(active[k], version)]),
         t.pos))
  {
    DecodeListsStep(s, p, active, k, version);
    if t.Fail? {
      DecodeListsFailurePersists(s, p, active, k + 1, version);
    }
  }

  /** Once the four header bytes are there, the decode is the pass over
      the lists of the version they hold. */
  lemma DecodeAfterHeader(s: seq<byte>, p: nat, lists: seq<ElementsList>, version: int, segmentation: int)
    requires p + 4 <= |s|
    requires version == Int16LE(s[p], s[p + 1]) && segmentation == Int16LE(s[p + 2], s[p + 3])
    ensures var pass := DecodeLists(s, p + 4, ActiveLists(lists, version), version);
      && (pass.Fail? ==> Decode(s, p, lists) == Fail(pass.error, pass.pos))
      && (pass.Ok? ==> (Decode(s, p, lists) ==
            Ok(ElementsData(version, segmentation, pass.value.tables, pass.value.skipValues, pass.value.lists), pass.pos)))
  {
  }

  // ---------------------------------------------------------------------
  // The class

  class ElementsReader {
    /** `_config.Lists`: the schema, already loaded. */
    const lists: seq<ElementsList>
    /** The file version read by the last successful header read. */
    var version: int
    /** The `ElementsData` property: set once a whole file has been read. */
    var elementsData: Option<ElementsData>

    constructor (config: seq<ElementsList>)
      ensures lists == config && version == 0 && elementsData == None
    {
      lists := config;
      version := 0;
      elementsData := None;
    }

    /** ReadSkip (ElementsReader.cs:122-165): the policy's branch. The
        default branch reads `int.Parse(Skip)` bytes as one chunk. */
    method ReadSkip(br: BinaryReader, list: ElementsList) returns (r: Read<Blob>)
      requires br.Valid()
      modifies br
      ensures br.Valid() && r == SkipRegion(br.data, old(br.pos), list.skip) && br.pos == r.pos
    {
      match list.skip {
        case Auto =>
          r := ReadAutoSkip(br);
        case Raw =>
          r := ReadRawSkip(br);
        case Fixed(n) =>
          var b := br.ReadBytes(n);
          r := if b.Fail? then b.Propagate() else Ok([b.value], b.pos);
        case NoSkip =>
          var b := br.ReadBytes(0);
          r := Ok([b.value], b.pos);
      }
    }

    /** The AUTO branch (ElementsReader.cs:127-139): four bytes, a length
        and that many bytes, then int32 values until one lies in
        (0, 10000]; the cursor moves back over that one. */
    method ReadAutoSkip(br: BinaryReader) returns (r: Read<Blob>)
      requires br.Valid()
      modifies br
      ensures br.Valid() && r == AutoSkip(br.data, old(br.pos)) && br.pos == r.pos
    {
      ghost var s, p := br.data, br.pos;
      ghost var goal := AutoSkip(s, p);
      var head := br.ReadBytes(4);
      var len := br.ReadInt32();
      if len.Fail? {
        return len.Propagate();
      }
      var body := br.ReadBytes(len.value);
      if body.Fail? {
        return body.Propagate();
      }
      var vals := [head.value, Int32Bytes(len.value), body.value];
      var start := br.pos;
      var count := br.ReadInt32();
      while count.Ok? && !InWindow(count.value)
        invariant br.Valid() && br.data == s && start <= |s|
        invariant count == ReadInt32At(s, start) && br.pos == count.pos
        invariant Cons(vals, AutoScan(s, start)) == goal
        decreases |s| - start
      {
        ghost var before, q := vals, start;
        vals := vals + [Int32Bytes(count.value)];
        start := br.pos;
        AutoScanRejects(s, q, before, count.value);
        count := br.ReadInt32();
      }
      if count.Fail? {
        return count.Propagate();
      }
      br.MoveBack(4);
      assert vals + [] == vals;
      r := Ok(vals, br.pos);
    }

    /** The RAW branch (ElementsReader.cs:140-159): an outer count, then for
        each outer entry 132 bytes, an inner count and the inner entries. */
    method ReadRawSkip(br: BinaryReader) returns (r: Read<Blob>)
      requires br.Valid()
      modifies br
      ensures br.Valid() && r == RawSkip(br.data, old(br.pos)) && br.pos == r.pos
    {
      ghost var s, p := br.data, br.pos;
      ghost var goal := RawSkip(s, p);
      var rCount := br.ReadInt32();
      if rCount.Fail? {
        return rCount.Propagate();
      }
      ghost var n := Iterations(rCount.value);
      var vals := [Int32Bytes(rCount.value)];
      var i := 0;
      while i < rCount.value
        invariant br.Valid() && br.data == s && 0 <= i <= n
        invariant Cons(vals, RawOuter(s, br.pos, n - i)) == goal
      {
        ghost var q := br.pos;
        var e := ReadOuterEntry(br);
        RawOuterNext(s, q, n - i, vals, e);
        if e.Fail? {
          return e;
        }
        vals := vals + e.value;
        i := i + 1;
      }
      assert vals + [] == vals;
      r := Ok(vals, br.pos);
    }

    /** One outer entry of the RAW branch (ElementsReader.cs:145-157): 132
        bytes, an inner count and that many inner entries. */
    method ReadOuterEntry(br: BinaryReader) returns (r: Read<Blob>)
      requires br.Valid()
      modifies br
      ensures br.Valid() && r == RawOuterEntry(br.data, old(br.pos)) && br.pos == r.pos
    {
      var header := br.ReadBytes(132);
      var count2 := br.ReadInt32();
      if count2.Fail? {
        return count2.Propagate();
      }
      var inner := ReadInnerEntries(br, count2.value);
      if inner.Fail? {
        return inner;
      }
      r := Ok([header.value, Int32Bytes(count2.value)] + inner.value, inner.pos);
    }

    /** The inner loop of the RAW branch (ElementsReader.cs:148-157): count2
        inner entries, none when count2 is not positive. */
    method ReadInnerEntries(br: BinaryReader, count2: int32) returns (r: Read<Blob>)
      requires br.Valid()
      modifies br
      ensures br.Valid() && r == RawInner(br.data, old(br.pos), Iterations(count2)) && br.pos == r.pos
    {
      ghost var s, p := br.data, br.pos;
      ghost var goal := RawInner(s, p, Iterations(count2));
      ghost var n := Iterations(count2);
      var vals: Blob := [];
      ConsEmpty(goal);
      var i2 := 0;
      while i2 < count2
        invariant br.Valid() && br.data == s && 0 <= i2 <= n
        invariant Cons(vals, RawInner(s, br.pos, n - i2)) == goal
      {
        ghost var q := br.pos;
        var e := ReadInnerEntry(br);
        RawInnerNext(s, q, n - i2, vals, e);
        if e.Fail? {
          return e;
        }
        vals := vals + e.value;
        i2 := i2 + 1;
      }
      assert vals + [] == vals;
      r := Ok(vals, br.pos);
    }

    /** One inner entry of the RAW branch (ElementsReader.cs:150-156): eight
        bytes, a length l and `l * 2` bytes, a count c3 and `c3 * 136` bytes;
        both products wrap around as unchecked int arithmetic. */
    method ReadInnerEntry(br: BinaryReader) returns (r: Read<Blob>)
      requires br.Valid()
      modifies br
      ensures br.Valid() && r == RawInnerEntry(br.data, old(br.pos)) && br.pos == r.pos
    {
      var prefix := br.ReadBytes(8);
      var l := br.ReadInt32();
      if l.Fail? {
        return l.Propagate();
      }
      var text := br.ReadBytes(Wrap32((l.value as int) * 2));
      if text.Fail? {
        return text.Propagate();
      }
      var count3 := br.ReadInt32();
      if count3.Fail? {
        return count3.Propagate();
      }
      var items := br.ReadBytes(Wrap32((count3.value as int) * 136));
      if items.Fail? {
        return items.Propagate();
      }
      r := Ok([prefix.value, Int32Bytes(l.value), text.value, Int32Bytes(count3.value), items.value], items.pos);
    }

    /** NewRow (ElementsReader.cs:102-120): one cell per column, in column
        order, by the column's type tag; an unrecognised tag throws. */
    method NewRow(br: BinaryReader, types: seq<ElementsType>) returns (r: Read<seq<Value>>)
      requires br.Valid()
      modifies br
      ensures br.Valid() && r == DecodeRow(br.data, old(br.pos), types) && br.pos == r.pos
    {
      ghost var s, p := br.data, br.pos;
      ghost var goal := DecodeRow(s, p, types);
      var row: seq<Value> := [];
      assert types[0..] == types;
      ConsEmpty(goal);
      var j := 0;
      while j < |types|
        invariant br.Valid() && br.data == s && 0 <= j <= |types| && |row| == j
        invariant Cons(row, DecodeRow(s, br.pos, types[j..])) == goal
      {
        ghost var q := br.pos;
        var c: Read<Value>;
        match types[j].tag {
          case Int =>
            var v := br.ReadInt32();
            c := if v.Fail? then v.Propagate() else Ok(IntValue(v.value), v.pos);
          case Float =>
            var f := br.ReadSingle();
            c := if f.Fail? then f.Propagate() else Ok(FloatValue(f.value), f.pos);
          case Str(size, encoding) =>
            var b := br.ReadBytes(size);
            c := if b.Fail? then b.Propagate() else Ok(TextValue(encoding, b.value), b.pos);
          case Unknown(tag) =>
            c := Fail(UnsupportedType(tag), br.pos);
        }
        DecodeRowNext(s, q, types, j, row, c);
        if c.Fail? {
          return c.Propagate();
        }
        row := row + [c.value];
        j := j + 1;
      }
      assert row + [] == row;
      r := Ok(row, br.pos);
    }

    /** NewTable (ElementsReader.cs:83-100): the list's columns are filtered
        by the file version (`updated` is the list after `list.Types` is
        reassigned); without columns nothing is read, otherwise an int32 row
        count and that many rows. */
    method NewTable(br: BinaryReader, list: ElementsList) returns (updated: ElementsList, r: Read<DataTable>)
      requires br.Valid()
      modifies br
      ensures updated == Filtered(list, version)
      ensures br.Valid() && r == DecodeTable(br.data, old(br.pos), list, version) && br.pos == r.pos
    {
      updated := list.(types := ActiveTypes(list.types, version));
      var columns := updated.types;
      if |columns| == 0 {
        return updated, Ok(DataTable(list.name, columns, []), br.pos);
      }
      var length := br.ReadInt32();
      if length.Fail? {
        return updated, length.Propagate();
      }
      var rows := ReadRows(br, columns, length.value);
      r := if rows.Fail? then rows.Propagate() else Ok(DataTable(list.name, columns, rows.value), rows.pos);
    }

    /** The row loop of NewTable (ElementsReader.cs:96-97): `length` rows
        of the given columns, none when `length` is not positive. */
    method ReadRows(br: BinaryReader, columns: seq<ElementsType>, length: int32) returns (r: Read<seq<seq<Value>>>)
      requires br.Valid()
      modifies br
      ensures br.Valid() && r == DecodeRows(br.data, old(br.pos), columns, Iterations(length)) && br.pos == r.pos
    {
      ghost var s, p := br.data, br.pos;
      ghost var n := Iterations(length);
      ghost var goal := DecodeRows(s, p, columns, n);
      var rows: seq<seq<Value>> := [];
      ConsEmpty(goal);
      var i := 0;
      while i < length
        invariant br.Valid() && br.data == s && 0 <= i <= n && |rows| == i
        invariant Cons(rows, DecodeRows(s, br.pos, columns, n - i)) == goal
      {
        ghost var q := br.pos;
        var row := NewRow(br, columns);
        DecodeRowsNext(s, q, columns, n - i, rows, row);
        if row.Fail? {
          return row.Propagate();
        }
        rows := rows + [row.value];
        i := i + 1;
      }
      assert rows + [] == rows;
      r := Ok(rows, br.pos);
    }

    /** The guarded skip of ElementsReader.cs:73-74: the list's skip region,
        unless its policy is "0". */
    method ReadSkipEntry(br: BinaryReader, list: ElementsList) returns (r: Read<Option<Blob>>)
      requires br.Valid()
      modifies br
      ensures br.Valid() && r == SkipEntry(br.data, old(br.pos), list) && br.pos == r.pos
    {
      if list.skip == NoSkip {
        return Ok(None, br.pos);
      }
      var sk := ReadSkip(br, list);
      r := if sk.Fail? then sk.Propagate() else Ok(Some(sk.value), sk.pos);
    }

    /** The `foreach` of ElementsReader.cs:70-78 over the active lists: for
        each, its skip entry and its table, collected in order. */
    method ReadLists(br: BinaryReader, current: seq<ElementsList>) returns (r: Read<Pass>)
      requires br.Valid()
      modifies br
      ensures br.Valid() && r == DecodeLists(br.data, old(br.pos), current, version) && br.pos == r.pos
    {
      ghost var s, p := br.data, br.pos;
      var tables: seq<DataTable> := [];
      var skipValues: map<nat, Blob> := map[];
      var filtered: seq<ElementsList> := [];
      assert current[..0] == [];
      var k := 0;
      while k < |current|
        invariant br.Valid() && br.data == s && 0 <= k <= |current|
        invariant DecodeLists(s, p, current[..k], version) == Ok(Pass(tables, skipValues, filtered), br.pos)
      {
        ghost var q, acc := br.pos, Pass(tables, skipValues, filtered);
        var list := current[k];
        var entry := ReadSkipEntry(br, list);
        if entry.Fail? {
          PassSkipFails(s, p, current, k, version, acc, q, entry);
          return entry.Propagate();
        }
        if entry.value.Some? {
          skipValues := skipValues[k := entry.value.value];
        }
        var updated, t := NewTable(br, list);
        PassNext(s, p, current, k, version, acc, q, entry, t);
        if t.Fail? {
          return t.Propagate();
        }
        tables := tables + [t.value];
        filtered := filtered + [updated];
        k := k + 1;
      }
      assert current[..k] == current;
      r := Ok(Pass(tables, skipValues, filtered), br.pos);
    }

    /** Read (ElementsReader.cs:63-81): version and segmentation, the lists
        of that version, and for each of them its skip region (unless its
        policy is "0") and its table. An exception leaves `elementsData`
        as it was. */
    method Read(br: BinaryReader) returns (r: Read<ElementsData>)
      requires br.Valid()
      modifies this, br
      ensures br.Valid() && r == Decode(br.data, old(br.pos), lists) && br.pos == r.pos
      ensures r.Ok? ==> elementsData == Some(r.value) && version == r.value.version
      ensures r.Fail? ==> elementsData == old(elementsData)
    {
      ghost var s, p := br.data, br.pos;
      var v := br.ReadInt16();
      if v.Fail? {
        return v.Propagate();
      }
      version := v.value;
      var segmentation := br.ReadInt16();
      if segmentation.Fail? {
        return segmentation.Propagate();
      }
      DecodeAfterHeader(s, p, lists, v.value, segmentation.value);
      var pass := ReadLists(br, ActiveLists(lists, version));
      if pass.Fail? {
        return pass.Propagate();
      }
      var data := ElementsData(version, segmentation.value, pass.value.tables, pass.value.skipValues, pass.value.lists);
      elementsData := Some(data);
      r := Ok(data, br.pos);
    }
  }
}
