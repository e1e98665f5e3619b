/** The whole decode (ElementsReader.Read, ElementsReader.cs:63-81) as a
    function of the stream: the header, the version filter over the lists,
    and for each active list its skip region (unless its policy is "0") and
    its table, collected in schema order. */
module Decoding {
  import opened Bytes
  import opened Schema
  import opened Stream
  import opened SkipDecoding
  import opened TableDecoding

  /** What a decode yields. The C# dictionary of skip regions is keyed by
      list object; here it is keyed by the list's index among the active
      lists, which identifies the same object. `lists` holds the active lists
      as they are after NewTable filtered their columns. */
  datatype ElementsData = ElementsData(
    version: int,
    segmentation: int,
    tables: seq<DataTable>,
    skipValues: map<nat, Blob>,
    lists: seq<ElementsList>)

  /** The accumulators of the `foreach` over the active lists. */
  datatype Pass = Pass(tables: seq<DataTable>, skipValues: map<nat, Blob>, lists: seq<ElementsList>)

  /** The pass over the first n active lists is complete and consistent. */
  predicate PassOver(pass: Pass, active: seq<ElementsList>, version: int) {
    && |pass.tables| == |active| && |pass.lists| == |active|
    && (forall k :: 0 <= k < |active| ==>
          && pass.tables[k].name == active[k].name
          && pass.tables[k].columns == ActiveTypes(active[k].types, version)
          && pass.lists[k] == Filtered(active[k], version))
    && (forall k :: k in pass.skipValues ==> k < |active| && active[k].skip != NoSkip)
    && (forall k :: 0 <= k < |active| && active[k].skip != NoSkip ==> k in pass.skipValues)
  }

  /** The skip region of a list, when its policy asks for one. */
  function SkipEntry(s: seq<byte>, p: nat, list: ElementsList): (r: Read<Option<Blob>>)
    requires p <= |s|
    ensures p <= r.pos <= |s|
    ensures list.skip == NoSkip ==> r == Ok(None, p)
    ensures list.skip != NoSkip ==> r.Ok? == SkipRegion(s, p, list.skip).Ok? && r.pos == SkipRegion(s, p, list.skip).pos
    ensures list.skip != NoSkip && r.Ok? ==> r.value == Some(SkipRegion(s, p, list.skip).value)
  {
    if list.skip == NoSkip then Ok(None, p)
    else
      var sk := SkipRegion(s, p, list.skip);
      if sk.Fail? then sk.Propagate() else Ok(Some(sk.value), sk.pos)
  }

  /** One iteration of the `foreach` (ElementsReader.cs:71-77) for the
      active list at index k: the skip region if there is one, then the
      table read right after it. */
  function DecodeList(s: seq<byte>, p: nat, acc: Pass, k: nat, list: ElementsList, version: int): (r: Read<Pass>)
    requires p <= |s|
    ensures p <= r.pos <= |s|
    ensures var sk := SkipEntry(s, p, list);
      r.Ok? ==> (
        && sk.Ok? && DecodeTable(s, sk.pos, list, version).Ok?
        && r.pos == DecodeTable(s, sk.pos, list, version).pos
        && r.value.tables == acc.tables + [DecodeTable(s, sk.pos, list, version).value]
        && r.value.lists == acc.lists + [Filtered(list, version)]
        && r.value.skipValues == (if list.skip == NoSkip then acc.skipValues else acc.skipValues[k := sk.value.value]))
  {
    var sk := SkipEntry(s, p, list);
    if sk.Fail? then sk.Propagate()
    else
      var t := DecodeTable(s, sk.pos, list, version);
      if t.Fail? then t.Propagate()
      else
        var skips := if sk.value.Some? then acc.skipValues[k := sk.value.value] else acc.skipValues;
        Ok(Pass(acc.tables + [t.value], skips, acc.lists + [Filtered(list, version)]), t.pos)
  }

  /** One more iteration extends a consistent pass by one list: a table
      with the list's name and active columns, the filtered list, and a skip
      entry exactly when the list has a skip policy. */
  lemma PassExtends(acc: Pass, pass: Pass, t: DataTable, active: seq<ElementsList>, version: int)
    requires |active| > 0
    requires PassOver(acc, active[..|active| - 1], version)
    requires pass.tables == acc.tables + [t]
    requires t.name == active[|active| - 1].name && t.columns == ActiveTypes(active[|active| - 1].types, version)
    requires pass.lists == acc.lists + [Filtered(active[|active| - 1], version)]
    requires active[|active| - 1].skip == NoSkip ==> pass.skipValues.Keys == acc.skipValues.Keys
    requires active[|active| - 1].skip != NoSkip ==> pass.skipValues.Keys == acc.skipValues.Keys + {|active| - 1}
    ensures PassOver(pass, active, version)
  {
    var n := |active| - 1;
    forall k | 0 <= k < |active|
      ensures pass.tables[k].name == active[k].name
      ensures pass.tables[k].columns == ActiveTypes(active[k].types, version)
      ensures pass.lists[k] == Filtered(active[k], version)
    {
      if k < n {
        assert active[..n][k] == active[k];
        assert pass.tables[k] == acc.tables[k];
        assert pass.lists[k] == acc.lists[k];
      }
    }
    forall k | k in pass.skipValues ensures k < |active| && active[k].skip != NoSkip {
      if k != n {
        assert k in acc.skipValues;
        assert active[..n][k] == active[k];
      }
    }
    forall k | 0 <= k < |active| && active[k].skip != NoSkip ensures k in pass.skipValues {
      if k < n {
        assert active[..n][k] == active[k];
      }
    }
  }

  /** The `foreach` over the active lists, as a left fold: the pass over a
      prefix of them. */
  function DecodeLists(s: seq<byte>, p: nat, active: seq<ElementsList>, version: int): (r: Read<Pass>)
    requires p <= |s|
    ensures p <= r.pos <= |s|
    ensures r.Ok? ==> PassOver(r.value, active, version)
    decreases |active|
  {
    if |active| == 0 then Ok(Pass([], map[], []), p)
    else
      var n := |active| - 1;
      var prev := DecodeLists(s, p, active[..n], version);
      if prev.Fail? then prev
      else
        var r := DecodeList(s, prev.pos, prev.value, n, active[n], version);
        if r.Ok? then
          var t := DecodeTable(s, SkipEntry(s, prev.pos, active[n]).pos, active[n], version).value;
          PassExtends(prev.value, r.value, t, active, version);
          r
        else r
  }

  /** ElementsRead.Read: version and segmentation, the active lists, then
      the pass over them. */
  function Decode(s: seq<byte>, p: nat, lists: seq<ElementsList>): (r: Read<ElementsData>)
    requires p <= |s|
    ensures p <= r.pos <= |s|
    ensures r.Ok? ==>
      && p + 4 <= |s|
      && r.value.version == Int16LE(s[p], s[p + 1])
      && r.value.segmentation == Int16LE(s[p + 2], s[p + 3])
    ensures r.Ok? ==> PassOver(Pass(r.value.tables, r.value.skipValues, r.value.lists),
                               ActiveLists(lists, r.value.version), r.value.version)
    ensures p + 4 > |s| ==> r == Fail(EndOfStream, |s|)
  {
    var version := ReadInt16At(s, p);
    if version.Fail? then version.Propagate()
    else
      var segmentation := ReadInt16At(s, version.pos);
      if segmentation.Fail? then segmentation.Propagate()
      else
        var pass := DecodeLists(s, segmentation.pos, ActiveLists(lists, version.value), version.value);
        if pass.Fail? then pass.Propagate()
        else
          Ok(ElementsData(version.value, segmentation.value, pass.value.tables, pass.value.skipValues, pass.value.lists),
             pass.pos)
  }

  // ---------------------------------------------------------------------
  // The fold over the lists

  /** The pass over n + 1 lists is the pass over n lists followed by one
      more iteration. */
  lemma DecodeListsStep(s: seq<byte>, p: nat, active: seq<ElementsList>, n: nat, version: int)
    requires p <= |s| && n < |active|
    ensures var prev := DecodeLists(s, p, active[..n], version);
      DecodeLists(s, p, active[..n + 1], version) ==
        if prev.Fail? then prev else DecodeList(s, prev.pos, prev.value, n, active[n], version)
  {
    assert active[..n + 1][..n] == active[..n];
  }

  /** An exception in one iteration ends the pass: a failing prefix makes
      the whole pass fail with the same exception at the same cursor. */
  lemma {:induction false} DecodeListsFailurePersists(s: seq<byte>, p: nat, active: seq<ElementsList>, n: nat, version: int)
    requires p <= |s| && n <= |active|
    requires DecodeLists(s, p, active[..n], version).Fail?
    ensures DecodeLists(s, p, active, version) == DecodeLists(s, p, active[..n], version)
    decreases |active| - n
  {
    if n < |active| {
      DecodeListsStep(s, p, active, n, version);
      DecodeListsFailurePersists(s, p, active, n + 1, version);
    } else {
      assert active[..n] == active;
    }
  }

  /** The table of the k-th active list is read right after its skip region,
      at the position where the pass over the lists before it stopped. */
  lemma TableFollowsSkip(s: seq<byte>, p: nat, active: seq<ElementsList>, k: nat, version: int)
    requires p <= |s| && k < |active|
    requires DecodeLists(s, p, active[..k + 1], version).Ok?
    ensures var q := DecodeLists(s, p, active[..k], version).pos;
      var sk := SkipEntry(s, q, active[k]);
      var t := DecodeTable(s, sk.pos, active[k], version);
      var pass := DecodeLists(s, p, active[..k + 1], version);
      && sk.Ok? && t.Ok? && pass.pos == t.pos && pass.value.tables[k] == t.value
      && (active[k].skip != NoSkip ==> pass.value.skipValues[k] == SkipRegion(s, q, active[k].skip).value)
  {
    DecodeListsStep(s, p, active, k, version);
    var prev := DecodeLists(s, p, active[..k], version);
    assert |prev.value.tables| == k;
  }

  // ---------------------------------------------------------------------
  // The header

  /** The header consumes exactly four bytes: once they are there, the list
      pass starts at p + 4 with the version read from the first two. */
  lemma HeaderIsFourBytes(s: seq<byte>, p: nat, lists: seq<ElementsList>)
    requires p + 4 <= |s|
    ensures var version := Int16LE(s[p], s[p + 1]);
      var pass := DecodeLists(s, p + 4, ActiveLists(lists, version), version);
      && Decode(s, p, lists).Ok? == pass.Ok?
      && Decode(s, p, lists).pos == pass.pos
  {
  }

  // ---------------------------------------------------------------------
  // A small file, end to end

  /** Version 2, segmentation 0; one row [5] for the first list, one row [-7]
      for the second. */
  const ExampleFile: seq<byte> := [2, 0, 0, 0, 1, 0, 0, 0, 5, 0, 0, 0, 1, 0, 0, 0, 249, 255, 255, 255]
  const ExampleColumn := ElementsType("value", 1, Int)
  const ExampleFirst := ElementsList("First", 1, NoSkip, [ExampleColumn])
  /** A list newer than the file: filtered out. */
  const ExampleLater := ElementsList("Later", 3, Auto, [ExampleColumn])
  const ExampleSecond := ElementsList("Second", 2, NoSkip, [ExampleColumn])

  lemma ExampleActiveLists()
    ensures ActiveLists([ExampleFirst, ExampleLater, ExampleSecond], 2) == [ExampleFirst, ExampleSecond]
  {
    var lists := [ExampleFirst, ExampleLater, ExampleSecond];
    assert lists[..2] == [ExampleFirst, ExampleLater];
    assert lists[..2][..1] == [ExampleFirst];
    assert [ExampleFirst][..0] == [];
    assert ActiveLists([], 2) == [];
    assert ActiveLists([ExampleFirst], 2) == [ExampleFirst];
    assert ActiveLists([ExampleFirst, ExampleLater], 2) == [ExampleFirst];
  }

  lemma ExampleTable(p: nat, list: ElementsList, value: int32)
    requires p + 8 <= |ExampleFile| && list.types == [ExampleColumn]
    requires Int32At(ExampleFile, p) == 1 && Int32At(ExampleFile, p + 4) == value
    ensures DecodeTable(ExampleFile, p, list, 2) == Ok(DataTable(list.name, [ExampleColumn], [[IntValue(value)]]), p + 8)
  {
    assert ActiveTypes([ExampleColumn], 2) == [ExampleColumn] by {
      assert [ExampleColumn][..0] == [];
    }
    assert [ExampleColumn][1..] == [];
    assert DecodeColumn(ExampleFile, p + 4, ExampleColumn) == Ok(IntValue(value), p + 8);
    assert DecodeRow(ExampleFile, p + 8, []) == Ok([], p + 8);
    assert [IntValue(value)] + [] == [IntValue(value)];
    assert [[IntValue(value)]] + [] == [[IntValue(value)]];
    assert DecodeRow(ExampleFile, p + 4, [ExampleColumn]) == Ok([IntValue(value)], p + 8);
    assert DecodeRows(ExampleFile, p + 4, [ExampleColumn], 1) == Ok([[IntValue(value)]], p + 8);
  }

  lemma ExampleCounts()
    ensures Int32At(ExampleFile, 4) == 1 && Int32At(ExampleFile, 8) == 5
    ensures Int32At(ExampleFile, 12) == 1 && Int32At(ExampleFile, 16) == -7
  {
    assert ExampleFile[4..8] == [1, 0, 0, 0] && ExampleFile[8..12] == [5, 0, 0, 0];
    assert ExampleFile[12..16] == [1, 0, 0, 0] && ExampleFile[16..20] == [249, 255, 255, 255];
  }

  const ExampleFirstTable := DataTable("First", [ExampleColumn], [[IntValue(5)]])
  const ExampleSecondTable := DataTable("Second", [ExampleColumn], [[IntValue(-7)]])
  const ExampleAfterFirst := Pass([ExampleFirstTable], map[], [Filtered(ExampleFirst, 2)])

  /** The first list has no skip region: its table starts right after the
      header and ends at byte 12. */
  lemma ExampleFirstStep()
    ensures DecodeList(ExampleFile, 4, Pass([], map[], []), 0, ExampleFirst, 2) == Ok(ExampleAfterFirst, 12)
  {
    ExampleCounts();
    assert SkipEntry(ExampleFile, 4, ExampleFirst) == Ok(None, 4);
    ExampleTable(4, ExampleFirst, 5);
    assert [] + [ExampleFirstTable] == [ExampleFirstTable];
    assert [] + [Filtered(ExampleFirst, 2)] == [Filtered(ExampleFirst, 2)];
  }

  /** The second list's table runs from byte 12 to the end of the file. */
  lemma ExampleSecondStep()
    ensures DecodeList(ExampleFile, 12, ExampleAfterFirst, 1, ExampleSecond, 2) ==
      Ok(Pass([ExampleFirstTable, ExampleSecondTable], map[], [Filtered(ExampleFirst, 2), Filtered(ExampleSecond, 2)]), 20)
  {
    ExampleCounts();
    assert SkipEntry(ExampleFile, 12, ExampleSecond) == Ok(None, 12);
    ExampleTable(12, ExampleSecond, -7);
    assert [ExampleFirstTable] + [ExampleSecondTable] == [ExampleFirstTable, ExampleSecondTable];
    assert [Filtered(ExampleFirst, 2)] + [Filtered(ExampleSecond, 2)] == [Filtered(ExampleFirst, 2), Filtered(ExampleSecond, 2)];
  }

  lemma ExamplePass()
    ensures DecodeLists(ExampleFile, 4, [ExampleFirst, ExampleSecond], 2) ==
      Ok(Pass([ExampleFirstTable, ExampleSecondTable], map[], [Filtered(ExampleFirst, 2), Filtered(ExampleSecond, 2)]), 20)
  {
    var active := [ExampleFirst, ExampleSecond];
    assert active[..0] == [] && active[..2] == active;
    assert DecodeLists(ExampleFile, 4, active[..1], 2) == Ok(ExampleAfterFirst, 12) by {
      DecodeListsStep(ExampleFile, 4, active, 0, 2);
      ExampleFirstStep();
    }
    DecodeListsStep(ExampleFile, 4, active, 1, 2);
    ExampleSecondStep();
  }

  /** The file decodes completely: the version filter drops the list newer
      than the file, and each remaining list yields its one-row table. */
  lemma TwoListsExample()
    ensures var r := Decode(ExampleFile, 0, [ExampleFirst, ExampleLater, ExampleSecond]);
      && r.Ok? && r.pos == |ExampleFile|
      && r.value.version == 2 && r.value.segmentation == 0
      && r.value.tables == [ExampleFirstTable, ExampleSecondTable]
      && r.value.skipValues == map[]
  {
    assert ReadInt16At(ExampleFile, 0) == Ok(2, 2) && ReadInt16At(ExampleFile, 2) == Ok(0, 4);
    ExampleActiveLists();
    ExamplePass();
  }

  // ---------------------------------------------------------------------
  // One list, two rows

  /** Version 2, segmentation 0; a row count of 2, then the rows [5] and
      [-7] of the one int32 column. */
  const OneTableFile: seq<byte> := [2, 0, 0, 0, 2, 0, 0, 0, 5, 0, 0, 0, 249, 255, 255, 255]
  const OneTable := DataTable("First", [ExampleColumn], [[IntValue(5)], [IntValue(-7)]])

  /** A one-int-column row of that file holds the int32 it starts with. */
  lemma OneTableRow(p: nat, value: int32)
    requires p + 4 <= |OneTableFile| && Int32At(OneTableFile, p) == value
    ensures DecodeRow(OneTableFile, p, [ExampleColumn]) == Ok([IntValue(value)], p + 4)
  {
    assert DecodeColumn(OneTableFile, p, ExampleColumn) == Ok(IntValue(value), p + 4);
    assert [ExampleColumn][1..] == [];
    assert DecodeRow(OneTableFile, p + 4, []) == Ok([], p + 4);
    assert [IntValue(value)] + [] == [IntValue(value)];
  }

  lemma OneTableRows()
    ensures DecodeTable(OneTableFile, 4, ExampleFirst, 2) == Ok(OneTable, 16)
  {
    var f := OneTableFile;
    assert f[4..8] == [2, 0, 0, 0] && f[8..12] == [5, 0, 0, 0] && f[12..16] == [249, 255, 255, 255];
    assert ActiveTypes([ExampleColumn], 2) == [ExampleColumn] by {
      assert [ExampleColumn][..0] == [];
    }
    OneTableRow(8, 5);
    OneTableRow(12, -7);
    assert DecodeRows(f, 16, [ExampleColumn], 0) == Ok([], 16);
    assert [[IntValue(-7)]] + [] == [[IntValue(-7)]];
    assert DecodeRows(f, 12, [ExampleColumn], 1) == Ok([[IntValue(-7)]], 16);
    assert [[IntValue(5)]] + [[IntValue(-7)]] == [[IntValue(5)], [IntValue(-7)]];
    assert DecodeRows(f, 8, [ExampleColumn], 2) == Ok([[IntValue(5)], [IntValue(-7)]], 16);
  }

  /** The file decodes completely into version 2 and one table holding the
      rows [5] and [-7]. */
  lemma OneTableExample()
    ensures var r := Decode(OneTableFile, 0, [ExampleFirst]);
      && r.Ok? && r.pos == |OneTableFile|
      && r.value.version == 2 && r.value.segmentation == 0
      && r.value.tables == [OneTable]
      && r.value.skipValues == map[]
  {
    var f := OneTableFile;
    var active := [ExampleFirst];
    assert ReadInt16At(f, 0) == Ok(2, 2) && ReadInt16At(f, 2) == Ok(0, 4);
    assert ActiveLists(active, 2) == active by {
      assert active[..0] == [];
    }
    assert active[..0] == [] && active[..1] == active;
    OneTableRows();
    assert SkipEntry(f, 4, ExampleFirst) == Ok(None, 4);
    assert [] + [OneTable] == [OneTable];
    DecodeListsStep(f, 4, active, 0, 2);
  }
}
