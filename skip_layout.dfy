/** What the skip policies do on a stream whose skip region has a known
    layout: the cursor movement, the number of chunks and their order. The
    layouts are written out as encoders, and each lemma states that the
    policy reads back exactly what the encoder laid down. */
module SkipLayout {
  import opened Bytes
  import opened Schema
  import opened Stream
  import opened SkipDecoding

  // ---------------------------------------------------------------------
  // AUTO

  /** The four-byte chunks of a run of int32 values. */
  function Int32Chunks(vs: seq<int32>): (r: Blob)
    ensures |r| == |vs|
    ensures forall j :: 0 <= j < |vs| ==> r[j] == Int32Bytes(vs[j])
  {
    if |vs| == 0 then [] else [Int32Bytes(vs[0])] + Int32Chunks(vs[1..])
  }

  /** The int32 values vs are stored back to back from position q. */
  predicate ValuesAt(s: seq<byte>, q: nat, vs: seq<int32>)
    decreases |vs|
  {
    |vs| == 0 || (q + 4 <= |s| && Int32At(s, q) == vs[0] && ValuesAt(s, q + 4, vs[1..]))
  }

  /** k rejected values followed by one in the window: the scan takes
      exactly k iterations, keeps the k rejected values, and stops in front
      of the accepted one. */
  lemma {:induction false} AutoScanLayout(s: seq<byte>, p: nat, rejected: seq<int32>)
    requires forall j :: 0 <= j < |rejected| ==> !InWindow(rejected[j])
    requires ValuesAt(s, p, rejected)
    requires p + 4 * |rejected| + 4 <= |s| && InWindow(Int32At(s, p + 4 * |rejected|))
    ensures AutoScan(s, p) == Ok(Int32Chunks(rejected), p + 4 * |rejected|)
    decreases |rejected|
  {
    if |rejected| > 0 {
      forall j | 0 <= j < |rejected[1..]| ensures !InWindow(rejected[1..][j]) {
        assert rejected[1..][j] == rejected[j + 1];
      }
      assert p + 4 + 4 * |rejected[1..]| == p + 4 * |rejected|;
      AutoScanLayout(s, p + 4, rejected[1..]);
    }
  }

  /** Where the fixed front of an AUTO region ends: after four bytes, the
      length L and L bytes. */
  function FrontEnd(s: seq<byte>, p: nat): int
    requires p + 8 <= |s|
  {
    p + 8 + Int32At(s, p + 4)
  }

  /** The three chunks of the fixed front: four opaque bytes, the length
      field and the L bytes it announces. */
  function AutoFront(s: seq<byte>, p: nat): (r: Blob)
    requires p + 8 <= |s| && p + 8 <= FrontEnd(s, p) <= |s|
    ensures |r| == 3
  {
    [s[p..p + 4], s[p + 4..p + 8], s[p + 8..FrontEnd(s, p)]]
  }

  /** The fixed front of an AUTO region is kept as three chunks before the
      scan starts right after it. */
  lemma AutoSkipFront(s: seq<byte>, p: nat)
    requires p + 8 <= |s| && p + 8 <= FrontEnd(s, p) <= |s|
    ensures AutoSkip(s, p) == Cons(AutoFront(s, p), AutoScan(s, FrontEnd(s, p)))
  {
    ReadInt32Bytes(s, p + 4);
  }

  /** The front chunks followed by a completed scan make a completed AUTO
      region. */
  lemma AutoSkipJoin(s: seq<byte>, p: nat, front: Blob, q: nat, tail: Blob, e: nat)
    requires p <= |s| && q <= |s|
    requires AutoSkip(s, p) == Cons(front, AutoScan(s, q))
    requires AutoScan(s, q) == Ok(tail, e)
    ensures SkipRegion(s, p, Auto) == Ok(front + tail, e)
  {
  }

  /** The scan that follows the fixed front. */
  lemma AutoScanAfterFront(s: seq<byte>, p: nat, rejected: seq<int32>)
    requires p + 8 <= |s| && p + 8 <= FrontEnd(s, p) <= |s|
    requires forall j :: 0 <= j < |rejected| ==> !InWindow(rejected[j])
    requires ValuesAt(s, FrontEnd(s, p), rejected)
    requires FrontEnd(s, p) + 4 * |rejected| + 4 <= |s| && InWindow(Int32At(s, FrontEnd(s, p) + 4 * |rejected|))
    ensures AutoScan(s, FrontEnd(s, p)) == Ok(Int32Chunks(rejected), FrontEnd(s, p) + 4 * |rejected|)
  {
    AutoScanLayout(s, FrontEnd(s, p), rejected);
  }

  /** An AUTO region whose length field L is non-negative and whose L bytes
      are followed by k rejected values and then one in the window: the
      policy runs k loop iterations, returns 3 + k chunks (the front three,
      then one per rejected value), and leaves the cursor on the accepted
      value, which the row count read of the table then yields. */
  lemma AutoSkipLayout(s: seq<byte>, p: nat, rejected: seq<int32>)
    requires p + 8 <= |s| && p + 8 <= FrontEnd(s, p) <= |s|
    requires forall j :: 0 <= j < |rejected| ==> !InWindow(rejected[j])
    requires ValuesAt(s, FrontEnd(s, p), rejected)
    requires FrontEnd(s, p) + 4 * |rejected| + 4 <= |s| && InWindow(Int32At(s, FrontEnd(s, p) + 4 * |rejected|))
    ensures SkipRegion(s, p, Auto) == Ok(AutoFront(s, p) + Int32Chunks(rejected), FrontEnd(s, p) + 4 * |rejected|)
  {
    AutoScanAfterFront(s, p, rejected);
    AutoSkipFront(s, p);
    AutoSkipJoin(s, p, AutoFront(s, p), FrontEnd(s, p), Int32Chunks(rejected), FrontEnd(s, p) + 4 * |rejected|);
  }

  // ---------------------------------------------------------------------
  // RAW

  /** An inner entry: 8 bytes, a length `len` and its `2 * len` bytes, a count
      `count` and its `136 * count` bytes. */
  datatype InnerRecord = InnerRecord(prefix: seq<byte>, len: int32, text: seq<byte>, count: int32, items: seq<byte>)

  /** An outer entry: a 132-byte record, the count of inner entries and
      those entries. */
  datatype OuterRecord = OuterRecord(header: seq<byte>, count: int32, inner: seq<InnerRecord>)

  /** An inner entry whose sizes agree with its fields and whose products
      stay within int (so the unchecked multiplications do not wrap). */
  predicate InnerWellFormed(e: InnerRecord) {
    && |e.prefix| == 8
    && 0 <= e.len && 2 * (e.len as int) < 0x8000_0000 && |e.text| == 2 * (e.len as int)
    && 0 <= e.count && 136 * (e.count as int) < 0x8000_0000 && |e.items| == 136 * (e.count as int)
  }

  /** The byte size of each part of a RAW region. */
  function InnerSize(e: InnerRecord): nat {
    |e.prefix| + 4 + |e.text| + 4 + |e.items|
  }

  function InnersSize(es: seq<InnerRecord>): nat {
    if |es| == 0 then 0 else InnerSize(es[0]) + InnersSize(es[1..])
  }

  function OuterSize(o: OuterRecord): nat {
    |o.header| + 4 + InnersSize(o.inner)
  }

  function OutersSize(os: seq<OuterRecord>): nat {
    if |os| == 0 then 0 else OuterSize(os[0]) + OutersSize(os[1..])
  }

  /** The inner entry e is laid out at p: its fields where the loop reads
      them, each length or count just before the bytes it controls. */
  predicate InnerAt(s: seq<byte>, p: nat, e: InnerRecord) {
    && InnerWellFormed(e)
    && p + InnerSize(e) <= |s|
    && s[p..p + 8] == e.prefix
    && Int32At(s, p + 8) == e.len
    && s[p + 12..p + 12 + |e.text|] == e.text
    && Int32At(s, p + 12 + |e.text|) == e.count
    && s[p + 16 + |e.text|..p + InnerSize(e)] == e.items
  }

  predicate InnersAt(s: seq<byte>, p: nat, es: seq<InnerRecord>)
    decreases |es|
  {
    |es| == 0 || (InnerAt(s, p, es[0]) && InnersAt(s, p + InnerSize(es[0]), es[1..]))
  }

  predicate OuterAt(s: seq<byte>, p: nat, o: OuterRecord) {
    && |o.header| == 132 && o.count as int == |o.inner|
    && p + OuterSize(o) <= |s|
    && s[p..p + 132] == o.header
    && Int32At(s, p + 132) == o.count
    && InnersAt(s, p + 136, o.inner)
  }

  predicate OutersAt(s: seq<byte>, p: nat, os: seq<OuterRecord>)
    decreases |os|
  {
    |os| == 0 || (OuterAt(s, p, os[0]) && OutersAt(s, p + OuterSize(os[0]), os[1..]))
  }

  /** A whole RAW region laid out at p: the outer count, then the entries. */
  predicate RawAt(s: seq<byte>, p: nat, os: seq<OuterRecord>) {
    p + 4 <= |s| && Int32At(s, p) == |os| && OutersAt(s, p + 4, os)
  }

  /** The chunks the policy preserves for that layout: one per field read. */
  function InnerChunks(e: InnerRecord): Blob {
    [e.prefix, Int32Bytes(e.len), e.text, Int32Bytes(e.count), e.items]
  }

  function InnersChunks(es: seq<InnerRecord>): Blob {
    if |es| == 0 then [] else InnerChunks(es[0]) + InnersChunks(es[1..])
  }

  function OuterChunks(o: OuterRecord): Blob {
    [o.header, Int32Bytes(o.count)] + InnersChunks(o.inner)
  }

  function OutersChunks(os: seq<OuterRecord>): Blob {
    if |os| == 0 then [] else OuterChunks(os[0]) + OutersChunks(os[1..])
  }

  function RawChunks(os: seq<OuterRecord>): Blob
    requires |os| < 0x8000_0000
  {
    [Int32Bytes(|os|)] + OutersChunks(os)
  }

  /** The items of a list of blobs, in order. */
  function Concat(bs: seq<Blob>): (r: Blob)
    ensures |bs| > 0 ==> r == bs[0] + Concat(bs[1..])
  {
    if |bs| == 0 then [] else bs[0] + Concat(bs[1..])
  }

  /** The last of the positions ends, or p when there are none. */
  function Last(p: nat, ends: seq<nat>): nat
    decreases |ends|
  {
    if |ends| == 0 then p else Last(ends[0], ends[1..])
  }

  lemma RawInnerEntryLayout(s: seq<byte>, p: nat, e: InnerRecord)
    requires InnerAt(s, p, e)
    ensures RawInnerEntry(s, p) == Ok(InnerChunks(e), p + InnerSize(e))
  {
    assert Wrap32((e.len as int) * 2) == |e.text|;
    assert Wrap32((e.count as int) * 136) == |e.items|;
  }

  /** One inner entry followed by the remaining n - 1. */
  lemma RawInnerJoin(s: seq<byte>, p: nat, n: nat, first: Blob, q: nat, rest: Blob, e: nat)
    requires p <= |s| && n > 0
    requires RawInnerEntry(s, p) == Ok(first, q) && RawInner(s, q, n - 1) == Ok(rest, e)
    ensures RawInner(s, p, n) == Ok(first + rest, e)
  {
  }

  /** Entry i of the inner loop, read from the end of entry i - 1 (p for
      the first), yields firsts[i] and ends at ends[i]. */
  predicate InnerEntriesRead(s: seq<byte>, p: nat, firsts: seq<Blob>, ends: seq<nat>)
    requires |firsts| == |ends|
    decreases |firsts|
  {
    |firsts| == 0 || (
      && p <= |s|
      && RawInnerEntry(s, p) == Ok(firsts[0], ends[0])
      && InnerEntriesRead(s, ends[0], firsts[1..], ends[1..]))
  }

  /** The inner loop over entries each read as given returns all their
      chunks and stops where the last one ends. */
  lemma {:induction false} RawInnerFold(s: seq<byte>, p: nat, firsts: seq<Blob>, ends: seq<nat>)
    requires p <= |s| && |firsts| == |ends| && InnerEntriesRead(s, p, firsts, ends)
    ensures RawInner(s, p, |firsts|) == Ok(Concat(firsts), Last(p, ends))
    decreases |firsts|
  {
    if |firsts| > 0 {
      var q := ends[0];
      RawInnerFold(s, q, firsts[1..], ends[1..]);
      RawInnerJoin(s, p, |firsts|, firsts[0], q, Concat(firsts[1..]), Last(q, ends[1..]));
    }
  }

  /** The chunks of each of the inner entries es. */
  function InnerEntryChunks(es: seq<InnerRecord>): (r: seq<Blob>)
    ensures |r| == |es| && Concat(r) == InnersChunks(es)
  {
    if |es| == 0 then [] else [InnerChunks(es[0])] + InnerEntryChunks(es[1..])
  }

  /** Where each of the inner entries es, laid out back to back from p, ends. */
  function InnerEntryEnds(p: nat, es: seq<InnerRecord>): (r: seq<nat>)
    decreases |es|
    ensures |r| == |es| && Last(p, r) == p + InnersSize(es)
  {
    if |es| == 0 then [] else [p + InnerSize(es[0])] + InnerEntryEnds(p + InnerSize(es[0]), es[1..])
  }

  /** An inner entry read as given, followed by entries read as given. */
  lemma InnerEntriesReadCons(s: seq<byte>, p: nat, first: Blob, q: nat, firsts: seq<Blob>, ends: seq<nat>)
    requires |firsts| == |ends| && p <= |s| && RawInnerEntry(s, p) == Ok(first, q)
    requires InnerEntriesRead(s, q, firsts, ends)
    ensures InnerEntriesRead(s, p, [first] + firsts, [q] + ends)
  {
    assert ([first] + firsts)[1..] == firsts && ([q] + ends)[1..] == ends;
  }

  /** Laid-out inner entries are each read as laid out. */
  lemma {:induction false} InnersAtAreRead(s: seq<byte>, p: nat, es: seq<InnerRecord>)
    requires p <= |s| && InnersAt(s, p, es)
    ensures InnerEntriesRead(s, p, InnerEntryChunks(es), InnerEntryEnds(p, es))
    decreases |es|
  {
    if |es| > 0 {
      var q := p + InnerSize(es[0]);
      RawInnerEntryLayout(s, p, es[0]);
      InnersAtAreRead(s, q, es[1..]);
      assert InnerEntryChunks(es) == [InnerChunks(es[0])] + InnerEntryChunks(es[1..]);
      assert InnerEntryEnds(p, es) == [q] + InnerEntryEnds(q, es[1..]);
      InnerEntriesReadCons(s, p, InnerChunks(es[0]), q, InnerEntryChunks(es[1..]), InnerEntryEnds(q, es[1..]));
    }
  }

  /** Inner entries laid out back to back are read as laid out. */
  lemma RawInnerLayout(s: seq<byte>, p: nat, es: seq<InnerRecord>)
    requires p <= |s| && InnersAt(s, p, es)
    ensures RawInner(s, p, |es|) == Ok(InnersChunks(es), p + InnersSize(es))
  {
    InnersAtAreRead(s, p, es);
    RawInnerFold(s, p, InnerEntryChunks(es), InnerEntryEnds(p, es));
  }

  lemma RawOuterEntryLayout(s: seq<byte>, p: nat, o: OuterRecord)
    requires OuterAt(s, p, o)
    ensures RawOuterEntry(s, p) == Ok(OuterChunks(o), p + OuterSize(o))
  {
    RawInnerLayout(s, p + 136, o.inner);
  }

  /** One outer entry followed by the remaining n - 1. */
  lemma RawOuterJoin(s: seq<byte>, p: nat, n: nat, first: Blob, q: nat, rest: Blob, e: nat)
    requires p <= |s| && n > 0
    requires RawOuterEntry(s, p) == Ok(first, q) && RawOuter(s, q, n - 1) == Ok(rest, e)
    ensures RawOuter(s, p, n) == Ok(first + rest, e)
  {
  }

  /** Entry i of the outer loop, read from the end of entry i - 1 (p for
      the first), yields firsts[i] and ends at ends[i]. */
  predicate OuterEntriesRead(s: seq<byte>, p: nat, firsts: seq<Blob>, ends: seq<nat>)
    requires |firsts| == |ends|
    decreases |firsts|
  {
    |firsts| == 0 || (
      && p <= |s|
      && RawOuterEntry(s, p) == Ok(firsts[0], ends[0])
      && OuterEntriesRead(s, ends[0], firsts[1..], ends[1..]))
  }

  /** The outer loop over entries each read as given returns all their
      chunks and stops where the last one ends. */
  lemma {:induction false} RawOuterFold(s: seq<byte>, p: nat, firsts: seq<Blob>, ends: seq<nat>)
    requires p <= |s| && |firsts| == |ends| && OuterEntriesRead(s, p, firsts, ends)
    ensures RawOuter(s, p, |firsts|) == Ok(Concat(firsts), Last(p, ends))
    decreases |firsts|
  {
    if |firsts| > 0 {
      var q := ends[0];
      RawOuterFold(s, q, firsts[1..], ends[1..]);
      RawOuterJoin(s, p, |firsts|, firsts[0], q, Concat(firsts[1..]), Last(q, ends[1..]));
    }
  }

  /** The chunks of each of the entries os. */
  function OuterEntryChunks(os: seq<OuterRecord>): (r: seq<Blob>)
    ensures |r| == |os| && Concat(r) == OutersChunks(os)
  {
    if |os| == 0 then [] else [OuterChunks(os[0])] + OuterEntryChunks(os[1..])
  }

  /** Where each of the entries os, laid out back to back from p, ends. */
  function OuterEntryEnds(p: nat, os: seq<OuterRecord>): (r: seq<nat>)
    decreases |os|
    ensures |r| == |os| && Last(p, r) == p + OutersSize(os)
  {
    if |os| == 0 then [] else [p + OuterSize(os[0])] + OuterEntryEnds(p + OuterSize(os[0]), os[1..])
  }

  /** An outer entry read as given, followed by entries read as given. */
  lemma OuterEntriesReadCons(s: seq<byte>, p: nat, first: Blob, q: nat, firsts: seq<Blob>, ends: seq<nat>)
    requires |firsts| == |ends| && p <= |s| && RawOuterEntry(s, p) == Ok(first, q)
    requires OuterEntriesRead(s, q, firsts, ends)
    ensures OuterEntriesRead(s, p, [first] + firsts, [q] + ends)
  {
    assert ([first] + firsts)[1..] == firsts && ([q] + ends)[1..] == ends;
  }

  /** Laid-out outer entries are each read as laid out. */
  lemma {:induction false} OutersAtAreRead(s: seq<byte>, p: nat, os: seq<OuterRecord>)
    requires OutersAt(s, p, os)
    ensures OuterEntriesRead(s, p, OuterEntryChunks(os), OuterEntryEnds(p, os))
    decreases |os|
  {
    if |os| > 0 {
      var q := p + OuterSize(os[0]);
      RawOuterEntryLayout(s, p, os[0]);
      OutersAtAreRead(s, q, os[1..]);
      assert OuterEntryChunks(os) == [OuterChunks(os[0])] + OuterEntryChunks(os[1..]);
      assert OuterEntryEnds(p, os) == [q] + OuterEntryEnds(q, os[1..]);
      OuterEntriesReadCons(s, p, OuterChunks(os[0]), q, OuterEntryChunks(os[1..]), OuterEntryEnds(q, os[1..]));
    }
  }

  /** A RAW region laid out as `os` is consumed exactly, 4 + OutersSize(os)
      bytes, and preserved as RawChunks(os), one chunk per field. */
  lemma RawSkipLayout(s: seq<byte>, p: nat, os: seq<OuterRecord>)
    requires RawAt(s, p, os)
    ensures |os| < 0x8000_0000
    ensures SkipRegion(s, p, Raw) == Ok(RawChunks(os), p + 4 + OutersSize(os))
  {
    OutersAtAreRead(s, p + 4, os);
    RawSkipRead(s, p, os);
  }

  /** The RAW skip over a count followed by entries each read as laid out. */
  lemma RawSkipRead(s: seq<byte>, p: nat, os: seq<OuterRecord>)
    requires p + 4 <= |s| && Int32At(s, p) == |os|
    requires OuterEntriesRead(s, p + 4, OuterEntryChunks(os), OuterEntryEnds(p + 4, os))
    ensures SkipRegion(s, p, Raw) == Ok(RawChunks(os), p + 4 + OutersSize(os))
  {
    RawOuterFold(s, p + 4, OuterEntryChunks(os), OuterEntryEnds(p + 4, os));
    ReadInt32Bytes(s, p);
  }

  /** With an outer count of zero (or less) only the count is consumed. */
  lemma RawSkipNoEntries(s: seq<byte>, p: nat)
    requires p + 4 <= |s| && Int32At(s, p) <= 0
    ensures SkipRegion(s, p, Raw) == Ok([s[p..p + 4]], p + 4)
  {
    var count := ReadInt32At(s, p);
    assert count.Ok? && Iterations(count.value) == 0;
    assert RawOuter(s, p + 4, 0) == Ok([], p + 4);
    ReadInt32Bytes(s, p);
    assert [Int32Bytes(count.value)] + [] == [s[p..p + 4]];
  }

  /** The length check of the unchecked `l * 2`: the byte read fails exactly
      when the wrapped product is negative, which is when l lies in
      [-2^30, 0) or [2^30, 2^31); a length below -2^30 wraps to a
      non-negative count and is read. */
  lemma WrappedDoubleIsNegative(l: int32)
    ensures Wrap32(l * 2) < 0 <==> (-0x4000_0000 <= l < 0 || 0x4000_0000 <= l)
    ensures l < -0x4000_0000 ==> Wrap32(l * 2) == l * 2 + 0x1_0000_0000
  {
    var x := l * 2 + 0x8000_0000;
    if l < -0x4000_0000 {
      assert x % 0x1_0000_0000 == x + 0x1_0000_0000;
    } else if l < 0x4000_0000 {
      assert x % 0x1_0000_0000 == x;
    } else {
      assert x % 0x1_0000_0000 == x - 0x1_0000_0000;
    }
  }

  /** An inner entry whose length field makes `l * 2` wrap negative fails
      with ArgumentOutOfRange before reading the text; one whose length is
      the most negative int reads zero text bytes instead of failing. */
  lemma RawInnerLengthCheck(s: seq<byte>, p: nat)
    requires p + 12 <= |s|
    ensures var l := Int32At(s, p + 8);
      (-0x4000_0000 <= l < 0 || 0x4000_0000 <= l) ==>
        RawInnerEntry(s, p) == Fail(NegativeByteCount(Wrap32(l * 2)), p + 12)
    ensures Int32At(s, p + 8) == -0x8000_0000 ==> Wrap32(Int32At(s, p + 8) * 2) == 0
  {
    WrappedDoubleIsNegative(Int32At(s, p + 8));
  }
}
