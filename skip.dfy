/** The skip region that precedes a list's rows (ElementsReader.ReadSkip,
    ElementsReader.cs:122-165) as functions of the stream and the cursor:
    the chunks it returns and where it leaves the cursor. */
module SkipDecoding {
  import opened Bytes
  import opened Schema
  import opened Stream

  /** The `List<byte[]>` a skip region is preserved as. */
  type Blob = seq<seq<byte>>

  /** The window (0, 10000] a plausible row count lies in. */
  predicate InWindow(c: int) {
    0 < c <= 10000
  }

  /** The chunks of a successful read are exactly the bytes it consumed. */
  ghost predicate Transcript(s: seq<byte>, p: nat, r: Read<Blob>) {
    r.Ok? ==> p <= r.pos <= |s| && Flatten(r.value) == s[p..r.pos]
  }

  // ---------------------------------------------------------------------
  // The default branch: a fixed number of bytes

  /** `ReadBytes(int.Parse(Skip))` kept as one chunk. */
  function FixedSkip(s: seq<byte>, p: nat, n: int): (r: Read<Blob>)
    requires p <= |s|
    ensures r.Fail? <==> n < 0
    ensures r.Fail? ==> r == Fail(NegativeByteCount(n), p)
    ensures r.Ok? ==> r.pos == (if p + n <= |s| then p + n else |s|)
    ensures r.Ok? ==> r.value == [s[p..r.pos]]
  {
    var b := ReadBytesAt(s, p, n);
    if b.Fail? then b.Propagate() else Ok([b.value], b.pos)
  }

  // ---------------------------------------------------------------------
  // AUTO: resynchronise on the first plausible row count

  /** The loop of ElementsReader.cs:132-138: read int32 values until one lies
      in the window, keeping each rejected value's four bytes, then move the
      cursor back so the accepted value is not consumed. */
  function AutoScan(s: seq<byte>, p: nat): (r: Read<Blob>)
    requires p <= |s|
    ensures p <= r.pos <= |s|
    ensures r.Fail? ==> r == Fail(EndOfStream, |s|)
    ensures r.Ok? ==> r.pos + 4 <= |s| && InWindow(Int32At(s, r.pos))
    ensures r.Ok? ==> r.pos == p + 4 * |r.value|
    ensures r.Ok? ==> forall j :: 0 <= j < |r.value| ==>
      r.value[j] == s[p + 4 * j..p + 4 * j + 4] && !InWindow(Int32LE(r.value[j]))
    decreases |s| - p
  {
    var c := ReadInt32At(s, p);
    if c.Fail? then c.Propagate()
    else if InWindow(c.value) then Ok([], p)
    else
      ReadInt32Bytes(s, p);
      Cons([Int32Bytes(c.value)], AutoScan(s, c.pos))
  }

  /** The AUTO policy (ElementsReader.cs:127-139): four opaque bytes, a length
      L, L bytes, then the resynchronisation loop. */
  function AutoSkip(s: seq<byte>, p: nat): (r: Read<Blob>)
    requires p <= |s|
    ensures p <= r.pos <= |s|
    ensures r.Ok? ==> |r.value| >= 3 && r.pos + 4 <= |s| && InWindow(Int32At(s, r.pos))
  {
    var head := ReadBytesAt(s, p, 4);
    var len := ReadInt32At(s, head.pos);
    if len.Fail? then len.Propagate()
    else
      var body := ReadBytesAt(s, len.pos, len.value);
      if body.Fail? then body.Propagate()
      else Cons([head.value, Int32Bytes(len.value), body.value], AutoScan(s, body.pos))
  }

  // ---------------------------------------------------------------------
  // RAW: nested count- and length-driven records

  /** One inner entry (ElementsReader.cs:150-156): 8 bytes, a length l,
      `l * 2` bytes, a count c3, `c3 * 136` bytes; both products are C#
      unchecked int multiplications. */
  function RawInnerEntry(s: seq<byte>, p: nat): (r: Read<Blob>)
    requires p <= |s|
    ensures p <= r.pos <= |s|
    ensures r.Ok? ==> |r.value| == 5
  {
    var prefix := ReadBytesAt(s, p, 8);
    var l := ReadInt32At(s, prefix.pos);
    if l.Fail? then l.Propagate()
    else
      var text := ReadBytesAt(s, l.pos, Wrap32((l.value as int) * 2));
      if text.Fail? then text.Propagate()
      else
        var c3 := ReadInt32At(s, text.pos);
        if c3.Fail? then c3.Propagate()
        else
          var items := ReadBytesAt(s, c3.pos, Wrap32((c3.value as int) * 136));
          if items.Fail? then items.Propagate()
          else Ok([prefix.value, Int32Bytes(l.value), text.value, Int32Bytes(c3.value), items.value], items.pos)
  }

  /** n inner entries in sequence (the loop of ElementsReader.cs:148-157). */
  function RawInner(s: seq<byte>, p: nat, n: nat): (r: Read<Blob>)
    requires p <= |s|
    ensures p <= r.pos <= |s|
    decreases n
  {
    if n == 0 then Ok([], p)
    else
      var e := RawInnerEntry(s, p);
      if e.Fail? then e else Cons(e.value, RawInner(s, e.pos, n - 1))
  }

  /** One outer entry (ElementsReader.cs:145-157): a 132-byte record, a count
      c2, then c2 inner entries. */
  function RawOuterEntry(s: seq<byte>, p: nat): (r: Read<Blob>)
    requires p <= |s|
    ensures p <= r.pos <= |s|
  {
    var header := ReadBytesAt(s, p, 132);
    var c2 := ReadInt32At(s, header.pos);
    if c2.Fail? then c2.Propagate()
    else Cons([header.value, Int32Bytes(c2.value)], RawInner(s, c2.pos, Iterations(c2.value)))
  }

  /** n outer entries in sequence (the loop of ElementsReader.cs:143-158). */
  function RawOuter(s: seq<byte>, p: nat, n: nat): (r: Read<Blob>)
    requires p <= |s|
    ensures p <= r.pos <= |s|
    decreases n
  {
    if n == 0 then Ok([], p)
    else
      var e := RawOuterEntry(s, p);
      if e.Fail? then e else Cons(e.value, RawOuter(s, e.pos, n - 1))
  }

  /** The RAW policy (ElementsReader.cs:140-159): an outer count, then that
      many outer entries. */
  function RawSkip(s: seq<byte>, p: nat): (r: Read<Blob>)
    requires p <= |s|
    ensures p <= r.pos <= |s|
    ensures r.Ok? ==> |r.value| >= 1 && p + 4 <= |s| && r.value[0] == s[p..p + 4]
  {
    var count := ReadInt32At(s, p);
    if count.Fail? then count.Propagate()
    else
      ReadInt32Bytes(s, p);
      Cons([Int32Bytes(count.value)], RawOuter(s, count.pos, Iterations(count.value)))
  }

  // ---------------------------------------------------------------------
  // The dispatch of ReadSkip

  /** ElementsReader.ReadSkip: the policy chooses the branch; "0" is never
      passed by the engine and would take the default branch with 0 bytes. */
  function SkipRegion(s: seq<byte>, p: nat, policy: SkipPolicy): (r: Read<Blob>)
    requires p <= |s|
    ensures p <= r.pos <= |s|
  {
    match policy
    case Auto => AutoSkip(s, p)
    case Raw => RawSkip(s, p)
    case Fixed(n) => FixedSkip(s, p, n)
    case NoSkip => FixedSkip(s, p, 0)
  }

  // ---------------------------------------------------------------------
  // Every policy is a lossless transcript

  lemma ConsTranscript(s: seq<byte>, p: nat, q: nat, front: Blob, r: Read<Blob>)
    requires p <= q <= |s| && Flatten(front) == s[p..q] && Transcript(s, q, r)
    requires r.Ok? ==> q <= r.pos
    ensures Transcript(s, p, Cons(front, r))
  {
    if r.Ok? {
      FlattenAppend(front, r.value);
      SliceJoin(s, p, q, r.pos);
    }
  }

  /** Flattening a chunk followed by others puts that chunk first. */
  lemma FlattenFront(x: seq<byte>, rest: Blob)
    ensures Flatten([x] + rest) == x + Flatten(rest)
  {
    assert ([x] + rest)[1..] == rest;
  }

  /** Five chunks read back to back from p to e flatten to s[p..e]. */
  lemma Flatten5(s: seq<byte>, p: nat, a: nat, b: nat, c: nat, d: nat, e: nat, chunks: Blob)
    requires p <= a <= b <= c <= d <= e <= |s|
    requires chunks == [s[p..a], s[a..b], s[b..c], s[c..d], s[d..e]]
    ensures Flatten(chunks) == s[p..e]
  {
    FlattenFront(s[d..e], []);
    FlattenFront(s[c..d], [s[d..e]]);
    FlattenFront(s[b..c], [s[c..d], s[d..e]]);
    FlattenFront(s[a..b], [s[b..c], s[c..d], s[d..e]]);
    FlattenFront(s[p..a], [s[a..b], s[b..c], s[c..d], s[d..e]]);
    assert [s[d..e]] == [s[d..e]] + [];
    SliceJoin(s, c, d, e);
    SliceJoin(s, b, c, e);
    SliceJoin(s, a, b, e);
    SliceJoin(s, p, a, e);
  }

  lemma {:induction false} AutoScanTranscript(s: seq<byte>, p: nat)
    requires p <= |s|
    ensures Transcript(s, p, AutoScan(s, p))
    decreases |s| - p
  {
    var c := ReadInt32At(s, p);
    if c.Ok? && !InWindow(c.value) {
      AutoScanTranscript(s, c.pos);
      ReadInt32Bytes(s, p);
      assert Flatten([Int32Bytes(c.value)]) == s[p..p + 4];
      ConsTranscript(s, p, p + 4, [Int32Bytes(c.value)], AutoScan(s, c.pos));
    }
  }

  lemma AutoSkipTranscript(s: seq<byte>, p: nat)
    requires p <= |s|
    ensures Transcript(s, p, AutoSkip(s, p))
  {
    var head := ReadBytesAt(s, p, 4);
    var len := ReadInt32At(s, head.pos);
    if len.Ok? {
      var body := ReadBytesAt(s, len.pos, len.value);
      if body.Ok? {
        AutoScanTranscript(s, body.pos);
        ReadInt32Bytes(s, head.pos);
        var front: Blob := [head.value, Int32Bytes(len.value), body.value];
        assert Flatten(front) == s[p..body.pos] by {
          FlattenFront(body.value, []);
          FlattenFront(Int32Bytes(len.value), [body.value]);
          FlattenFront(head.value, [Int32Bytes(len.value), body.value]);
          assert [body.value] == [body.value] + [];
          SliceJoin(s, head.pos, len.pos, body.pos);
          SliceJoin(s, p, head.pos, body.pos);
        }
        ConsTranscript(s, p, body.pos, front, AutoScan(s, body.pos));
      }
    }
  }

  lemma RawInnerEntryTranscript(s: seq<byte>, p: nat)
    requires p <= |s|
    ensures Transcript(s, p, RawInnerEntry(s, p))
  {
    var r := RawInnerEntry(s, p);
    if r.Ok? {
      var prefix := ReadBytesAt(s, p, 8);
      var l := ReadInt32At(s, prefix.pos);
      var text := ReadBytesAt(s, l.pos, Wrap32((l.value as int) * 2));
      var c3 := ReadInt32At(s, text.pos);
      var items := ReadBytesAt(s, c3.pos, Wrap32((c3.value as int) * 136));
      ReadInt32Bytes(s, prefix.pos);
      ReadInt32Bytes(s, text.pos);
      Flatten5(s, p, prefix.pos, l.pos, text.pos, c3.pos, items.pos, r.value);
    }
  }

  lemma {:induction false} RawInnerTranscript(s: seq<byte>, p: nat, n: nat)
    requires p <= |s|
    ensures Transcript(s, p, RawInner(s, p, n))
    decreases n
  {
    if n > 0 {
      var e := RawInnerEntry(s, p);
      RawInnerEntryTranscript(s, p);
      if e.Ok? {
        RawInnerTranscript(s, e.pos, n - 1);
        ConsTranscript(s, p, e.pos, e.value, RawInner(s, e.pos, n - 1));
      }
    }
  }

  lemma RawOuterEntryTranscript(s: seq<byte>, p: nat)
    requires p <= |s|
    ensures Transcript(s, p, RawOuterEntry(s, p))
  {
    var header := ReadBytesAt(s, p, 132);
    var c2 := ReadInt32At(s, header.pos);
    if c2.Ok? {
      RawInnerTranscript(s, c2.pos, Iterations(c2.value));
      ReadInt32Bytes(s, header.pos);
      var front: Blob := [header.value, Int32Bytes(c2.value)];
      assert Flatten(front) == s[p..c2.pos] by {
        FlattenFront(Int32Bytes(c2.value), []);
        FlattenFront(header.value, [Int32Bytes(c2.value)]);
        assert [Int32Bytes(c2.value)] == [Int32Bytes(c2.value)] + [];
        SliceJoin(s, p, header.pos, c2.pos);
      }
      ConsTranscript(s, p, c2.pos, front, RawInner(s, c2.pos, Iterations(c2.value)));
    }
  }

  lemma {:induction false} RawOuterTranscript(s: seq<byte>, p: nat, n: nat)
    requires p <= |s|
    ensures Transcript(s, p, RawOuter(s, p, n))
    decreases n
  {
    if n > 0 {
      var e := RawOuterEntry(s, p);
      RawOuterEntryTranscript(s, p);
      if e.Ok? {
        RawOuterTranscript(s, e.pos, n - 1);
        ConsTranscript(s, p, e.pos, e.value, RawOuter(s, e.pos, n - 1));
      }
    }
  }

  /** Whatever the policy, the concatenation of the returned chunks equals the
      bytes between the cursor before and after the call; for AUTO "after" is
      the position following the 4-byte rewind. */
  lemma SkipTranscript(s: seq<byte>, p: nat, policy: SkipPolicy)
    requires p <= |s|
    ensures Transcript(s, p, SkipRegion(s, p, policy))
  {
    match policy
    case Auto => AutoSkipTranscript(s, p);
    case Raw =>
      var count := ReadInt32At(s, p);
      if count.Ok? {
        RawOuterTranscript(s, count.pos, Iterations(count.value));
        ReadInt32Bytes(s, p);
        assert Flatten([Int32Bytes(count.value)]) == s[p..p + 4];
        ConsTranscript(s, p, p + 4, [Int32Bytes(count.value)], RawOuter(s, count.pos, Iterations(count.value)));
      }
    case Fixed(n) =>
      var r := FixedSkip(s, p, n);
      if r.Ok? { assert Flatten(r.value) == s[p..r.pos]; }
    case NoSkip =>
      assert Flatten(FixedSkip(s, p, 0).value) == s[p..p];
  }
}
