/** The stream cursor of the decoder: a .NET BinaryReader over a file stream,
    reduced to the bytes of the file and one forward position. Each read is
    given both as a function of (bytes, position), which the specifications use,
    and as a method of the BinaryReader class, which the decoder calls. */
module Stream {
  import opened Bytes

  /** The exceptions the decoder can raise:
      EndOfStreamException from ReadInt16/ReadInt32/ReadSingle,
      ArgumentOutOfRangeException from ReadBytes with a negative count, and
      the ArgumentOutOfRangeException of NewRow's `default:` branch. */
  datatype Error = EndOfStream | NegativeByteCount(count: int) | UnsupportedType(tag: string)

  /** The outcome of a read: a value and the cursor after it, or an exception
      and the cursor at the moment it was raised. */
  datatype Read<+T> = Ok(value: T, pos: nat) | Fail(error: Error, pos: nat)
  {
    /** Passes an exception on unchanged, at another result type. */
    function Propagate<U>(): (r: Read<U>)
      requires Fail?
      ensures r.Fail? && r.error == error && r.pos == pos
    {
      Fail(error, pos)
    }
  }

  datatype Option<+T> = None | Some(value: T)

  /** Places the items `front` before those of a successful result. */
  function Cons<T>(front: seq<T>, r: Read<seq<T>>): (c: Read<seq<T>>)
    ensures c.pos == r.pos && c.Ok? == r.Ok?
    ensures c.Ok? ==> c.value == front + r.value
    ensures c.Fail? ==> c == r
  {
    if r.Ok? then Ok(front + r.value, r.pos) else r
  }

  lemma ConsCons<T>(a: seq<T>, b: seq<T>, r: Read<seq<T>>)
    ensures Cons(a, Cons(b, r)) == Cons(a + b, r)
  {
    if r.Ok? {
      assert a + (b + r.value) == (a + b) + r.value;
    }
  }

  lemma ConsEmpty<T>(r: Read<seq<T>>)
    ensures Cons([], r) == r
  {
    if r.Ok? {
      assert [] + r.value == r.value;
    }
  }

  /** The number of times `for (var i = 0; i < bound; i++)` runs. */
  function Iterations(bound: int): (n: nat)
    ensures bound <= 0 ==> n == 0
    ensures bound >= 0 ==> n == bound
  {
    if bound < 0 then 0 else bound
  }

  /** The int32 stored at position p. */
  function Int32At(s: seq<byte>, p: nat): int32
    requires p + 4 <= |s|
  {
    Int32LE(s[p..p + 4])
  }

  /** BinaryReader.ReadInt16: two bytes, or EndOfStream once fewer remain;
      the failing read consumes what is left (FillBuffer reads until the
      stream is exhausted before it throws). */
  function ReadInt16At(s: seq<byte>, p: nat): (r: Read<int>)
    requires p <= |s|
    ensures r.Ok? <==> p + 2 <= |s|
    ensures r.Ok? ==> r.pos == p + 2 && r.value == Int16LE(s[p], s[p + 1])
    ensures r.Fail? ==> r == Fail(EndOfStream, |s|)
  {
    if p + 2 <= |s| then Ok(Int16LE(s[p], s[p + 1]), p + 2) else Fail(EndOfStream, |s|)
  }

  /** BinaryReader.ReadInt32: the int32 stored in the next four bytes, or
      EndOfStream once fewer remain. */
  function ReadInt32At(s: seq<byte>, p: nat): (r: Read<int32>)
    requires p <= |s|
    ensures r.Ok? <==> p + 4 <= |s|
    ensures r.Ok? ==> r.pos == p + 4 && r.value == Int32At(s, p)
    ensures r.Fail? ==> r == Fail(EndOfStream, |s|)
  {
    if p + 4 <= |s| then Ok(Int32At(s, p), p + 4) else Fail(EndOfStream, |s|)
  }

  /** The bytes GetBytes gives for an int32 just read are the bytes read. */
  lemma ReadInt32Bytes(s: seq<byte>, p: nat)
    requires p + 4 <= |s|
    ensures Int32Bytes(Int32At(s, p)) == s[p..p + 4]
  {
    Int32BytesOfLE(s[p..p + 4]);
  }

  /** BinaryReader.ReadSingle: the four raw bytes of an IEEE-754 single. */
  function ReadSingleAt(s: seq<byte>, p: nat): (r: Read<seq<byte>>)
    requires p <= |s|
    ensures r.Ok? <==> p + 4 <= |s|
    ensures r.Ok? ==> r.pos == p + 4 && r.value == s[p..p + 4]
    ensures r.Fail? ==> r == Fail(EndOfStream, |s|)
  {
    if p + 4 <= |s| then Ok(s[p..p + 4], p + 4) else Fail(EndOfStream, |s|)
  }

  /** BinaryReader.ReadBytes(n): a negative n throws before anything is read;
      otherwise the next min(n, remaining) bytes, so a read at the end of the
      stream is short rather than failing. */
  function ReadBytesAt(s: seq<byte>, p: nat, n: int): (r: Read<seq<byte>>)
    requires p <= |s|
    ensures r.Fail? <==> n < 0
    ensures r.Fail? ==> r == Fail(NegativeByteCount(n), p)
    ensures r.Ok? ==> p <= r.pos <= |s| && r.value == s[p..r.pos]
    ensures r.Ok? ==> r.pos == (if p + n <= |s| then p + n else |s|)
  {
    if n < 0 then Fail(NegativeByteCount(n), p)
    else
      var q := if p + n <= |s| then p + n else |s|;
      Ok(s[p..q], q)
  }

  /** The bytes b are stored in s starting at position p. */
  predicate StoredAt(s: seq<byte>, p: nat, b: seq<byte>) {
    p + |b| <= |s| && s[p..p + |b|] == b
  }

  /** Reading an int32 where its four bytes are stored yields it. */
  lemma ReadInt32Of(s: seq<byte>, p: nat, v: int32)
    requires StoredAt(s, p, Int32Bytes(v))
    ensures ReadInt32At(s, p) == Ok(v, p + 4)
  {
  }

  /** Reading |b| bytes where b is stored yields b. */
  lemma ReadBytesOf(s: seq<byte>, p: nat, b: seq<byte>)
    requires StoredAt(s, p, b)
    ensures ReadBytesAt(s, p, |b|) == Ok(b, p + |b|)
  {
  }

  /** A BinaryReader over an open file: its bytes and its position. */
  class BinaryReader {
    const data: seq<byte>
    var pos: nat

    ghost predicate Valid()
      reads this
    {
      pos <= |data|
    }

    constructor (bytes: seq<byte>)
      ensures Valid() && data == bytes && pos == 0
    {
      data := bytes;
      pos := 0;
    }

    method ReadInt16() returns (r: Read<int>)
      requires Valid()
      modifies this
      ensures Valid() && r == ReadInt16At(data, old(pos)) && pos == r.pos
    {
      r := ReadInt16At(data, pos);
      pos := r.pos;
    }

    method ReadInt32() returns (r: Read<int32>)
      requires Valid()
      modifies this
      ensures Valid() && r == ReadInt32At(data, old(pos)) && pos == r.pos
    {
      r := ReadInt32At(data, pos);
      pos := r.pos;
    }

    method ReadSingle() returns (r: Read<seq<byte>>)
      requires Valid()
      modifies this
      ensures Valid() && r == ReadSingleAt(data, old(pos)) && pos == r.pos
    {
      r := ReadSingleAt(data, pos);
      pos := r.pos;
    }

    method ReadBytes(n: int) returns (r: Read<seq<byte>>)
      requires Valid()
      modifies this
      ensures Valid() && r == ReadBytesAt(data, old(pos), n) && pos == r.pos
    {
      r := ReadBytesAt(data, pos, n);
      pos := r.pos;
    }

    /** `BaseStream.Position -= n`; the caller has just read at least n bytes. */
    method MoveBack(n: nat)
      requires Valid() && n <= pos
      modifies this
      ensures Valid() && pos == old(pos) - n
    {
      pos := pos - n;
    }
  }
}
