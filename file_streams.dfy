/** The file as the decoder sees it through a `FileStream`: an immutable byte sequence and a
    current position. `Read` delivers only the bytes the file still has, so a buffer freshly
    allocated for a read past the end keeps zeros where nothing arrived. */
module FileStreams {
  import opened Results
  import opened Bytes

  /** The byte at `i`, or zero past the end of `data`. */
  function ByteAt(data: seq<uint8>, i: nat): uint8
  {
    if i < |data| then data[i] else 0
  }

  /** `count` bytes of `data` from `from`, zero-padded past its end. */
  function Padded(data: seq<uint8>, from: nat, count: nat): (r: seq<uint8>)
    ensures |r| == count
  {
    seq<uint8>(count, k requires 0 <= k < count => ByteAt(data, from + k))
  }

  function Zeros(count: nat): (r: seq<uint8>)
    ensures |r| == count && forall k :: 0 <= k < count ==> r[k] == 0
  {
    seq(count, _ => 0)
  }

  function Min(a: nat, b: nat): nat
  {
    if a < b then a else b
  }

  /** How many bytes `Stream.Read` of `count` bytes at `position` hands back from a file of
      `length` bytes: a short read happens only at the end of the file. */
  function Available(length: nat, position: nat, count: nat): (n: nat)
    ensures n <= count
    ensures n > 0 ==> position + n <= length
    ensures n < count ==> position + n >= length
  {
    if position >= length then 0 else Min(count, length - position)
  }

  /** The bytes a read of `count` bytes at `position` actually delivers. */
  function Supplied(data: seq<uint8>, position: nat, count: nat): (r: seq<uint8>)
    ensures |r| == Available(|data|, position, count)
    ensures forall k :: 0 <= k < |r| ==> r[k] == data[position + k]
  {
    if position >= |data| then [] else data[position..position + Min(count, |data| - position)]
  }

  /** `dest` with `src` written over it from index `at`. */
  function Overwrite(dest: seq<uint8>, at: nat, src: seq<uint8>): (r: seq<uint8>)
    requires at + |src| <= |dest|
    ensures |r| == |dest|
    ensures forall j :: 0 <= j < |dest| ==>
              r[j] == if at <= j < at + |src| then src[j - at] else dest[j]
  {
    dest[..at] + src + dest[at + |src|..]
  }

  datatype Stream = Stream(data: seq<uint8>, position: nat)

  /** The bytes one read hands back, and the stream after it. */
  datatype Chunk = Chunk(bytes: seq<uint8>, rest: Stream)

  /** `fs.Read(buffer, 0, count)` into a freshly allocated, zeroed buffer of `count` bytes. */
  function Read(s: Stream, count: nat): Chunk
  {
    Chunk(Padded(s.data, s.position, count), Stream(s.data, s.position + Available(|s.data|, s.position, count)))
  }

  /** A read fills its `count`-byte buffer with the file's bytes from the position on and
      keeps zeros past the end of the file. The position advances by `count`, or stops at the
      end of the file, or stays put when it already lies at or past the end. */
  lemma ReadDelivers(s: Stream, count: nat)
    ensures |Read(s, count).bytes| == count
    ensures forall k :: 0 <= k < count ==>
              Read(s, count).bytes[k] == if s.position + k < |s.data| then s.data[s.position + k] else 0
    ensures Read(s, count).rest == Stream(s.data, if s.position >= |s.data| then s.position
                                                  else if s.position + count <= |s.data| then s.position + count
                                                  else |s.data|)
  {
    var r := Read(s, count);
    forall k | 0 <= k < count
      ensures r.bytes[k] == if s.position + k < |s.data| then s.data[s.position + k] else 0
    {
      assert r.bytes[k] == ByteAt(s.data, s.position + k);
    }
  }

  /** The stream reads from here on exactly what it would read at position `logical`:
      either it is there, or both lie at or past the end of the file. */
  predicate Tracks(s: Stream, logical: nat)
  {
    s.position == logical || (s.position >= |s.data| && logical >= |s.data|)
  }

  /** A read from a stream that tracks `logical` returns the zero-padded bytes at `logical` and
      leaves a stream tracking `logical + count`. So a sequence of reads sees the file as if
      every read had advanced the position by its full count. */
  lemma ReadTracks(s: Stream, logical: nat, count: nat)
    requires Tracks(s, logical)
    ensures Read(s, count).bytes == Padded(s.data, logical, count)
    ensures Tracks(Read(s, count).rest, logical + count)
  {
    if s.position != logical {
      var here, there := Padded(s.data, s.position, count), Padded(s.data, logical, count);
      forall k | 0 <= k < count ensures here[k] == there[k] {
        assert here[k] == ByteAt(s.data, s.position + k) == 0;
        assert there[k] == ByteAt(s.data, logical + k) == 0;
      }
      assert here == there;
    }
  }

  /** `Stream.Read(buffer, offset, count)` on a file positioned at `position`: the argument
      checks first, then a copy of as many bytes as the file still has. Destination bytes past
      those keep their previous contents. */
  method ReadInto(data: seq<uint8>, position: nat, buffer: array<uint8>, offset: int, count: int)
    returns (r: Result<nat>)
    modifies buffer
    ensures r.Success? <==> 0 <= offset && 0 <= count && count <= buffer.Length - offset
    ensures r.Failure? ==> r.error == OutOfRange && buffer[..] == old(buffer[..])
    ensures r.Success? ==> r.value == Available(|data|, position, count)
    ensures r.Success? ==>
              buffer[..] == Overwrite(old(buffer[..]), offset, Supplied(data, position, count))
  {
    if offset < 0 || count < 0 || buffer.Length - offset < count {
      return Failure(OutOfRange);
    }
    var n := Available(|data|, position, count);
    ghost var src := Supplied(data, position, count);
    var k := 0;
    while k < n
      invariant 0 <= k <= n
      invariant forall j :: 0 <= j < buffer.Length ==>
                  buffer[j] == if offset <= j < offset + k then src[j - offset] else old(buffer[j])
    {
      buffer[offset + k] := data[position + k];
      k := k + 1;
    }
    assert buffer[..] == Overwrite(old(buffer[..]), offset, src);
    return Success(n);
  }
}
