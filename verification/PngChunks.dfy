/** PNG chunk streams as section 3.2 of RFC 2083 lays them out, and a decoder for them. */
module PngChunks {
  import opened Basics
  import opened Crc32

  datatype Chunk = Chunk(kind: seq<Byte>, data: seq<Byte>)

  // ----- Integers -----

  /** Most significant byte first (section 2.1 of RFC 2083). */
  function BigEndian(n: bv32): (s: seq<Byte>)
    ensures |s| == 4
  {
    [((n >> 24) & 0xff) as Byte, ((n >> 16) & 0xff) as Byte, ((n >> 8) & 0xff) as Byte, (n & 0xff) as Byte]
  }

  function FromBigEndian(s: seq<Byte>): bv32
    requires |s| == 4
  {
    (s[0] as bv32 << 24) | (s[1] as bv32 << 16) | (s[2] as bv32 << 8) | s[3] as bv32
  }

  /** Four bytes as a count. */
  function Count(s: seq<Byte>): nat
    requires |s| == 4
  {
    FromBigEndian(s) as int
  }

  lemma BigEndianRoundTrip(n: bv32)
    ensures FromBigEndian(BigEndian(n)) == n
  {
  }

  // ----- Chunks -----

  predicate IsLetter(b: Byte) { 65 <= b <= 90 || 97 <= b <= 122 }

  predicate IsKind(kind: seq<Byte>) {
    |kind| == 4 && forall i :: 0 <= i < 4 ==> IsLetter(kind[i])
  }

  /** The length field, if the bytes start with one that section 3.2 of RFC 2083 allows. */
  function LengthField(bytes: seq<Byte>): (n: Option<nat>)
    ensures n.Some? ==> |bytes| >= 12
  {
    if |bytes| < 12 then None
    else
      var n := Count(bytes[..4]);
      if n <= 0x7fff_ffff then Some(n) else None
  }

  /** The first chunk: its length fits, its type is made of letters and its CRC covers type and data. */
  function FirstChunk(bytes: seq<Byte>): (c: Option<Chunk>)
    ensures c.Some? ==> |c.value.kind| == 4 && 12 + |c.value.data| <= |bytes|
  {
    var n := LengthField(bytes);
    if n.None? || |bytes| < 12 + n.value then None
    else
      var end := 8 + n.value;
      if IsKind(bytes[4..8]) && FromBigEndian(bytes[end..end + 4]) == Crc(bytes[4..end])
      then Some(Chunk(bytes[4..8], bytes[8..end]))
      else None
  }

  /** The chunks of a stream, if it is well formed to its end. */
  function Chunks(bytes: seq<Byte>): (cs: Option<seq<Chunk>>)
    decreases |bytes|
  {
    if bytes == [] then Some([])
    else
      var c := FirstChunk(bytes);
      if c.None? then None
      else
        var rest := Chunks(bytes[12 + |c.value.data|..]);
        if rest.None? then None else Some([c.value] + rest.value)
  }

  const Signature: seq<Byte> := [137, 80, 78, 71, 13, 10, 26, 10]

  function Decode(png: seq<Byte>): (cs: Option<seq<Chunk>>) {
    if |png| >= 8 && png[..8] == Signature then Chunks(png[8..]) else None
  }

  /** A chunk as bytes, given its length field. */
  function Encode(length: seq<Byte>, c: Chunk): (bytes: seq<Byte>) {
    length + c.kind + c.data + BigEndian(Crc(c.kind + c.data))
  }

  /** Only its own bytes decide what the first chunk is. */
  lemma FirstChunkExtends(bytes: seq<Byte>, more: seq<Byte>)
    requires FirstChunk(bytes).Some?
    ensures FirstChunk(bytes + more) == FirstChunk(bytes)
  {
    hide Count, FromBigEndian, BigEndian, Crc, IsKind;
    var all := bytes + more;
    assert all[..4] == bytes[..4];
    var end := 8 + LengthField(bytes).value;
    assert all[4..8] == bytes[4..8] && all[4..end] == bytes[4..end];
    assert all[8..end] == bytes[8..end] && all[end..end + 4] == bytes[end..end + 4];
  }

  lemma {:induction false} ChunksConcat(a: seq<Byte>, b: seq<Byte>)
    requires Chunks(a).Some? && Chunks(b).Some?
    ensures Chunks(a + b) == Some(Chunks(a).value + Chunks(b).value)
    decreases |a|
  {
    hide FirstChunk;
    if a == [] {
      assert a + b == b;
      assert [] + Chunks(b).value == Chunks(b).value;
    } else {
      FirstChunkExtends(a, b);
      var n := 12 + |FirstChunk(a).value.data|;
      assert (a + b)[n..] == a[n..] + b;
      ChunksConcat(a[n..], b);
      var first := [FirstChunk(a).value];
      assert first + (Chunks(a[n..]).value + Chunks(b).value) == first + Chunks(a[n..]).value + Chunks(b).value;
    }
  }

  /** The bytes of the first chunk alone, and those after it, are streams of their own. */
  lemma ChunksSplit(bytes: seq<Byte>)
    requires Chunks(bytes).Some? && Chunks(bytes).value != []
    ensures var c := Chunks(bytes).value[0];
            var n := 12 + |c.data|;
            && n <= |bytes| && Chunks(bytes[..n]) == Some([c])
            && Chunks(bytes[n..]) == Some(Chunks(bytes).value[1..])
  {
    hide FirstChunk;
    var c := Chunks(bytes).value[0];
    var n := 12 + |c.data|;
    FirstChunkAlone(bytes);
    assert bytes[..n][n..] == [];
    assert Chunks([]) == Some([]);
    assert [c] + [] == [c];
  }

  lemma FirstChunkAlone(bytes: seq<Byte>)
    requires FirstChunk(bytes).Some?
    ensures var n := 12 + |FirstChunk(bytes).value.data|;
            FirstChunk(bytes[..n]) == FirstChunk(bytes)
  {
    hide Count, FromBigEndian, BigEndian, Crc, IsKind;
    var end := 8 + |FirstChunk(bytes).value.data|;
    var first := bytes[..end + 4];
    assert first[..4] == bytes[..4];
    assert first[4..8] == bytes[4..8] && first[4..end] == bytes[4..end];
    assert first[8..end] == bytes[8..end] && first[end..end + 4] == bytes[end..end + 4];
  }

  /** Decoding undoes encoding. */
  lemma {:induction false} EncodeRoundTrip(length: seq<Byte>, c: Chunk)
    requires IsKind(c.kind) && |length| == 4 && Count(length) == |c.data| <= 0x7fff_ffff
    ensures Chunks(Encode(length, c)) == Some([c])
  {
    hide FirstChunk, Encode, Count;
    EncodeFirst(length, c);
    assert Encode(length, c)[12 + |c.data|..] == [];
    assert Chunks([]) == Some([]);
    assert [c] + [] == [c];
  }

  lemma EncodeFirst(length: seq<Byte>, c: Chunk)
    requires IsKind(c.kind) && |length| == 4 && Count(length) == |c.data| <= 0x7fff_ffff
    ensures FirstChunk(Encode(length, c)) == Some(c) && |Encode(length, c)| == 12 + |c.data|
  {
    hide Count, FromBigEndian, BigEndian, Crc;
    var bytes, end := Encode(length, c), 8 + |c.data|;
    assert bytes[..4] == length;
    assert bytes[4..8] == c.kind && bytes[8..end] == c.data && bytes[4..end] == c.kind + c.data;
    assert bytes[end..end + 4] == BigEndian(Crc(c.kind + c.data));
    BigEndianRoundTrip(Crc(c.kind + c.data));
  }
}
