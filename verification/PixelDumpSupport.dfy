/** printPNG of PixelDumpSupport.cpp: a checksum comment spliced into a PNG stream on its way out. */
module PixelDumpSupport {
  import opened Basics
  import opened Crc32
  import opened CyclicRedundancyCheck
  import opened PngChunks

  // ----- What is written -----

  const TextKind: seq<Byte> := [116, 69, 88, 116]                                  // tEXt
  const Keyword: seq<Byte> := [99, 104, 101, 99, 107, 115, 117, 109]               // checksum
  const TextCommentPrefix: seq<Byte> := [0, 0, 0, 0x29] + TextKind + Keyword + [0]

  /** A tEXt chunk: keyword, null separator, text (section 4.2.7 of RFC 2083). */
  function TextChunk(keyword: seq<Byte>, text: seq<Byte>): Chunk {
    Chunk(TextKind, keyword + [0] + text)
  }

  const ChecksumLength := 32

  /** The bytes added for a checksum. */
  function Comment(checksum: seq<Byte>): (bytes: seq<Byte>)
    requires |checksum| >= ChecksumLength
    ensures |bytes| == 53
  {
    var text := checksum[..ChecksumLength];
    TextCommentPrefix + text + BigEndian(Crc(TextCommentPrefix[4..] + text))
  }

  const OffsetAfterIHDRChunk := 33  // signature, and a chunk with 13 bytes of data

  /** The whole output for one image. */
  function Spliced(data: seq<Byte>, checksum: seq<Byte>): (bytes: seq<Byte>)
    requires |data| >= OffsetAfterIHDRChunk && |checksum| >= ChecksumLength
    ensures |bytes| == |data| + 53
  {
    data[..OffsetAfterIHDRChunk] + Comment(checksum) + data[OffsetAfterIHDRChunk..]
  }

  // ----- It is still a PNG stream -----

  /** The bytes are the ASCII codes of the letters. */
  ghost predicate Ascii(bytes: seq<Byte>, letters: string) {
    |bytes| == |letters| && forall i :: 0 <= i < |bytes| ==> bytes[i] as int == letters[i] as int
  }

  lemma Letters()
    ensures Ascii(TextKind, "tEXt") && Ascii(Keyword, "checksum")
  {
  }

  /** The added bytes are one chunk of kind "tEXt" with the keyword "checksum", a null byte and 32 bytes of checksum. */
  lemma {:induction false} CommentIsTextChunk(checksum: seq<Byte>)
    requires |checksum| >= 32
    ensures Chunks(Comment(checksum)) == Some([TextChunk(Keyword, checksum[..32])])
    ensures Ascii(TextChunk(Keyword, checksum[..32]).kind, "tEXt") && Ascii(Keyword, "checksum")
    ensures TextChunk(Keyword, checksum[..32]).data == Keyword + [0] + checksum[..32]
  {
    hide Chunks, Crc, Comment, Encode, Count;
    var c := TextChunk(Keyword, checksum[..ChecksumLength]);
    CommentIsEncoded(checksum);
    assert IsKind(TextKind);
    CommentLength();
    Letters();
    EncodeRoundTrip([0, 0, 0, 0x29], c);
  }

  lemma CommentLength()
    ensures Count([0, 0, 0, 0x29]) == 41
  {
  }

  lemma CommentIsEncoded(checksum: seq<Byte>)
    requires |checksum| >= ChecksumLength
    ensures |TextChunk(Keyword, checksum[..ChecksumLength]).data| == 41
    ensures Comment(checksum) == Encode([0, 0, 0, 0x29], TextChunk(Keyword, checksum[..ChecksumLength]))
  {
    hide Crc, BigEndian;
    var text := checksum[..ChecksumLength];
    var c := TextChunk(Keyword, text);
    assert TextCommentPrefix[4..] == TextKind + Keyword + [0];
    assert c.kind + c.data == TextCommentPrefix[4..] + text;
    assert TextCommentPrefix == [0, 0, 0, 0x29] + TextKind + Keyword + [0];
  }

  /**
   For every well-formed PNG stream whose first chunk has the 13 data bytes of an IHDR chunk, the output
   decodes to the same chunks with one tEXt chunk, keyword "checksum" and the checksum as text, after the first.
   */
  lemma {:induction false} SplicedDecodes(data: seq<Byte>, checksum: seq<Byte>)
    requires Decode(data).Some? && Decode(data).value != [] && |Decode(data).value[0].data| == 13
    requires |checksum| >= 32
    ensures |data| >= 33
    ensures var cs := Decode(data).value;
            Decode(Spliced(data, checksum)) == Some([cs[0], TextChunk(Keyword, checksum[..32])] + cs[1..])
  {
    hide Chunks, Comment;
    var cs := Decode(data).value;
    var stream := data[8..];
    ChunksSplit(stream);
    CommentIsTextChunk(checksum);
    var text := TextChunk(Keyword, checksum[..ChecksumLength]);
    ChunksConcat(stream[..25], Comment(checksum));
    ChunksConcat(stream[..25] + Comment(checksum), stream[25..]);
    var out := Spliced(data, checksum);
    assert out[..8] == data[..8];
    assert out[8..] == stream[..25] + Comment(checksum) + stream[25..];
    assert [cs[0]] + [text] + cs[1..] == [cs[0], text] + cs[1..];
  }

  /** Such streams: the signature, an IHDR chunk and any chunks after it. */
  lemma {:induction false} ImageDecodes(header: seq<Byte>, rest: seq<Byte>)
    requires |header| == 13 && Chunks(rest).Some?
    ensures var ihdr := Chunk([73, 72, 68, 82], header);
            Decode(Signature + Encode([0, 0, 0, 13], ihdr) + rest) == Some([ihdr] + Chunks(rest).value)
  {
    hide Chunks, Encode;
    var ihdr := Chunk([73, 72, 68, 82], header);
    EncodeRoundTrip([0, 0, 0, 13], ihdr);
    ChunksConcat(Encode([0, 0, 0, 13], ihdr), rest);
    var png := Signature + Encode([0, 0, 0, 13], ihdr) + rest;
    assert png[..8] == Signature && png[8..] == Encode([0, 0, 0, 13], ihdr) + rest;
  }

  // ----- How it is written -----

  class ByteVector {
    var bytes: seq<Byte>

    constructor ()
      ensures bytes == []
    {
      bytes := [];
    }

    method Append(data: seq<Byte>)
      modifies this
      ensures bytes == old(bytes) + data
    {
      bytes := bytes + data;
    }

    /** appendIntToVector: grow by four and fill them in place. */
    method AppendInt(number: bv32)
      modifies this
      ensures bytes == old(bytes) + BigEndian(number)
    {
      var offset := |bytes|;
      bytes := bytes + [0, 0, 0, 0];
      bytes := bytes[offset := ((number >> 24) & 0xff) as Byte];
      bytes := bytes[offset + 1 := ((number >> 16) & 0xff) as Byte];
      bytes := bytes[offset + 2 := ((number >> 8) & 0xff) as Byte];
      bytes := bytes[offset + 3 := (number & 0xff) as Byte];
    }
  }

  method ConvertChecksumToPNGComment(checksum: seq<Byte>, bytesToAdd: ByteVector, crc: CrcState)
    requires |checksum| >= ChecksumLength && crc.Valid()
    modifies bytesToAdd, crc, crc.crcTable
    ensures crc.Valid() && bytesToAdd.bytes == old(bytesToAdd.bytes) + Comment(checksum)
  {
    hide Crc, BigEndian;
    bytesToAdd.Append(TextCommentPrefix);
    bytesToAdd.Append(checksum[..ChecksumLength]);
    var dataToCrc := new ByteVector();
    dataToCrc.Append(TextCommentPrefix[4..]);
    dataToCrc.Append(checksum[..ChecksumLength]);
    assert dataToCrc.bytes == TextCommentPrefix[4..] + checksum[..ChecksumLength];
    var crc32 := crc.ComputeCrc(dataToCrc.bytes);
    bytesToAdd.AppendInt(crc32);
  }

  /** A stream whose writes may stop short. */
  class Output {
    var bytes: seq<Byte>
    ghost var complete: bool  // no write has stopped short

    constructor ()
      ensures bytes == [] && complete
    {
      bytes, complete := [], true;
    }

    method Fwrite(data: seq<Byte>) returns (n: nat)
      modifies this
      ensures n <= |data| && bytes == old(bytes) + data[..n]
      ensures complete == (old(complete) && n == |data|)
    {
      n :| n <= |data|;
      bytes := bytes + data[..n];
      complete := complete && n == |data|;
    }
  }

  const BytesToWriteInOneChunk := 0x8000

  /** printPNG; `announced` is the number printed as Content-Length. */
  method PrintPNG(data: seq<Byte>, checksum: seq<Byte>, crc: CrcState, out: Output) returns (announced: nat)
    requires |data| >= OffsetAfterIHDRChunk && |checksum| >= ChecksumLength && crc.Valid()
    modifies crc, crc.crcTable, out
    ensures crc.Valid()
    ensures out.complete ==> out.bytes == old(out.bytes) + Spliced(data, checksum)
    ensures out.complete ==> |out.bytes| - |old(out.bytes)| == announced
    ensures |out.bytes| - |old(out.bytes)| <= announced == |Spliced(data, checksum)|
  {
    hide Comment;
    var bytesToAdd := new ByteVector();
    ConvertChecksumToPNGComment(checksum, bytesToAdd, crc);
    announced := |data| + |bytesToAdd.bytes|;
    var insertOffset := OffsetAfterIHDRChunk;
    var ignored := out.Fwrite(data[..insertOffset]);
    ignored := out.Fwrite(bytesToAdd.bytes);
    assert out.complete ==> out.bytes == old(out.bytes) + data[..insertOffset] + Comment(checksum);
    WriteRest(data[insertOffset..], out);
    assert out.complete ==> out.bytes == old(out.bytes) + Spliced(data, checksum);
  }

  /** The write loop. */
  method WriteRest(data: seq<Byte>, out: Output)
    modifies out
    ensures old(out.bytes) <= out.bytes <= old(out.bytes) + data
    ensures out.complete ==> old(out.complete) && out.bytes == old(out.bytes) + data
  {
    var position, dataRemainingToWrite: nat := 0, |data|;
    while dataRemainingToWrite > 0
      invariant 0 <= position && position + dataRemainingToWrite == |data|
      invariant out.bytes == old(out.bytes) + data[..position]
      invariant out.complete == old(out.complete)
    {
      var bytesToWriteInThisChunk :=
        if dataRemainingToWrite < BytesToWriteInOneChunk then dataRemainingToWrite else BytesToWriteInOneChunk;
      var piece := data[position..position + bytesToWriteInThisChunk];
      var bytesWritten := out.Fwrite(piece);
      assert data[..position] + piece[..bytesWritten] == data[..position + bytesWritten];
      assert out.bytes == old(out.bytes) + data[..position + bytesWritten];
      if bytesWritten != bytesToWriteInThisChunk {
        return;
      }
      dataRemainingToWrite := dataRemainingToWrite - bytesWritten;
      position := position + bytesWritten;
    }
    assert data[..position] == data;
  }
}
