/** The outer "SSF1" container of a save file: a header whose bytes 4..8 hold
    the length of the compressed stream (i32 LE), bytes 12..16 the length of
    the decompressed payload (i32 LE) and bytes 20..52 the MD5 of the stream
    as 32 lowercase hex characters; then the stream, a run of chunk records
    uSize (i32 LE), cSize (i32 LE) and cSize bytes of zlib data. */
module SsfCodec {
  import opened Wrappers
  import opened Bytes

  const SsfMagic: seq<byte> := [83, 83, 70, 49]  // "SSF1"
  const DefaultChunkSize: int := 1_048_576
  /** The header length |file| - totalComp is trusted inside these bounds. */
  const MinHeaderLen: int := 16
  const MaxHeaderLen: int := 1024 * 1024
  /** Bound on the fallback scan for the first chunk record. */
  const FallbackScan: int := 256 * 1024
  /** Largest uncompressed size the fallback scan finds plausible. */
  const MaxPlausibleUSize: int := 500_000_000
  /** Where the MD5 hex digest sits in the header, and its length. */
  const HashField: int := 20
  const HashLen: int := 32
  /** uSize and cSize. */
  const ChunkHeaderLen: int := 8

  /** The compression library, which the model does not look into: zlib
      compression, and zlib-wrapped and raw deflate decompression, which give
      None where the data is not a valid stream. */
  datatype Zlib = Zlib(compress: seq<byte> -> seq<byte>,
                       inflateZlib: seq<byte> -> Option<seq<byte>>,
                       inflateRaw: seq<byte> -> Option<seq<byte>>)

  /** An MD5 hash. */
  type Digest = s: seq<byte> | |s| == 16 witness [0, 0, 0, 0, 0, 0, 0, 0, 0, 0, 0, 0, 0, 0, 0, 0]

  datatype DecodeResult = DecodeResult(
    headerLength: int,
    expectedTotalCompressed: int,
    expectedTotalUncompressed: int,
    headerBytes: seq<byte>,
    decompressedPayload: seq<byte>,
    /** Decode's non-fatal warning: the header announces a positive payload
        length that the decompressed payload does not have. */
    sizeMismatch: bool)

  // ---------------------------------------------------------------------------
  // Decompression

  /** One decompression attempt; an empty result counts as a failure. */
  function TryInflate(data: seq<byte>, zlibWrapper: bool, z: Zlib): (r: Option<seq<byte>>)
    ensures r.Some? ==> |r.value| > 0
  {
    var d := if zlibWrapper then z.inflateZlib(data) else z.inflateRaw(data);
    if d.Some? && |d.value| > 0 then d else None
  }

  /** zlib first, raw deflate when that fails. */
  function Inflated(data: seq<byte>, z: Zlib): Option<seq<byte>>
  {
    match TryInflate(data, true, z)
    case Some(d) => Some(d)
    case None => TryInflate(data, false, z)
  }

  function Prepend(acc: seq<byte>, r: Result<seq<byte>>): Result<seq<byte>>
  {
    match r
    case Success(rest) => Success(acc + rest)
    case Failure(e) => Failure(e)
  }

  lemma PrependAssoc(a: seq<byte>, b: seq<byte>, r: Result<seq<byte>>)
    ensures Prepend(a, Prepend(b, r)) == Prepend(a + b, r)
  {
    if r.Success? {
      ConcatAssoc(a, b, r.value);
    }
  }

  /** The chunk record at offset: its inflated data and where it ends, or why
      it cannot be read. The bound check on the record end is evaluated in
      32-bit arithmetic; a sum that wraps below zero passes it, and the slice
      that follows is out of range. */
  function ChunkAt(file: seq<byte>, offset: int, z: Zlib): (r: Result<(seq<byte>, int)>)
    requires 0 <= offset
    ensures r.Success? ==> offset + ChunkHeaderLen < r.value.1 <= |file|
  {
    if offset + ChunkHeaderLen > |file| then Failure(UnexpectedEof(offset))
    else
      var cSize := I32At(file, offset + 4);
      var dataStart := offset + ChunkHeaderLen;
      if cSize <= 0 || Wrap32(dataStart + cSize) > |file| then Failure(InvalidChunkSize(offset))
      else if dataStart + cSize > |file| then Failure(OutOfRange)
      else
        match Inflated(file[dataStart..dataStart + cSize], z)
        case None => Failure(Undecompressable(dataStart))
        case Some(dec) => Success((dec, dataStart + cSize))
  }

  /** The ways one record read fails, in the order they are checked, and what
      a successful read yields: the inflated chunk, never empty, and the
      offset just past the record. A record end at or beyond 2^31 wraps
      negative in the bound check, which it then passes; the slice after it
      is out of range. */
  lemma ChunkAtOutcome(file: seq<byte>, offset: int, z: Zlib)
    requires 0 <= offset && |file| < Two31
    ensures offset + ChunkHeaderLen > |file| ==> ChunkAt(file, offset, z) == Failure(UnexpectedEof(offset))
    ensures offset + ChunkHeaderLen <= |file| ==>
              var cSize := I32At(file, offset + 4);
              var dataStart := offset + ChunkHeaderLen;
              (cSize <= 0 || |file| < dataStart + cSize < Two31 ==>
                 ChunkAt(file, offset, z) == Failure(InvalidChunkSize(offset))) &&
              (0 < cSize && Two31 <= dataStart + cSize ==> ChunkAt(file, offset, z) == Failure(OutOfRange)) &&
              (0 < cSize && dataStart + cSize <= |file| ==>
                 (Inflated(file[dataStart..dataStart + cSize], z).None? ==>
                    ChunkAt(file, offset, z) == Failure(Undecompressable(dataStart))) &&
                 (Inflated(file[dataStart..dataStart + cSize], z).Some? ==>
                    var dec := Inflated(file[dataStart..dataStart + cSize], z).value;
                    |dec| > 0 && ChunkAt(file, offset, z) == Success((dec, dataStart + cSize))))
  {
    if offset + ChunkHeaderLen <= |file| {
      var cSize := I32At(file, offset + 4);
      var dataStart := offset + ChunkHeaderLen;
      if 0 < cSize && Two31 <= dataStart + cSize {
        assert Wrap32(dataStart + cSize) == dataStart + cSize - Two32 by {
          ModUnique(dataStart + cSize, 0, dataStart + cSize);
        }
      }
    }
  }

  /** What DecompressBlocks computes from the record at offset on, with
      remaining = totalComp - processed: the inflated chunks in order, or the
      first failure. */
  function DecompressFrom(file: seq<byte>, offset: int, remaining: int, z: Zlib): (r: Result<seq<byte>>)
    requires 0 <= offset
    decreases remaining
  {
    if remaining <= 0 then Success([])
    else
      match ChunkAt(file, offset, z)
      case Failure(e) => Failure(e)
      case Success((dec, next)) => Prepend(dec, DecompressFrom(file, next, remaining - (next - offset), z))
  }

  /** One turn of the decompression loop. */
  method ReadChunkAt(file: seq<byte>, offset: int, z: Zlib) returns (r: Result<(seq<byte>, int)>)
    requires 0 <= offset
    ensures r == ChunkAt(file, offset, z)
  {
    if offset + ChunkHeaderLen > |file| {
      return Failure(UnexpectedEof(offset));
    }
    // uSize, at offset, is read and not used
    var cSize := I32At(file, offset + 4);
    var dataStart := offset + ChunkHeaderLen;
    if cSize <= 0 || Wrap32(dataStart + cSize) > |file| {
      return Failure(InvalidChunkSize(offset));
    }
    if dataStart + cSize > |file| {
      return Failure(OutOfRange);
    }
    var comp := file[dataStart..dataStart + cSize];
    var dec := TryInflate(comp, true, z);
    if dec.None? {
      dec := TryInflate(comp, false, z);
    }
    if dec.None? {
      return Failure(Undecompressable(dataStart));
    }
    return Success((dec.value, dataStart + cSize));
  }

  method DecompressBlocks(file: seq<byte>, startOffset: int, totalComp: int, z: Zlib) returns (r: Result<seq<byte>>)
    requires 0 <= startOffset
    ensures r == DecompressFrom(file, startOffset, totalComp, z)
  {
    var offset := startOffset;
    var processed := 0;
    var out: seq<byte> := [];
    assert Prepend(out, DecompressFrom(file, offset, totalComp, z)) == DecompressFrom(file, offset, totalComp, z) by {
      match DecompressFrom(file, offset, totalComp, z)
      case Success(rest) => assert out + rest == rest;
      case Failure(_) =>
    }
    while processed < totalComp
      invariant 0 <= offset
      invariant DecompressFrom(file, startOffset, totalComp, z) ==
                Prepend(out, DecompressFrom(file, offset, totalComp - processed, z))
      decreases totalComp - processed
    {
      var chunk := ReadChunkAt(file, offset, z);
      if chunk.Failure? {
        return Failure(chunk.error);
      }
      var (dec, next) := chunk.value;
      // processed grows by 8 + cSize, the bytes the record occupies
      processed := processed + (next - offset);
      offset := next;
      PrependAssoc(out, dec, DecompressFrom(file, offset, totalComp - processed, z));
      out := out + dec;
    }
    assert out + [] == out;
    return Success(out);
  }

  // ---------------------------------------------------------------------------
  // Compression

  /** The payload cut into chunks of chunkSize bytes, the last one shorter. */
  function Chunks(p: seq<byte>, chunkSize: int): seq<seq<byte>>
    requires chunkSize > 0
    decreases |p|
  {
    if |p| == 0 then []
    else
      var uSize := Min(chunkSize, |p|);
      [p[..uSize]] + Chunks(p[uSize..], chunkSize)
  }

  function Flatten(chunks: seq<seq<byte>>): seq<byte>
  {
    if chunks == [] then [] else chunks[0] + Flatten(chunks[1..])
  }

  /** The record stream written for the chunks: uSize, cSize, compressed data. */
  function Records(chunks: seq<seq<byte>>, compress: seq<byte> -> seq<byte>): seq<byte>
  {
    if chunks == [] then [] else Record(chunks[0], compress) + Records(chunks[1..], compress)
  }

  /** One record: uSize, cSize and the compressed data, in this order. */
  function Record(chunk: seq<byte>, compress: seq<byte> -> seq<byte>): seq<byte>
  {
    U32Bytes(|chunk|) + U32Bytes(|compress(chunk)|) + compress(chunk)
  }

  /** The stream from off on starts with the record of the next chunk. */
  lemma ChunkStreamStep(p: seq<byte>, off: int, chunkSize: int, compress: seq<byte> -> seq<byte>)
    requires chunkSize > 0 && 0 <= off < |p|
    ensures ChunkStream(p[off..], chunkSize, compress) ==
            Record(p[off..off + Min(chunkSize, |p| - off)], compress) +
            ChunkStream(p[off + Min(chunkSize, |p| - off)..], chunkSize, compress)
  {
    var uSize := Min(chunkSize, |p| - off);
    var rest := p[off..];
    assert rest[..uSize] == p[off..off + uSize];
    assert rest[uSize..] == p[off + uSize..];
    var cs := Chunks(rest, chunkSize);
    assert cs[1..] == Chunks(rest[uSize..], chunkSize);
  }

  /** What CompressToBlocks computes. */
  function ChunkStream(p: seq<byte>, chunkSize: int, compress: seq<byte> -> seq<byte>): seq<byte>
    requires chunkSize > 0
  {
    Records(Chunks(p, chunkSize), compress)
  }

  /** The stream's length: 8 bytes of sizes plus the compressed data, per chunk. */
  function RecordsSize(chunks: seq<seq<byte>>, compress: seq<byte> -> seq<byte>): nat
  {
    if chunks == [] then 0
    else ChunkHeaderLen + |compress(chunks[0])| + RecordsSize(chunks[1..], compress)
  }

  method CompressToBlocks(decompressed: seq<byte>, chunkSize: int, z: Zlib) returns (out: seq<byte>)
    requires chunkSize > 0
    ensures out == ChunkStream(decompressed, chunkSize, z.compress)
  {
    out := [];
    var off := 0;
    while off < |decompressed|
      invariant 0 <= off <= |decompressed|
      invariant ChunkStream(decompressed, chunkSize, z.compress) == out + ChunkStream(decompressed[off..], chunkSize, z.compress)
      decreases |decompressed| - off
    {
      var uSize := Min(chunkSize, |decompressed| - off);
      var span := decompressed[off..off + uSize];
      var comp := z.compress(span);
      ChunkStreamStep(decompressed, off, chunkSize, z.compress);
      ConcatAssoc(out, Record(span, z.compress), ChunkStream(decompressed[off + uSize..], chunkSize, z.compress));
      // uSize, cSize and the compressed data, in this order
      out := out + (U32Bytes(uSize) + U32Bytes(|comp|) + comp);
      off := off + uSize;
    }
    assert decompressed[off..] == [];
  }

  // ---------------------------------------------------------------------------
  // Finding the header length

  /** The test the fallback scan makes at off: a positive compressed size, a
      record that fits in the file, a plausible uncompressed size and data
      that inflates. */
  predicate ChunkRecordAt(file: seq<byte>, off: int, z: Zlib)
  {
    0 <= off && off + ChunkHeaderLen <= |file| &&
    var u := I32At(file, off);
    var c := I32At(file, off + 4);
    c > 0 && off + ChunkHeaderLen + c <= |file| && 0 <= u <= MaxPlausibleUSize &&
    Inflated(file[off + ChunkHeaderLen..off + ChunkHeaderLen + c], z).Some?
  }

  /** The first offset in [off, limit) holding a chunk record, ascending. */
  function FirstChunkFrom(file: seq<byte>, off: int, limit: int, z: Zlib): (r: Option<int>)
    requires 0 <= off
    ensures r.Some? ==> off <= r.value < limit
    decreases limit - off
  {
    if off >= limit then None
    else if ChunkRecordAt(file, off, z) then Some(off)
    else FirstChunkFrom(file, off + 1, limit, z)
  }

  /** The scan finds the least offset holding a chunk record, and none only
      when there is none in range. */
  lemma {:induction false} FirstChunkFromIsLeast(file: seq<byte>, off: int, limit: int, z: Zlib)
    requires 0 <= off
    ensures FirstChunkFrom(file, off, limit, z).Some? ==> ChunkRecordAt(file, FirstChunkFrom(file, off, limit, z).value, z)
    ensures FirstChunkFrom(file, off, limit, z).Some? ==>
              forall j :: off <= j < FirstChunkFrom(file, off, limit, z).value ==> !ChunkRecordAt(file, j, z)
    ensures FirstChunkFrom(file, off, limit, z).None? <==> forall j :: off <= j < limit ==> !ChunkRecordAt(file, j, z)
    decreases limit - off
  {
    if off < limit && !ChunkRecordAt(file, off, z) {
      FirstChunkFromIsLeast(file, off + 1, limit, z);
    }
  }

  /** What FindFirstBlockOffset computes (with the record-end check in
      unbounded arithmetic; see FirstChunkOffsetAsWritten). */
  function FirstChunkOffset(file: seq<byte>, z: Zlib): Result<int>
  {
    match FirstChunkFrom(file, 0, Min(FallbackScan, |file| - 16), z)
    case None => Failure(NoCompressedBlock)
    case Some(off) => Success(off)
  }

  /** FindFirstBlockOffset as written: off + 8 + c is an int and wraps for a
      large c, the wrapped sum passes the overrun check, and the slice of c
      bytes then throws, outside the inflation's exception handler. */
  function FirstChunkFromAsWritten(file: seq<byte>, off: int, limit: int, z: Zlib): Result<int>
    requires 0 <= off && limit <= |file| - 16
    decreases limit - off
  {
    if off >= limit then Failure(NoCompressedBlock)
    else
      var u := I32At(file, off);
      var c := I32At(file, off + 4);
      if c <= 0 || Wrap32(off + ChunkHeaderLen + c) > |file| || u < 0 || u > MaxPlausibleUSize then
        FirstChunkFromAsWritten(file, off + 1, limit, z)
      else if off + ChunkHeaderLen + c > |file| then Failure(OutOfRange)
      else if Inflated(file[off + ChunkHeaderLen..off + ChunkHeaderLen + c], z).Some? then Success(off)
      else FirstChunkFromAsWritten(file, off + 1, limit, z)
  }

  function FirstChunkOffsetAsWritten(file: seq<byte>, z: Zlib): Result<int>
  {
    FirstChunkFromAsWritten(file, 0, Min(FallbackScan, |file| - 16), z)
  }

  /** One turn of the fallback scan. */
  method IsChunkRecordAt(file: seq<byte>, off: int, z: Zlib) returns (ok: bool)
    requires 0 <= off && off + 16 <= |file|
    ensures ok == ChunkRecordAt(file, off, z)
  {
    var u := I32At(file, off);
    var c := I32At(file, off + 4);
    if c <= 0 {
      return false;
    }
    if off + ChunkHeaderLen + c > |file| {
      return false;
    }
    if u < 0 || u > MaxPlausibleUSize {
      return false;
    }
    var comp := file[off + ChunkHeaderLen..off + ChunkHeaderLen + c];
    ok := TryInflate(comp, true, z).Some? || TryInflate(comp, false, z).Some?;
  }

  method FindFirstBlockOffset(file: seq<byte>, maxScan: int, z: Zlib) returns (r: Result<int>)
    ensures r == match FirstChunkFrom(file, 0, Min(maxScan, |file| - 16), z)
                 case None => Failure(NoCompressedBlock)
                 case Some(off) => Success(off)
  {
    var limit := Min(maxScan, |file| - 16);
    // the loop's guard off + 8 > |file| cannot hold below this limit
    for off := 0 to if limit < 0 then 0 else limit
      invariant FirstChunkFrom(file, 0, limit, z) == FirstChunkFrom(file, off, limit, z)
    {
      var ok := IsChunkRecordAt(file, off, z);
      if ok {
        return Success(off);
      }
    }
    return Failure(NoCompressedBlock);
  }

  /** The header length Decode and EncodeLike use: |file| - totalComp when it
      lies in [16, 1 MiB], else the offset of the first chunk record. The
      difference cannot leave that range through 32-bit wrap-around: it wraps
      only when it exceeds 2^31 - 1, and then falls back either way. */
  function HeaderLengthSpec(file: seq<byte>, totalComp: int, z: Zlib): Result<int>
  {
    var headerLen := |file| - totalComp;
    if MinHeaderLen <= headerLen <= MaxHeaderLen then Success(headerLen)
    else FirstChunkOffset(file, z)
  }

  method HeaderLength(file: seq<byte>, totalComp: int, z: Zlib) returns (r: Result<int>)
    ensures r == HeaderLengthSpec(file, totalComp, z)
  {
    var headerLen := |file| - totalComp;
    if headerLen < MinHeaderLen || headerLen > MaxHeaderLen {
      r := FindFirstBlockOffset(file, FallbackScan, z);
    } else {
      r := Success(headerLen);
    }
  }

  method StartsWith(data: seq<byte>, prefix: seq<byte>) returns (r: bool)
    ensures r == HasAt(data, 0, prefix)
  {
    if |data| < |prefix| {
      return false;
    }
    for i := 0 to |prefix|
      invariant forall j :: 0 <= j < i ==> data[j] == prefix[j]
    {
      if data[i] != prefix[i] {
        assert data[..|prefix|][i] != prefix[i];
        return false;
      }
    }
    assert data[0..|prefix|] == prefix;
    return true;
  }

  // ---------------------------------------------------------------------------
  // Decode and encode

  /** What Decode computes from the file's bytes. */
  function DecodeSpec(file: seq<byte>, z: Zlib): Result<DecodeResult>
  {
    if !HasAt(file, 0, SsfMagic) then Failure(NotSsf1)
    else if |file| < 16 then Failure(OutOfRange)
    else
      var totalComp := I32At(file, 4);
      var totalUnc := I32At(file, 12);
      match HeaderLengthSpec(file, totalComp, z)
      case Failure(e) => Failure(e)
      case Success(headerLen) =>
        if headerLen > |file| then Failure(OutOfRange)
        else
          match DecompressFrom(file, headerLen, totalComp, z)
          case Failure(e) => Failure(e)
          case Success(payload) =>
            Success(DecodeResult(headerLen, totalComp, totalUnc, file[..headerLen], payload,
                                 totalUnc > 0 && |payload| != totalUnc))
  }

  method Decode(file: seq<byte>, z: Zlib) returns (r: Result<DecodeResult>)
    ensures r == DecodeSpec(file, z)
  {
    var magicOk := StartsWith(file, SsfMagic);
    if !magicOk {
      return Failure(NotSsf1);
    }
    if |file| < 16 {
      return Failure(OutOfRange);
    }
    var totalComp := I32At(file, 4);
    var totalUnc := I32At(file, 12);
    var headerLen := HeaderLength(file, totalComp, z);
    if headerLen.Failure? {
      return Failure(headerLen.error);
    }
    if headerLen.value > |file| {
      return Failure(OutOfRange);
    }
    var header := file[..headerLen.value];
    var payload := DecompressBlocks(file, headerLen.value, totalComp, z);
    if payload.Failure? {
      return Failure(payload.error);
    }
    var mismatch := totalUnc > 0 && |payload.value| != totalUnc;
    return Success(DecodeResult(headerLen.value, totalComp, totalUnc, header, payload.value, mismatch));
  }

  /** The two hex digits b.ToString("x2") writes for a nibble. */
  function HexDigit(n: int): char
    requires 0 <= n < 16
  {
    if n < 10 then ('0' as int + n) as char else ('a' as int + n - 10) as char
  }

  /** Lowercase hex, two digits per byte, in order. */
  function Hex(bs: seq<byte>): (s: string)
    ensures |s| == 2 * |bs|
  {
    if bs == [] then [] else [HexDigit(bs[0] / 16), HexDigit(bs[0] % 16)] + Hex(bs[1..])
  }

  method Md5Hex(data: seq<byte>, md5: seq<byte> -> Digest) returns (s: string)
    ensures s == Hex(md5(data))
  {
    var hash := md5(data);
    s := "";
    for i := 0 to |hash|
      invariant s == Hex(hash[..i])
    {
      var b := hash[i];
      HexConcat(hash[..i], [b]);
      assert hash[..i + 1] == hash[..i] + [b];
      s := s + [HexDigit(b / 16), HexDigit(b % 16)];
    }
    assert hash[..|hash|] == hash;
  }

  lemma {:induction false} HexConcat(a: seq<byte>, b: seq<byte>)
    ensures Hex(a + b) == Hex(a) + Hex(b)
  {
    if a == [] {
      assert a + b == b;
    } else {
      assert (a + b)[1..] == a[1..] + b;
      HexConcat(a[1..], b);
    }
  }

  /** The 32 bytes written into the header for the stream's hash. */
  function HashBytes(stream: seq<byte>, md5: seq<byte> -> Digest): (h: seq<byte>)
    ensures |h| == HashLen
  {
    AsciiEncode(Hex(md5(stream)))
  }

  /** The header with the three fields rewritten. */
  function UpdatedHeader(h: seq<byte>, compLen: int, uncLen: int, hash: seq<byte>): seq<byte>
    requires |h| >= HashField + HashLen && |hash| == HashLen
  {
    h[..4] + U32Bytes(compLen) + h[8..12] + U32Bytes(uncLen) + h[16..HashField] + hash + h[HashField + HashLen..]
  }

  /** The three writes EncodeWithHeaderBytes makes, one after the other, give
      UpdatedHeader. */
  lemma UpdatedHeaderInSteps(h: seq<byte>, compLen: int, uncLen: int, hash: seq<byte>)
    requires |h| >= HashField + HashLen && |hash| == HashLen
    ensures var h1 := h[..4] + U32Bytes(compLen) + h[8..];
            var h2 := h1[..12] + U32Bytes(uncLen) + h1[16..];
            h2[..HashField] + hash + h2[HashField + HashLen..] == UpdatedHeader(h, compLen, uncLen, hash)
  {
    var h1 := h[..4] + U32Bytes(compLen) + h[8..];
    var h2 := h1[..12] + U32Bytes(uncLen) + h1[16..];
    assert h1[..12] == h[..4] + U32Bytes(compLen) + h[8..12];
    assert h1[16..] == h[16..];
    assert h2[..HashField] == h[..4] + U32Bytes(compLen) + h[8..12] + U32Bytes(uncLen) + h[16..HashField];
    assert h2[HashField + HashLen..] == h[HashField + HashLen..];
  }

  /** What EncodeWithHeaderBytes writes to the output file. */
  function EncodeSpec(headerBytes: seq<byte>, payload: seq<byte>, chunkSize: int, z: Zlib,
                      md5: seq<byte> -> Digest): Result<seq<byte>>
    requires chunkSize > 0
  {
    if |headerBytes| < MinHeaderLen then Failure(HeaderTooShort)
    else if !HasAt(headerBytes, 0, SsfMagic) then Failure(NotSsf1)
    else if |headerBytes| < HashField + HashLen then Failure(OutOfRange)
    else
      var stream := ChunkStream(payload, chunkSize, z.compress);
      Success(UpdatedHeader(headerBytes, |stream|, |payload|, HashBytes(stream, md5)) + stream)
  }

  /** Buffer.BlockCopy of all of src into dst at offset at. */
  method BlockCopy(src: seq<byte>, dst: array<byte>, at: int)
    requires 0 <= at && at + |src| <= dst.Length
    modifies dst
    ensures dst[..] == old(dst[..])[..at] + src + old(dst[..])[at + |src|..]
  {
    for k := 0 to |src|
      invariant forall j :: 0 <= j < dst.Length ==>
                  dst[j] == if at <= j < at + k then src[j - at] else old(dst[j])
    {
      dst[at + k] := src[k];
    }
    assert dst[..] == old(dst[..])[..at] + src + old(dst[..])[at + |src|..];
  }

  /** BitConverter.GetBytes(value) copied into data at offset. */
  method WriteI32LE(data: array<byte>, offset: int, value: int)
    requires 0 <= offset && offset + 4 <= data.Length
    modifies data
    ensures data[..] == old(data[..])[..offset] + U32Bytes(value) + old(data[..])[offset + 4..]
  {
    BlockCopy(U32Bytes(value), data, offset);
  }

  method EncodeWithHeaderBytes(headerBytes: seq<byte>, decompressedPayload: seq<byte>, chunkSize: int,
                               z: Zlib, md5: seq<byte> -> Digest) returns (r: Result<seq<byte>>)
    requires chunkSize > 0
    ensures r == EncodeSpec(headerBytes, decompressedPayload, chunkSize, z, md5)
  {
    if |headerBytes| < MinHeaderLen {
      return Failure(HeaderTooShort);
    }
    var magicOk := StartsWith(headerBytes, SsfMagic);
    if !magicOk {
      return Failure(NotSsf1);
    }
    var header := new byte[|headerBytes|](i requires 0 <= i < |headerBytes| => headerBytes[i]);
    assert header[..] == headerBytes;
    var blocks := CompressToBlocks(decompressedPayload, chunkSize, z);
    WriteI32LE(header, 4, |blocks|);
    ghost var h1 := header[..];
    WriteI32LE(header, 12, |decompressedPayload|);
    ghost var h2 := header[..];
    var md5Hex := Md5Hex(blocks, md5);
    var md5Bytes := AsciiEncode(md5Hex);
    if header.Length < HashField + HashLen {
      return Failure(OutOfRange);
    }
    BlockCopy(md5Bytes, header, HashField);
    UpdatedHeaderInSteps(headerBytes, |blocks|, |decompressedPayload|, md5Bytes);
    return Success(header[..] + blocks);
  }

  /** What EncodeLike writes: the payload re-encoded under the header of an
      existing file, found as Decode finds it. */
  function EncodeLikeSpec(original: seq<byte>, payload: seq<byte>, chunkSize: int, z: Zlib,
                          md5: seq<byte> -> Digest): Result<seq<byte>>
    requires chunkSize > 0
  {
    if !HasAt(original, 0, SsfMagic) then Failure(NotSsf1)
    else if |original| < 8 then Failure(OutOfRange)
    else
      match HeaderLengthSpec(original, I32At(original, 4), z)
      case Failure(e) => Failure(e)
      case Success(headerLen) =>
        if headerLen > |original| then Failure(OutOfRange)
        else EncodeSpec(original[..headerLen], payload, chunkSize, z, md5)
  }

  method EncodeLike(original: seq<byte>, decompressedPayload: seq<byte>, chunkSize: int,
                    z: Zlib, md5: seq<byte> -> Digest) returns (r: Result<seq<byte>>)
    requires chunkSize > 0
    ensures r == EncodeLikeSpec(original, decompressedPayload, chunkSize, z, md5)
  {
    var magicOk := StartsWith(original, SsfMagic);
    if !magicOk {
      return Failure(NotSsf1);
    }
    if |original| < 8 {
      return Failure(OutOfRange);
    }
    var oldTotalComp := I32At(original, 4);
    var headerLen := HeaderLength(original, oldTotalComp, z);
    if headerLen.Failure? {
      return Failure(headerLen.error);
    }
    if headerLen.value > |original| {
      return Failure(OutOfRange);
    }
    var header := original[..headerLen.value];
    r := EncodeWithHeaderBytes(header, decompressedPayload, chunkSize, z, md5);
  }

  // ---------------------------------------------------------------------------
  // Properties

  /** The chunks cover the payload in order; each has between 1 and chunkSize
      bytes, all but the last exactly chunkSize; an empty payload has none. */
  lemma {:induction false} ChunksProperties(p: seq<byte>, chunkSize: int)
    requires chunkSize > 0
    ensures Flatten(Chunks(p, chunkSize)) == p
    ensures forall i :: 0 <= i < |Chunks(p, chunkSize)| ==> 0 < |Chunks(p, chunkSize)[i]| <= chunkSize
    ensures forall i :: 0 <= i < |Chunks(p, chunkSize)| - 1 ==> |Chunks(p, chunkSize)[i]| == chunkSize
    ensures Chunks(p, chunkSize) == [] <==> |p| == 0
    decreases |p|
  {
    if |p| > 0 {
      var uSize := Min(chunkSize, |p|);
      var rest := Chunks(p[uSize..], chunkSize);
      ChunksProperties(p[uSize..], chunkSize);
      var cs := Chunks(p, chunkSize);
      assert cs[1..] == rest;
      assert p == p[..uSize] + p[uSize..];
      forall i | 1 <= i < |cs| ensures cs[i] == rest[i - 1] { }
      if |p| > chunkSize {
        assert rest != [];
      }
    }
  }

  /** The stream is 8 + cSize bytes per chunk. */
  lemma {:induction false} RecordsLength(chunks: seq<seq<byte>>, compress: seq<byte> -> seq<byte>)
    ensures |Records(chunks, compress)| == RecordsSize(chunks, compress)
  {
    if chunks != [] {
      RecordsLength(chunks[1..], compress);
    }
  }

  /** The compression library restores every chunk it compressed, with
      non-empty output: what the round trip needs of it, on these chunks only. */
  predicate LosslessOn(z: Zlib, chunks: seq<seq<byte>>)
  {
    forall i :: 0 <= i < |chunks| ==>
      |chunks[i]| > 0 && |z.compress(chunks[i])| > 0 && z.inflateZlib(z.compress(chunks[i])) == Some(chunks[i])
  }

  /** A record written for chunk c is read back as c. */
  lemma ChunkAtRecord(file: seq<byte>, off: int, c: seq<byte>, z: Zlib)
    requires 0 <= off
    requires |c| > 0 && |z.compress(c)| > 0 && z.inflateZlib(z.compress(c)) == Some(c)
    requires off + ChunkHeaderLen + |z.compress(c)| <= |file| < Two31
    requires file[off..off + ChunkHeaderLen + |z.compress(c)|] == U32Bytes(|c|) + U32Bytes(|z.compress(c)|) + z.compress(c)
    ensures ChunkAt(file, off, z) == Success((c, off + ChunkHeaderLen + |z.compress(c)|))
  {
    var comp := z.compress(c);
    var n := ChunkHeaderLen + |comp|;
    var rec := U32Bytes(|c|) + U32Bytes(|comp|) + comp;
    SubSlice(file, off, n, 4, 8);
    assert rec[4..8] == U32Bytes(|comp|);
    I32AtSlice(file, off + 4);
    I32RoundTrip(|comp|);
    SubSlice(file, off, n, ChunkHeaderLen, n);
    assert rec[ChunkHeaderLen..n] == comp;
  }

  lemma DecompressStep(file: seq<byte>, off: int, remaining: int, c: seq<byte>, n: int, z: Zlib)
    requires 0 <= off && 0 < remaining
    requires ChunkAt(file, off, z) == Success((c, off + n))
    ensures DecompressFrom(file, off, remaining, z) == Prepend(c, DecompressFrom(file, off + n, remaining - n, z))
  {
  }

  /** Decompressing a record stream read from a file gives back the chunks it
      was written from, joined. */
  lemma {:induction false} DecompressRecords(file: seq<byte>, off: int, chunks: seq<seq<byte>>, z: Zlib)
    requires 0 <= off
    requires off + |Records(chunks, z.compress)| <= |file| < Two31
    requires file[off..off + |Records(chunks, z.compress)|] == Records(chunks, z.compress)
    requires LosslessOn(z, chunks)
    ensures DecompressFrom(file, off, |Records(chunks, z.compress)|, z) == Success(Flatten(chunks))
    decreases |chunks|
  {
    RecordsWritten(file, off, chunks, z);
    DecompressRecordsAt(file, off, chunks, z);
  }

  /** Each chunk's record, from off on, reads back as that chunk. */
  predicate RecordsAt(file: seq<byte>, off: nat, chunks: seq<seq<byte>>, z: Zlib)
    decreases |chunks|
  {
    chunks == [] ||
    var next := off + |Record(chunks[0], z.compress)|;
    ChunkAt(file, off, z) == Success((chunks[0], next)) && RecordsAt(file, next, chunks[1..], z)
  }

  lemma {:induction false} RecordsWritten(file: seq<byte>, off: nat, chunks: seq<seq<byte>>, z: Zlib)
    requires off + |Records(chunks, z.compress)| <= |file| < Two31
    requires file[off..off + |Records(chunks, z.compress)|] == Records(chunks, z.compress)
    requires LosslessOn(z, chunks)
    ensures RecordsAt(file, off, chunks, z)
    decreases |chunks|
  {
    if chunks != [] {
      var n := |Record(chunks[0], z.compress)|;
      FirstRecord(file, off, chunks, z);
      assert ChunkAt(file, off, z) == Success((chunks[0], off + n)) by {
        ChunkAtRecord(file, off, chunks[0], z);
      }
      RecordsWritten(file, off + n, chunks[1..], z);
    }
  }

  lemma {:induction false} DecompressRecordsAt(file: seq<byte>, off: nat, chunks: seq<seq<byte>>, z: Zlib)
    requires RecordsAt(file, off, chunks, z)
    ensures DecompressFrom(file, off, |Records(chunks, z.compress)|, z) == Success(Flatten(chunks))
    decreases |chunks|
  {
    if chunks != [] {
      var n := |Record(chunks[0], z.compress)|;
      var rest := Records(chunks[1..], z.compress);
      var total := |Records(chunks, z.compress)|;
      assert total == n + |rest|;
      var tail := DecompressFrom(file, off + n, |rest|, z);
      assert tail == Success(Flatten(chunks[1..])) by {
        DecompressRecordsAt(file, off + n, chunks[1..], z);
      }
      assert DecompressFrom(file, off, total, z) == Prepend(chunks[0], tail) by {
        DecompressStep(file, off, total, chunks[0], n, z);
      }
      assert Flatten(chunks) == chunks[0] + Flatten(chunks[1..]);
    }
  }

  /** The first record of a stream read from a file is the first chunk's
      record, the rest of the stream follows it, and the library restores the
      first chunk and the others. */
  lemma FirstRecord(file: seq<byte>, off: int, chunks: seq<seq<byte>>, z: Zlib)
    requires 0 <= off && chunks != []
    requires off + |Records(chunks, z.compress)| <= |file|
    requires file[off..off + |Records(chunks, z.compress)|] == Records(chunks, z.compress)
    requires LosslessOn(z, chunks)
    ensures var n := |Record(chunks[0], z.compress)|;
            var rest := Records(chunks[1..], z.compress);
            |Records(chunks, z.compress)| == n + |rest| &&
            file[off..off + n] == Record(chunks[0], z.compress) &&
            file[off + n..off + n + |rest|] == rest
    ensures |chunks[0]| > 0 && |z.compress(chunks[0])| > 0 && z.inflateZlib(z.compress(chunks[0])) == Some(chunks[0])
    ensures LosslessOn(z, chunks[1..])
  {
    var rec := Record(chunks[0], z.compress);
    var rest := Records(chunks[1..], z.compress);
    assert Records(chunks, z.compress) == rec + rest;
    SplitSlice(file, off, rec, rest);
    LosslessOnTail(z, chunks);
  }

  lemma SplitSlice(file: seq<byte>, off: int, a: seq<byte>, b: seq<byte>)
    requires 0 <= off && off + |a + b| <= |file| && file[off..off + |a + b|] == a + b
    ensures file[off..off + |a|] == a && file[off + |a|..off + |a| + |b|] == b
  {
    SubSlice(file, off, |a + b|, 0, |a|);
    SubSlice(file, off, |a + b|, |a|, |a + b|);
    assert (a + b)[0..|a|] == a;
    assert (a + b)[|a|..|a + b|] == b;
  }

  lemma LosslessOnTail(z: Zlib, chunks: seq<seq<byte>>)
    requires chunks != [] && LosslessOn(z, chunks)
    ensures LosslessOn(z, chunks[1..])
  {
    forall i | 0 <= i < |chunks[1..]| ensures chunks[1..][i] == chunks[i + 1] { }
  }

  /** Encoding succeeds exactly for an SSF1 header of at least 52 bytes. It
      then writes the header, with the stream length at bytes 4..8, the
      payload length at bytes 12..16 and the stream's MD5 in hex at bytes
      20..52, every other header byte unchanged, followed by the stream. */
  lemma EncodeFields(h: seq<byte>, p: seq<byte>, chunkSize: int, z: Zlib, md5: seq<byte> -> Digest)
    requires chunkSize > 0
    ensures |h| < MinHeaderLen ==> EncodeSpec(h, p, chunkSize, z, md5) == Failure(HeaderTooShort)
    ensures MinHeaderLen <= |h| && !HasAt(h, 0, SsfMagic) ==> EncodeSpec(h, p, chunkSize, z, md5) == Failure(NotSsf1)
    ensures HasAt(h, 0, SsfMagic) && MinHeaderLen <= |h| < HashField + HashLen ==>
              EncodeSpec(h, p, chunkSize, z, md5) == Failure(OutOfRange)
    ensures EncodeSpec(h, p, chunkSize, z, md5).Success? <==> HasAt(h, 0, SsfMagic) && |h| >= HashField + HashLen
    ensures EncodeSpec(h, p, chunkSize, z, md5).Success? ==>
              var out := EncodeSpec(h, p, chunkSize, z, md5).value;
              var stream := ChunkStream(p, chunkSize, z.compress);
              |out| == |h| + |stream| && out[|h|..] == stream &&
              U32At(out, 4) == |stream| % Two32 && U32At(out, 12) == |p| % Two32 &&
              AsciiDecode(out[HashField..HashField + HashLen]) == Hex(md5(stream)) &&
              forall k :: 0 <= k < |h| && !(4 <= k < 8) && !(12 <= k < 16) && !(HashField <= k < HashField + HashLen) ==>
                out[k] == h[k]
  {
    if EncodeSpec(h, p, chunkSize, z, md5).Success? {
      var stream := ChunkStream(p, chunkSize, z.compress);
      HeaderFields(h, |stream|, |p|, HashBytes(stream, md5), stream);
      assert AsciiDecode(HashBytes(stream, md5)) == Hex(md5(stream)) by {
        HexDigits(md5(stream));
        AsciiDecodeEncode(Hex(md5(stream)));
      }
    }
  }

  /** The rewritten header followed by a stream: where each field lands. */
  lemma HeaderFields(h: seq<byte>, compLen: int, uncLen: int, hb: seq<byte>, stream: seq<byte>)
    requires |h| >= HashField + HashLen && |hb| == HashLen
    ensures var out := UpdatedHeader(h, compLen, uncLen, hb) + stream;
            |out| == |h| + |stream| && out[|h|..] == stream && out[..|h|] == UpdatedHeader(h, compLen, uncLen, hb) &&
            out[4..8] == U32Bytes(compLen) && out[12..16] == U32Bytes(uncLen) &&
            U32At(out, 4) == compLen % Two32 && U32At(out, 12) == uncLen % Two32 &&
            out[HashField..HashField + HashLen] == hb &&
            forall k :: 0 <= k < |h| && !(4 <= k < 8) && !(12 <= k < 16) && !(HashField <= k < HashField + HashLen) ==>
              out[k] == h[k]
  {
    var out := UpdatedHeader(h, compLen, uncLen, hb) + stream;
    assert out[4..8] == U32Bytes(compLen);
    assert out[12..16] == U32Bytes(uncLen);
    assert U32At(out, 4) == compLen % Two32 by {
      U32AtSlice(out, 4);
      U32RoundTrip(compLen);
    }
    assert U32At(out, 12) == uncLen % Two32 by {
      U32AtSlice(out, 12);
      U32RoundTrip(uncLen);
    }
    assert out[HashField..HashField + HashLen] == hb;
  }

  /** Decoding an encoded file gives back the payload, the rewritten header and
      the lengths it announces, without a size warning, provided the
      compression library restores each chunk and the file fits a .NET array. */
  lemma DecodeEncode(h: seq<byte>, p: seq<byte>, chunkSize: int, z: Zlib, md5: seq<byte> -> Digest)
    requires chunkSize > 0
    requires HasAt(h, 0, SsfMagic) && HashField + HashLen <= |h| <= MaxHeaderLen
    requires LosslessOn(z, Chunks(p, chunkSize))
    requires |h| + |ChunkStream(p, chunkSize, z.compress)| < Two31
    requires |p| < Two31
    ensures EncodeSpec(h, p, chunkSize, z, md5).Success?
    ensures var stream := ChunkStream(p, chunkSize, z.compress);
            DecodeSpec(EncodeSpec(h, p, chunkSize, z, md5).value, z) ==
            Success(DecodeResult(|h|, |stream|, |p|, UpdatedHeader(h, |stream|, |p|, HashBytes(stream, md5)), p, false))
  {
    var stream := ChunkStream(p, chunkSize, z.compress);
    var hdr := UpdatedHeader(h, |stream|, |p|, HashBytes(stream, md5));
    var out := EncodeSpec(h, p, chunkSize, z, md5).value;
    assert out == hdr + stream;
    HeaderFields(h, |stream|, |p|, HashBytes(stream, md5), stream);
    assert out[..4] == h[..4];
    assert I32At(out, 4) == |stream| by {
      I32AtSlice(out, 4);
      I32RoundTrip(|stream|);
    }
    assert I32At(out, 12) == |p| by {
      I32AtSlice(out, 12);
      I32RoundTrip(|p|);
    }
    assert HeaderLengthSpec(out, |stream|, z) == Success(|h|);
    assert DecompressFrom(out, |h|, |stream|, z) == Success(p) by {
      assert out[|h|..|h| + |stream|] == out[|h|..];
      DecompressRecords(out, |h|, Chunks(p, chunkSize), z);
      ChunksProperties(p, chunkSize);
    }
  }

  /** EncodeLike re-encodes under exactly the header Decode reports. */
  lemma EncodeLikeUsesDecodedHeader(original: seq<byte>, p: seq<byte>, chunkSize: int, z: Zlib, md5: seq<byte> -> Digest)
    requires chunkSize > 0
    requires DecodeSpec(original, z).Success?
    ensures EncodeLikeSpec(original, p, chunkSize, z, md5) ==
            EncodeSpec(DecodeSpec(original, z).value.headerBytes, p, chunkSize, z, md5)
  {
  }

  /** Decode succeeds exactly when the magic is there, the fixed fields fit,
      a header length is found within the file and the chunk stream after it
      inflates; the uncompressed total plays no part, so a size mismatch is
      only flagged. On success the header is |file| - totalComp bytes when
      that lies in [16, 1 MiB], else it ends at the least offset below
      min(256 KiB, |file| - 16) holding a chunk record. */
  lemma DecodeOutcome(file: seq<byte>, z: Zlib)
    ensures !HasAt(file, 0, SsfMagic) ==> DecodeSpec(file, z) == Failure(NotSsf1)
    ensures HasAt(file, 0, SsfMagic) && |file| < 16 ==> DecodeSpec(file, z) == Failure(OutOfRange)
    ensures DecodeSpec(file, z).Success? <==>
              HasAt(file, 0, SsfMagic) && |file| >= 16 &&
              var hl := HeaderLengthSpec(file, I32At(file, 4), z);
              hl.Success? && 0 <= hl.value <= |file| &&
              DecompressFrom(file, hl.value, I32At(file, 4), z).Success?
    ensures DecodeSpec(file, z).Success? ==>
              var d := DecodeSpec(file, z).value;
              var totalComp := I32At(file, 4);
              d.expectedTotalCompressed == totalComp && d.expectedTotalUncompressed == I32At(file, 12) &&
              0 <= d.headerLength <= |file| && d.headerBytes == file[..d.headerLength] &&
              DecompressFrom(file, d.headerLength, totalComp, z) == Success(d.decompressedPayload) &&
              (MinHeaderLen <= |file| - totalComp <= MaxHeaderLen ==> d.headerLength == |file| - totalComp) &&
              (!(MinHeaderLen <= |file| - totalComp <= MaxHeaderLen) ==>
                 d.headerLength < Min(FallbackScan, |file| - 16) &&
                 ChunkRecordAt(file, d.headerLength, z) &&
                 forall j :: 0 <= j < d.headerLength ==> !ChunkRecordAt(file, j, z)) &&
              (d.sizeMismatch <==> d.expectedTotalUncompressed > 0 && |d.decompressedPayload| != d.expectedTotalUncompressed)
  {
    if HasAt(file, 0, SsfMagic) && |file| >= 16 {
      FirstChunkFromIsLeast(file, 0, Min(FallbackScan, |file| - 16), z);
    }
  }

  // ---------------------------------------------------------------------------
  // Hex digests

  predicate IsLowerHexDigit(c: char)
  {
    '0' <= c <= '9' || 'a' <= c <= 'f'
  }

  /** The value of a hex digit. */
  function HexValue(c: char): int
  {
    if '0' <= c <= '9' then c as int - '0' as int
    else if 'a' <= c <= 'f' then c as int - 'a' as int + 10
    else 0
  }

  /** Hex text read back, two digits per byte. */
  function UnHex(s: string): seq<byte>
  {
    if |s| < 2 then []
    else
      var v := HexValue(s[0]) * 16 + HexValue(s[1]);
      [if 0 <= v < 256 then v else 0] + UnHex(s[2..])
  }

  /** The digest text is lowercase hex throughout. */
  lemma {:induction false} HexDigits(bs: seq<byte>)
    ensures forall i :: 0 <= i < |Hex(bs)| ==> IsLowerHexDigit(Hex(bs)[i]) && Hex(bs)[i] as int < 128
  {
    if bs != [] {
      HexDigits(bs[1..]);
      var s := Hex(bs);
      forall i | 2 <= i < |s| ensures s[i] == Hex(bs[1..])[i - 2] { }
    }
  }

  /** The digest text determines the digest: reading it back gives the bytes. */
  lemma {:induction false} UnHexHex(bs: seq<byte>)
    ensures UnHex(Hex(bs)) == bs
  {
    if bs != [] {
      var s := Hex(bs);
      assert s[2..] == Hex(bs[1..]);
      assert HexValue(HexDigit(bs[0] / 16)) == bs[0] / 16;
      assert HexValue(HexDigit(bs[0] % 16)) == bs[0] % 16;
      UnHexHex(bs[1..]);
    }
  }
}
