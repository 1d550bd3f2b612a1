/** The inner named-block format carried by the decompressed payload: a run of
    records "SMBH", nameLength (u32 LE), payloadLength (u32 LE), the name bytes
    (zero-terminated) and the payload bytes, with opaque bytes before the first
    record and after the last. */
module Smbh {
  import opened Wrappers
  import opened Bytes

  const Magic: seq<byte> := [83, 77, 66, 72]  // "SMBH"
  /** Bound on the scan for the first block start. */
  const MaxScan: int := 2_000_000
  const MaxNameLen: int := 1024
  /** Magic plus the two length words. */
  const RecordHeaderLen: int := 12

  /** One record; nameBytes includes the trailing zero, name is its ASCII text
      without the terminator. */
  datatype Block = Block(name: string, nameBytes: seq<byte>, payloadBytes: seq<byte>)

  datatype ParseResult = ParseResult(prefixBytes: seq<byte>, blocks: seq<Block>, suffixBytes: seq<byte>)

  function NameLenAt(data: seq<byte>, pos: int): int
    requires 0 <= pos && pos + RecordHeaderLen <= |data|
  {
    U32At(data, pos + 4)
  }

  function PayloadLenAt(data: seq<byte>, pos: int): int
    requires 0 <= pos && pos + RecordHeaderLen <= |data|
  {
    U32At(data, pos + 8)
  }

  /** The test the parsing loop makes at pos before it takes a block: room for
      the record header, the magic, a name length in [1, 1024], a payload
      length and a record end within the buffer, and a zero last name byte. */
  predicate BlockAt(data: seq<byte>, pos: int)
  {
    0 <= pos && pos + RecordHeaderLen <= |data| && HasAt(data, pos, Magic) &&
    1 <= NameLenAt(data, pos) <= MaxNameLen &&
    PayloadLenAt(data, pos) <= |data| &&
    pos + RecordHeaderLen + NameLenAt(data, pos) + PayloadLenAt(data, pos) <= |data| &&
    data[pos + RecordHeaderLen + NameLenAt(data, pos) - 1] == 0
  }

  function BlockEnd(data: seq<byte>, pos: int): (e: int)
    requires BlockAt(data, pos)
    ensures pos + RecordHeaderLen < e <= |data|
  {
    pos + RecordHeaderLen + NameLenAt(data, pos) + PayloadLenAt(data, pos)
  }

  /** The block the parsing loop takes at pos. */
  function BlockFrom(data: seq<byte>, pos: int): (b: Block)
    requires BlockAt(data, pos)
  {
    var nameStart := pos + RecordHeaderLen;
    var payloadStart := nameStart + NameLenAt(data, pos);
    var nameBytes := data[nameStart..payloadStart];
    Block(AsciiDecode(nameBytes[..|nameBytes| - 1]), nameBytes, data[payloadStart..BlockEnd(data, pos)])
  }

  /** The blocks read from pos on, up to the first position that is not a
      block header, and that position. */
  function BlocksFrom(data: seq<byte>, pos: int): (r: (seq<Block>, int))
    requires 0 <= pos <= |data|
    ensures pos <= r.1 <= |data|
    decreases |data| - pos
  {
    if BlockAt(data, pos) then
      var rest := BlocksFrom(data, BlockEnd(data, pos));
      ([BlockFrom(data, pos)] + rest.0, rest.1)
    else
      ([], pos)
  }

  /** The test the search for the first block makes at i: the loop's test
      without the payload bound (implied by the end bound), plus a printable
      name. */
  predicate ValidBlockStart(data: seq<byte>, i: int)
  {
    0 <= i && i + RecordHeaderLen <= |data| && HasAt(data, i, Magic) &&
    1 <= NameLenAt(data, i) <= MaxNameLen &&
    i + RecordHeaderLen + NameLenAt(data, i) + PayloadLenAt(data, i) <= |data| &&
    data[i + RecordHeaderLen + NameLenAt(data, i) - 1] == 0 &&
    PrintableFrom(data, i + RecordHeaderLen, i + RecordHeaderLen + NameLenAt(data, i) - 1)
  }

  /** Whether data[k..end] is all printable, checked from k upwards. */
  predicate PrintableFrom(data: seq<byte>, k: int, end: int)
    requires 0 <= k && end <= |data|
    decreases end - k
  {
    k >= end || (Printable(data[k]) && PrintableFrom(data, k + 1, end))
  }

  lemma {:induction false} PrintableFromAll(data: seq<byte>, k: int, end: int)
    requires 0 <= k && end <= |data|
    ensures PrintableFrom(data, k, end) <==> forall j :: k <= j < end ==> Printable(data[j])
    decreases end - k
  {
    if k < end {
      PrintableFromAll(data, k + 1, end);
    }
  }

  /** The first offset in [i, limit) passing ValidBlockStart, in an ascending
      scan, if any. */
  function FirstValidFrom(data: seq<byte>, i: int, limit: int): (r: Option<int>)
    requires 0 <= i
    ensures r.Some? ==> i <= r.value < limit
    decreases limit - i
  {
    if i >= limit then None
    else if ValidBlockStart(data, i) then Some(i)
    else FirstValidFrom(data, i + 1, limit)
  }

  /** The scan finds the least qualifying offset: that offset qualifies and
      none before it does. */
  lemma {:induction false} FirstValidFromFound(data: seq<byte>, i: int, limit: int)
    requires 0 <= i
    ensures FirstValidFrom(data, i, limit).Some? ==>
              var f := FirstValidFrom(data, i, limit).value;
              ValidBlockStart(data, f) && forall j :: i <= j < f ==> !ValidBlockStart(data, j)
    decreases limit - i
  {
    if i < limit && !ValidBlockStart(data, i) {
      FirstValidFromFound(data, i + 1, limit);
    }
  }

  /** The scan finds nothing exactly when no offset in range qualifies. */
  lemma {:induction false} FirstValidFromNone(data: seq<byte>, i: int, limit: int)
    requires 0 <= i
    ensures FirstValidFrom(data, i, limit).None? <==> forall j :: i <= j < limit ==> !ValidBlockStart(data, j)
    decreases limit - i
  {
    if i < limit && !ValidBlockStart(data, i) {
      FirstValidFromNone(data, i + 1, limit);
    }
  }

  /** How far Parse searches for the first block. */
  function ScanLimit(data: seq<byte>): int
  {
    Min(Min(MaxScan, |data|), |data| - 16)
  }

  /** What Parse computes. */
  function ParseSpec(data: seq<byte>): (r: Result<ParseResult>)
  {
    match FirstValidFrom(data, 0, ScanLimit(data))
    case None => Failure(NoSmbhBlocks)
    case Some(first) =>
      var (blocks, end) := BlocksFrom(data, first);
      Success(ParseResult(data[..first], blocks, data[end..]))
  }

  /** The name bytes Build writes: the stored ones when they are non-empty and
      zero-terminated, otherwise the ASCII name followed by a zero. */
  function EmittedNameBytes(b: Block): seq<byte>
  {
    if |b.nameBytes| == 0 || b.nameBytes[|b.nameBytes| - 1] != 0 then AsciiEncode(b.name + "\0")
    else b.nameBytes
  }

  function EncodeBlock(b: Block): seq<byte>
  {
    var nameBytes := EmittedNameBytes(b);
    Magic + U32Bytes(|nameBytes|) + U32Bytes(|b.payloadBytes|) + nameBytes + b.payloadBytes
  }

  function EncodeBlocks(bs: seq<Block>): seq<byte>
  {
    if bs == [] then [] else EncodeBlock(bs[0]) + EncodeBlocks(bs[1..])
  }

  /** What Build writes. */
  function BuildSpec(prefix: seq<byte>, blocks: seq<Block>, suffix: seq<byte>): seq<byte>
  {
    prefix + EncodeBlocks(blocks) + suffix
  }

  /** Bytes one block occupies once built. */
  function EncodedSize(bs: seq<Block>): nat
  {
    if bs == [] then 0
    else RecordHeaderLen + |EmittedNameBytes(bs[0])| + |bs[0].payloadBytes| + EncodedSize(bs[1..])
  }

  // ---------------------------------------------------------------------------
  // The operations

  method IsAt(data: seq<byte>, offset: int, magic: seq<byte>) returns (r: bool)
    requires 0 <= offset
    ensures r == HasAt(data, offset, magic)
  {
    if offset + |magic| > |data| {
      return false;
    }
    for i := 0 to |magic|
      invariant forall j :: 0 <= j < i ==> data[offset + j] == magic[j]
    {
      if data[offset + i] != magic[i] {
        assert data[offset..offset + |magic|][i] != magic[i];
        return false;
      }
    }
    assert data[offset..offset + |magic|] == magic;
    return true;
  }

  /** One turn of the search loop: whether a block plausibly starts at i. */
  method IsValidBlockStartAt(data: seq<byte>, i: int) returns (ok: bool)
    requires 0 <= i && i + 16 <= |data|
    ensures ok == ValidBlockStart(data, i)
  {
    var magicOk := IsAt(data, i, Magic);
    if !magicOk {
      return false;
    }
    var nameLen := U32At(data, i + 4);
    var payloadLen := U32At(data, i + 8);
    if nameLen == 0 || nameLen > MaxNameLen {
      return false;
    }
    var nameStart := i + RecordHeaderLen;
    var payloadStart := nameStart + nameLen;
    var next := payloadStart + payloadLen;
    if next <= 0 || next > |data| {
      return false;
    }
    // the name should end with 0
    if data[nameStart + nameLen - 1] != 0 {
      return false;
    }
    // and its other bytes should be printable
    ok := true;
    var k := 0;
    while k < nameLen - 1
      invariant 0 <= k <= nameLen - 1
      invariant PrintableFrom(data, nameStart, payloadStart - 1) == PrintableFrom(data, nameStart + k, payloadStart - 1)
    {
      var c := data[nameStart + k];
      if c == 0 {
        ok := false;
        break;
      }
      if !(c >= 32 && c <= 126) {
        ok := false;
        break;
      }
      k := k + 1;
    }
  }

  method FindFirstValidBlockOffset(data: seq<byte>, maxScan: int) returns (r: Result<int>)
    ensures r == match FirstValidFrom(data, 0, Min(maxScan, |data| - 16))
                 case None => Failure(NoSmbhBlocks)
                 case Some(i) => Success(i)
  {
    var limit := Min(maxScan, |data| - 16);
    for i := 0 to if limit < 0 then 0 else limit
      invariant FirstValidFrom(data, 0, limit) == FirstValidFrom(data, i, limit)
    {
      var ok := IsValidBlockStartAt(data, i);
      if ok {
        return Success(i);
      }
    }
    return Failure(NoSmbhBlocks);
  }

  /** One turn of the parsing loop: the block at pos and where it ends, or
      None where the loop stops. */
  method ReadBlockAt(data: seq<byte>, pos: int) returns (r: Option<(Block, int)>)
    requires 0 <= pos <= |data|
    ensures r.None? <==> !BlockAt(data, pos)
    ensures r.Some? ==> r.value == (BlockFrom(data, pos), BlockEnd(data, pos))
  {
    if pos + RecordHeaderLen > |data| {
      return None;
    }
    var magicOk := IsAt(data, pos, Magic);
    if !magicOk {
      return None;
    }
    var nameLen := U32At(data, pos + 4);
    var payloadLen := U32At(data, pos + 8);
    var nameStart := pos + RecordHeaderLen;
    var payloadStart := nameStart + nameLen;
    var next := payloadStart + payloadLen;
    if nameLen == 0 || nameLen > MaxNameLen {
      return None;
    }
    if payloadLen > |data| {
      return None;
    }
    if next > |data| {
      return None;
    }
    var nameBytes := data[nameStart..payloadStart];
    assert nameBytes[|nameBytes| - 1] == data[payloadStart - 1];
    if nameBytes[|nameBytes| - 1] != 0 {
      return None;
    }
    var name := AsciiDecode(nameBytes[..|nameBytes| - 1]);
    var payload := data[payloadStart..next];
    return Some((Block(name, nameBytes, payload), next));
  }

  method Parse(decompressedPayload: seq<byte>) returns (r: Result<ParseResult>)
    ensures r == ParseSpec(decompressedPayload)
  {
    var data := decompressedPayload;
    var found := FindFirstValidBlockOffset(data, Min(MaxScan, |data|));
    if found.Failure? {
      return Failure(found.error);
    }
    var first := found.value;
    var prefix := data[..first];
    var blocks: seq<Block> := [];
    var pos := first;
    while true
      invariant first <= pos <= |data|
      invariant BlocksFrom(data, first).0 == blocks + BlocksFrom(data, pos).0
      invariant BlocksFrom(data, first).1 == BlocksFrom(data, pos).1
      decreases |data| - pos
    {
      var step := ReadBlockAt(data, pos);
      if step.None? {
        break;
      }
      var (block, next) := step.value;
      ConcatAssoc(blocks, [block], BlocksFrom(data, next).0);
      blocks := blocks + [block];
      pos := next;
    }
    assert blocks + BlocksFrom(data, pos).0 == blocks;
    var suffix := data[pos..];
    return Success(ParseResult(prefix, blocks, suffix));
  }

  method Build(prefix: seq<byte>, blocks: seq<Block>, suffix: seq<byte>) returns (out: seq<byte>)
    ensures out == BuildSpec(prefix, blocks, suffix)
  {
    out := prefix;
    for i := 0 to |blocks|
      invariant prefix + EncodeBlocks(blocks) == out + EncodeBlocks(blocks[i..])
    {
      var b := blocks[i];
      ghost var before := out;
      var nameBytes := b.nameBytes;
      if |nameBytes| == 0 || nameBytes[|nameBytes| - 1] != 0 {
        nameBytes := AsciiEncode(b.name + "\0");
      }
      // "SMBH", the two length words, the name bytes and the payload, in this order
      out := out + (Magic + U32Bytes(|nameBytes|) + U32Bytes(|b.payloadBytes|) + nameBytes + b.payloadBytes);
      assert blocks[i..][1..] == blocks[i + 1..];
      assert EncodeBlocks(blocks[i..]) == EncodeBlock(b) + EncodeBlocks(blocks[i + 1..]);
      ConcatAssoc(before, EncodeBlock(b), EncodeBlocks(blocks[i + 1..]));
    }
    out := out + suffix;
  }

  // ---------------------------------------------------------------------------
  // Properties

  /** What every parsed block satisfies: a name of 1 to 1024 bytes ending in a
      zero, and the name text read from the bytes before the zero. */
  predicate WellFormed(b: Block)
  {
    1 <= |b.nameBytes| <= MaxNameLen && b.nameBytes[|b.nameBytes| - 1] == 0 &&
    b.name == AsciiDecode(b.nameBytes[..|b.nameBytes| - 1])
  }

  /** A block read from the buffer is written back as the bytes it was read
      from. */
  lemma EncodeBlockFrom(data: seq<byte>, pos: int)
    requires BlockAt(data, pos)
    ensures WellFormed(BlockFrom(data, pos))
    ensures EncodeBlock(BlockFrom(data, pos)) == data[pos..BlockEnd(data, pos)]
  {
    var b := BlockFrom(data, pos);
    var nameStart := pos + RecordHeaderLen;
    var payloadStart := nameStart + NameLenAt(data, pos);
    var end := BlockEnd(data, pos);
    assert EmittedNameBytes(b) == b.nameBytes;
    U32BytesOfU32At(data, pos + 4);
    U32BytesOfU32At(data, pos + 8);
    assert |b.nameBytes| == NameLenAt(data, pos);
    assert |b.payloadBytes| == PayloadLenAt(data, pos);
    assert data[pos..end] == data[pos..pos + 4] + data[pos + 4..pos + 8] + data[pos + 8..nameStart]
                             + data[nameStart..payloadStart] + data[payloadStart..end];
  }

  /** The blocks read from pos on tile the bytes from pos up to where the
      reading stops, and are all well formed. */
  lemma {:induction false} EncodeBlocksFrom(data: seq<byte>, pos: int)
    requires 0 <= pos <= |data|
    ensures EncodeBlocks(BlocksFrom(data, pos).0) == data[pos..BlocksFrom(data, pos).1]
    ensures forall b :: b in BlocksFrom(data, pos).0 ==> WellFormed(b)
    decreases |data| - pos
  {
    if BlockAt(data, pos) {
      var end := BlockEnd(data, pos);
      var rest := BlocksFrom(data, end);
      EncodeBlockFrom(data, pos);
      EncodeBlocksFrom(data, end);
      var bs := [BlockFrom(data, pos)] + rest.0;
      assert bs[1..] == rest.0;
      SliceJoin(data, pos, end, rest.1);
    }
  }

  /** Build inverts Parse: rebuilding what was parsed gives the buffer back
      byte for byte. */
  lemma BuildParse(data: seq<byte>)
    requires ParseSpec(data).Success?
    ensures BuildSpec(ParseSpec(data).value.prefixBytes, ParseSpec(data).value.blocks,
                      ParseSpec(data).value.suffixBytes) == data
  {
    var first := FirstValidFrom(data, 0, ScanLimit(data)).value;
    EncodeBlocksFrom(data, first);
    var end := BlocksFrom(data, first).1;
    SliceJoin(data, 0, first, end);
    SliceJoin(data, 0, end, |data|);
    assert data[0..|data|] == data;
  }

  /** Every block Parse returns is well formed, so Build writes its stored name
      bytes back unchanged. */
  lemma ParsedBlocksWellFormed(data: seq<byte>)
    requires ParseSpec(data).Success?
    ensures forall b :: b in ParseSpec(data).value.blocks ==>
              WellFormed(b) && EmittedNameBytes(b) == b.nameBytes
  {
    EncodeBlocksFrom(data, FirstValidFrom(data, 0, ScanLimit(data)).value);
  }

  /** Parse fails exactly when no offset it searches qualifies as a block
      start, and then with NoSmbhBlocks. */
  lemma ParseOutcome(data: seq<byte>)
    ensures ParseSpec(data).Failure? <==>
              forall i :: 0 <= i < ScanLimit(data) ==> !ValidBlockStart(data, i)
    ensures ParseSpec(data).Failure? ==> ParseSpec(data).error == NoSmbhBlocks
  {
    FirstValidFromNone(data, 0, ScanLimit(data));
  }

  /** When Parse succeeds, the prefix ends at the least qualifying offset, at
      least one block is read, and the suffix does not start with a further
      block. */
  lemma ParseFound(data: seq<byte>)
    requires ParseSpec(data).Success?
    ensures var p := ParseSpec(data).value;
              |p.prefixBytes| < ScanLimit(data) &&
              p.prefixBytes == data[..|p.prefixBytes|] &&
              ValidBlockStart(data, |p.prefixBytes|) &&
              (forall i :: 0 <= i < |p.prefixBytes| ==> !ValidBlockStart(data, i)) &&
              |p.blocks| >= 1 &&
              |p.prefixBytes| + 12 <= |data| - |p.suffixBytes| &&
              p.suffixBytes == data[|data| - |p.suffixBytes|..] &&
              !BlockAt(data, |data| - |p.suffixBytes|)
  {
    var first := FirstValidFrom(data, 0, ScanLimit(data)).value;
    var (blocks, end) := BlocksFrom(data, first);
    assert ParseSpec(data).value == ParseResult(data[..first], blocks, data[end..]);
    assert ValidBlockStart(data, first) && forall i :: 0 <= i < first ==> !ValidBlockStart(data, i) by {
      FirstValidFromFound(data, 0, ScanLimit(data));
    }
    assert !BlockAt(data, end) && |blocks| >= 1 && first + RecordHeaderLen < end by {
      ValidStartIsBlock(data, first);
      BlocksFromStopsAtNonBlock(data, first);
    }
  }

  /** Every offset the search accepts holds a block the parsing loop reads. */
  lemma ValidStartIsBlock(data: seq<byte>, i: int)
    requires ValidBlockStart(data, i)
    ensures BlockAt(data, i)
  {
  }

  /** Reading blocks stops at a position that does not hold a block. */
  lemma {:induction false} BlocksFromStopsAtNonBlock(data: seq<byte>, pos: int)
    requires 0 <= pos <= |data|
    ensures !BlockAt(data, BlocksFrom(data, pos).1)
    ensures BlockAt(data, pos) ==> |BlocksFrom(data, pos).0| >= 1 && pos + RecordHeaderLen < BlocksFrom(data, pos).1
    decreases |data| - pos
  {
    if BlockAt(data, pos) {
      BlocksFromStopsAtNonBlock(data, BlockEnd(data, pos));
    }
  }

  /** A payload of at most 16 bytes is never parsed: the search range is empty. */
  lemma ShortPayloadFails(data: seq<byte>)
    requires |data| <= 16
    ensures ParseSpec(data) == Failure(NoSmbhBlocks)
  {
  }

  /** The built size is the sum of the parts. */
  lemma {:induction false} BuildLength(prefix: seq<byte>, blocks: seq<Block>, suffix: seq<byte>)
    ensures |BuildSpec(prefix, blocks, suffix)| == |prefix| + EncodedSize(blocks) + |suffix|
  {
    EncodeBlocksLength(blocks);
  }

  lemma {:induction false} EncodeBlocksLength(blocks: seq<Block>)
    ensures |EncodeBlocks(blocks)| == EncodedSize(blocks)
  {
    if blocks != [] {
      EncodeBlocksLength(blocks[1..]);
    }
  }
}
