/** A file on which the fallback scan for the first chunk record, as written,
    throws: the 32-bit sum off + 8 + c wraps. */
module SsfScanOverflow {
  import opened Wrappers
  import opened Bytes
  import opened SsfCodec

  /** A 40-byte file on which the fallback scan as written throws. totalComp
      (bytes 4..8) is negative, so the header length is searched for. At
      offset 8 the compressed size 0x7FFFFFFF makes off + 8 + c wrap below
      zero, the overrun check passes, and the slice of c bytes is out of range.
      Scanning on, as the check intends, finds the record at 16. */
  const OverflowFile: seq<byte> :=
    [83, 83, 70, 49,  0, 0, 0, 128,  0, 0, 0, 0,  255, 255, 255, 127,
     1, 0, 0, 0,  1, 0, 0, 0,  7, 0, 0, 0,  0, 0, 0, 0,  0, 0, 0, 0,  0, 0, 0, 0]

  /** A decompressor that accepts any zlib data as the single byte 1. */
  function OverflowZlib(): Zlib
  {
    Zlib((x: seq<byte>) => x, (x: seq<byte>) => Some([1]), (x: seq<byte>) => None)
  }

  /** The values of the words the scan reads from the file. */
  lemma OverflowWords0To4()
    ensures U32At(OverflowFile, 0) == 0x3146_5353 && U32At(OverflowFile, 4) == 0x8000_0000
  {
  }

  lemma OverflowWords5To8()
    ensures U32At(OverflowFile, 5) == 0x80_0000 && U32At(OverflowFile, 6) == 0x8000
    ensures U32At(OverflowFile, 7) == 128 && U32At(OverflowFile, 8) == 0
  {
  }

  lemma OverflowWords9To12()
    ensures U32At(OverflowFile, 9) >= Two31 && U32At(OverflowFile, 10) >= Two31 && U32At(OverflowFile, 11) >= Two31
    ensures U32At(OverflowFile, 12) == Two31 - 1
  {
  }

  lemma OverflowWords13To16()
    ensures U32At(OverflowFile, 13) == 0x017F_FFFF && U32At(OverflowFile, 14) == 0x0001_7FFF
    ensures U32At(OverflowFile, 15) == 0x17F && U32At(OverflowFile, 16) == 1
  {
  }

  lemma OverflowWords17To20()
    ensures U32At(OverflowFile, 17) == 0x0100_0000 && U32At(OverflowFile, 18) == 0x0001_0000
    ensures U32At(OverflowFile, 19) == 0x100 && U32At(OverflowFile, 20) == 1
  {
  }

  /** As written: offsets 0 to 7 are skipped, and at 8 the wrapped sum lets an
      out-of-range slice through. */
  lemma FallbackScanOverflowAsWritten()
    ensures FirstChunkOffsetAsWritten(OverflowFile, OverflowZlib()) == Failure(OutOfRange)
  {
    var f, z := OverflowFile, OverflowZlib();
    ScanAsWrittenThrowsAt8();
    OverflowWords0To4();
    OverflowWords5To8();
    OverflowWords9To12();
    assert FirstChunkFromAsWritten(f, 4, 24, z) == Failure(OutOfRange);
  }

  lemma ScanAsWrittenThrowsAt8()
    ensures FirstChunkFromAsWritten(OverflowFile, 8, 24, OverflowZlib()) == Failure(OutOfRange)
  {
    OverflowWords5To8();
    OverflowWords9To12();
    var u, c := I32At(OverflowFile, 8), I32At(OverflowFile, 12);
    assert u == 0 && c == Two31 - 1;
    assert Wrap32(8 + ChunkHeaderLen + c) == 15 - Two31;
  }

  /** Corrected: offsets 0 to 15 hold no chunk record, and 16 does. */
  lemma FallbackScanOverflowCorrected()
    ensures FirstChunkOffset(OverflowFile, OverflowZlib()) == Success(16)
  {
    var f, z := OverflowFile, OverflowZlib();
    ScanCorrectedFrom4();
    OverflowWords0To4();
    OverflowWords5To8();
    assert FirstChunkFrom(f, 0, 24, z) == Some(16);
  }

  lemma ScanCorrectedFrom4()
    ensures FirstChunkFrom(OverflowFile, 4, 24, OverflowZlib()) == Some(16)
  {
    var f, z := OverflowFile, OverflowZlib();
    ScanCorrectedFrom8();
    OverflowWords0To4();
    OverflowWords5To8();
    OverflowWords9To12();
    assert FirstChunkFrom(f, 8, 24, z) == Some(16);
  }

  lemma ScanCorrectedFrom8()
    ensures FirstChunkFrom(OverflowFile, 8, 24, OverflowZlib()) == Some(16)
  {
    var f, z := OverflowFile, OverflowZlib();
    ScanCorrectedAt16();
    OverflowWords9To12();
    OverflowWords13To16();
    OverflowWords17To20();
    assert FirstChunkFrom(f, 12, 24, z) == Some(16);
  }

  lemma ScanCorrectedAt16()
    ensures FirstChunkFrom(OverflowFile, 16, 24, OverflowZlib()) == Some(16)
  {
    var f, z := OverflowFile, OverflowZlib();
    OverflowWords13To16();
    OverflowWords17To20();
    assert Inflated(f[24..25], z) == Some([1]);
    assert ChunkRecordAt(f, 16, z);
  }

  /** With the corrected scan the file decodes: a 16-byte header and an empty
      payload, since totalComp is negative; the announced payload length is
      then flagged as a mismatch. */
  lemma FallbackScanOverflowDecodes()
    ensures DecodeSpec(OverflowFile, OverflowZlib()) ==
            Success(DecodeResult(16, -Two31, Two31 - 1, OverflowFile[..16], [], true))
  {
    var f, z := OverflowFile, OverflowZlib();
    FallbackScanOverflowCorrected();
    OverflowWords0To4();
    OverflowWords9To12();
    assert HasAt(f, 0, SsfMagic) by {
      assert f[0..4] == [f[0], f[1], f[2], f[3]];
    }
  }
}
