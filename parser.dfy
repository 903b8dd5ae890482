/**
 The header chunk parser: decoding the 14-byte `MThd` chunk that opens a
 Standard MIDI File (section "Header Chunks" of the Standard MIDI Files 1.0
 specification) into a `MidiHeader`, or the message of the first check that
 fails. Three checks are chained with `Either.chain`: the chunk id, the
 chunk length, and the format. The format check is modelled as the
 repository writes it, which accepts exactly the formats outside 0..2; the
 check the type guard and the error message describe is modelled beside it.
 */
module Parser {
  import opened JsRuntime
  import opened ByteBits
  import opened ParserUtils
  import opened EitherMonad

  /** The decoded header. The repository types `format` as 0 | 1 | 2, but the
      value stored is whatever passed the format check. */
  datatype MidiHeader = MidiHeader(format: int, trackCount: int, trackDivision: int)

  /** `isFormatInRange` as written. */
  predicate IsFormatInRange(format: int)
  {
    format < 0 || format > 2
  }

  /** The range its type guard `format is 0 | 1 | 2` and the format error message state. */
  predicate IsFormatInRangeIntended(format: int)
  {
    0 <= format <= 2
  }

  const HEADER_CHUNK_ID: string := "MThd"
  const HEADER_CHUNK_ID_BYTES: seq<byte> := [0x4D, 0x54, 0x68, 0x64]

  const CHUNK_ID_MESSAGE: string := "Malformed MIDI: header chunk type should be \"MThd\"."
  const SIZE_PREFIX: string := "Malformed MIDI: got unexpected header size ("
  const SIZE_SUFFIX: string := "). Header size should be exactly 6 bytes."
  const FORMAT_PREFIX: string := "Malformed MIDI: got unknown MIDI file format ("
  const FORMAT_SUFFIX: string := "). The only valid formats are 0, 1 and 2."

  function SizeMessage(parsedSize: int): string
  {
    SIZE_PREFIX + NumberToString(parsedSize) + SIZE_SUFFIX
  }

  function FormatMessage(parsedFormat: int): string
  {
    FORMAT_PREFIX + NumberToString(parsedFormat) + FORMAT_SUFFIX
  }

  /** The body of `parseHeader`, with the format check as a parameter so that
      the repository's check and the intended one share the rest. */
  function ParseHeaderWith(midiBytes: seq<byte>, formatCheck: int -> bool): Either<string, MidiHeader>
  {
    var parsedChunkId := ParseStringFromRawChars(Slice(midiBytes, 0, 4));
    var chunkId: Either<string, string> :=
      if parsedChunkId == HEADER_CHUNK_ID then Right(parsedChunkId) else Left(CHUNK_ID_MESSAGE);

    var parsedSize := ParseByteArrayToNumber(Slice(midiBytes, 4, 8), false);
    var size: Either<string, int> :=
      if parsedSize == 6 then Right(parsedSize) else Left(SizeMessage(parsedSize));

    var parsedFormat := ParseByteArrayToNumber(Slice(midiBytes, 8, 10), false);
    var format: Either<string, int> :=
      if formatCheck(parsedFormat) then Right(parsedFormat) else Left(FormatMessage(parsedFormat));

    var trackCount := ParseByteArrayToNumber(Slice(midiBytes, 10, 12), false);
    var timeDivision := ParseByteArrayToNumber(Slice(midiBytes, 12, 14), false);

    chunkId
      .Chain((_: string) => size)
      .Chain((_: int) => format)
      .Map((f: int) => MidiHeader(f, trackCount, timeDivision))
  }

  /** `parseHeader(midiBytes)` as written. */
  function ParseHeader(midiBytes: seq<byte>): Either<string, MidiHeader>
  {
    ParseHeaderWith(midiBytes, IsFormatInRange)
  }

  /** `parseHeader` with the format check its guard and message describe. */
  function ParseHeaderIntended(midiBytes: seq<byte>): Either<string, MidiHeader>
  {
    ParseHeaderWith(midiBytes, IsFormatInRangeIntended)
  }

  // ---------------------------------------------------------------------------
  // The fields, as the Standard MIDI Files header lays them out

  /** Bytes 0..3 spell `MThd`. */
  predicate HasHeaderChunkId(midiBytes: seq<byte>)
  {
    Slice(midiBytes, 0, 4) == HEADER_CHUNK_ID_BYTES
  }

  /** The number JavaScript computes from bytes 4..7 (the chunk length). */
  function HeaderSize(midiBytes: seq<byte>): int
  {
    ParseByteArrayToNumber(Slice(midiBytes, 4, 8), false)
  }

  /** The big-endian 16-bit field starting at `start` (8: format, 10: track count, 12: division). */
  function Field(midiBytes: seq<byte>, start: nat): int
  {
    BigEndian(Slice(midiBytes, start, start + 2))
  }

  lemma ChunkIdMatches(midiBytes: seq<byte>)
    ensures ParseStringFromRawChars(Slice(midiBytes, 0, 4)) == HEADER_CHUNK_ID <==> HasHeaderChunkId(midiBytes)
  {
    var id := ParseStringFromRawChars(HEADER_CHUNK_ID_BYTES);
    assert id == HEADER_CHUNK_ID;
    RawCharsRoundTrip(Slice(midiBytes, 0, 4), HEADER_CHUNK_ID_BYTES);
  }

  lemma FieldDecodes(midiBytes: seq<byte>, start: nat)
    ensures ParseByteArrayToNumber(Slice(midiBytes, start, start + 2), false) == Field(midiBytes, start)
    ensures 0 <= Field(midiBytes, start) < 0x1_0000
  {
    var s := Slice(midiBytes, start, start + 2);
    assert ValidLength(s, false);
    ParseBounds(s, false);
    PowMonotone(256, |s|, 2);
    assert Pow(256, 2) == 0x1_0000;
  }

  // ---------------------------------------------------------------------------
  // What the chain computes

  /** The chain reports the first failing check, and otherwise builds the header
      from the three 16-bit fields. */
  lemma HeaderOutcome(midiBytes: seq<byte>, formatCheck: int -> bool)
    ensures ParseHeaderWith(midiBytes, formatCheck) ==
      if !HasHeaderChunkId(midiBytes) then Left(CHUNK_ID_MESSAGE)
      else if HeaderSize(midiBytes) != 6 then Left(SizeMessage(HeaderSize(midiBytes)))
      else if !formatCheck(Field(midiBytes, 8)) then Left(FormatMessage(Field(midiBytes, 8)))
      else Right(MidiHeader(Field(midiBytes, 8), Field(midiBytes, 10), Field(midiBytes, 12)))
  {
    ChunkIdMatches(midiBytes);
    FieldDecodes(midiBytes, 8);
    FieldDecodes(midiBytes, 10);
    FieldDecodes(midiBytes, 12);
  }

  /** Nothing after byte 13 is read. */
  lemma HeaderReadsFirst14Bytes(midiBytes: seq<byte>, formatCheck: int -> bool)
    ensures ParseHeaderWith(midiBytes, formatCheck) == ParseHeaderWith(midiBytes[..Min(14, |midiBytes|)], formatCheck)
  {
    SliceOfPrefix(midiBytes, 14, 0, 4);
    SliceOfPrefix(midiBytes, 14, 4, 8);
    SliceOfPrefix(midiBytes, 14, 8, 10);
    SliceOfPrefix(midiBytes, 14, 10, 12);
    SliceOfPrefix(midiBytes, 14, 12, 14);
  }

  /** `parseHeader(b)` equals `parseHeader(b.slice(0, 14))`. */
  lemma ParseHeaderReadsFirst14Bytes(midiBytes: seq<byte>)
    ensures ParseHeader(midiBytes) == ParseHeader(midiBytes[..Min(14, |midiBytes|)])
  {
    HeaderReadsFirst14Bytes(midiBytes, IsFormatInRange);
  }

  /** A wrong chunk id gives the chunk-id message, whatever follows. */
  lemma BadChunkIdRejected(midiBytes: seq<byte>)
    requires !HasHeaderChunkId(midiBytes)
    ensures ParseHeader(midiBytes) == Left(CHUNK_ID_MESSAGE)
  {
    HeaderOutcome(midiBytes, IsFormatInRange);
  }

  /** With the right id, a chunk length other than 6 gives the size message carrying that length. */
  lemma BadSizeRejected(midiBytes: seq<byte>)
    requires HasHeaderChunkId(midiBytes) && HeaderSize(midiBytes) != 6
    ensures ParseHeader(midiBytes) == Left(SizeMessage(HeaderSize(midiBytes)))
  {
    HeaderOutcome(midiBytes, IsFormatInRange);
  }

  /** As written, the format check holds exactly outside 0..2, the opposite of its
      type guard and of its message. */
  lemma FormatCheckInverted(format: int)
    ensures IsFormatInRange(format) <==> !IsFormatInRangeIntended(format)
  {
  }

  /** So a header with the right id and size whose format is 0, 1 or 2 is rejected. */
  lemma SupportedFormatRejected(midiBytes: seq<byte>)
    requires HasHeaderChunkId(midiBytes) && HeaderSize(midiBytes) == 6
    requires 0 <= Field(midiBytes, 8) <= 2
    ensures ParseHeader(midiBytes) == Left(FormatMessage(Field(midiBytes, 8)))
  {
    HeaderOutcome(midiBytes, IsFormatInRange);
  }

  /** `parseHeader` succeeds exactly when all three checks pass, and then the header
      holds the three 16-bit fields, with a format above 2. */
  lemma ParseHeaderSucceeds(midiBytes: seq<byte>)
    ensures ParseHeader(midiBytes).Right? <==>
      HasHeaderChunkId(midiBytes) && HeaderSize(midiBytes) == 6 && Field(midiBytes, 8) > 2
    ensures ParseHeader(midiBytes).Right? ==>
      ParseHeader(midiBytes).right == MidiHeader(Field(midiBytes, 8), Field(midiBytes, 10), Field(midiBytes, 12))
    ensures ParseHeader(midiBytes).Right? ==>
      var h := ParseHeader(midiBytes).right;
      2 < h.format < 0x1_0000 && 0 <= h.trackCount < 0x1_0000 && 0 <= h.trackDivision < 0x1_0000
  {
    HeaderOutcome(midiBytes, IsFormatInRange);
    FieldDecodes(midiBytes, 8);
    FieldDecodes(midiBytes, 10);
    FieldDecodes(midiBytes, 12);
  }

  /** A field beyond the end of the input decodes from an empty slice, to 0. */
  lemma MissingFieldIsZero(midiBytes: seq<byte>, start: nat)
    requires |midiBytes| <= start
    ensures Field(midiBytes, start) == 0
  {
    assert Slice(midiBytes, start, start + 2) == [];
  }

  /** There is no length check: short input is not rejected for its length, and the
      fields it lacks are 0. As written, input of 8 bytes or fewer has format 0 and
      so fails the format check. */
  lemma ShortInputNotRejectedForLength(midiBytes: seq<byte>)
    ensures |midiBytes| <= 8 ==> ParseHeader(midiBytes).Left?
    ensures |midiBytes| <= 8 && HasHeaderChunkId(midiBytes) && HeaderSize(midiBytes) == 6 ==>
      ParseHeader(midiBytes) == Left(FormatMessage(0))
    ensures |midiBytes| <= 12 && ParseHeader(midiBytes).Right? ==> ParseHeader(midiBytes).right.trackDivision == 0
    ensures |midiBytes| <= 10 && ParseHeader(midiBytes).Right? ==> ParseHeader(midiBytes).right.trackCount == 0
  {
    ParseHeaderSucceeds(midiBytes);
    HeaderOutcome(midiBytes, IsFormatInRange);
    if |midiBytes| <= 8 { MissingFieldIsZero(midiBytes, 8); }
    if |midiBytes| <= 10 { MissingFieldIsZero(midiBytes, 10); }
    if |midiBytes| <= 12 { MissingFieldIsZero(midiBytes, 12); }
  }

  /** A two-byte field in big-endian order. */
  lemma BigEndianPair(s: seq<byte>)
    requires |s| == 2
    ensures BigEndian(s) == s[0] as int * 256 + s[1] as int
  {
    assert s[..1][..0] == [];
    assert Horner(s[..1], false) == s[0] as int;
  }

  /** Four big-endian digits whose first three are zero are the last digit. */
  lemma LowByteOnly(s: seq<byte>)
    requires |s| == 4 && s[0] == 0 && s[1] == 0 && s[2] == 0
    ensures BigEndian(s) == s[3] as int
  {
    var s1, s2, s3 := s[..1], s[..2], s[..3];
    assert s1[..0] == [];
    assert Horner(s1, false) == 0;
    assert s2[..1] == s1;
    assert Horner(s2, false) == 0;
    assert s3[..2] == s2;
    assert Horner(s3, false) == 0;
  }

  /** A chunk length whose three high bytes are zero is its low byte. */
  lemma SmallHeaderSize(midiBytes: seq<byte>)
    requires |midiBytes| >= 8
    requires midiBytes[4] == 0 && midiBytes[5] == 0 && midiBytes[6] == 0
    ensures HeaderSize(midiBytes) == midiBytes[7] as int
  {
    var s := Slice(midiBytes, 4, 8);
    assert |s| == 4 && s[0] == 0 && s[1] == 0 && s[2] == 0 && s[3] == midiBytes[7];
    assert ValidLength(s, false);
    LowByteOnly(s);
  }

  /** A 10-byte input with format 3 is accepted, with zero track count and division. */
  lemma {:induction false} TenByteHeaderAccepted(midiBytes: seq<byte>)
    requires |midiBytes| == 10
    requires midiBytes[0] == 0x4D && midiBytes[1] == 0x54 && midiBytes[2] == 0x68 && midiBytes[3] == 0x64
    requires midiBytes[4] == 0 && midiBytes[5] == 0 && midiBytes[6] == 0 && midiBytes[7] == 6
    requires midiBytes[8] == 0 && midiBytes[9] == 3
    ensures ParseHeader(midiBytes) == Right(MidiHeader(3, 0, 0))
  {
    assert Slice(midiBytes, 0, 4) == HEADER_CHUNK_ID_BYTES;
    SmallHeaderSize(midiBytes);
    BigEndianPair(Slice(midiBytes, 8, 10));
    MissingFieldIsZero(midiBytes, 10);
    MissingFieldIsZero(midiBytes, 12);
    ParseHeaderSucceeds(midiBytes);
  }

  // ---------------------------------------------------------------------------
  // The inverted format check, and the check as intended

  /** A format-0 header with one track and 96 ticks per quarter note. */
  predicate IsFormat0Header(midiBytes: seq<byte>)
  {
    |midiBytes| == 14 &&
    midiBytes[0] == 0x4D && midiBytes[1] == 0x54 && midiBytes[2] == 0x68 && midiBytes[3] == 0x64 &&
    midiBytes[4] == 0 && midiBytes[5] == 0 && midiBytes[6] == 0 && midiBytes[7] == 6 &&
    midiBytes[8] == 0 && midiBytes[9] == 0 && midiBytes[10] == 0 && midiBytes[11] == 1 &&
    midiBytes[12] == 0 && midiBytes[13] == 0x60
  }

  lemma Format0HeaderFields(midiBytes: seq<byte>)
    requires IsFormat0Header(midiBytes)
    ensures HasHeaderChunkId(midiBytes) && HeaderSize(midiBytes) == 6
    ensures Field(midiBytes, 8) == 0 && Field(midiBytes, 10) == 1 && Field(midiBytes, 12) == 96
  {
    assert Slice(midiBytes, 0, 4) == HEADER_CHUNK_ID_BYTES;
    SmallHeaderSize(midiBytes);
    BigEndianPair(Slice(midiBytes, 8, 10));
    BigEndianPair(Slice(midiBytes, 10, 12));
    BigEndianPair(Slice(midiBytes, 12, 14));
  }

  /** As written, a well-formed format-0 header is rejected with the message that
      says 0 is a valid format. */
  lemma Format0HeaderRejected(midiBytes: seq<byte>)
    requires IsFormat0Header(midiBytes)
    ensures ParseHeader(midiBytes) == Left(FormatMessage(0))
  {
    Format0HeaderFields(midiBytes);
    HeaderOutcome(midiBytes, IsFormatInRange);
  }

  /** With the intended check, parsing succeeds exactly for formats 0, 1 and 2, and
      the header then holds the three 16-bit fields. */
  lemma ParseHeaderIntendedSucceeds(midiBytes: seq<byte>)
    ensures ParseHeaderIntended(midiBytes).Right? <==>
      HasHeaderChunkId(midiBytes) && HeaderSize(midiBytes) == 6 && Field(midiBytes, 8) <= 2
    ensures ParseHeaderIntended(midiBytes).Right? ==>
      ParseHeaderIntended(midiBytes).right == MidiHeader(Field(midiBytes, 8), Field(midiBytes, 10), Field(midiBytes, 12))
    ensures ParseHeaderIntended(midiBytes).Right? ==>
      ParseHeaderIntended(midiBytes).right.format in {0, 1, 2}
    ensures HasHeaderChunkId(midiBytes) && HeaderSize(midiBytes) == 6 && Field(midiBytes, 8) > 2 ==>
      ParseHeaderIntended(midiBytes) == Left(FormatMessage(Field(midiBytes, 8)))
  {
    HeaderOutcome(midiBytes, IsFormatInRangeIntended);
    FieldDecodes(midiBytes, 8);
  }

  lemma Format0HeaderAcceptedIntended(midiBytes: seq<byte>)
    requires IsFormat0Header(midiBytes)
    ensures ParseHeaderIntended(midiBytes) == Right(MidiHeader(0, 1, 96))
  {
    Format0HeaderFields(midiBytes);
    HeaderOutcome(midiBytes, IsFormatInRangeIntended);
  }

  // ---------------------------------------------------------------------------
  // The messages

  /** A message built as prefix + number + suffix starts with the prefix. */
  lemma MessageStartsWithPrefix(prefix: string, number: string, suffix: string, i: nat)
    requires i < |prefix|
    ensures (prefix + number + suffix)[i] == prefix[i]
  {
  }

  /** Stripping the prefix and the suffix from such a message leaves the number. */
  lemma MessageMiddle(prefix: string, number: string, suffix: string)
    ensures var m := prefix + number + suffix;
      m[|prefix|..|m| - |suffix|] == number
  {
    var m := prefix + number + suffix;
    assert m[|prefix|..|m| - |suffix|] == number;
  }

  /** Each message names its check: the three kinds never coincide, because they
      differ at character 16 ("header ..." against "got ...") or at character 22
      ("unexpected ..." against "unknown ..."). */
  lemma MessagesDistinct(m: int, n: int)
    ensures CHUNK_ID_MESSAGE != SizeMessage(m) && CHUNK_ID_MESSAGE != FormatMessage(n)
    ensures SizeMessage(m) != FormatMessage(n)
  {
    MessageStartsWithPrefix(SIZE_PREFIX, NumberToString(m), SIZE_SUFFIX, 16);
    MessageStartsWithPrefix(FORMAT_PREFIX, NumberToString(n), FORMAT_SUFFIX, 16);
    MessageStartsWithPrefix(SIZE_PREFIX, NumberToString(m), SIZE_SUFFIX, 22);
    MessageStartsWithPrefix(FORMAT_PREFIX, NumberToString(n), FORMAT_SUFFIX, 22);
    assert CHUNK_ID_MESSAGE[16] == 'h' && SIZE_PREFIX[16] == 'g' && FORMAT_PREFIX[16] == 'g';
    assert SIZE_PREFIX[22] == 'e' && FORMAT_PREFIX[22] == 'k';
  }

  /** The number between the parentheses reads back as the offending value. */
  lemma MessagesCarryTheValue(m: int, n: int)
    ensures StringToNumber(SizeMessage(m)[|SIZE_PREFIX|..|SizeMessage(m)| - |SIZE_SUFFIX|]) == m
    ensures StringToNumber(FormatMessage(n)[|FORMAT_PREFIX|..|FormatMessage(n)| - |FORMAT_SUFFIX|]) == n
  {
    MessageMiddle(SIZE_PREFIX, NumberToString(m), SIZE_SUFFIX);
    MessageMiddle(FORMAT_PREFIX, NumberToString(n), FORMAT_SUFFIX);
    NumberToStringRoundTrip(m);
    NumberToStringRoundTrip(n);
  }
}
