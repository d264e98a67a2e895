/**
 * TargetMessagePOD (include/parser.h:31-62) and its decoder
 * TargetMessagePOD::fromBytes (src/parser.cpp:105-133): a packed 29-byte
 * record of sixteen big-endian integer fields, decoded from the front of a
 * byte span that the decoder advances.
 */
module TargetMessages {
  import opened Expected
  import opened Binary

  /** ParseError */
  datatype ParseError = CheckSumMismatch | ValidationError | DataSizeMismatch | ArraySizeMismatch

  /** parseErrorStr: the switch has no case for dataSizeMismatch. */
  function ParseErrorStr(e: ParseError): (s: string)
    ensures |s| > 0 && s[|s| - 1] == '\n'
    ensures s == "UNKNOWN ERROR\n" <==> e == DataSizeMismatch
  {
    match e
    case CheckSumMismatch => "checkSumMismatch\n"
    case ValidationError => "validationError\n"
    case ArraySizeMismatch => "arraySizeMismatch\n"
    case _ => "UNKNOWN ERROR\n"
  }

  /** One decoded radar target; fields in declaration order. */
  datatype TargetMessage = TargetMessage(
    goalNumbering: uint8,
    verticalDistance: int16,
    lateralDistance: int16,
    speedY: int16,
    targetType: int8,
    laneNumber: int8,
    frontSpacing: int16,
    frontTimeInterval: int16,
    speedX: int16,
    angle: uint16,
    incidents: uint8,
    radarNetworkX: int32,
    radarNetworkY: int32,
    fillTheBlindMark: uint8,
    carLength: uint8,
    carWidth: uint8)

  /** sizeof(TargetMessagePOD) */
  const RecordSize: nat := 29

  /** The big-endian on-disk form of a record: each field's bytes in field order. */
  function Encode(m: TargetMessage): (b: seq<byte>)
    ensures |b| == RecordSize
  {
    EncodeInt(U8, m.goalNumbering) +
    EncodeInt(I16, m.verticalDistance) + EncodeInt(I16, m.lateralDistance) + EncodeInt(I16, m.speedY) +
    EncodeInt(I8, m.targetType) + EncodeInt(I8, m.laneNumber) +
    EncodeInt(I16, m.frontSpacing) + EncodeInt(I16, m.frontTimeInterval) + EncodeInt(I16, m.speedX) +
    EncodeInt(U16, m.angle) + EncodeInt(U8, m.incidents) +
    EncodeInt(I32, m.radarNetworkX) + EncodeInt(I32, m.radarNetworkY) +
    EncodeInt(U8, m.fillTheBlindMark) + EncodeInt(U8, m.carLength) + EncodeInt(U8, m.carWidth)
  }

  /** The record whose on-disk form is `b`: every field read big-endian at its offset. */
  function Decode(b: seq<byte>): TargetMessage
    requires |b| == RecordSize
  {
    TargetMessage(
      DecodeInt(U8, b[0..1]),
      DecodeInt(I16, b[1..3]), DecodeInt(I16, b[3..5]), DecodeInt(I16, b[5..7]),
      DecodeInt(I8, b[7..8]), DecodeInt(I8, b[8..9]),
      DecodeInt(I16, b[9..11]), DecodeInt(I16, b[11..13]), DecodeInt(I16, b[13..15]),
      DecodeInt(U16, b[15..17]), DecodeInt(U8, b[17..18]),
      DecodeInt(I32, b[18..22]), DecodeInt(I32, b[22..26]),
      DecodeInt(U8, b[26..27]), DecodeInt(U8, b[27..28]), DecodeInt(U8, b[28..29]))
  }

  /** A prefix of `whole` made of two parts: each part sits at its place. */
  lemma SplitPrefix(whole: seq<byte>, p: seq<byte>, e: seq<byte>, end: nat)
    requires end <= |whole| && whole[..end] == p + e
    ensures whole[..|p|] == p && whole[|p|..end] == e
  {
    assert whole[..|p|] == whole[..end][..|p|];
    assert whole[|p|..end] == whole[..end][|p|..];
  }

  /** Decoding the on-disk form of a record gives the record back. */
  lemma DecodeEncode(m: TargetMessage)
    ensures Decode(Encode(m)) == m
  {
    var b := Encode(m);
    var p1 := EncodeInt(U8, m.goalNumbering);
    var p2 := p1 + EncodeInt(I16, m.verticalDistance);
    var p3 := p2 + EncodeInt(I16, m.lateralDistance);
    var p4 := p3 + EncodeInt(I16, m.speedY);
    var p5 := p4 + EncodeInt(I8, m.targetType);
    var p6 := p5 + EncodeInt(I8, m.laneNumber);
    var p7 := p6 + EncodeInt(I16, m.frontSpacing);
    var p8 := p7 + EncodeInt(I16, m.frontTimeInterval);
    var p9 := p8 + EncodeInt(I16, m.speedX);
    var p10 := p9 + EncodeInt(U16, m.angle);
    var p11 := p10 + EncodeInt(U8, m.incidents);
    var p12 := p11 + EncodeInt(I32, m.radarNetworkX);
    var p13 := p12 + EncodeInt(I32, m.radarNetworkY);
    var p14 := p13 + EncodeInt(U8, m.fillTheBlindMark);
    var p15 := p14 + EncodeInt(U8, m.carLength);
    var p16 := p15 + EncodeInt(U8, m.carWidth);
    assert b[..29] == p16;
    SplitPrefix(b, p15, EncodeInt(U8, m.carWidth), 29);
    SplitPrefix(b, p14, EncodeInt(U8, m.carLength), 28);
    SplitPrefix(b, p13, EncodeInt(U8, m.fillTheBlindMark), 27);
    SplitPrefix(b, p12, EncodeInt(I32, m.radarNetworkY), 26);
    SplitPrefix(b, p11, EncodeInt(I32, m.radarNetworkX), 22);
    SplitPrefix(b, p10, EncodeInt(U8, m.incidents), 18);
    SplitPrefix(b, p9, EncodeInt(U16, m.angle), 17);
    SplitPrefix(b, p8, EncodeInt(I16, m.speedX), 15);
    SplitPrefix(b, p7, EncodeInt(I16, m.frontTimeInterval), 13);
    SplitPrefix(b, p6, EncodeInt(I16, m.frontSpacing), 11);
    SplitPrefix(b, p5, EncodeInt(I8, m.laneNumber), 9);
    SplitPrefix(b, p4, EncodeInt(I8, m.targetType), 8);
    SplitPrefix(b, p3, EncodeInt(I16, m.speedY), 7);
    SplitPrefix(b, p2, EncodeInt(I16, m.lateralDistance), 5);
    SplitPrefix(b, p1, EncodeInt(I16, m.verticalDistance), 3);
    DecodeEncodeInt(U8, m.goalNumbering);
    DecodeEncodeInt(I16, m.verticalDistance);
    DecodeEncodeInt(I16, m.lateralDistance);
    DecodeEncodeInt(I16, m.speedY);
    DecodeEncodeInt(I8, m.targetType);
    DecodeEncodeInt(I8, m.laneNumber);
    DecodeEncodeInt(I16, m.frontSpacing);
    DecodeEncodeInt(I16, m.frontTimeInterval);
    DecodeEncodeInt(I16, m.speedX);
    DecodeEncodeInt(U16, m.angle);
    DecodeEncodeInt(U8, m.incidents);
    DecodeEncodeInt(I32, m.radarNetworkX);
    DecodeEncodeInt(I32, m.radarNetworkY);
    DecodeEncodeInt(U8, m.fillTheBlindMark);
    DecodeEncodeInt(U8, m.carLength);
    DecodeEncodeInt(U8, m.carWidth);
  }

  /**
   * Every one of the 29 bytes lands in exactly one field: re-encoding the
   * decoded record reproduces the bytes.
   */
  lemma EncodeDecode(b: seq<byte>)
    requires |b| == RecordSize
    ensures Encode(Decode(b)) == b
  {
    EncodeDecodeInt(U8, b[0..1]);
    EncodeDecodeInt(I16, b[1..3]);
    EncodeDecodeInt(I16, b[3..5]);
    EncodeDecodeInt(I16, b[5..7]);
    EncodeDecodeInt(I8, b[7..8]);
    EncodeDecodeInt(I8, b[8..9]);
    EncodeDecodeInt(I16, b[9..11]);
    EncodeDecodeInt(I16, b[11..13]);
    EncodeDecodeInt(I16, b[13..15]);
    EncodeDecodeInt(U16, b[15..17]);
    EncodeDecodeInt(U8, b[17..18]);
    EncodeDecodeInt(I32, b[18..22]);
    EncodeDecodeInt(I32, b[22..26]);
    EncodeDecodeInt(U8, b[26..27]);
    EncodeDecodeInt(U8, b[27..28]);
    EncodeDecodeInt(U8, b[28..29]);
    assert b[..3] == b[..1] + b[1..3];
    assert b[..5] == b[..3] + b[3..5];
    assert b[..7] == b[..5] + b[5..7];
    assert b[..8] == b[..7] + b[7..8];
    assert b[..9] == b[..8] + b[8..9];
    assert b[..11] == b[..9] + b[9..11];
    assert b[..13] == b[..11] + b[11..13];
    assert b[..15] == b[..13] + b[13..15];
    assert b[..17] == b[..15] + b[15..17];
    assert b[..18] == b[..17] + b[17..18];
    assert b[..22] == b[..18] + b[18..22];
    assert b[..26] == b[..22] + b[22..26];
    assert b[..27] == b[..26] + b[26..27];
    assert b[..28] == b[..27] + b[27..28];
    assert b[..29] == b[..28] + b[28..29];
    assert b[..1] == b[0..1] && b[..29] == b;
  }

  /** Decoding the first 29 bytes of a longer span reads the fields at the same offsets. */
  lemma DecodePrefix(data: seq<byte>)
    requires |data| >= RecordSize
    ensures var m := Decode(data[..RecordSize]);
      m.goalNumbering == DecodeInt(U8, data[0..1]) &&
      m.verticalDistance == DecodeInt(I16, data[1..3]) &&
      m.lateralDistance == DecodeInt(I16, data[3..5]) &&
      m.speedY == DecodeInt(I16, data[5..7]) &&
      m.targetType == DecodeInt(I8, data[7..8]) &&
      m.laneNumber == DecodeInt(I8, data[8..9]) &&
      m.frontSpacing == DecodeInt(I16, data[9..11]) &&
      m.frontTimeInterval == DecodeInt(I16, data[11..13]) &&
      m.speedX == DecodeInt(I16, data[13..15]) &&
      m.angle == DecodeInt(U16, data[15..17]) &&
      m.incidents == DecodeInt(U8, data[17..18]) &&
      m.radarNetworkX == DecodeInt(I32, data[18..22]) &&
      m.radarNetworkY == DecodeInt(I32, data[22..26]) &&
      m.fillTheBlindMark == DecodeInt(U8, data[26..27]) &&
      m.carLength == DecodeInt(U8, data[27..28]) &&
      m.carWidth == DecodeInt(U8, data[28..29])
  {
    var b := data[..RecordSize];
    assert b[0..1] == data[0..1] && b[1..3] == data[1..3] && b[3..5] == data[3..5] && b[5..7] == data[5..7];
    assert b[7..8] == data[7..8] && b[8..9] == data[8..9] && b[9..11] == data[9..11] && b[11..13] == data[11..13];
    assert b[13..15] == data[13..15] && b[15..17] == data[15..17] && b[17..18] == data[17..18];
    assert b[18..22] == data[18..22] && b[22..26] == data[22..26];
    assert b[26..27] == data[26..27] && b[27..28] == data[27..28] && b[28..29] == data[28..29];
  }

  /**
   * TargetMessagePOD::fromBytes(std::span<const std::byte>& data), the
   * definition at src/parser.cpp:105: fewer than 29 bytes give
   * dataSizeMismatch and leave the span alone; otherwise the sixteen fields
   * are read big-endian one after another, each read advancing the span, so
   * `rest` is the caller's span afterwards.
   */
  method FromBytes(host: Endian, data: seq<byte>) returns (r: Result<TargetMessage, ParseError>, rest: seq<byte>)
    ensures |data| < RecordSize ==> r == Err(DataSizeMismatch) && rest == data
    ensures |data| >= RecordSize ==> r == Ok(Decode(data[..RecordSize])) && rest == data[RecordSize..]
  {
    rest := data;
    if |rest| < RecordSize {
      return Err(DataSizeMismatch), rest;
    }
    var goalNumbering;
    goalNumbering, rest := ReadBigEndian(host, U8, rest, data, 0, 1);
    var verticalDistance;
    verticalDistance, rest := ReadBigEndian(host, I16, rest, data, 1, 3);
    var lateralDistance;
    lateralDistance, rest := ReadBigEndian(host, I16, rest, data, 3, 5);
    var speedY;
    speedY, rest := ReadBigEndian(host, I16, rest, data, 5, 7);
    var targetType;
    targetType, rest := ReadBigEndian(host, I8, rest, data, 7, 8);
    var laneNumber;
    laneNumber, rest := ReadBigEndian(host, I8, rest, data, 8, 9);
    var frontSpacing;
    frontSpacing, rest := ReadBigEndian(host, I16, rest, data, 9, 11);
    var frontTimeInterval;
    frontTimeInterval, rest := ReadBigEndian(host, I16, rest, data, 11, 13);
    var speedX;
    speedX, rest := ReadBigEndian(host, I16, rest, data, 13, 15);
    var angle;
    angle, rest := ReadBigEndian(host, U16, rest, data, 15, 17);
    var incidents;
    incidents, rest := ReadBigEndian(host, U8, rest, data, 17, 18);
    var radarNetworkX;
    radarNetworkX, rest := ReadBigEndian(host, I32, rest, data, 18, 22);
    var radarNetworkY;
    radarNetworkY, rest := ReadBigEndian(host, I32, rest, data, 22, 26);
    var fillTheBlindMark;
    fillTheBlindMark, rest := ReadBigEndian(host, U8, rest, data, 26, 27);
    var carLength;
    carLength, rest := ReadBigEndian(host, U8, rest, data, 27, 28);
    var carWidth;
    carWidth, rest := ReadBigEndian(host, U8, rest, data, 28, 29);
    DecodePrefix(data);
    r := Ok(TargetMessage(goalNumbering, verticalDistance, lateralDistance, speedY, targetType,
                          laneNumber, frontSpacing, frontTimeInterval, speedX, angle, incidents,
                          radarNetworkX, radarNetworkY, fillTheBlindMark, carLength, carWidth));
  }

  /** A sequence of 29-byte chunks. */
  predicate RecordSized(parts: seq<seq<byte>>) {
    forall k :: 0 <= k < |parts| ==> |parts[k]| == RecordSize
  }

  /** The chunks laid end to end. */
  function Concat(parts: seq<seq<byte>>): (b: seq<byte>)
    requires RecordSized(parts)
    ensures |b| == 29 * |parts|
  {
    if parts == [] then [] else parts[0] + Concat(parts[1..])
  }

  /** The 29-byte chunks of a payload of whole records, in order. */
  function Chunks(data: seq<byte>): (cs: seq<seq<byte>>)
    requires |data| % RecordSize == 0
    ensures |cs| == |data| / RecordSize && RecordSized(cs)
  {
    seq(|data| / RecordSize, k requires 0 <= k < |data| / RecordSize => data[29 * k..29 * k + RecordSize])
  }

  /** Chunk k spans bytes 29k up to 29(k + 1). */
  lemma ChunkAt(data: seq<byte>, k: nat)
    requires |data| % RecordSize == 0 && 29 * k + RecordSize <= |data|
    ensures k < |Chunks(data)| && Chunks(data)[k] == data[29 * k..29 * k + RecordSize]
  {
    assert k < |data| / RecordSize;
  }

  /** The first chunk, then the chunks of the rest of the payload. */
  lemma ChunksSplit(data: seq<byte>)
    requires |data| % RecordSize == 0 && |data| >= RecordSize
    ensures Chunks(data) == [data[..RecordSize]] + Chunks(data[RecordSize..])
  {
    var tail := data[RecordSize..];
    forall k | 0 <= k < |Chunks(tail)|
      ensures Chunks(data)[k + 1] == Chunks(tail)[k]
    {
      assert k < |tail| / RecordSize;
      assert tail[29 * k..29 * k + RecordSize] == data[29 * (k + 1)..29 * (k + 1) + RecordSize];
    }
  }

  /** Cutting the concatenation of chunks gives back the chunks. */
  lemma {:induction false} ChunksOfConcat(parts: seq<seq<byte>>)
    requires RecordSized(parts)
    ensures Chunks(Concat(parts)) == parts
  {
    if parts != [] {
      var b := Concat(parts);
      assert b[..RecordSize] == parts[0] && b[RecordSize..] == Concat(parts[1..]);
      ChunksSplit(b);
      ChunksOfConcat(parts[1..]);
    }
  }

  /** Laying the chunks of a payload end to end gives back the payload. */
  lemma {:induction false} ConcatOfChunks(data: seq<byte>)
    requires |data| % RecordSize == 0
    ensures Concat(Chunks(data)) == data
    decreases |data|
  {
    if data != [] {
      ChunksSplit(data);
      var cs := Chunks(data);
      assert cs[1..] == Chunks(data[RecordSize..]);
      ConcatOfChunks(data[RecordSize..]);
      assert data == data[..RecordSize] + data[RecordSize..];
    }
  }

  /** The chunks of the first 29k bytes are the first k chunks. */
  lemma ChunksPrefix(data: seq<byte>, k: nat)
    requires |data| % RecordSize == 0 && k <= |data| / RecordSize
    ensures 29 * k <= |data| && Chunks(data[..29 * k]) == Chunks(data)[..k]
  {
    var prefix := data[..29 * k];
    forall j | 0 <= j < k
      ensures Chunks(prefix)[j] == Chunks(data)[j]
    {
      ChunkAt(prefix, j);
      ChunkAt(data, j);
      assert prefix[29 * j..29 * j + RecordSize] == data[29 * j..29 * j + RecordSize];
    }
  }

  /** The bytes of a record array: each record's 29 bytes, in order. */
  function EncodeAll(ms: seq<TargetMessage>): (b: seq<byte>)
    ensures |b| == 29 * |ms|
  {
    Concat(seq(|ms|, k requires 0 <= k < |ms| => Encode(ms[k])))
  }

  /**
   * The records a payload of whole records holds: record k is decoded
   * from bytes 29k up to 29(k + 1).
   */
  function Records(data: seq<byte>): (ms: seq<TargetMessage>)
    requires |data| % RecordSize == 0
    ensures |ms| == |data| / RecordSize
  {
    var cs := Chunks(data);
    seq(|cs|, k requires 0 <= k < |cs| => Decode(cs[k]))
  }

  /** Record k of a payload is decoded from bytes 29k up to 29(k + 1). */
  lemma RecordAt(data: seq<byte>, k: nat)
    requires |data| % RecordSize == 0 && 29 * k + RecordSize <= |data|
    ensures k < |Records(data)| && Records(data)[k] == Decode(data[29 * k..29 * k + RecordSize])
  {
    ChunkAt(data, k);
  }

  /** Decoding the record after the first k extends the first k records by one. */
  lemma RecordsExtend(data: seq<byte>, k: nat, span: seq<byte>)
    requires |data| % RecordSize == 0 && 29 * k + RecordSize <= |data| && span == data[29 * k..]
    ensures k + 1 <= |Records(data)|
    ensures Records(data)[..k] + [Decode(span[..RecordSize])] == Records(data)[..k + 1]
  {
    RecordAt(data, k);
    assert span[..RecordSize] == data[29 * k..29 * k + RecordSize];
  }

  /** Decoding the bytes of a record array gives back the records. */
  lemma RecordsEncodeAll(ms: seq<TargetMessage>)
    ensures Records(EncodeAll(ms)) == ms
  {
    var parts := seq(|ms|, k requires 0 <= k < |ms| => Encode(ms[k]));
    ChunksOfConcat(parts);
    forall k | 0 <= k < |ms|
      ensures Records(EncodeAll(ms))[k] == ms[k]
    {
      DecodeEncode(ms[k]);
    }
  }

  /** Every byte of a payload of whole records belongs to exactly one record field. */
  lemma EncodeAllRecords(data: seq<byte>)
    requires |data| % RecordSize == 0
    ensures EncodeAll(Records(data)) == data
  {
    var ms := Records(data);
    var cs := Chunks(data);
    var parts := seq(|ms|, k requires 0 <= k < |ms| => Encode(ms[k]));
    forall k | 0 <= k < |ms|
      ensures parts[k] == cs[k]
    {
      EncodeDecode(cs[k]);
    }
    assert parts == cs;
    ConcatOfChunks(data);
  }

  /** The first k records of a payload are encoded by its first 29k bytes. */
  lemma EncodeAllPrefix(data: seq<byte>, k: nat)
    requires |data| % RecordSize == 0 && k <= |data| / RecordSize
    ensures 29 * k <= |data|
    ensures EncodeAll(Records(data)[..k]) == data[..29 * k]
  {
    ChunksPrefix(data, k);
    var prefix := data[..29 * k];
    assert Records(prefix) == Records(data)[..k];
    EncodeAllRecords(prefix);
  }
}
