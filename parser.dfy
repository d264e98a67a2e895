/**
 * The decoder of src/parser.cpp and include/parser.h: findModule, which
 * locates a tagged module inside a signed, length-prefixed frame of a
 * BinFileReader; parseTargetMessages, which splits a payload into 29-byte
 * target records; and the `_bin_block` tag literal.
 */
module Parser {
  import opened Expected
  import opened Binary
  import opened FileReader
  import opened ModuleWalk
  import opened TargetMessages

  /**
   * operator""_bin_block: a string literal of exactly two characters
   * becomes a module tag holding them in order; any other length is
   * rejected at compile time (None).
   */
  function BinBlock(literal: seq<byte>): (tag: Option<seq<byte>>)
    ensures tag.Some? <==> |literal| == TagSize
    ensures tag.Some? ==> |tag.value| == TagSize && tag.value[0] == literal[0] && tag.value[1] == literal[1]
  {
    if |literal| != TagSize then None else Some([literal[0], literal[1]])
  }

  /**
   * findModule: find the frame signature, note the cursor after it, read
   * the frame's total size and walk its modules. Every reader failure is
   * returned as it is. The caller must not hand it a frame on which the
   * source loops for ever (a length-0 module that neither matches nor
   * reaches the bound, see ModuleWalk.DivergesOnlyAtZeroLength).
   */
  method FindModule(file: BinFileReader, targetModule: seq<byte>) returns (r: Result<seq<byte>, ReaderError>)
    requires file.Valid() && |targetModule| == TagSize
    requires file.CheckValidity() == Done ==> FindModuleSpec(file.data, file.pos, targetModule).Returns?
    modifies file`pos, file`good
    ensures file.Valid()
    ensures old(file.CheckValidity()).Failed? ==>
              r == Err(old(file.CheckValidity()).error) && file.pos == old(file.pos) && file.good == old(file.good)
    ensures old(file.CheckValidity()) == Done ==>
              FindModuleSpec(file.data, old(file.pos), targetModule) == Returns(r, file.pos, file.good)
  {
    var expectedVoid := file.SkipToSignature(HeaderSignature, SearchBufferSize);
    if expectedVoid.Failed? {
      return Err(expectedVoid.error);
    }
    var start := file.GetCursor();
    var dataModuleSize := file.TryReadInt(U16, Big);
    if dataModuleSize.Err? {
      return Err(dataModuleSize.error);
    }
    Uint16AtIsBigEndianRead(file.data, start);
    r := WalkModules(file, start, dataModuleSize.value, targetModule);
  }

  /**
   * The two reads at the head of each pass of findModule's loop: the
   * 2-byte module tag, then its big-endian uint16_t length. The first
   * failing read's error is returned as it is.
   */
  method ReadModuleHeader(file: BinFileReader) returns (header: Result<(seq<byte>, nat), ReaderError>)
    requires file.Valid() && file.open
    modifies file`pos, file`good
    ensures file.Valid()
    ensures !old(file.good) ==> header == Err(ErrorFile) && file.pos == old(file.pos) && !file.good
    ensures old(file.good) && old(file.pos) + ModuleHeaderSize > |file.data| ==>
              header == Err(OutOfRange) && file.pos == |file.data| && !file.good
    ensures old(file.good) && old(file.pos) + ModuleHeaderSize <= |file.data| ==>
              header == Ok((file.data[old(file.pos)..old(file.pos) + TagSize], ModuleLength(file.data, old(file.pos)))) &&
              file.pos == old(file.pos) + ModuleHeaderSize && file.good
  {
    var currentModule := file.TryReadBytes(TagSize, file.host);
    if currentModule.Err? {
      return Err(currentModule.error);
    }
    var expectedSize := file.TryReadInt(U16, Big);
    if expectedSize.Err? {
      return Err(expectedSize.error);
    }
    Uint16AtIsBigEndianRead(file.data, old(file.pos) + TagSize);
    header := Ok((currentModule.value, expectedSize.value));
  }

  /** How one pass of findModule's loop ends. */
  datatype Pass =
    | Stop(error: ReaderError)   // findModule returns this error
    | Found(length: nat)         // the tag matched: leave the loop with this declared length
    | Next                       // the module was skipped: run the next pass

  /**
   * One pass of the `while (true)` loop of findModule: read a tag and a
   * length, stop with MODUL_NOT_FOUND once the cursor is `total` bytes
   * past `start` (before looking at the tag), leave the loop on a matching
   * tag, and otherwise skip the rest of the module, ignoring what skip
   * reports. A module that is passed over puts the cursor `length` bytes
   * after the start of its header, so a length-0 header leaves the reader
   * exactly as the pass found it and the next pass repeats this one.
   */
  method PassModule(file: BinFileReader, start: nat, total: nat, targetModule: seq<byte>) returns (pass: Pass)
    requires file.Valid() && file.open
    modifies file`pos, file`good
    ensures file.Valid()
    ensures !old(file.good) ==> pass == Stop(ErrorFile) && file.pos == old(file.pos) && !file.good
    ensures old(file.good) && old(file.pos) + ModuleHeaderSize > |file.data| ==>
              pass == Stop(OutOfRange) && file.pos == |file.data| && !file.good
    ensures old(file.good) && old(file.pos) + ModuleHeaderSize <= |file.data| ==>
              var p, data := old(file.pos), file.data;
              var len := ModuleLength(data, p);
              if p + ModuleHeaderSize - start >= total then
                pass == Stop(ModulNotFound) && file.pos == p + ModuleHeaderSize && file.good
              else if TagAt(data, p, targetModule) then
                pass == Found(len) && file.pos == p + ModuleHeaderSize && file.good
              else if p + len <= |data| then
                pass == Next && file.pos == p + len && file.good
              else
                pass == Next && file.pos == p + ModuleHeaderSize && !file.good
    ensures old(file.good) && PassesOver(file.data, start, total, targetModule, old(file.pos)) &&
            ModuleLength(file.data, old(file.pos)) == 0 ==>
              pass == Next && file.pos == old(file.pos) && file.good
  {
    var header := ReadModuleHeader(file);
    if header.Err? {
      return Stop(header.error);
    }
    var (currentModule, length) := header.value;
    var cursor := file.GetCursor();
    if cursor - start >= total {
      return Stop(ModulNotFound);
    }
    TagAtIsTagRead(file.data, old(file.pos), targetModule);
    if currentModule == targetModule {
      return Found(length);
    }
    SkipMovesByLengthMinusHeader(length);
    var _ := file.Skip(SkipArgument(length));
    pass := Next;
  }

  /**
   * The `while (true)` loop of findModule and the payload read after it:
   * passes over modules until one matches or a pass stops, then reads the
   * matching module's payload.
   */
  method WalkModules(file: BinFileReader, start: nat, total: nat, targetModule: seq<byte>)
    returns (r: Result<seq<byte>, ReaderError>)
    requires file.Valid() && file.open && file.good && start + 2 == file.pos
    requires Walk(file.data, start, total, targetModule, file.pos).Returns?
    modifies file`pos, file`good
    ensures file.Valid()
    ensures Walk(file.data, start, total, targetModule, old(file.pos)) == Returns(r, file.pos, file.good)
  {
    ghost var outcome := Walk(file.data, start, total, targetModule, file.pos);
    var expectedSize: nat := 0;
    while true
      invariant file.Valid() && file.open
      invariant file.good ==> Walk(file.data, start, total, targetModule, file.pos) == outcome
      invariant !file.good ==> outcome == Returns(Err(ErrorFile), file.pos, false)
      invariant expectedSize < 0x1_0000
      decreases |file.data| - file.pos, if file.good then 1 else 0
    {
      ghost var p := file.pos;
      var pass := PassModule(file, start, total, targetModule);
      match pass
      case Stop(e) =>
        return Err(e);
      case Found(length) =>
        WalkMatches(file.data, start, total, targetModule, p);
        expectedSize := length;
        break;
      case Next =>
        if ModuleLength(file.data, p) == 0 {
          assert false;
        }
        WalkPassesOver(file.data, start, total, targetModule, p);
    }

    r := ReadPayload(file, expectedSize);
  }

  /**
   * After the loop of findModule: the declared length less the 4 header
   * bytes, in uint16 arithmetic, is the payload size, and that many bytes
   * are read and returned.
   */
  method ReadPayload(file: BinFileReader, length: nat) returns (r: Result<seq<byte>, ReaderError>)
    requires file.Valid() && file.open && file.good && length < 0x1_0000
    modifies file`pos, file`good
    ensures file.Valid()
    ensures var size := PayloadSize(length);
            if old(file.pos) + size > |file.data| then r == Err(OutOfRange) && file.pos == |file.data| && !file.good
            else r == Ok(file.data[old(file.pos)..old(file.pos) + size]) && file.pos == old(file.pos) + size && file.good
  {
    var expectedSize := PayloadSize(length);
    var expectedRawData := file.TryReadBytes(expectedSize, file.host);
    if expectedRawData.Err? {
      return Err(expectedRawData.error);
    }
    return Ok(expectedRawData.value);
  }

  /**
   * What parseTargetMessages returns. With the consuming fromBytes, the
   * loop compares its byte counter with the remaining span, which shrinks
   * by a record per pass, so of n whole records only the first ceil(n/2)
   * are decoded, in order from the front.
   */
  function ParseAsWritten(data: seq<byte>): (r: Result<seq<TargetMessage>, ParseError>)
    ensures |data| % RecordSize != 0 <==> r == Err(ArraySizeMismatch)
    ensures |data| % RecordSize == 0 ==> r.Ok? && |r.value| == (|data| / RecordSize + 1) / 2
  {
    if |data| % RecordSize != 0 then Err(ArraySizeMismatch)
    else Ok(Records(data)[..(|data| / RecordSize + 1) / 2])
  }

  /**
   * The records it returns are the leading ones of the payload: they
   * re-encode to its first 29 bytes per record.
   */
  lemma AsWrittenIsPrefix(data: seq<byte>)
    requires |data| % RecordSize == 0
    ensures 29 * |ParseAsWritten(data).value| <= |data|
    ensures EncodeAll(ParseAsWritten(data).value) == data[..29 * |ParseAsWritten(data).value|]
  {
    EncodeAllPrefix(data, (|data| / RecordSize + 1) / 2);
  }

  /** The loop of parseTargetMessages stops after ceil(n/2) of n records. */
  lemma AsWrittenCount(data: seq<byte>, k: nat)
    requires |data| % RecordSize == 0
    requires |data| <= 2 * 29 * k <= |data| + 29
    ensures ParseAsWritten(data) == Ok(Records(data)[..k])
  {
    var n := |data| / RecordSize;
    assert |data| == 29 * n;
    assert n <= 2 * k <= n + 1;
    assert (n + 1) / 2 == k;
  }

  /**
   * parseTargetMessages as written: rejects a payload that is not a whole
   * number of records, then calls fromBytes on the shrinking span while
   * the byte counter is below the span's remaining size.
   */
  method ParseTargetMessages(host: Endian, data: seq<byte>) returns (r: Result<seq<TargetMessage>, ParseError>)
    ensures r == ParseAsWritten(data)
  {
    var result: seq<TargetMessage> := [];
    if |data| % RecordSize != 0 {
      return Err(ArraySizeMismatch);
    }
    ghost var n := |data| / RecordSize;
    assert |data| == 29 * n;
    var span := data;
    var i := 0;
    ghost var k := 0;
    while i < |span|
      invariant i == 29 * k && i <= |data| && span == data[i..]
      invariant 2 * k <= n + 1
      invariant result == Records(data)[..k]
      decreases |span| - i
    {
      RecordsExtend(data, k, span);
      var targetMessage, rest := FromBytes(host, span);
      match targetMessage
      case Err(e) =>
        assert false;
        return Err(e);
      case Ok(message) =>
        span := rest;
        result := result + [message];
        i := i + RecordSize;
        k := k + 1;
    }
    AsWrittenCount(data, k);
    r := Ok(result);
  }

  /**
   * The evidently intended parseTargetMessages: every record of a payload
   * of whole records, decoded in order; the records re-encode to exactly
   * the payload.
   */
  method ParseTargetMessagesIntended(host: Endian, data: seq<byte>) returns (r: Result<seq<TargetMessage>, ParseError>)
    ensures |data| % RecordSize != 0 <==> r == Err(ArraySizeMismatch)
    ensures |data| % RecordSize == 0 ==> r == Ok(Records(data)) && EncodeAll(r.value) == data
  {
    var result: seq<TargetMessage> := [];
    if |data| % RecordSize != 0 {
      return Err(ArraySizeMismatch);
    }
    ghost var n := |data| / RecordSize;
    assert |data| == 29 * n;
    var span := data;
    var i := 0;
    ghost var k := 0;
    while i < |data|
      invariant k <= n
      invariant i == 29 * k && i <= |data| && span == data[i..]
      invariant result == Records(data)[..k]
      decreases |data| - i
    {
      RecordsExtend(data, k, span);
      var targetMessage, rest := FromBytes(host, span);
      match targetMessage
      case Err(e) =>
        assert false;
        return Err(e);
      case Ok(message) =>
        span := rest;
        result := result + [message];
        i := i + RecordSize;
        k := k + 1;
    }
    assert k == n && result == Records(data);
    EncodeAllRecords(data);
    r := Ok(result);
  }

  /**
   * The discrepancy: the bytes of two records come back as the first
   * record alone.
   */
  lemma TwoRecordsYieldOne(m1: TargetMessage, m2: TargetMessage)
    ensures ParseAsWritten(EncodeAll([m1, m2])) == Ok([m1])
  {
    var data := EncodeAll([m1, m2]);
    RecordsEncodeAll([m1, m2]);
    assert Records(data)[..1] == [m1];
  }
}
