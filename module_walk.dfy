/**
 * What findModule (src/parser.cpp:7-45) computes, stated on the bytes of
 * the file. A frame starts after the header signature 0xAB 0xCD with a
 * 16-bit big-endian total size, followed by modules, each a 2-byte tag
 * and a 16-bit big-endian length that counts those 4 header bytes. The
 * walk stops with MODUL_NOT_FOUND once the distance from the end of the
 * signature to the end of a module header reaches the total size, returns
 * the payload of the first module whose tag matches, and otherwise moves
 * on by the declared length.
 */
module ModuleWalk {
  import opened Expected
  import opened Binary
  import opened SignatureSearch
  import opened FileReader

  /** headerSignature */
  const HeaderSignature: seq<byte> := [0xAB, 0xCD]

  /** The default buffer_size of skipToSignature. */
  const SearchBufferSize: nat := 1024

  /** signatureSize: the length of a module tag. */
  const TagSize: nat := 2

  /** The size of a module header: the tag and the 16-bit length. */
  const ModuleHeaderSize: nat := 4

  /** The unsigned 16-bit big-endian number at offset p. */
  function Uint16At(data: seq<byte>, p: nat): (v: nat)
    requires p + 2 <= |data|
    ensures v < 0x1_0000
  {
    data[p] as int * 0x100 + data[p + 1] as int
  }

  /** It is what a big-endian uint16_t read of those two bytes gives. */
  lemma Uint16AtIsBigEndianRead(data: seq<byte>, p: nat)
    requires p + 2 <= |data|
    ensures Uint16At(data, p) == DecodeInt(U16, data[p..p + 2])
  {
    var s := data[p..p + 2];
    assert s[..1][..0] == [];
    assert BigEndian(s[..1]) == s[0];
    assert BigEndian(s) == s[0] as int * 0x100 + s[1] as int;
  }

  /** The tag of the module header at p is `target`, byte for byte. */
  predicate TagAt(data: seq<byte>, p: nat, target: seq<byte>)
    requires p + TagSize <= |data|
  {
    |target| == TagSize && data[p] == target[0] && data[p + 1] == target[1]
  }

  /** That is the comparison of the 2 tag bytes read at p with `target`. */
  lemma TagAtIsTagRead(data: seq<byte>, p: nat, target: seq<byte>)
    requires p + TagSize <= |data|
    ensures TagAt(data, p, target) <==> data[p..p + TagSize] == target
  {
    if data[p..p + TagSize] == target {
      assert target[0] == data[p..p + TagSize][0];
      assert target[1] == data[p..p + TagSize][1];
    }
    if TagAt(data, p, target) {
      assert data[p..p + TagSize] == [target[0], target[1]];
    }
  }

  /** The declared length of the module whose header starts at p. */
  function ModuleLength(data: seq<byte>, p: nat): (len: nat)
    requires p + ModuleHeaderSize <= |data|
    ensures len < 0x1_0000
  {
    Uint16At(data, p + TagSize)
  }

  /**
   * `(*expectedSize) -= sizeof(*expectedSize) + sizeof(*currentModule)`:
   * the payload size of a matched module, in uint16 arithmetic.
   */
  function PayloadSize(len: nat): (size: nat)
    requires len < 0x1_0000
    ensures size < 0x1_0000
    ensures size == (len - ModuleHeaderSize) % 0x1_0000
  {
    if len >= ModuleHeaderSize then len - ModuleHeaderSize else len + 0x1_0000 - ModuleHeaderSize
  }

  /**
   * The size_t argument `(*expectedSize) - sizeof(...) - sizeof(...)` that
   * findModule passes to skip for a module it passes over.
   */
  function SkipArgument(len: nat): (offset: nat)
    requires len < 0x1_0000
    ensures offset < SizeModulus
  {
    if len >= ModuleHeaderSize then len - ModuleHeaderSize else SizeModulus + len - ModuleHeaderSize
  }

  /**
   * skip turns the wrapped size_t back into a signed stream offset, so a
   * declared length below 4 becomes a short backward seek, and the next
   * header always starts `len` bytes after the start of this one.
   */
  lemma SkipMovesByLengthMinusHeader(len: nat)
    requires len < 0x1_0000
    ensures StreamOffset(SkipArgument(len)) == len - ModuleHeaderSize
  {
  }

  /**
   * What passing over the module at p leads to: the walk from the next
   * header, or ERROR_FILE when that header lies past the end of the data.
   */
  lemma WalkPassesOver(data: seq<byte>, start: nat, total: nat, target: seq<byte>, p: nat)
    requires PassesOver(data, start, total, target, p) && ModuleLength(data, p) > 0
    ensures Walk(data, start, total, target, p) ==
              if p + ModuleLength(data, p) > |data| then Returns(Err(ErrorFile), p + ModuleHeaderSize, false)
              else Walk(data, start, total, target, p + ModuleLength(data, p))
  {
  }

  /**
   * What a matching module within the bound leads to: its payload, or
   * OUT_OF_RANGE when the data ends before the payload does.
   */
  lemma WalkMatches(data: seq<byte>, start: nat, total: nat, target: seq<byte>, p: nat)
    requires p + ModuleHeaderSize <= |data| && p + ModuleHeaderSize - start < total
    requires TagAt(data, p, target)
    ensures var headerEnd := p + ModuleHeaderSize;
            var size := PayloadSize(ModuleLength(data, p));
            Walk(data, start, total, target, p) ==
              if headerEnd + size > |data| then Returns(Err(OutOfRange), |data|, false)
              else Returns(Ok(data[headerEnd..headerEnd + size]), headerEnd + size, true)
  {
  }

  /** How a run of findModule ends: the result and the final stream state, or never. */
  datatype Outcome =
    | Returns(result: Result<seq<byte>, ReaderError>, pos: nat, good: bool)
    | Diverges

  /**
   * The `while (true)` loop of findModule with the next module header at p,
   * `start` the cursor before the total size and `total` that size. A
   * short read leaves the stream at its end; a skip past the end leaves
   * the stream where it was but not good, and the next tag read reports
   * ERROR_FILE. A module of length 0 that neither matches nor reaches the
   * bound is skipped onto itself, and the loop repeats the same iteration
   * for ever.
   */
  function Walk(data: seq<byte>, start: nat, total: nat, target: seq<byte>, p: nat): Outcome
    decreases |data| - p
  {
    if p + ModuleHeaderSize > |data| then Returns(Err(OutOfRange), |data|, false)
    else
      var headerEnd := p + ModuleHeaderSize;
      var len := ModuleLength(data, p);
      if headerEnd - start >= total then Returns(Err(ModulNotFound), headerEnd, true)
      else if TagAt(data, p, target) then
        var size := PayloadSize(len);
        if headerEnd + size > |data| then Returns(Err(OutOfRange), |data|, false)
        else Returns(Ok(data[headerEnd..headerEnd + size]), headerEnd + size, true)
      else if len == 0 then Diverges
      else if p + len > |data| then Returns(Err(ErrorFile), headerEnd, false)
      else Walk(data, start, total, target, p + len)
  }

  /**
   * findModule on an open, good stream positioned at `pos`: search for the
   * header signature, read the total size, then walk the modules.
   */
  function FindModuleSpec(data: seq<byte>, pos: nat, target: seq<byte>): Outcome
  {
    match Scan(data, pos, HeaderSignature, SearchBufferSize)
    case None => Returns(Err(ErrorFile), |data|, false)
    case Some(start) =>
      if start + 2 > |data| then Returns(Err(OutOfRange), |data|, false)
      else Walk(data, start, Uint16At(data, start), target, start + 2)
  }

  /** The conditions under which the header at p is passed over. */
  predicate PassesOver(data: seq<byte>, start: nat, total: nat, target: seq<byte>, p: nat)
  {
    p + ModuleHeaderSize <= |data| &&
    p + ModuleHeaderSize - start < total &&
    !TagAt(data, p, target)
  }

  /**
   * The headers the walk from p visits: p itself, and the headers reached
   * by passing over p with a nonzero length that stays inside the data.
   * Every header before the last one on the chain is passed over, so it
   * neither matches nor reaches the bound.
   */
  predicate OnChain(data: seq<byte>, start: nat, total: nat, target: seq<byte>, p: nat, h: nat)
    decreases |data| - p
  {
    h == p ||
    (PassesOver(data, start, total, target, p) && ModuleLength(data, p) > 0 &&
     p + ModuleLength(data, p) <= |data| &&
     OnChain(data, start, total, target, p + ModuleLength(data, p), h))
  }

  /** The walk from p ends the way the walk from any header on its chain does. */
  lemma {:induction false} WalkFollowsChain(
    data: seq<byte>, start: nat, total: nat, target: seq<byte>, p: nat, h: nat)
    requires OnChain(data, start, total, target, p, h)
    ensures Walk(data, start, total, target, p) == Walk(data, start, total, target, h)
    decreases |data| - p
  {
    if h != p {
      WalkFollowsChain(data, start, total, target, p + ModuleLength(data, p), h);
    }
  }

  /**
   * A module payload is only ever returned for a header the walk visits
   * after passing over every header before it, which matches the tag byte
   * for byte and ends before the bound, and it is exactly the declared
   * length minus 4 (modulo 2^16) bytes that follow that header.
   */
  lemma {:induction false} WalkReturnsMatchingPayload(
    data: seq<byte>, start: nat, total: nat, target: seq<byte>, p: nat) returns (h: nat)
    requires Walk(data, start, total, target, p).Returns? && Walk(data, start, total, target, p).result.Ok?
    ensures OnChain(data, start, total, target, p, h)
    ensures p <= h && h + ModuleHeaderSize <= |data|
    ensures h + ModuleHeaderSize - start < total
    ensures TagAt(data, h, target)
    ensures var size := PayloadSize(ModuleLength(data, h));
            h + ModuleHeaderSize + size <= |data| &&
            Walk(data, start, total, target, p).result.value ==
              data[h + ModuleHeaderSize..h + ModuleHeaderSize + size]
    decreases |data| - p
  {
    if TagAt(data, p, target) {
      h := p;
    } else {
      h := WalkReturnsMatchingPayload(data, start, total, target, p + ModuleLength(data, p));
    }
  }

  /**
   * The next header never starts before the current one, so the walk
   * never returns a payload for a header that reaches the bound: the
   * bound is checked before the tag.
   */
  lemma {:induction false} NoPayloadPastBound(
    data: seq<byte>, start: nat, total: nat, target: seq<byte>, p: nat)
    requires p + ModuleHeaderSize - start >= total
    ensures !(Walk(data, start, total, target, p).Returns? && Walk(data, start, total, target, p).result.Ok?)
  {
    if Walk(data, start, total, target, p).Returns? && Walk(data, start, total, target, p).result.Ok? {
      var h := WalkReturnsMatchingPayload(data, start, total, target, p);
      assert false;
    }
  }

  /**
   * `start` is taken before the 2 size bytes, so the first header already
   * ends 6 bytes after it: a frame whose total size is at most 6 never
   * yields a module.
   */
  lemma SmallFrameYieldsNothing(data: seq<byte>, pos: nat, target: seq<byte>)
    requires Scan(data, pos, HeaderSignature, SearchBufferSize).Some?
    requires var start := Scan(data, pos, HeaderSignature, SearchBufferSize).value;
             start + 2 <= |data| && Uint16At(data, start) <= 6
    ensures !(FindModuleSpec(data, pos, target).Returns? && FindModuleSpec(data, pos, target).result.Ok?)
  {
    var start := Scan(data, pos, HeaderSignature, SearchBufferSize).value;
    NoPayloadPastBound(data, start, Uint16At(data, start), target, start + 2);
  }

  /** Two byte sequences of the same length that agree from offset p on. */
  predicate AgreeFrom(d1: seq<byte>, d2: seq<byte>, p: nat)
  {
    |d1| == |d2| && forall i :: p <= i < |d1| ==> d1[i] == d2[i]
  }

  /** The walk only looks at the bytes from its current header on. */
  lemma {:induction false} WalkReadsOnlyAhead(
    d1: seq<byte>, d2: seq<byte>, start: nat, total: nat, target: seq<byte>, p: nat)
    requires AgreeFrom(d1, d2, p)
    ensures Walk(d1, start, total, target, p) == Walk(d2, start, total, target, p)
    decreases |d1| - p
  {
    if p + ModuleHeaderSize <= |d1| {
      var headerEnd := p + ModuleHeaderSize;
      var len := ModuleLength(d1, p);
      var size := PayloadSize(len);
      if headerEnd + size <= |d1| {
        assert d1[headerEnd..headerEnd + size] == d2[headerEnd..headerEnd + size];
      }
      if len > 0 && p + len <= |d1| {
        WalkReadsOnlyAhead(d1, d2, start, total, target, p + len);
      }
    }
  }

  /**
   * A module that is passed over is skipped by its declared length without
   * looking at its payload: changing the payload bytes changes nothing.
   */
  lemma SkippedPayloadIsIgnored(
    d1: seq<byte>, d2: seq<byte>, start: nat, total: nat, target: seq<byte>, p: nat)
    requires PassesOver(d1, start, total, target, p)
    requires ModuleHeaderSize <= ModuleLength(d1, p) && p + ModuleLength(d1, p) <= |d1|
    requires |d1| == |d2| && forall i :: p <= i < p + ModuleHeaderSize ==> d1[i] == d2[i]
    requires AgreeFrom(d1, d2, p + ModuleLength(d1, p))
    ensures Walk(d1, start, total, target, p) == Walk(d2, start, total, target, p)
  {
    var len := ModuleLength(d1, p);
    assert d1[p] == d2[p] && d1[p + 1] == d2[p + 1] && d1[p + 2] == d2[p + 2] && d1[p + 3] == d2[p + 3];
    WalkPassesOver(d1, start, total, target, p);
    WalkPassesOver(d2, start, total, target, p);
    WalkReadsOnlyAhead(d1, d2, start, total, target, p + len);
  }

  /**
   * The walk runs for ever only by reaching, on its chain, a header of
   * declared length 0 that neither matches nor reaches the bound.
   */
  lemma {:induction false} DivergesOnlyAtZeroLength(
    data: seq<byte>, start: nat, total: nat, target: seq<byte>, p: nat) returns (h: nat)
    requires Walk(data, start, total, target, p) == Diverges
    ensures OnChain(data, start, total, target, p, h)
    ensures p <= h && PassesOver(data, start, total, target, h) && ModuleLength(data, h) == 0
    decreases |data| - p
  {
    if ModuleLength(data, p) == 0 {
      h := p;
    } else {
      h := DivergesOnlyAtZeroLength(data, start, total, target, p + ModuleLength(data, p));
    }
  }

  /**
   * Conversely, a walk that reaches such a header runs for ever: the pass
   * over it (Parser.PassModule) leaves the reader exactly as it was.
   */
  lemma ZeroLengthDiverges(data: seq<byte>, start: nat, total: nat, target: seq<byte>, p: nat)
    requires PassesOver(data, start, total, target, p) && ModuleLength(data, p) == 0
    ensures Walk(data, start, total, target, p) == Diverges
  {
  }

  /**
   * If no header the walk visits declares length 0, the walk ends; the
   * bytes of payloads it skips may be anything.
   */
  lemma PositiveLengthsTerminate(data: seq<byte>, start: nat, total: nat, target: seq<byte>, p: nat)
    requires forall h: nat :: OnChain(data, start, total, target, p, h) && h + ModuleHeaderSize <= |data| ==>
                              ModuleLength(data, h) > 0
    ensures Walk(data, start, total, target, p).Returns?
  {
    if Walk(data, start, total, target, p) == Diverges {
      var h := DivergesOnlyAtZeroLength(data, start, total, target, p);
      assert false;
    }
  }

  /**
   * A module passed over with a declared length of 1 to 3 puts the next
   * header inside the one just read: the skip goes backwards.
   */
  lemma ShortLengthRereadsHeader(data: seq<byte>, start: nat, total: nat, target: seq<byte>, p: nat)
    requires PassesOver(data, start, total, target, p)
    requires 0 < ModuleLength(data, p) < ModuleHeaderSize
    ensures p < p + ModuleLength(data, p) < p + ModuleHeaderSize
    ensures Walk(data, start, total, target, p) == Walk(data, start, total, target, p + ModuleLength(data, p))
  {
  }
}
