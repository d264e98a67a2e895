/**
 * What BinFileReader::skipToSignature (include/bin_file_reader.h:70-98)
 * computes, stated over the file's bytes: chunks of `bufferSize` bytes are
 * read one after another, every start offset of a full chunk at which the
 * signature fits is compared, and after a chunk without a match the next
 * chunk starts `|sig| - 1` bytes before the end of the previous one.
 */
module SignatureSearch {
  import opened Expected
  import opened Binary

  /** The signature occurs in `data` starting at offset `j`. */
  predicate IsMatch(data: seq<byte>, j: nat, sig: seq<byte>) {
    j + |sig| <= |data| && data[j..j + |sig|] == sig
  }

  /** Chunk and signature sizes the search accepts (its static_assert). */
  predicate ValidSizes(sig: seq<byte>, bufferSize: nat) {
    0 < |sig| < bufferSize
  }

  /** The offsets in [lo, hi) tried in increasing order, up to the first match. */
  function FirstMatch(data: seq<byte>, lo: nat, hi: nat, sig: seq<byte>): Option<nat>
    requires lo <= hi
    decreases hi - lo
  {
    if lo == hi then None
    else if IsMatch(data, lo, sig) then Some(lo)
    else FirstMatch(data, lo + 1, hi, sig)
  }

  /** It finds the lowest offset in [lo, hi) at which the signature occurs, or reports that there is none. */
  lemma {:induction false} FirstMatchIsLowest(data: seq<byte>, lo: nat, hi: nat, sig: seq<byte>)
    requires lo <= hi
    ensures var r := FirstMatch(data, lo, hi, sig);
            (r.Some? ==> lo <= r.value < hi && IsMatch(data, r.value, sig)) &&
            (r.Some? ==> forall j :: lo <= j < r.value ==> !IsMatch(data, j, sig)) &&
            (r.None? ==> forall j :: lo <= j < hi ==> !IsMatch(data, j, sig))
    decreases hi - lo
  {
    if lo < hi && !IsMatch(data, lo, sig) {
      FirstMatchIsLowest(data, lo + 1, hi, sig);
    }
  }

  /** One comparison of the search within a chunk. */
  lemma FirstMatchStep(data: seq<byte>, lo: nat, hi: nat, sig: seq<byte>)
    requires lo < hi
    ensures FirstMatch(data, lo, hi, sig) ==
            if IsMatch(data, lo, sig) then Some(lo) else FirstMatch(data, lo + 1, hi, sig)
  {
  }

  /** Comparing the signature with a chunk buffer compares it with the file. */
  lemma ChunkWindow(data: seq<byte>, chunkStart: nat, chunk: seq<byte>, i: nat, sig: seq<byte>)
    requires chunkStart + |chunk| <= |data| && chunk == data[chunkStart..chunkStart + |chunk|]
    requires i + |sig| <= |chunk|
    ensures chunk[i..i + |sig|] == sig <==> IsMatch(data, chunkStart + i, sig)
  {
    var window, fileWindow := chunk[i..i + |sig|], data[chunkStart + i..chunkStart + i + |sig|];
    forall t | 0 <= t < |sig|
      ensures window[t] == fileWindow[t]
    {
      assert window[t] == chunk[i + t];
    }
    assert chunk[i..i + |sig|] == data[chunkStart + i..chunkStart + i + |sig|];
  }

  /** Where the chunk after a chunk at `chunkStart` without a match begins. */
  function NextChunk(chunkStart: nat, sig: seq<byte>, bufferSize: nat): nat
    requires ValidSizes(sig, bufferSize)
  {
    chunkStart + bufferSize - (|sig| - 1)
  }

  /**
   * The search from position `p`: the position just after the match it
   * finds, or None when it reaches a chunk that cannot be read in full.
   */
  function Scan(data: seq<byte>, p: nat, sig: seq<byte>, bufferSize: nat): Option<nat>
    requires ValidSizes(sig, bufferSize)
    decreases |data| - p
  {
    if p + bufferSize > |data| then None
    else match FirstMatch(data, p, p + bufferSize - |sig| + 1, sig)
      case Some(j) => Some(j + |sig|)
      case None => Scan(data, NextChunk(p, sig, bufferSize), sig, bufferSize)
  }

  /** One step of the search: the chunk at `p` is read in full and compared. */
  lemma ScanStep(data: seq<byte>, p: nat, sig: seq<byte>, bufferSize: nat)
    requires ValidSizes(sig, bufferSize) && p + bufferSize <= |data|
    ensures var first := FirstMatch(data, p, p + bufferSize - |sig| + 1, sig);
            Scan(data, p, sig, bufferSize) ==
              if first.Some? then Some(first.value + |sig|)
              else Scan(data, NextChunk(p, sig, bufferSize), sig, bufferSize)
  {
  }

  /**
   * Where the first chunk that cannot be read in full starts when no full
   * chunk from `p` on matches. The offsets before it are exactly the
   * offsets the full chunks compare, since each chunk after the first
   * starts at the first offset its predecessor did not compare.
   */
  function TailStart(data: seq<byte>, p: nat, sig: seq<byte>, bufferSize: nat): (t: nat)
    requires ValidSizes(sig, bufferSize)
    ensures p <= t && |data| < t + bufferSize
    decreases |data| - p
  {
    if p + bufferSize > |data| then p
    else TailStart(data, NextChunk(p, sig, bufferSize), sig, bufferSize)
  }

  /**
   * Offsets are tried in increasing order across chunks, so a success
   * leaves the position just after the FIRST occurrence at or after `p`,
   * and that occurrence starts at an offset a full chunk compared.
   */
  lemma {:induction false} ScanFindsFirst(data: seq<byte>, p: nat, sig: seq<byte>, bufferSize: nat)
    requires ValidSizes(sig, bufferSize)
    requires Scan(data, p, sig, bufferSize).Some?
    ensures var q := Scan(data, p, sig, bufferSize).value;
            p + |sig| <= q <= |data| && IsMatch(data, q - |sig|, sig) &&
            q - |sig| < TailStart(data, p, sig, bufferSize) &&
            forall j :: p <= j < q - |sig| ==> !IsMatch(data, j, sig)
    decreases |data| - p
  {
    FirstMatchIsLowest(data, p, p + bufferSize - |sig| + 1, sig);
    if FirstMatch(data, p, p + bufferSize - |sig| + 1, sig).None? {
      ScanFindsFirst(data, NextChunk(p, sig, bufferSize), sig, bufferSize);
    }
  }

  /**
   * Consecutive chunks overlap by |sig| - 1 bytes, so no start offset is
   * skipped, including those of occurrences that straddle a chunk
   * boundary: the search fails exactly when no offset that a full chunk
   * compares holds an occurrence.
   */
  lemma {:induction false} ScanMissesNothing(data: seq<byte>, p: nat, sig: seq<byte>, bufferSize: nat)
    requires ValidSizes(sig, bufferSize)
    ensures Scan(data, p, sig, bufferSize).None? <==>
            forall j :: p <= j < TailStart(data, p, sig, bufferSize) ==> !IsMatch(data, j, sig)
    decreases |data| - p
  {
    if p + bufferSize <= |data| {
      FirstMatchIsLowest(data, p, p + bufferSize - |sig| + 1, sig);
      ScanMissesNothing(data, NextChunk(p, sig, bufferSize), sig, bufferSize);
    }
  }

  /**
   * An occurrence at an offset a full chunk compares is always found, at
   * or before it; in particular one followed by a chunk's worth of bytes.
   */
  lemma ScanFindsOccurrence(data: seq<byte>, p: nat, sig: seq<byte>, bufferSize: nat, j: nat)
    requires ValidSizes(sig, bufferSize)
    requires p <= j < TailStart(data, p, sig, bufferSize) && IsMatch(data, j, sig)
    ensures Scan(data, p, sig, bufferSize).Some?
    ensures Scan(data, p, sig, bufferSize).value <= j + |sig|
  {
    ScanMissesNothing(data, p, sig, bufferSize);
    ScanFindsFirst(data, p, sig, bufferSize);
  }

  /**
   * The last, partial chunk is never compared: when the only occurrences
   * from `p` on lie where only that chunk would reach them, of which
   * fewer than `bufferSize` bytes are left, the search finds nothing.
   */
  lemma PartialChunkIsNotScanned(data: seq<byte>, p: nat, sig: seq<byte>, bufferSize: nat, j: nat)
    requires ValidSizes(sig, bufferSize)
    requires TailStart(data, p, sig, bufferSize) <= j && IsMatch(data, j, sig)
    requires forall i :: p <= i < TailStart(data, p, sig, bufferSize) ==> !IsMatch(data, i, sig)
    ensures |data| - TailStart(data, p, sig, bufferSize) < bufferSize
    ensures Scan(data, p, sig, bufferSize) == None
  {
    ScanMissesNothing(data, p, sig, bufferSize);
  }
}
