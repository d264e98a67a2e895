/**
 * BinFileReader (include/bin_file_reader.h, src/bin_file_reader.cpp): a
 * checked sequential reader over an input file stream. The stream is
 * modelled as the file's bytes, a read position and the two states the
 * reader asks about: whether the file is open and whether the stream is
 * still good. Reading past the end leaves the position at the end and the
 * stream not good; a seek to a position outside the file leaves the
 * position where it was and the stream not good.
 */
module FileReader {
  import opened Expected
  import opened Binary
  import opened SignatureSearch

  /** ifstreamBinaryError */
  datatype ReaderError = NotOpen | ErrorFile | OutOfRange | ModulNotFound

  /** ifstreamBinaryErrorStr: the switch has no case for MODUL_NOT_FOUND. */
  function ErrorStr(e: ReaderError): (s: string)
    ensures |s| > 0 && s[|s| - 1] == '\n'
    ensures s == "UNKNOWN ERROR\n" <==> e == ModulNotFound
  {
    match e
    case NotOpen => "NOT_OPEN\n"
    case ErrorFile => "ERROR_FILE\n"
    case OutOfRange => "OUT_OF_RANGE\n"
    case _ => "UNKNOWN ERROR\n"
  }

  /** One more than the largest size_t. */
  const SizeModulus: nat := 0x1_0000_0000_0000_0000

  /** A size_t converted to std::streamoff (64-bit two's complement). */
  function StreamOffset(offset: nat): (d: int)
    requires offset < SizeModulus
    ensures d % SizeModulus == offset
    ensures -(SizeModulus / 2) <= d < SizeModulus / 2
  {
    if offset >= SizeModulus / 2 then offset - SizeModulus else offset
  }

  class BinFileReader {
    /** The bytes of the file. */
    const data: seq<byte>
    /** file.is_open() */
    const open: bool
    /** The byte order of the host (std::endian::native). */
    const host: Endian
    /** file.tellg() */
    var pos: nat
    /** file.good() */
    var good: bool

    ghost predicate Valid()
      reads this
    {
      pos <= |data|
    }

    /** A reader over a stream that is positioned at the start of the file. */
    constructor (content: seq<byte>, isOpen: bool, nativeOrder: Endian)
      ensures Valid()
      ensures data == content && open == isOpen && host == nativeOrder
      ensures pos == 0 && good == isOpen
    {
      data, open, host := content, isOpen, nativeOrder;
      pos, good := 0, isOpen;
    }

    /** The bytes `bytes` as they stand in memory after a read in byte order `order`. */
    function Oriented(order: Endian, bytes: seq<byte>): (r: seq<byte>)
      ensures |r| == |bytes|
      ensures order == host ==> r == bytes
    {
      if order == host then bytes else Reverse(bytes)
    }

    /** checkValidity: not open takes precedence over not good; no state changes. */
    function CheckValidity(): (r: Status<ReaderError>)
      reads this
      ensures r == Failed(NotOpen) <==> !open
      ensures r == Failed(ErrorFile) <==> open && !good
      ensures r == Done <==> open && good
    {
      if !open then Failed(NotOpen)
      else if !good then Failed(ErrorFile)
      else Done
    }

    /** getCursor: the current position; nothing changes. */
    method GetCursor() returns (p: nat)
      requires Valid()
      ensures p == pos && p <= |data|
    {
      p := pos;
    }

    /** file.seekg(delta, std::ios::cur) */
    method Seek(delta: int)
      requires Valid()
      modifies this`pos, this`good
      ensures Valid()
      ensures old(good) && 0 <= old(pos) + delta <= |data| ==> pos == old(pos) + delta && good
      ensures !(old(good) && 0 <= old(pos) + delta <= |data|) ==> pos == old(pos) && !good
    {
      if good && 0 <= pos + delta <= |data| {
        pos := pos + delta;
      } else {
        good := false;
      }
    }

    /**
     * file.read(buf, buf.Length): copies what is left, up to the buffer's
     * length; a short read leaves the position at the end and the stream
     * not good. Returns file.gcount().
     */
    method ReadInto(buf: array<byte>) returns (count: nat)
      requires Valid()
      modifies this`pos, this`good, buf
      ensures Valid()
      ensures count == if !old(good) then 0
                       else if old(pos) + buf.Length <= |data| then buf.Length
                       else |data| - old(pos)
      ensures pos == old(pos) + count
      ensures good == (old(good) && count == buf.Length)
      ensures buf[..count] == data[old(pos)..old(pos) + count]
      ensures buf[count..] == old(buf[count..])
    {
      if !good {
        return 0;
      }
      count := if pos + buf.Length <= |data| then buf.Length else |data| - pos;
      var i := 0;
      while i < count
        invariant 0 <= i <= count
        invariant buf[..i] == data[pos..pos + i]
        invariant buf[count..] == old(buf[count..])
        modifies buf
      {
        buf[i] := data[pos + i];
        i := i + 1;
      }
      pos := pos + count;
      good := count == buf.Length;
    }

    /** std::reverse(buf, buf + buf.Length) */
    static method ReverseInPlace(buf: array<byte>)
      modifies buf
      ensures buf[..] == Reverse(old(buf[..]))
    {
      var lo, hi := 0, buf.Length;
      while lo + 1 < hi
        invariant 0 <= lo && lo <= hi <= buf.Length && lo + hi == buf.Length
        invariant forall k :: 0 <= k < lo ==> buf[k] == old(buf[buf.Length - 1 - k])
        invariant forall k :: hi <= k < buf.Length ==> buf[k] == old(buf[buf.Length - 1 - k])
        invariant forall k :: lo <= k < hi ==> buf[k] == old(buf[k])
      {
        buf[lo], buf[hi - 1] := buf[hi - 1], buf[lo];
        lo, hi := lo + 1, hi - 1;
      }
    }

    /**
     * tryReadData(char* data, size_t size), with size == buf.Length: checks
     * validity, reads exactly `size` bytes or reports OUT_OF_RANGE, leaving
     * the bytes read so far, unreversed, at the front of the buffer, and
     * reverses the buffer in place when `order` is not the host's.
     */
    method TryReadInto(buf: array<byte>, order: Endian) returns (r: Status<ReaderError>)
      requires Valid()
      modifies this`pos, this`good, buf
      ensures Valid()
      ensures old(CheckValidity()).Failed? ==>
                r == old(CheckValidity()) && pos == old(pos) && good == old(good) && buf[..] == old(buf[..])
      ensures old(CheckValidity()) == Done && old(pos) + buf.Length <= |data| ==>
                r == Done && pos == old(pos) + buf.Length && good &&
                buf[..] == Oriented(order, data[old(pos)..pos])
      ensures old(CheckValidity()) == Done && old(pos) + buf.Length > |data| ==>
                r == Failed(OutOfRange) && pos == |data| && !good &&
                buf[..|data| - old(pos)] == data[old(pos)..] && buf[|data| - old(pos)..] == old(buf[..])[|data| - old(pos)..]
    {
      r := CheckValidity();
      if r.Failed? {
        return;
      }
      var count := ReadInto(buf);
      if count != buf.Length {
        return Failed(OutOfRange);
      }
      assert buf[..] == buf[..count];
      if order != host {
        ReverseInPlace(buf);
      }
    }

    /** tryReadData(size_t size): a fresh vector of exactly `size` bytes. */
    method TryReadBytes(size: nat, order: Endian) returns (r: Result<seq<byte>, ReaderError>)
      requires Valid()
      modifies this`pos, this`good
      ensures Valid()
      ensures old(CheckValidity()).Failed? ==>
                r == Err(old(CheckValidity()).error) && pos == old(pos) && good == old(good)
      ensures old(CheckValidity()) == Done && old(pos) + size <= |data| ==>
                r == Ok(Oriented(order, data[old(pos)..old(pos) + size])) && pos == old(pos) + size && good
      ensures old(CheckValidity()) == Done && old(pos) + size > |data| ==>
                r == Err(OutOfRange) && pos == |data| && !good
    {
      var buf := new byte[size];
      var status := TryReadInto(buf, order);
      if status.Failed? {
        return Err(status.error);
      }
      r := Ok(buf[..]);
    }

    /**
     * The value a T holds once the bytes read in order `order` are copied
     * into it on this host: the big-endian value of the bytes for a
     * big-endian read and of the reversed bytes for a little-endian one,
     * whatever the host.
     */
    lemma OrientedValue(k: IntKind, order: Endian, bytes: seq<byte>)
      requires |bytes| == k.Size()
      ensures order == Big ==> HostValue(host, k, Oriented(order, bytes)) == DecodeInt(k, bytes)
      ensures order == Little ==> HostValue(host, k, Oriented(order, bytes)) == DecodeInt(k, Reverse(bytes))
    {
      ReverseReverse(bytes);
    }

    /**
     * tryReadData<T, Endianess>(): reads sizeof(T) bytes into a T, so a
     * big-endian read is the big-endian value of the bytes in file order
     * on any host.
     */
    method TryReadInt(k: IntKind, order: Endian) returns (r: Result<int, ReaderError>)
      requires Valid()
      modifies this`pos, this`good
      ensures Valid()
      ensures old(CheckValidity()).Failed? ==>
                r == Err(old(CheckValidity()).error) && pos == old(pos) && good == old(good)
      ensures old(CheckValidity()) == Done && old(pos) + k.Size() <= |data| ==>
                r.Ok? && pos == old(pos) + k.Size() && good &&
                (order == Big ==> r.value == DecodeInt(k, data[old(pos)..pos])) &&
                (order == Little ==> r.value == DecodeInt(k, Reverse(data[old(pos)..pos])))
      ensures old(CheckValidity()) == Done && old(pos) + k.Size() > |data| ==>
                r == Err(OutOfRange) && pos == |data| && !good
    {
      var buf := new byte[k.Size()];
      var status := TryReadInto(buf, order);
      if status.Failed? {
        return Err(status.error);
      }
      OrientedValue(k, order, data[old(pos)..pos]);
      r := Ok(HostValue(host, k, buf[..]));
    }

    /**
     * skip(size_t offset): checks validity, seeks by the offset read as a
     * signed stream offset, re-checks validity, and compares the distance
     * moved, converted back to size_t, with the offset.
     */
    method Skip(offset: nat) returns (r: Status<ReaderError>)
      requires Valid() && offset < SizeModulus
      modifies this`pos, this`good
      ensures Valid()
      ensures old(CheckValidity()).Failed? ==>
                r == old(CheckValidity()) && pos == old(pos) && good == old(good)
      ensures old(CheckValidity()) == Done ==>
                var target := old(pos) + StreamOffset(offset);
                if 0 <= target <= |data| then r == Done && pos == target && good
                else r == Failed(ErrorFile) && pos == old(pos) && !good
    {
      r := CheckValidity();
      if r.Failed? {
        return;
      }
      var originalPos := pos;
      Seek(StreamOffset(offset));
      r := CheckValidity();
      if r.Failed? {
        return;
      }
      if (pos - originalPos) % SizeModulus != offset {
        return Failed(OutOfRange);
      }
      r := Done;
    }

    /**
     * The comparison loop of skipToSignature: the lowest offset `i` of a
     * full chunk buffer, read from `chunkStart`, at which the signature
     * starts (memcmp equal), or no offset.
     */
    static method CompareChunk(buffer: array<byte>, bytesRead: nat, sig: seq<byte>,
                               ghost data: seq<byte>, ghost chunkStart: nat)
      returns (found: bool, i: int)
      requires 0 < |sig| <= bytesRead == buffer.Length
      requires chunkStart + bytesRead <= |data| && buffer[..] == data[chunkStart..chunkStart + bytesRead]
      ensures FirstMatch(data, chunkStart, chunkStart + bytesRead - |sig| + 1, sig) ==
              if found then Some(chunkStart + i) else None
      ensures found ==> 0 <= i <= bytesRead - |sig|
    {
      ghost var last := chunkStart + bytesRead - |sig| + 1;
      i := 0;
      while i <= bytesRead - |sig|
        invariant 0 <= i && chunkStart + i <= last
        invariant FirstMatch(data, chunkStart, last, sig) == FirstMatch(data, chunkStart + i, last, sig)
      {
        ChunkWindow(data, chunkStart, buffer[..], i, sig);
        FirstMatchStep(data, chunkStart + i, last, sig);
        assert buffer[i..i + |sig|] == buffer[..][i..i + |sig|];
        if buffer[i..i + |sig|] == sig {
          return true, i;
        }
        i := i + 1;
      }
      found := false;
    }

    /**
     * skipToSignature<T, buffer_size>: reads chunks of `bufferSize` bytes,
     * compares the signature at every offset of a full chunk, and on a
     * match seeks to just after it. After a chunk without a match it seeks
     * back |sig| - 1 bytes (the `bytesRead = buffer_size` condition is an
     * assignment and always holds). A short chunk makes the stream not
     * good, and the validity check after the read reports ERROR_FILE before
     * that chunk is compared.
     */
    method SkipToSignature(sig: seq<byte>, bufferSize: nat) returns (r: Status<ReaderError>)
      requires Valid() && ValidSizes(sig, bufferSize)
      modifies this`pos, this`good
      ensures Valid()
      ensures old(CheckValidity()).Failed? ==>
                r == old(CheckValidity()) && pos == old(pos) && good == old(good)
      ensures old(CheckValidity()) == Done ==>
                match Scan(data, old(pos), sig, bufferSize)
                case Some(q) => r == Done && pos == q && good
                case None => r == Failed(ErrorFile) && pos == |data| && !good
    {
      var fileStatus := CheckValidity();
      if fileStatus.Failed? {
        return fileStatus;
      }
      ghost var outcome := Scan(data, pos, sig, bufferSize);
      var buffer := new byte[bufferSize];
      while good
        invariant Valid() && open && good
        invariant Scan(data, pos, sig, bufferSize) == outcome
        decreases |data| - pos
      {
        ghost var chunkStart := pos;
        var bytesRead := ReadInto(buffer);
        var validness := CheckValidity();
        if validness.Failed? {
          return validness;
        }
        assert bytesRead == bufferSize && pos == chunkStart + bufferSize <= |data|;
        ScanStep(data, chunkStart, sig, bufferSize);
        var found, i := CompareChunk(buffer, bytesRead, sig, data, chunkStart);
        if found {
          Seek(i - bufferSize + |sig|);
          return Done;
        }
        var overlap: int := |sig| - 1;
        Seek(-overlap);
      }
      r := Done;
    }
  }
}
