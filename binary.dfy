/**
 * Fixed-width integers over byte sequences, and `read<T, Endianess>` of
 * include/binary.h: take sizeof(T) bytes from the front of a span,
 * reinterpret them as T on the host, byte-swap when the requested byte
 * order is not the host's, and advance the span.
 */
module Binary {

  type byte = b: int | 0 <= b < 0x100

  type uint8 = x: int | 0 <= x < 0x100
  type int8 = x: int | -0x80 <= x < 0x80
  type uint16 = x: int | 0 <= x < 0x1_0000
  type int16 = x: int | -0x8000 <= x < 0x8000
  type int32 = x: int | -0x8000_0000 <= x < 0x8000_0000

  /** The two byte orders of std::endian that the program uses. */
  datatype Endian = Big | Little

  /** The fixed-width integer types the decoder reads. */
  datatype IntKind = U8 | I8 | U16 | I16 | U32 | I32 {
    /** sizeof(T) */
    function Size(): (n: nat)
      ensures n == 1 || n == 2 || n == 4
    {
      match this
      case U8 | I8 => 1
      case U16 | I16 => 2
      case U32 | I32 => 4
    }

    predicate Signed() {
      I8? || I16? || I32?
    }

    /** The number of bit patterns of a T: 2 to the power 8 * sizeof(T). */
    function Modulus(): (m: nat)
      ensures m == Pow256(Size())
    {
      match this
      case U8 | I8 => 0x100
      case U16 | I16 => 0x1_0000
      case U32 | I32 => 0x1_0000_0000
    }

    /** The values a T can hold. */
    predicate InRange(v: int) {
      if Signed() then -(Modulus() / 2) <= v < Modulus() / 2
      else 0 <= v < Modulus()
    }
  }

  function Pow256(n: nat): (p: nat)
    ensures p >= 1
  {
    if n == 0 then 1 else 256 * Pow256(n - 1)
  }

  function Reverse<T>(s: seq<T>): (r: seq<T>)
    ensures |r| == |s|
    ensures forall i :: 0 <= i < |s| ==> r[i] == s[|s| - 1 - i]
  {
    if s == [] then [] else Reverse(s[1..]) + [s[0]]
  }

  lemma ReverseReverse<T>(s: seq<T>)
    ensures Reverse(Reverse(s)) == s
  {
    assert forall i :: 0 <= i < |s| ==> Reverse(Reverse(s))[i] == s[i];
  }

  /** The unsigned value of `s` read most significant byte first. */
  function BigEndian(s: seq<byte>): (v: nat)
    ensures v < Pow256(|s|)
  {
    if s == [] then 0
    else
      var init := BigEndian(s[..|s| - 1]);
      assert init <= Pow256(|s| - 1) - 1;
      assert init * 256 <= (Pow256(|s| - 1) - 1) * 256;
      init * 256 + s[|s| - 1]
  }

  /** The `w` bytes whose big-endian value is `n`. */
  function EncodeBigEndian(n: nat, w: nat): (s: seq<byte>)
    requires n < Pow256(w)
    ensures |s| == w
  {
    if w == 0 then []
    else EncodeBigEndian(n / 256, w - 1) + [n % 256]
  }

  lemma {:induction false} DecodeEncodeBigEndian(n: nat, w: nat)
    requires n < Pow256(w)
    ensures BigEndian(EncodeBigEndian(n, w)) == n
  {
    if w > 0 {
      var s := EncodeBigEndian(n, w);
      assert s[..w - 1] == EncodeBigEndian(n / 256, w - 1);
      DecodeEncodeBigEndian(n / 256, w - 1);
    }
  }

  lemma {:induction false} EncodeDecodeBigEndian(s: seq<byte>)
    ensures EncodeBigEndian(BigEndian(s), |s|) == s
  {
    if s != [] {
      var init := s[..|s| - 1];
      var v := BigEndian(s);
      assert v / 256 == BigEndian(init) && v % 256 == s[|s| - 1];
      EncodeDecodeBigEndian(init);
    }
  }

  /** Two's complement: the value of type `k` whose bit pattern is `u`. */
  function FromUnsigned(k: IntKind, u: nat): (v: int)
    requires u < k.Modulus()
    ensures k.InRange(v)
    ensures v < 0 <==> k.Signed() && u >= k.Modulus() / 2
  {
    if k.Signed() && u >= k.Modulus() / 2 then u - k.Modulus() else u
  }

  /** The bit pattern of `v` as an unsigned number. */
  function ToUnsigned(k: IntKind, v: int): (u: nat)
    requires k.InRange(v)
    ensures u < k.Modulus()
    ensures FromUnsigned(k, u) == v
  {
    if v < 0 then v + k.Modulus() else v
  }

  /** The integer of type `k` whose big-endian bytes are `s`. */
  function DecodeInt(k: IntKind, s: seq<byte>): (v: int)
    requires |s| == k.Size()
    ensures k.InRange(v)
  {
    FromUnsigned(k, BigEndian(s))
  }

  /** The big-endian bytes of `v` as a `k`. */
  function EncodeInt(k: IntKind, v: int): (s: seq<byte>)
    requires k.InRange(v)
    ensures |s| == k.Size()
  {
    EncodeBigEndian(ToUnsigned(k, v), k.Size())
  }

  lemma DecodeEncodeInt(k: IntKind, v: int)
    requires k.InRange(v)
    ensures DecodeInt(k, EncodeInt(k, v)) == v
  {
    DecodeEncodeBigEndian(ToUnsigned(k, v), k.Size());
  }

  lemma EncodeDecodeInt(k: IntKind, s: seq<byte>)
    requires |s| == k.Size()
    ensures k.InRange(DecodeInt(k, s)) && EncodeInt(k, DecodeInt(k, s)) == s
  {
    var u := BigEndian(s);
    assert ToUnsigned(k, FromUnsigned(k, u)) == u;
    EncodeDecodeBigEndian(s);
  }

  /**
   * The value a T holds when its object representation is `mem` on a host
   * of byte order `host` (what memcpy into a T produces).
   */
  function HostValue(host: Endian, k: IntKind, mem: seq<byte>): int
    requires |mem| == k.Size()
  {
    DecodeInt(k, if host == Big then mem else Reverse(mem))
  }

  /**
   * read<T, Endianess>(data): memcpy the first sizeof(T) bytes into a T,
   * std::byteswap it when `order` differs from the host, and replace the
   * span by what follows those bytes. There is no bounds check in the
   * source; the caller must supply at least sizeof(T) bytes.
   */
  function Read(host: Endian, k: IntKind, order: Endian, data: seq<byte>): (r: (int, seq<byte>))
    requires |data| >= k.Size()
    ensures r.1 == data[k.Size()..]
    ensures k.InRange(r.0)
  {
    var mem := data[..k.Size()];
    var swapped := if order != host then Reverse(mem) else mem;
    (HostValue(host, k, swapped), data[k.Size()..])
  }

  /**
   * What a read means: with big-endian order, the bytes taken are exactly
   * the big-endian encoding of the value, and with little-endian order
   * their reversal, whatever the host.
   */
  lemma ReadMeaning(host: Endian, k: IntKind, order: Endian, data: seq<byte>)
    requires |data| >= k.Size()
    ensures order == Big ==> EncodeInt(k, Read(host, k, order, data).0) == data[..k.Size()]
    ensures order == Little ==> EncodeInt(k, Read(host, k, order, data).0) == Reverse(data[..k.Size()])
  {
    var mem := data[..k.Size()];
    var v := Read(host, k, order, data).0;
    if order == Big {
      ReverseReverse(mem);
      assert v == DecodeInt(k, mem);
      EncodeDecodeInt(k, mem);
    } else {
      assert v == DecodeInt(k, Reverse(mem));
      EncodeDecodeInt(k, Reverse(mem));
    }
  }

  /** A big-endian read gives the same value on every host. */
  lemma BigEndianReadIsHostIndependent(k: IntKind, data: seq<byte>)
    requires |data| >= k.Size()
    ensures Read(Big, k, Big, data).0 == Read(Little, k, Big, data).0 == DecodeInt(k, data[..k.Size()])
  {
    ReverseReverse(data[..k.Size()]);
  }

  /** A big-endian read at offset `off` of a span: the value there, and the span after it. */
  lemma ReadAt(host: Endian, k: IntKind, data: seq<byte>, off: nat, end: nat)
    requires end == off + k.Size() <= |data|
    ensures Read(host, k, Big, data[off..]) == (DecodeInt(k, data[off..end]), data[end..])
  {
    assert data[off..][..k.Size()] == data[off..end];
    BigEndianReadIsHostIndependent(k, data[off..]);
  }

  /**
   * One read<T, std::endian::big>(data) step of a decoder walking a
   * buffer: the span is the buffer from `off` on; the value is that of the
   * sizeof(T) bytes up to `end` in big-endian order, on any host, and the
   * span moves past them.
   */
  method ReadBigEndian(host: Endian, k: IntKind, span: seq<byte>, ghost buffer: seq<byte>, ghost off: nat, ghost end: nat)
    returns (t: int, rest: seq<byte>)
    requires end == off + k.Size() <= |buffer| && span == buffer[off..]
    ensures t == DecodeInt(k, buffer[off..end]) && rest == buffer[end..]
  {
    ReadAt(host, k, buffer, off, end);
    var read := Read(host, k, Big, span);
    t, rest := read.0, read.1;
  }

  /** Two consecutive reads consume two consecutive slices of the span. */
  lemma ConsecutiveReads(host: Endian, k1: IntKind, k2: IntKind, data: seq<byte>)
    requires |data| >= k1.Size() + k2.Size()
    ensures var (_, rest) := Read(host, k1, Big, data);
            |rest| >= k2.Size() &&
            Read(host, k2, Big, rest).0 == DecodeInt(k2, data[k1.Size()..k1.Size() + k2.Size()])
  {
    ReadAt(host, k2, data, k1.Size(), k1.Size() + k2.Size());
  }
}
