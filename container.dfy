/** The .huff container of static/js/main.js, written inline by the download handlers
    and read inline by the upload handlers: a 4-byte big-endian metadata length,
    the metadata bytes, then the payload bytes. The metadata is opaque here. */
module HuffContainer {
  import opened BitPacking

  const TwoTo32: int := 0x1_0000_0000
  const TwoTo31: int := 0x8000_0000

  /** `(n >> shift) & 0xFF` in JavaScript: `>>` first reduces `n` to a signed 32-bit
      integer, and the mask keeps bits shift..shift+7 of n modulo 2^32: `b` is the
      lowest base-256 digit of that value shifted right by `shift` bits. */
  function HeaderByte(n: int, shift: nat): (b: byte)
    ensures var v := (n % TwoTo32) / Pow2(shift); v == 256 * (v / 256) + b as int
  {
    ((n % TwoTo32) / Pow2(shift) % 256) as byte
  }

  /** The four header bytes the writer stores for a metadata length `n`. */
  function Header(n: int): (h: seq<byte>)
    ensures |h| == 4
  {
    [HeaderByte(n, 24), HeaderByte(n, 16), HeaderByte(n, 8), HeaderByte(n, 0)]
  }

  /** The writer's output: header, metadata, payload. */
  function Container(metadata: seq<byte>, payload: seq<byte>): (r: seq<byte>)
    ensures |r| == 4 + |metadata| + |payload|
    ensures r[4..4 + |metadata|] == metadata && r[4 + |metadata|..] == payload
  {
    Header(|metadata|) + metadata + payload
  }

  /** `(b0 << 24) | (b1 << 16) | (b2 << 8) | b3`: the four bytes big-endian, taken as
      a signed 32-bit integer, so a first byte of 128 or more gives a negative value. */
  function SignedLength(b0: byte, b1: byte, b2: byte, b3: byte): (l: int)
    ensures -TwoTo31 <= l < TwoTo31
    ensures b0 < 128 ==> l >= 0
    ensures b0 >= 128 ==> l < 0
  {
    var u := b0 as int * 0x100_0000 + b1 as int * 0x1_0000 + b2 as int * 0x100 + b3 as int;
    if u >= TwoTo31 then u - TwoTo32 else u
  }

  /** The outcome of reading an uploaded file as a container. */
  datatype Parsed = Rejected | Accepted(metadata: seq<byte>, payload: seq<byte>)

  /** The reader: at least four bytes, and a length L with 0 < L < the file length
      (the whole file, header included). `bytes.slice` clamps to the end of the
      file, so the metadata can come out shorter than L. */
  function ReadContainer(bytes: seq<byte>): (r: Parsed)
    ensures r.Accepted? <==>
      |bytes| >= 4 && 0 < SignedLength(bytes[0], bytes[1], bytes[2], bytes[3]) < |bytes|
    ensures r.Accepted? ==> bytes == bytes[..4] + r.metadata + r.payload
    ensures r.Accepted? ==>
      |r.metadata| == Min(SignedLength(bytes[0], bytes[1], bytes[2], bytes[3]), |bytes| - 4)
  {
    if |bytes| < 4 then Rejected
    else
      var metadataLength := SignedLength(bytes[0], bytes[1], bytes[2], bytes[3]);
      if metadataLength > 0 && metadataLength < |bytes| then
        var end := Min(4 + metadataLength, |bytes|);
        assert bytes == bytes[..4] + bytes[4..end] + bytes[end..];
        Accepted(bytes[4..end], bytes[end..])
      else Rejected
  }

  /** TypedArray.prototype.set(src, offset): copy `src` into `dst` from `offset` on. */
  method SetAt(dst: array<byte>, src: array<byte>, offset: nat)
    requires dst != src && offset + src.Length <= dst.Length
    modifies dst
    ensures dst[..] == old(dst[..offset]) + src[..] + old(dst[offset + src.Length..])
  {
    for i := 0 to src.Length
      invariant forall k :: 0 <= k < dst.Length ==>
        dst[k] == if offset <= k < offset + i then src[k - offset] else old(dst[k])
    {
      dst[offset + i] := src[i];
    }
    assert dst[..] == old(dst[..offset]) + src[..] + old(dst[offset + src.Length..]);
  }

  /** The download handlers' container writer. */
  method WriteContainer(metadataBytes: array<byte>, bytes: array<byte>) returns (combinedBytes: array<byte>)
    ensures fresh(combinedBytes)
    ensures combinedBytes[..] == Container(metadataBytes[..], bytes[..])
  {
    var headerBytes := new byte[4];
    var metadataLength := metadataBytes.Length;
    headerBytes[0] := HeaderByte(metadataLength, 24);
    headerBytes[1] := HeaderByte(metadataLength, 16);
    headerBytes[2] := HeaderByte(metadataLength, 8);
    headerBytes[3] := HeaderByte(metadataLength, 0);
    assert headerBytes[..] == Header(metadataLength);

    var totalLength := headerBytes.Length + metadataBytes.Length + bytes.Length;
    combinedBytes := new byte[totalLength];
    SetAt(combinedBytes, headerBytes, 0);
    SetAt(combinedBytes, metadataBytes, headerBytes.Length);
    SetAt(combinedBytes, bytes, headerBytes.Length + metadataBytes.Length);
    assert combinedBytes[..] == Header(metadataLength) + metadataBytes[..] + bytes[..];
  }

  // ---------------------------------------------------------------------------
  // Laws

  /** The header is the big-endian encoding of the length modulo 2^32. */
  lemma HeaderValue(n: int)
    ensures var h := Header(n);
      h[0] as int * 0x100_0000 + h[1] as int * 0x1_0000 + h[2] as int * 0x100 + h[3] as int == n % TwoTo32
  {
    var m := n % TwoTo32;
    assert Pow2(0) == 1 && Pow2(8) == 0x100 && Pow2(16) == 0x1_0000 && Pow2(24) == 0x100_0000 by {
      Pow2Values();
    }
    var q1 := m / 0x100;
    var q2 := q1 / 0x100;
    var q3 := q2 / 0x100;
    DivDiv(m, 0x100);
    DivDiv(m, 0x1_0000);
    assert m / 0x1_0000 == q2;
    assert m / 0x100_0000 == q3;
    assert q3 < 0x100;
  }

  lemma Pow2Values()
    ensures Pow2(0) == 1 && Pow2(8) == 0x100 && Pow2(16) == 0x1_0000 && Pow2(24) == 0x100_0000
  {
    assert Pow2(4) == 16;
    assert Pow2(8) == 0x100;
    assert Pow2(12) == 0x1000;
    assert Pow2(16) == 0x1_0000;
    assert Pow2(20) == 0x10_0000;
  }

  /** Dropping the low byte twice drops two bytes at once. */
  lemma DivDiv(m: nat, d: nat)
    requires d == 0x100 || d == 0x1_0000
    ensures m / d / 0x100 == m / (d * 0x100)
  {
    var q, r := m / d, m % d;
    var q2, r2 := q / 0x100, q % 0x100;
    assert m == q2 * (d * 0x100) + (r2 * d + r);
    assert 0 <= r2 * d + r < d * 0x100;
  }

  /** The reader's view of the writer's header: the length itself below 2^31, the
      length less 2^32 from 2^31 up to 2^32. */
  lemma HeaderRead(n: int)
    requires 0 <= n < TwoTo32
    ensures var h := Header(n);
      SignedLength(h[0], h[1], h[2], h[3]) == if n < TwoTo31 then n else n - TwoTo32
  {
    var h := Header(n);
    HeaderValue(n);
    var u := h[0] as int * 0x100_0000 + h[1] as int * 0x1_0000 + h[2] as int * 0x100 + h[3] as int;
    assert n % TwoTo32 == n;
    assert u == n;
  }

  /** Reading what the writer wrote gives back the metadata and the payload, for
      any non-empty metadata shorter than 2^31 bytes. */
  lemma ContainerRoundTrip(metadata: seq<byte>, payload: seq<byte>)
    requires 0 < |metadata| < TwoTo31
    ensures ReadContainer(Container(metadata, payload)) == Accepted(metadata, payload)
  {
    var r := Container(metadata, payload);
    var h := Header(|metadata|);
    HeaderRead(|metadata|);
    assert r[0] == h[0] && r[1] == h[1] && r[2] == h[2] && r[3] == h[3];
  }

  /** Empty metadata gives a length of 0, which the reader refuses. */
  lemma EmptyMetadataRejected(payload: seq<byte>)
    ensures ReadContainer(Container([], payload)) == Rejected
  {
    var r := Container([], payload);
    var h := Header(0);
    HeaderRead(0);
    assert r[0] == h[0] && r[1] == h[1] && r[2] == h[2] && r[3] == h[3];
  }

  /** Metadata of 2^31 bytes or more (below 2^32) sets the top header bit, the
      shifted length reads back negative, and the reader refuses the file. */
  lemma LongMetadataRejected(metadata: seq<byte>, payload: seq<byte>)
    requires TwoTo31 <= |metadata| < TwoTo32
    ensures ReadContainer(Container(metadata, payload)) == Rejected
  {
    var r := Container(metadata, payload);
    var h := Header(|metadata|);
    HeaderRead(|metadata|);
    assert r[0] == h[0] && r[1] == h[1] && r[2] == h[2] && r[3] == h[3];
  }

  /** The length is checked against the whole file rather than the bytes after the
      header, so a file whose header claims up to three bytes more metadata than it
      holds is still accepted, with the metadata cut short and an empty payload. */
  lemma TruncatedMetadataAccepted(bytes: seq<byte>)
    requires |bytes| >= 4
    requires |bytes| - 4 < SignedLength(bytes[0], bytes[1], bytes[2], bytes[3]) < |bytes|
    ensures ReadContainer(bytes) == Accepted(bytes[4..], [])
  {
  }
}
