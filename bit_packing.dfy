/** The byte packing of static/js/main.js: binaryStringToBytes turns a bit string
    into bytes, most significant bit first, after padding it with zeros to a whole
    number of bytes; bytesToBinaryString expands bytes back into bits and drops the
    padding again. */
module BitPacking {
  import opened HuffmanCodes

  /** A Uint8Array element. */
  newtype byte = x: int | 0 <= x < 256

  function Pow2(n: nat): (p: nat)
    ensures p >= 1
  {
    if n == 0 then 1 else 2 * Pow2(n - 1)
  }

  /** `n` copies of '0' ('0'.repeat(n)). */
  function Zeros(n: nat): (r: seq<char>)
    ensures |r| == n && IsBits(r)
    ensures forall i :: 0 <= i < n ==> r[i] == '0'
  {
    seq(n, _ => '0')
  }

  function Min(a: int, b: int): int {
    if a <= b then a else b
  }

  function Max(a: int, b: int): int {
    if a <= b then b else a
  }

  // ---------------------------------------------------------------------------
  // Binary numerals

  /** The value of a bit string read most significant bit first, which is what
      parseInt(s, 2) gives for a non-empty string of '0' and '1'. */
  function ParseBinary(s: seq<char>): (v: nat)
    ensures v < Pow2(|s|)
  {
    if s == [] then 0
    else 2 * ParseBinary(s[..|s| - 1]) + (if s[|s| - 1] == '1' then 1 else 0)
  }

  /** The low `n` bits of `v`, most significant first. */
  function Bits(v: nat, n: nat): (r: seq<char>)
    ensures |r| == n
  {
    if n == 0 then []
    else Bits(v / 2, n - 1) + [if v % 2 == 1 then '1' else '0']
  }

  /** Bits writes only '0' and '1'. */
  lemma {:induction false} BitsIsBits(v: nat, n: nat)
    ensures IsBits(Bits(v, n))
  {
    if n > 0 {
      BitsIsBits(v / 2, n - 1);
      var r := Bits(v, n);
      assert r[..n - 1] == Bits(v / 2, n - 1);
    }
  }

  /** Number.prototype.toString(2) on a non-negative integer: the shortest binary
      numeral, "0" for zero. */
  function ToBinary(v: nat): (r: seq<char>)
    decreases v
  {
    if v < 2 then [if v == 1 then '1' else '0']
    else ToBinary(v / 2) + [if v % 2 == 1 then '1' else '0']
  }

  /** The number of digits ToBinary(v) has. */
  function Digits(v: nat): (d: nat)
    ensures d >= 1 && v < Pow2(d)
    decreases v
  {
    if v < 2 then 1 else 1 + Digits(v / 2)
  }

  /** String.prototype.padStart(n, c) with a one-character pad string. */
  function PadStart(s: seq<char>, n: nat, c: char): (r: seq<char>)
    ensures |r| == Max(|s|, n)
    ensures |s| < n ==> r[n - |s|..] == s && forall i :: 0 <= i < n - |s| ==> r[i] == c
    ensures |s| >= n ==> r == s
  {
    if |s| >= n then s else seq(n - |s|, _ => c) + s
  }

  /** Reading a bit string and writing the value back with as many bits gives the
      string back. */
  lemma {:induction false} BitsOfParse(s: seq<char>)
    requires IsBits(s)
    ensures Bits(ParseBinary(s), |s|) == s
  {
    if s != [] {
      var init := s[..|s| - 1];
      BitsOfParse(init);
      var v := ParseBinary(s);
      assert v / 2 == ParseBinary(init);
      assert s == init + [s[|s| - 1]];
    }
  }

  /** Writing a value below 2^n with n bits and reading it back gives the value. */
  lemma {:induction false} ParseOfBits(v: nat, n: nat)
    requires v < Pow2(n)
    ensures ParseBinary(Bits(v, n)) == v
  {
    if n > 0 {
      ParseOfBits(v / 2, n - 1);
      var r := Bits(v, n);
      assert r[..|r| - 1] == Bits(v / 2, n - 1);
    }
  }

  /** One more bit for a value that already fits adds a leading '0'. */
  lemma {:induction false} BitsWiden(v: nat, n: nat)
    requires v < Pow2(n)
    ensures Bits(v, n + 1) == "0" + Bits(v, n)
  {
    if n > 0 {
      BitsWiden(v / 2, n - 1);
    }
  }

  /** Zero-extension: more bits for a value that already fits add leading zeros. */
  lemma {:induction false} BitsPad(v: nat, k: nat, m: nat)
    requires v < Pow2(k)
    ensures Bits(v, k + m) == Zeros(m) + Bits(v, k)
  {
    if m > 0 {
      BitsPad(v, k, m - 1);
      PowMono(k, k + m - 1);
      BitsWiden(v, k + m - 1);
      assert Zeros(m) == "0" + Zeros(m - 1);
    }
  }

  lemma {:induction false} PowMono(a: nat, b: nat)
    requires a <= b
    ensures Pow2(a) <= Pow2(b)
  {
    if a < b {
      PowMono(a, b - 1);
    }
  }

  /** toString(2) writes exactly the significant bits. */
  lemma {:induction false} ToBinaryBits(v: nat)
    ensures ToBinary(v) == Bits(v, Digits(v))
    decreases v
  {
    if v >= 2 {
      ToBinaryBits(v / 2);
    }
  }

  /** `bytes[j].toString(2).padStart(8, '0')` is the byte as eight bits, most
      significant first. */
  lemma ByteDigits(b: byte)
    ensures PadStart(ToBinary(b as nat), 8, '0') == Bits(b as nat, 8)
  {
    var v := b as nat;
    ToBinaryBits(v);
    var d := Digits(v);
    if d > 8 {
      PowMono(8, d - 1);
      DigitsLow(v);
      assert false;
    }
    BitsPad(v, d, 8 - d);
    assert PadStart(ToBinary(v), 8, '0') == Zeros(8 - d) + ToBinary(v);
  }

  /** A value of d digits is at least 2^(d-1). */
  lemma {:induction false} DigitsLow(v: nat)
    ensures Pow2(Digits(v) - 1) <= v || v == 0
    decreases v
  {
    if v >= 2 {
      DigitsLow(v / 2);
    }
  }

  // ---------------------------------------------------------------------------
  // binaryStringToBytes

  /** paddingLength: the number of zeros that bring `n` bits to a byte boundary. */
  function PaddingFor(n: nat): (p: nat)
    ensures p < 8 && (n + p) % 8 == 0
    ensures n % 8 == 0 ==> p == 0
  {
    (8 - n % 8) % 8
  }

  /** The bytes of a padded bit string, eight bits each, most significant first. */
  function PackPadded(s: seq<char>): (r: seq<byte>)
    requires |s| % 8 == 0
    ensures |r| * 8 == |s|
  {
    if s == [] then []
    else
      ByteValue(s[..8]);
      [ParseBinary(s[..8]) as byte] + PackPadded(s[8..])
  }

  /** Byte i of a packed string is the value of bits 8i..8i+7. */
  lemma {:induction false} PackPaddedAt(s: seq<char>, i: nat)
    requires |s| % 8 == 0 && i < |s| / 8
    ensures PackPadded(s)[i] as nat == ParseBinary(s[8 * i..8 * i + 8])
  {
    if i > 0 {
      PackPaddedAt(s[8..], i - 1);
      assert s[8..][8 * (i - 1)..8 * (i - 1) + 8] == s[8 * i..8 * i + 8];
    }
  }

  /** The bytes binaryStringToBytes produces for `bits`. */
  function Pack(bits: seq<char>): (r: seq<byte>)
    ensures |r| * 8 == |bits| + PaddingFor(|bits|)
  {
    PackPadded(bits + Zeros(PaddingFor(|bits|)))
  }

  /** binaryStringToBytes: pad with zeros to a byte boundary, then fill a byte
      array with the value of each group of eight bits. */
  method BinaryStringToBytes(binaryStr: seq<char>) returns (bytes: array<byte>, paddingLength: nat)
    requires IsBits(binaryStr)
    ensures fresh(bytes)
    ensures paddingLength == PaddingFor(|binaryStr|)
    ensures bytes[..] == Pack(binaryStr)
  {
    paddingLength := (8 - |binaryStr| % 8) % 8;
    var padded := binaryStr + Zeros(paddingLength);
    bytes := new byte[|padded| / 8];
    for i := 0 to bytes.Length
      invariant forall k :: 0 <= k < i ==> bytes[k] as nat == ParseBinary(padded[8 * k..8 * k + 8])
    {
      var byteStr := padded[8 * i..8 * i + 8];
      ByteValue(byteStr);
      bytes[i] := ParseBinary(byteStr) as byte;
    }
    PackPaddedUnique(padded, bytes[..]);
  }

  /** Eight bits make a value below 256. */
  lemma ByteValue(s: seq<char>)
    requires |s| == 8
    ensures ParseBinary(s) < 256
  {
    assert Pow2(8) == 256;
  }

  /** PackPadded is the only byte sequence of the right length whose bytes are the
      values of the consecutive groups of eight bits. */
  lemma PackPaddedUnique(s: seq<char>, r: seq<byte>)
    requires |s| % 8 == 0 && |r| * 8 == |s|
    requires forall k :: 0 <= k < |r| ==> r[k] as nat == ParseBinary(s[8 * k..8 * k + 8])
    ensures r == PackPadded(s)
  {
    var p := PackPadded(s);
    assert |p| == |r|;
    forall k | 0 <= k < |r| ensures r[k] == p[k] {
      PackPaddedAt(s, k);
      assert r[k] as nat == p[k] as nat;
    }
  }

  // ---------------------------------------------------------------------------
  // bytesToBinaryString

  /** The bytes as bits, eight per byte, most significant first. */
  function Expand(bytes: seq<byte>): (r: seq<char>)
    ensures |r| == 8 * |bytes|
  {
    if bytes == [] then []
    else Expand(bytes[..|bytes| - 1]) + Bits(bytes[|bytes| - 1] as nat, 8)
  }

  /** `chunks.join('')`. */
  function Concat(chunks: seq<seq<char>>): seq<char> {
    if chunks == [] then []
    else Concat(chunks[..|chunks| - 1]) + chunks[|chunks| - 1]
  }

  /** `s.slice(0, -padding)` when padding is positive, else `s` itself; a slice end
      before the start gives the empty string. */
  function StripPadding(s: seq<char>, padding: int): (r: seq<char>)
    ensures |r| == if padding > 0 then Max(|s| - padding, 0) else |s|
    ensures r == s[..|r|]
  {
    if padding > 0 then s[..Max(|s| - padding, 0)] else s
  }

  /** What bytesToBinaryString returns. */
  function Unpack(bytes: seq<byte>, padding: int): (r: seq<char>)
    ensures |r| == if padding > 0 then Max(8 * |bytes| - padding, 0) else 8 * |bytes|
    ensures IsBits(r)
    ensures forall i :: 0 <= i < |r| ==> r[i] == Expand(bytes)[i]
  {
    ExpandIsBits(bytes);
    StripPadding(Expand(bytes), padding)
  }

  /** Expanded bytes are a bit string. */
  lemma {:induction false} ExpandIsBits(bytes: seq<byte>)
    ensures IsBits(Expand(bytes))
  {
    if bytes != [] {
      var init := bytes[..|bytes| - 1];
      ExpandIsBits(init);
      var a, b := Expand(init), Bits(bytes[|bytes| - 1] as nat, 8);
      BitsIsBits(bytes[|bytes| - 1] as nat, 8);
      forall i | 0 <= i < |a + b| ensures (a + b)[i] == '0' || (a + b)[i] == '1' {
        if i >= |a| {
          assert (a + b)[i] == b[i - |a|];
        }
      }
    }
  }

  lemma {:induction false} ExpandAppend(a: seq<byte>, b: seq<byte>)
    ensures Expand(a + b) == Expand(a) + Expand(b)
    decreases |b|
  {
    if b == [] {
      assert a + b == a;
    } else {
      var init, last := b[..|b| - 1], b[|b| - 1];
      ExpandAppend(a, init);
      assert b == init + [last];
      assert a + b == (a + init) + [last];
      ExpandSnoc(a + init, last);
      ExpandSnoc(init, last);
      AppendAssoc(Expand(a), Expand(init), Bits(last as nat, 8));
    }
  }

  lemma AppendAssoc(x: seq<char>, y: seq<char>, z: seq<char>)
    ensures x + y + z == x + (y + z)
  {
  }

  /** One more byte adds its eight bits at the end. */
  lemma ExpandSnoc(s: seq<byte>, x: byte)
    ensures Expand(s + [x]) == Expand(s) + Bits(x as nat, 8)
  {
    assert (s + [x])[..|s|] == s;
  }

  /** Byte j of the input is bits 8j..8j+7 of the expansion. */
  lemma {:induction false} ExpandAt(bytes: seq<byte>, j: nat)
    requires j < |bytes|
    ensures Expand(bytes)[8 * j..8 * j + 8] == Bits(bytes[j] as nat, 8)
  {
    ExpandAppend(bytes[..j], bytes[j..]);
    ExpandAppend([bytes[j]], bytes[j + 1..]);
    assert bytes == bytes[..j] + bytes[j..];
    assert bytes[j..] == [bytes[j]] + bytes[j + 1..];
    assert Expand([bytes[j]]) == Bits(bytes[j] as nat, 8) by {
      assert [bytes[j]][..0] == [];
    }
  }

  /** bytesToBinaryString: expand the bytes in chunks of 10000, eight zero-padded
      binary digits per byte, join everything and drop `padding` bits from the end.
      `totalBits` plays no part. */
  method BytesToBinaryString(bytes: array<byte>, totalBits: int, padding: int) returns (binaryStr: seq<char>)
    ensures binaryStr == Unpack(bytes[..], padding)
  {
    var chunks: seq<seq<char>> := [];
    var chunkSize := 10000;
    var i := 0;
    while i < bytes.Length
      invariant 0 <= i
      invariant Concat(chunks) == Expand(bytes[..Min(i, bytes.Length)])
      decreases bytes.Length - i
    {
      var end := Min(i + chunkSize, bytes.Length);
      var chunk: seq<seq<char>> := [];
      for j := i to end
        invariant Concat(chunk) == Expand(bytes[i..j])
      {
        ByteDigits(bytes[j]);
        assert (chunk + [Bits(bytes[j] as nat, 8)])[..|chunk|] == chunk;
        assert bytes[i..j + 1][..j - i] == bytes[i..j];
        chunk := chunk + [PadStart(ToBinary(bytes[j] as nat), 8, '0')];
      }
      ExpandAppend(bytes[..i], bytes[i..end]);
      assert bytes[..i] + bytes[i..end] == bytes[..end];
      assert (chunks + [Concat(chunk)])[..|chunks|] == chunks;
      chunks := chunks + [Concat(chunk)];
      i := i + chunkSize;
    }
    assert bytes[..Min(i, bytes.Length)] == bytes[..];
    binaryStr := Concat(chunks);
    if padding > 0 {
      binaryStr := binaryStr[..Max(|binaryStr| - padding, 0)];
    }
  }

  // ---------------------------------------------------------------------------
  // Laws

  /** Expanding packed bytes gives back the padded bit string. */
  lemma {:induction false} ExpandPackPadded(s: seq<char>)
    requires |s| % 8 == 0 && IsBits(s)
    ensures Expand(PackPadded(s)) == s
    decreases |s|
  {
    if s != [] {
      var r := PackPadded(s);
      ExpandPackPadded(s[8..]);
      ExpandAppend([r[0]], r[1..]);
      assert r == [r[0]] + r[1..];
      assert r[1..] == PackPadded(s[8..]);
      assert [r[0]][..0] == [];
      BitsOfParse(s[..8]);
      assert s == s[..8] + s[8..];
    }
  }

  /** Packing then unpacking with the returned padding gives back any bit string:
      bytesToBinaryString(binaryStringToBytes(s)) == s. */
  lemma PackRoundTrip(bits: seq<char>)
    requires IsBits(bits)
    ensures Unpack(Pack(bits), PaddingFor(|bits|)) == bits
  {
    var p := PaddingFor(|bits|);
    var padded := bits + Zeros(p);
    ExpandPackPadded(padded);
    assert padded[..|bits|] == bits;
  }

  /** Each byte of binaryStringToBytes holds bits 8i..8i+7 of the zero-padded string,
      most significant first, and unpacking it gives those same eight bits. */
  lemma PackBytes(bits: seq<char>, i: nat)
    requires IsBits(bits) && i < |Pack(bits)|
    ensures var padded := bits + Zeros(PaddingFor(|bits|));
      && Pack(bits)[i] as nat == ParseBinary(padded[8 * i..8 * i + 8])
      && Bits(Pack(bits)[i] as nat, 8) == padded[8 * i..8 * i + 8]
  {
    var padded := bits + Zeros(PaddingFor(|bits|));
    PackPaddedAt(padded, i);
    BitsOfParse(padded[8 * i..8 * i + 8]);
  }

  /** Unpacking writes every byte as exactly eight bits, before any padding is cut. */
  lemma UnpackBytes(bytes: seq<byte>, j: nat)
    requires j < |bytes|
    ensures Unpack(bytes, 0)[8 * j..8 * j + 8] == Bits(bytes[j] as nat, 8)
    ensures ParseBinary(Unpack(bytes, 0)[8 * j..8 * j + 8]) == bytes[j] as nat
  {
    ExpandAt(bytes, j);
    ParseOfBits(bytes[j] as nat, 8);
  }
}
