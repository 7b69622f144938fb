/** The whole path a text takes: huffman.py builds the tree and encodes the text,
    the browser packs the bits into bytes and a .huff container, and on upload
    reads the container, unpacks the payload and decodes it with the code table. */
module Pipeline {
  import opened Frequency
  import opened HuffmanTree
  import opened HuffmanCodes
  import opened Huffman
  import opened BitPacking
  import opened ClientDecoder
  import opened HuffContainer

  /** Every text survives the round trip through the container, given the code
      table as a listing of build_tree's codes and any metadata of a length the
      reader accepts. This holds for the empty text, which encodes to no bits and no
      bytes, and for a single distinct symbol, whose code is "0", since the client
      decoder needs no tree. */
  lemma EndToEnd<S>(text: seq<S>, entries: seq<Entry<S>>, metadata: seq<byte>)
    requires Lists(entries, CodeTable(text))
    requires 0 < |metadata| < TwoTo31
    ensures var bits := EncodeWith(CodeTable(text), text);
      var file := Container(metadata, Pack(bits));
      && ReadContainer(file) == Accepted(metadata, Pack(bits))
      && Unpack(Pack(bits), PaddingFor(|bits|)) == bits
      && Greedy(ReverseTable(entries), [], bits, []) == text
  {
    var codes := CodeTable(text);
    var bits := EncodeWith(codes, text);
    if text == [] {
      assert IsBits(bits);
      PackRoundTrip(bits);
      ContainerRoundTrip(metadata, Pack(bits));
    } else {
      CodeTableProperties(text);
      EncodeIsBits(codes, text);
      PackRoundTrip(bits);
      ContainerRoundTrip(metadata, Pack(bits));
      forall i | 0 <= i < |text| ensures text[i] in codes {
        assert text[i] in text;
      }
      ClientRoundTrip(entries, codes, text);
    }
  }

  /** The text "aaab": 'a' is seeded first and 'b' is inserted in front of it, so
      the merge takes 'b' as the left child. The codes are b = "0" and a = "1", the
      bits "1110", packed into the single byte 0b11100000 with 4 bits of padding. */
  lemma AaabScenario()
    ensures HuffmanTreeOf("aaab") == Some(Internal(4, Leaf('b', 1), Leaf('a', 3)))
    ensures CodesOf(HuffmanTreeOf("aaab").value, []) == map['b' := "0", 'a' := "1"]
    ensures EncodeWith(map['b' := "0", 'a' := "1"], "aaab") == "1110"
    ensures Pack("1110") == [0xE0] && PaddingFor(4) == 4
  {
    AaabTree();
    AaabCodes();
    AaabEncode();
    AaabPack();
  }

  lemma AaabTree()
    ensures HuffmanTreeOf("aaab") == Some(Internal(4, Leaf('b', 1), Leaf('a', 3)))
  {
    AaabFrequencies();
    var counts := map['a' := 3, 'b' := 1];
    assert ['a', 'b'][..1] == ['a'];
    assert SeedList(['a'], counts) == [Leaf('a', 3)] by {
      assert ['a'][..0] == [];
      assert InsertSorted([], Leaf('a', 3)) == [Leaf('a', 3)];
    }
    assert InsertPos([Leaf('a', 3)], 1) == 0;
    var seeded := SeedList(['a', 'b'], counts);
    assert seeded == [Leaf('b', 1), Leaf('a', 3)];
    assert MergeStep(seeded) == [Internal(4, Leaf('b', 1), Leaf('a', 3))];
  }

  lemma AaabCodes()
    ensures CodesOf(Internal(4, Leaf('b', 1), Leaf('a', 3)), []) == map['b' := "0", 'a' := "1"]
  {
    assert [] + "0" == "0" && [] + "1" == "1";
  }

  lemma AaabEncode()
    ensures EncodeWith(map['b' := "0", 'a' := "1"], "aaab") == "1110"
  {
    var codes := map['b' := "0", 'a' := "1"];
    var text := "aaab";
    assert text[1..] == "aab" && text[1..][1..] == "ab" && text[1..][1..][1..] == "b";
    assert EncodeWith(codes, "b") == "0" by { assert "b"[1..] == []; }
  }

  lemma AaabFrequencies()
    ensures Distinct("aaab") == ['a', 'b']
    ensures CountMap("aaab") == map['a' := 3, 'b' := 1]
  {
    var text := "aaab";
    assert text[..3] == "aaa" && text[..2] == "aa" && text[..1] == "a";
    assert 'b' !in text[..3];
    assert Count(text, 'b') == 1;
    assert Count(text, 'a') == 3;
    assert (set c | c in text) == {'a', 'b'};
  }

  lemma AaabPack()
    ensures Pack("1110") == [0xE0]
  {
    var bits: seq<char> := "1110";
    var padded := bits + Zeros(4);
    assert padded == "11100000";
    assert padded[8..] == [];
    var w: seq<char> := "11100000";
    assert padded[..8] == w;
    assert ParseBinary(w[..1]) == 1 by { assert w[..1][..0] == []; }
    assert ParseBinary(w[..2]) == 3 by { assert w[..2][..1] == w[..1]; }
    assert ParseBinary(w[..3]) == 7 by { assert w[..3][..2] == w[..2]; }
    assert ParseBinary(w[..4]) == 14 by { assert w[..4][..3] == w[..3]; }
    assert ParseBinary(w[..5]) == 28 by { assert w[..5][..4] == w[..4]; }
    assert ParseBinary(w[..6]) == 56 by { assert w[..6][..5] == w[..5]; }
    assert ParseBinary(w[..7]) == 112 by { assert w[..7][..6] == w[..6]; }
    assert w[..8] == w && w[..8][..7] == w[..7];
  }

  /** A text of n copies of one symbol packs into ceil(n / 8) bytes: one bit each. */
  lemma SingleSymbolSize<S>(text: seq<S>)
    requires text != [] && |Distinct(text)| == 1
    ensures var bits := EncodeWith(CodesOf(HuffmanTreeOf(text).value, []), text);
      |bits| == |text| && |Pack(bits)| == (|text| + 7) / 8
  {
    SingleSymbolDecodeFails(text);
    var bits := EncodeWith(CodesOf(HuffmanTreeOf(text).value, []), text);
    var p := PaddingFor(|bits|);
    assert |Pack(bits)| * 8 == |text| + p;
  }
}
