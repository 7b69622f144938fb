/** decodeHuffmanClientSide of static/js/main.js: invert the code table, then scan
    the bits, growing a candidate code one bit at a time and emitting a symbol as
    soon as the candidate is a key of the inverted table. */
module ClientDecoder {
  import opened HuffmanCodes

  /** One [char, code] pair of Object.entries(codesTable). */
  datatype Entry<S> = Entry(symbol: S, code: Code)

  /** The inverted table the first loop builds: each entry maps its code to its
      symbol, a later entry overwriting an earlier one with the same code. */
  function ReverseTable<S>(entries: seq<Entry<S>>): map<Code, S> {
    if entries == [] then map[]
    else
      var last := entries[|entries| - 1];
      ReverseTable(entries[..|entries| - 1])[last.code := last.symbol]
  }

  /** The inverted table has a key for every listed code, and maps each key to a
      symbol listed with that code. */
  lemma {:induction false} ReverseTableEntries<S>(entries: seq<Entry<S>>)
    ensures var rev := ReverseTable(entries);
      && (forall i :: 0 <= i < |entries| ==> entries[i].code in rev)
      && (forall w :: w in rev ==> exists i :: 0 <= i < |entries| && entries[i].code == w && rev[w] == entries[i].symbol)
  {
    if entries != [] {
      var init := entries[..|entries| - 1];
      ReverseTableEntries(init);
      assert forall i :: 0 <= i < |init| ==> init[i] == entries[i];
    }
  }

  /** The scan from candidate `cur` with `acc` decoded so far. Bits left over at the
      end without a match are dropped. */
  function Greedy<S>(rev: map<Code, S>, cur: Code, bits: seq<char>, acc: seq<S>): seq<S>
    decreases |bits|
  {
    if bits == [] then acc
    else
      var candidate := cur + [bits[0]];
      if candidate in rev then Greedy(rev, [], bits[1..], acc + [rev[candidate]])
      else Greedy(rev, candidate, bits[1..], acc)
  }

  /** decodeHuffmanClientSide on a bit string and the entries of a code table. */
  method DecodeHuffmanClientSide<S>(binaryStr: seq<char>, codesTable: seq<Entry<S>>) returns (decoded: seq<S>)
    ensures decoded == Greedy(ReverseTable(codesTable), [], binaryStr, [])
  {
    var reverseTable: map<Code, S> := map[];
    for k := 0 to |codesTable|
      invariant reverseTable == ReverseTable(codesTable[..k])
    {
      assert codesTable[..k + 1][..k] == codesTable[..k];
      reverseTable := reverseTable[codesTable[k].code := codesTable[k].symbol];
    }
    assert codesTable[..|codesTable|] == codesTable;

    decoded := [];
    var currentCode: Code := [];
    for i := 0 to |binaryStr|
      invariant Greedy(reverseTable, currentCode, binaryStr[i..], decoded)
             == Greedy(reverseTable, [], binaryStr, [])
    {
      assert binaryStr[i..][0] == binaryStr[i] && binaryStr[i..][1..] == binaryStr[i + 1..];
      currentCode := currentCode + [binaryStr[i]];
      if currentCode in reverseTable {
        decoded := decoded + [reverseTable[currentCode]];
        currentCode := [];
      }
    }
  }

  // ---------------------------------------------------------------------------
  // Laws

  /** `entries` lists exactly the entries of the map `codes`, the way
      Object.entries lists a JSON object built from a dict. */
  ghost predicate Lists<S>(entries: seq<Entry<S>>, codes: map<S, Code>) {
    && (forall i :: 0 <= i < |entries| ==> entries[i].symbol in codes && codes[entries[i].symbol] == entries[i].code)
    && (forall c :: c in codes ==> exists i :: 0 <= i < |entries| && entries[i].symbol == c)
  }

  /** `rev` maps each code back to its symbol and has no other keys. */
  ghost predicate InverseOf<S>(rev: map<Code, S>, codes: map<S, Code>) {
    && (forall c :: c in codes ==> codes[c] in rev && rev[codes[c]] == c)
    && (forall w :: w in rev ==> rev[w] in codes && codes[rev[w]] == w)
  }

  /** Every code is a non-empty bit string. */
  ghost predicate NonEmptyCodes<S>(codes: map<S, Code>) {
    forall c :: c in codes ==> codes[c] != []
  }

  /** The inverted table of a listing of a prefix code is the inverse of the code:
      no two symbols share a code, so no entry overwrites another symbol's. */
  lemma ReverseTableInverse<S>(entries: seq<Entry<S>>, codes: map<S, Code>)
    requires Lists(entries, codes) && PrefixFree(codes)
    ensures InverseOf(ReverseTable(entries), codes)
  {
    var rev := ReverseTable(entries);
    ReverseTableEntries(entries);
    forall c | c in codes
      ensures codes[c] in rev && rev[codes[c]] == c
    {
      var i :| 0 <= i < |entries| && entries[i].symbol == c;
      assert entries[i].code in rev;
      var j :| 0 <= j < |entries| && entries[j].code == codes[c] && rev[codes[c]] == entries[j].symbol;
      var d := entries[j].symbol;
      assert codes[d] == codes[c] && IsPrefix(codes[d], codes[c]);
      assert d == c;
    }
    forall w | w in rev
      ensures rev[w] in codes && codes[rev[w]] == w
    {
      var j :| 0 <= j < |entries| && entries[j].code == w && rev[w] == entries[j].symbol;
      assert entries[j].symbol in codes;
    }
  }

  /** Scanning the rest of one code word, from any proper prefix of it, reaches the
      word and emits its symbol: no shorter non-empty prefix is a key. */
  lemma {:induction false} GreedyWord<S>(rev: map<Code, S>, codes: map<S, Code>, c: S, k: nat, rest: seq<char>, acc: seq<S>)
    requires InverseOf(rev, codes) && PrefixFree(codes)
    requires c in codes && k < |codes[c]|
    ensures Greedy(rev, codes[c][..k], codes[c][k..] + rest, acc) == Greedy(rev, [], rest, acc + [c])
    decreases |codes[c]| - k
  {
    var w := codes[c];
    var bits := w[k..] + rest;
    assert bits[0] == w[k];
    assert bits[1..] == w[k + 1..] + rest;
    assert w[..k] + [w[k]] == w[..k + 1];
    if k + 1 == |w| {
      assert w[..k + 1] == w;
      assert w[k + 1..] + rest == rest;
    } else {
      var q := w[..k + 1];
      if q in rev {
        assert false;
      }
      GreedyWord(rev, codes, c, k + 1, rest, acc);
    }
  }

  /** Scanning the encoding of `text` followed by anything emits `text` and then
      carries on with what follows from an empty candidate. */
  lemma {:induction false} GreedyEncode<S>(rev: map<Code, S>, codes: map<S, Code>, text: seq<S>, tail: seq<char>, acc: seq<S>)
    requires InverseOf(rev, codes) && PrefixFree(codes) && NonEmptyCodes(codes)
    requires forall i :: 0 <= i < |text| ==> text[i] in codes
    ensures Greedy(rev, [], EncodeWith(codes, text) + tail, acc) == Greedy(rev, [], tail, acc + text)
  {
    if text == [] {
      assert acc + text == acc;
      assert EncodeWith(codes, text) + tail == tail;
    } else {
      var c := text[0];
      var more := EncodeWith(codes, text[1..]) + tail;
      assert EncodeWith(codes, text) + tail == codes[c][0..] + more;
      assert codes[c][..0] == [];
      GreedyWord(rev, codes, c, 0, more, acc);
      GreedyEncode(rev, codes, text[1..], tail, acc + [c]);
      assert acc + [c] + text[1..] == acc + text;
    }
  }

  /** A run of bits none of whose non-empty prefixes, appended to the candidate, is
      a key emits nothing: the scan ends and the run is dropped without a trace. */
  lemma {:induction false} GreedyDropsTail<S>(rev: map<Code, S>, cur: Code, tail: seq<char>, acc: seq<S>)
    requires forall k :: 1 <= k <= |tail| ==> cur + tail[..k] !in rev
    ensures Greedy(rev, cur, tail, acc) == acc
    decreases |tail|
  {
    if tail != [] {
      assert tail[..1] == [tail[0]];
      forall k | 1 <= k <= |tail| - 1
        ensures (cur + [tail[0]]) + tail[1..][..k] !in rev
      {
        assert (cur + [tail[0]]) + tail[1..][..k] == cur + tail[..k + 1];
      }
      GreedyDropsTail(rev, cur + [tail[0]], tail[1..], acc);
    }
  }

  /** decodeHuffmanClientSide(encode(text), table) == text for a prefix code of
      non-empty words listed in any order. */
  lemma ClientRoundTrip<S>(entries: seq<Entry<S>>, codes: map<S, Code>, text: seq<S>)
    requires Lists(entries, codes) && PrefixFree(codes) && NonEmptyCodes(codes)
    requires forall i :: 0 <= i < |text| ==> text[i] in codes
    ensures Greedy(ReverseTable(entries), [], EncodeWith(codes, text), []) == text
  {
    ReverseTableInverse(entries, codes);
    GreedyEncode(ReverseTable(entries), codes, text, [], []);
    assert EncodeWith(codes, text) + [] == EncodeWith(codes, text);
  }

  /** Bits after the last complete code word, such as a byte padding that was not
      stripped, are discarded silently when no prefix of them is a code word. */
  lemma TrailingBitsDiscarded<S>(entries: seq<Entry<S>>, codes: map<S, Code>, text: seq<S>, tail: seq<char>)
    requires Lists(entries, codes) && PrefixFree(codes) && NonEmptyCodes(codes)
    requires forall i :: 0 <= i < |text| ==> text[i] in codes
    requires forall k :: 1 <= k <= |tail| ==> tail[..k] !in ReverseTable(entries)
    ensures Greedy(ReverseTable(entries), [], EncodeWith(codes, text) + tail, []) == text
  {
    var rev := ReverseTable(entries);
    ReverseTableInverse(entries, codes);
    GreedyEncode(rev, codes, text, tail, []);
    forall k | 1 <= k <= |tail| ensures [] + tail[..k] !in rev {
      assert [] + tail[..k] == tail[..k];
    }
    GreedyDropsTail(rev, [], tail, [] + text);
  }
}
