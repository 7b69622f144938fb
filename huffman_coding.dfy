/** The HuffmanCoding class of huffman.py: it counts the symbols of a text, builds
    the tree with a ChainedList as its priority queue, derives the code tables from
    the tree, and encodes and decodes with them. */
module Huffman {
  import opened Frequency
  import opened HuffmanTree
  import opened HuffmanCodes
  import opened ChainedLists

  /** Every code in the table is a string of '0' and '1'. */
  ghost predicate BitCodes<S>(codes: map<S, Code>) {
    forall c :: c in codes ==> IsBits(codes[c])
  }

  /** Joining bit-string codes gives a bit string. */
  lemma {:induction false} EncodeIsBits<S>(codes: map<S, Code>, text: seq<S>)
    ensures BitCodes(codes) ==> IsBits(EncodeWith(codes, text))
  {
    if text != [] && BitCodes(codes) {
      EncodeIsBits(codes, text[1..]);
      var head := if text[0] in codes then codes[text[0]] else [];
      assert IsBits(head);
      var w := EncodeWith(codes, text);
      assert w == head + EncodeWith(codes, text[1..]);
      forall i | 0 <= i < |w| ensures w[i] == '0' || w[i] == '1' {
        if i >= |head| {
          assert w[i] == EncodeWith(codes, text[1..])[i - |head|];
        }
      }
    }
  }

  /** One more symbol updates the counts of that symbol only. */
  lemma CountMapSnoc<S>(s: seq<S>, x: S)
    ensures CountMap(s + [x]) == CountMap(s)[x := Count(s, x) + 1]
  {
    var t := s + [x];
    assert t[..|t| - 1] == s;
    forall c | c in t ensures c == x || c in s {
      var i :| 0 <= i < |t| && t[i] == c;
      if i < |s| {
        assert s[i] == c;
      }
    }
    forall c | c in s ensures c in t {
      var i :| 0 <= i < |s| && s[i] == c;
      assert t[i] == c;
    }
  }

  lemma MapUnionAssoc<K, V>(a: map<K, V>, b: map<K, V>, c: map<K, V>)
    ensures a + b + c == a + (b + c)
  {
  }

  /** One round of build_tree's merge loop leaves the final tree unchanged. */
  lemma MergeRound<S>(s: seq<Node<S>>, t: seq<Node<S>>)
    requires |s| >= 2 && t == InsertSorted(s[2..], Merge(s[0], s[1]))
    ensures MergeAll(t) == MergeAll(s)
  {
  }

  class HuffmanCoding<S(==)> {
    var root: Option<Node<S>>
    var codes: map<S, Code>
    var reverseCodes: map<Code, S>

    constructor ()
      ensures root == None && codes == map[] && reverseCodes == map[]
    {
      root := None;
      codes := map[];
      reverseCodes := map[];
    }

    /** calculate_frequency: one pass over the text filling an insertion-ordered
        dictionary; `keys` is its key order, `counts` its contents. */
    method CalculateFrequency(text: seq<S>) returns (keys: seq<S>, counts: map<S, nat>)
      ensures keys == Distinct(text)
      ensures counts == CountMap(text)
    {
      keys := [];
      counts := map[];
      for i := 0 to |text|
        invariant keys == Distinct(text[..i])
        invariant counts == CountMap(text[..i])
      {
        var c := text[i];
        assert text[..i + 1] == text[..i] + [c];
        CountMapSnoc(text[..i], c);
        if c in counts {
          counts := counts[c := counts[c] + 1];
        } else {
          keys := keys + [c];
          counts := counts[c := 1];
        }
      }
      assert text[..|text|] == text;
    }

    /** build_tree: seed the list with one leaf per symbol in dictionary order,
        merge the two cheapest nodes until one is left, keep it as the root and
        regenerate both code tables. An empty text returns nothing and leaves the
        object as it was. */
    method BuildTree(text: seq<S>) returns (r: Option<Node<S>>)
      modifies this
      ensures r == HuffmanTreeOf(text)
      ensures text == [] ==> root == old(root) && codes == old(codes) && reverseCodes == old(reverseCodes)
      ensures text != [] ==>
        && r.Some? && root == r
        && codes == CodesOf(r.value, []) && reverseCodes == ReverseOf(r.value, [])
    {
      var keys, counts := CalculateFrequency(text);
      if keys == [] {
        return None;
      }

      var list := SeedQueue(keys, counts);
      MergeLoop(list);
      root := list.RemoveFirst();
      GenerateCodes();
      r := root;
    }

    /** build_tree's first loop: a new list holding one leaf per key, inserted in
        key order. */
    method SeedQueue(keys: seq<S>, counts: map<S, nat>) returns (list: ChainedList<S>)
      requires forall i :: 0 <= i < |keys| ==> keys[i] in counts
      ensures list.Valid() && fresh(list.Repr)
      ensures list.Items() == SeedList(keys, counts)
    {
      list := new ChainedList<S>();
      for i := 0 to |keys|
        invariant list.Valid() && fresh(list.Repr)
        invariant list.Items() == SeedList(keys[..i], counts)
      {
        assert keys[..i + 1][..i] == keys[..i];
        list.InsertSorted(Leaf(keys[i], counts[keys[i]]));
      }
      assert keys[..|keys|] == keys;
    }

    /** build_tree's merge loop: while more than one node is queued, take the two
        cheapest off the front and queue the node merging them. */
    method MergeLoop(list: ChainedList<S>)
      requires list.Valid() && |list.Items()| >= 1
      modifies list.Repr
      ensures list.Valid() && fresh(list.Repr - old(list.Repr))
      ensures list.Items() == [MergeAll(old(list.Items()))]
    {
      ghost var tree := MergeAll(list.Items());
      ghost var items := list.Items();
      while list.GetSize() > 1
        invariant list.Valid() && fresh(list.Repr - old(list.Repr))
        invariant items == list.Items() && |items| >= 1
        invariant MergeAll(items) == tree
        decreases |items|
      {
        var left := list.RemoveFirst();
        var right := list.RemoveFirst();
        assert list.Items() == items[1..][1..] == items[2..];
        var merged := Internal(left.value.freq + right.value.freq, left.value, right.value);
        assert merged == Merge(items[0], items[1]);
        list.InsertSorted(merged);
        MergeRound(items, list.Items());
        items := list.Items();
      }
    }

    /** _generate_codes_recursive: record the code of every leaf below `node`, where
        `code` is the path to `node`; a leaf reached by the empty path gets "0". */
    method GenerateCodesRecursive(node: Node<S>, code: Code)
      modifies this
      ensures root == old(root)
      ensures codes == old(codes) + CodesOf(node, code)
      ensures reverseCodes == old(reverseCodes) + ReverseOf(node, code)
      decreases node
    {
      if node.IsLeaf() {
        var w := if code == [] then "0" else code;
        codes := codes[node.symbol := w];
        reverseCodes := reverseCodes[w := node.symbol];
        return;
      }
      ghost var c0, r0 := codes, reverseCodes;
      GenerateCodesRecursive(node.left, code + "0");
      GenerateCodesRecursive(node.right, code + "1");
      MapUnionAssoc(c0, CodesOf(node.left, code + "0"), CodesOf(node.right, code + "1"));
      MapUnionAssoc(r0, ReverseOf(node.left, code + "0"), ReverseOf(node.right, code + "1"));
    }

    /** _generate_codes: clear both tables and refill them from the root. */
    method GenerateCodes()
      modifies this
      ensures root == old(root)
      ensures root.None? ==> codes == map[] && reverseCodes == map[]
      ensures root.Some? ==> codes == CodesOf(root.value, []) && reverseCodes == ReverseOf(root.value, [])
    {
      codes := map[];
      reverseCodes := map[];
      if root.Some? {
        GenerateCodesRecursive(root.value, []);
      }
    }

    /** encode: the codes of the symbols of `text`, joined; nothing at all while the
        table is empty. With a table of bit strings the result is a bit string. */
    function Encode(text: seq<S>): (r: Code)
      reads this
      ensures BitCodes(codes) ==> IsBits(r)
    {
      if codes == map[] then []
      else
        EncodeIsBits(codes, text);
        EncodeWith(codes, text)
    }

    /** decode: walk the tree from the root, one bit at a time, emitting a symbol at
        each leaf and restarting at the root. No tree gives the empty text; None is
        the crash when the cursor is a leaf with no children to step to. */
    method Decode(encoded: seq<char>) returns (r: Option<seq<S>>)
      ensures root.None? ==> r == Some([])
      ensures root.Some? ==> r == DecodeWalk(root.value, root.value, encoded, [])
    {
      if root.None? {
        return Some([]);
      }
      var top := root.value;
      var decoded: seq<S> := [];
      var current := top;
      for i := 0 to |encoded|
        invariant DecodeWalk(top, current, encoded[i..], decoded) == DecodeWalk(top, top, encoded, [])
      {
        assert encoded[i..][1..] == encoded[i + 1..];
        if current.Leaf? {
          return None;
        }
        var next := if encoded[i] == '0' then current.left else current.right;
        if next.IsLeaf() {
          decoded := decoded + [next.symbol];
          current := top;
        } else {
          current := next;
        }
      }
      return Some(decoded);
    }
  }

  /** Once build_tree has run on a text with at least two distinct symbols, decode
      inverts encode on that text. */
  lemma CodingRoundTrip<S>(h: HuffmanCoding<S>, text: seq<S>)
    requires |Distinct(text)| >= 2
    requires h.root == HuffmanTreeOf(text)
    requires h.root.Some? && h.codes == CodesOf(h.root.value, [])
    ensures IsBits(h.Encode(text))
    ensures DecodeWalk(h.root.value, h.root.value, h.Encode(text), []) == Some(text)
  {
    TreeRoundTrip(text);
    CodeTableProperties(text);
    assert text[0] in h.codes;
  }
}
