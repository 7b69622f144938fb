/** Code assignment, encoding and tree-walking decoding of huffman.py
    (HuffmanCoding._generate_codes_recursive, encode and decode) as reference
    definitions, with the prefix-code and round-trip laws they satisfy. */
module HuffmanCodes {
  import opened Frequency
  import opened HuffmanTree

  /** A code word: a string of '0' and '1' characters. */
  type Code = seq<char>

  predicate IsBits(s: seq<char>) {
    forall i :: 0 <= i < |s| ==> s[i] == '0' || s[i] == '1'
  }

  predicate IsPrefix(p: seq<char>, s: seq<char>) {
    |p| <= |s| && s[..|p|] == p
  }

  /** No code word is a prefix of the code word of another symbol. */
  ghost predicate PrefixFree<S>(codes: map<S, Code>) {
    forall a, b :: a in codes && b in codes && a != b ==> !IsPrefix(codes[a], codes[b])
  }

  /** The code a leaf reached along path `p` receives: the path itself, or "0" when
      the leaf is the root and the path is empty. */
  function LeafCode(p: Code): (w: Code)
    ensures w != []
  {
    if p == [] then "0" else p
  }

  /** The entries _generate_codes_recursive(t, p) writes into `codes`: left edges add
      '0', right edges add '1'; the right subtree is visited last, so its entries win. */
  function CodesOf<S(==)>(t: Node<S>, p: Code): map<S, Code> {
    match t
    case Leaf(c, _) => map[c := LeafCode(p)]
    case Internal(_, l, r) => CodesOf(l, p + "0") + CodesOf(r, p + "1")
  }

  /** The entries the same walk writes into `reverse_codes`. */
  function ReverseOf<S>(t: Node<S>, p: Code): map<Code, S> {
    match t
    case Leaf(c, _) => map[LeafCode(p) := c]
    case Internal(_, l, r) => ReverseOf(l, p + "0") + ReverseOf(r, p + "1")
  }

  /** encode's join: each symbol's code in text order; a symbol without a code
      contributes nothing (codes.get(char, '')). */
  function EncodeWith<S(==)>(codes: map<S, Code>, text: seq<S>): Code {
    if text == [] then []
    else (if text[0] in codes then codes[text[0]] else []) + EncodeWith(codes, text[1..])
  }

  /** decode's cursor loop from cursor `cur` with `acc` decoded so far. None is the
      AttributeError raised when the cursor is a leaf: its missing child is None
      and `None.is_leaf()` fails. */
  function DecodeWalk<S>(root: Node<S>, cur: Node<S>, bits: seq<char>, acc: seq<S>): Option<seq<S>>
    decreases |bits|
  {
    if bits == [] then Some(acc)
    else
      match cur
      case Leaf(_, _) => None
      case Internal(_, l, r) =>
        var next := if bits[0] == '0' then l else r;
        if next.IsLeaf() then DecodeWalk(root, root, bits[1..], acc + [next.symbol])
        else DecodeWalk(root, next, bits[1..], acc)
  }

  // ---------------------------------------------------------------------------
  // The code table

  /** The table has an entry for exactly the leaves of the tree. */
  lemma {:induction false} CodesKeys<S>(t: Node<S>, p: Code)
    ensures forall c :: c in CodesOf(t, p) ==> c in Leaves(t)
    ensures forall c :: c in Leaves(t) ==> c in CodesOf(t, p)
    ensures forall w :: w in ReverseOf(t, p) ==> IsPrefix(p, w) && |w| >= 1
  {
    match t
    case Leaf(_, _) =>
    case Internal(_, l, r) =>
      CodesKeys(l, p + "0");
      CodesKeys(r, p + "1");
      PrefixOfExtension(p, "0");
      PrefixOfExtension(p, "1");
  }

  lemma PrefixOfExtension(p: Code, b: Code)
    ensures forall w :: IsPrefix(p + b, w) ==> IsPrefix(p, w)
  {
    forall w | IsPrefix(p + b, w) ensures IsPrefix(p, w) {
      assert w[..|p|] == (p + b)[..|p|];
    }
  }

  /** Every code extends the path it was assigned under, by at least one bit when
      the subtree is internal; a lone leaf gets exactly LeafCode(p); codes are
      never empty and consist of bits when the path does. */
  lemma {:induction false} CodesExtend<S>(t: Node<S>, p: Code)
    ensures forall c :: c in CodesOf(t, p) ==>
      && IsPrefix(p, CodesOf(t, p)[c])
      && |CodesOf(t, p)[c]| >= 1
      && (t.Internal? ==> |CodesOf(t, p)[c]| > |p|)
      && (t.Leaf? ==> CodesOf(t, p)[c] == LeafCode(p))
      && (IsBits(p) ==> IsBits(CodesOf(t, p)[c]))
  {
    match t
    case Leaf(_, _) =>
    case Internal(_, l, r) =>
      CodesExtend(l, p + "0");
      CodesExtend(r, p + "1");
      PrefixOfExtension(p, "0");
      PrefixOfExtension(p, "1");
      assert IsBits(p) ==> IsBits(p + "0") && IsBits(p + "1");
  }

  /** Two code words that branch apart at position |p| are not prefixes of each other. */
  lemma Diverge(p: Code, a: Code, b: Code)
    requires IsPrefix(p + "0", a) && IsPrefix(p + "1", b)
    ensures !IsPrefix(a, b) && !IsPrefix(b, a)
  {
    assert a[|p|] == '0' by { assert a[..|p| + 1][|p|] == (p + "0")[|p|]; }
    assert b[|p|] == '1' by { assert b[..|p| + 1][|p|] == (p + "1")[|p|]; }
    if |a| <= |b| {
      assert b[..|a|][|p|] == b[|p|];
    }
    if |b| <= |a| {
      assert a[..|b|][|p|] == a[|p|];
    }
  }

  /** A word below the 0-edge after `p` is not below the 1-edge. */
  lemma NotBoth(p: Code, w: Code)
    requires IsPrefix(p + "0", w)
    ensures !IsPrefix(p + "1", w)
  {
    assert w[|p|] == '0' by { assert w[..|p| + 1][|p|] == (p + "0")[|p|]; }
    if |p + "1"| <= |w| {
      assert w[..|p| + 1][|p|] == w[|p|];
      assert (p + "1")[|p|] == '1';
    }
  }

  /** With distinct leaves the table is a prefix code. */
  lemma {:induction false} CodesPrefixFree<S>(t: Node<S>, p: Code)
    requires NoDup(Leaves(t))
    ensures PrefixFree(CodesOf(t, p))
  {
    match t
    case Leaf(_, _) =>
    case Internal(_, l, r) =>
      var p0, p1 := p + "0", p + "1";
      NoDupSplit(Leaves(l), Leaves(r));
      CodesPrefixFree(l, p0);
      CodesPrefixFree(r, p1);
      CodesKeys(l, p0);
      CodesKeys(r, p1);
      CodesExtend(l, p0);
      CodesExtend(r, p1);
      var L, R, m := CodesOf(l, p0), CodesOf(r, p1), CodesOf(t, p);
      forall a, b | a in m && b in m && a != b ensures !IsPrefix(m[a], m[b]) {
        if a in R && b in R {
        } else if a in R {
          Diverge(p, m[b], m[a]);
        } else if b in R {
          Diverge(p, m[a], m[b]);
        } else {
          assert a in L && b in L;
        }
      }
  }

  lemma NoDupSplit<S>(a: seq<S>, b: seq<S>)
    requires NoDup(a + b)
    ensures NoDup(a) && NoDup(b)
    ensures forall c :: c in a ==> c !in b
  {
    forall i, j | 0 <= i < j < |a| ensures a[i] != a[j] {
      assert (a + b)[i] == a[i] && (a + b)[j] == a[j];
    }
    forall i, j | 0 <= i < j < |b| ensures b[i] != b[j] {
      assert (a + b)[|a| + i] == b[i] && (a + b)[|a| + j] == b[j];
    }
    forall c | c in a ensures c !in b {
      var i :| 0 <= i < |a| && a[i] == c;
      forall j | 0 <= j < |b| ensures b[j] != c {
        assert (a + b)[i] == a[i] && (a + b)[|a| + j] == b[j];
      }
    }
  }

  /** Codes in the two subtrees of an internal node branch apart after the path. */
  lemma {:induction false} SubtreeCodes<S>(l: Node<S>, r: Node<S>, p: Code)
    requires NoDup(Leaves(l) + Leaves(r))
    ensures forall c :: c in CodesOf(l, p + "0") ==> c !in CodesOf(r, p + "1")
    ensures forall c :: c in CodesOf(l, p + "0") ==> CodesOf(l, p + "0")[c] !in ReverseOf(r, p + "1")
  {
    var p0, p1 := p + "0", p + "1";
    NoDupSplit(Leaves(l), Leaves(r));
    CodesKeys(l, p0);
    CodesKeys(r, p1);
    CodesExtend(l, p0);
    forall c | c in CodesOf(l, p0) ensures c !in CodesOf(r, p1) {
      assert c in Leaves(l);
    }
    forall c | c in CodesOf(l, p0) ensures CodesOf(l, p0)[c] !in ReverseOf(r, p1) {
      NotBoth(p, CodesOf(l, p0)[c]);
    }
  }

  /** reverse_codes is the exact inverse of codes. */
  lemma {:induction false} ReverseIsInverse<S>(t: Node<S>, p: Code)
    requires NoDup(Leaves(t))
    ensures forall c :: c in CodesOf(t, p) ==>
      CodesOf(t, p)[c] in ReverseOf(t, p) && ReverseOf(t, p)[CodesOf(t, p)[c]] == c
    ensures forall w :: w in ReverseOf(t, p) ==>
      ReverseOf(t, p)[w] in CodesOf(t, p) && CodesOf(t, p)[ReverseOf(t, p)[w]] == w
  {
    match t
    case Leaf(_, _) =>
    case Internal(_, l, r) =>
      var p0, p1 := p + "0", p + "1";
      NoDupSplit(Leaves(l), Leaves(r));
      ReverseIsInverse(l, p0);
      ReverseIsInverse(r, p1);
      SubtreeCodes(l, r, p);
      var L, R, RL, RR := CodesOf(l, p0), CodesOf(r, p1), ReverseOf(l, p0), ReverseOf(r, p1);
      var m, rm := CodesOf(t, p), ReverseOf(t, p);
      assert m == L + R && rm == RL + RR;
      forall c | c in m ensures m[c] in rm && rm[m[c]] == c {
        if c !in R {
          assert m[c] == L[c] && L[c] !in RR;
        }
      }
      forall w | w in rm ensures rm[w] in m && m[rm[w]] == w {
        if w !in RR {
          assert rm[w] == RL[w] && RL[w] in L && RL[w] !in R;
        }
      }
  }

  // ---------------------------------------------------------------------------
  // Encode and the tree-walking decoder

  /** encode distributes over concatenation of texts. */
  lemma {:induction false} EncodeAppend<S>(codes: map<S, Code>, a: seq<S>, b: seq<S>)
    ensures EncodeWith(codes, a + b) == EncodeWith(codes, a) + EncodeWith(codes, b)
  {
    if a == [] {
      assert a + b == b;
    } else {
      assert (a + b)[0] == a[0] && (a + b)[1..] == a[1..] + b;
      EncodeAppend(codes, a[1..], b);
    }
  }

  /** Walking the part of a symbol's code below an internal cursor emits exactly
      that symbol and puts the cursor back at the root. */
  lemma {:induction false} WalkCode<S>(root: Node<S>, t: Node<S>, p: Code, c: S, rest: seq<char>, acc: seq<S>)
    requires t.Internal? && NoDup(Leaves(t)) && c in Leaves(t)
    ensures c in CodesOf(t, p) && IsPrefix(p, CodesOf(t, p)[c])
    ensures DecodeWalk(root, t, CodesOf(t, p)[c][|p|..] + rest, acc) == DecodeWalk(root, root, rest, acc + [c])
    decreases t, 0
  {
    CodesKeys(t, p);
    CodesExtend(t, p);
    var l, r := t.left, t.right;
    SubtreeCodes(l, r, p);
    NoDupSplit(Leaves(l), Leaves(r));
    CodesKeys(l, p + "0");
    if c in Leaves(l) {
      assert CodesOf(t, p)[c] == CodesOf(l, p + "0")[c];
      WalkChild(root, t, l, p, '0', c, rest, acc);
    } else {
      CodesKeys(r, p + "1");
      assert CodesOf(t, p)[c] == CodesOf(r, p + "1")[c];
      WalkChild(root, t, r, p, '1', c, rest, acc);
    }
  }

  /** One edge of WalkCode: the child `u` is reached from `t` along bit `b`. */
  lemma {:induction false} WalkChild<S>(root: Node<S>, t: Node<S>, u: Node<S>, p: Code, b: char, c: S, rest: seq<char>, acc: seq<S>)
    requires t.Internal? && (b == '0' || b == '1')
    requires u == if b == '0' then t.left else t.right
    requires NoDup(Leaves(u)) && c in CodesOf(u, p + [b])
    ensures IsPrefix(p + [b], CodesOf(u, p + [b])[c])
    ensures DecodeWalk(root, t, CodesOf(u, p + [b])[c][|p|..] + rest, acc) == DecodeWalk(root, root, rest, acc + [c])
    decreases u, 1
  {
    var pb := p + [b];
    CodesExtend(u, pb);
    var w := CodesOf(u, pb)[c];
    var more := w[|pb|..] + rest;
    assert w[..|pb|] == pb;
    assert w[|p|..] + rest == [b] + more by {
      assert w[|p|..] == [b] + w[|pb|..];
    }
    StepDecode(root, t, b, more, acc);
    CodesKeys(u, pb);
    if u.Leaf? {
      assert w == pb;
      assert more == rest;
    } else {
      WalkCode(root, u, pb, c, rest, acc);
    }
  }

  /** One bit of the decode loop at an internal cursor. */
  lemma StepDecode<S>(root: Node<S>, t: Node<S>, b: char, more: seq<char>, acc: seq<S>)
    requires t.Internal?
    ensures var next := if b == '0' then t.left else t.right;
      DecodeWalk(root, t, [b] + more, acc) ==
        if next.IsLeaf() then DecodeWalk(root, root, more, acc + [next.symbol])
        else DecodeWalk(root, next, more, acc)
  {
    assert ([b] + more)[0] == b && ([b] + more)[1..] == more;
  }

  /** decode(encode(text)) == text when the root is internal (at least two distinct
      symbols), the leaves are distinct and every symbol of the text has a leaf. */
  lemma {:induction false} DecodeEncode<S>(root: Node<S>, text: seq<S>, acc: seq<S>)
    requires root.Internal? && NoDup(Leaves(root))
    requires forall i :: 0 <= i < |text| ==> text[i] in Leaves(root)
    ensures DecodeWalk(root, root, EncodeWith(CodesOf(root, []), text), acc) == Some(acc + text)
  {
    if text == [] {
      assert acc + text == acc;
    } else {
      var codes := CodesOf(root, []);
      var c, tail := text[0], text[1..];
      var rest := EncodeWith(codes, tail);
      assert c in Leaves(root);
      WalkSymbol(root, c, rest, acc);
      assert forall i :: 0 <= i < |tail| ==> tail[i] == text[i + 1];
      DecodeEncode(root, tail, acc + [c]);
      calc {
        DecodeWalk(root, root, EncodeWith(codes, text), acc);
        DecodeWalk(root, root, codes[c] + rest, acc);
        DecodeWalk(root, root, rest, acc + [c]);
        Some(acc + [c] + tail);
        { assert acc + [c] + tail == acc + text; }
        Some(acc + text);
      }
    }
  }

  /** Walking one whole code word from the root emits its symbol. */
  lemma WalkSymbol<S>(root: Node<S>, c: S, rest: seq<char>, acc: seq<S>)
    requires root.Internal? && NoDup(Leaves(root)) && c in Leaves(root)
    ensures c in CodesOf(root, [])
    ensures DecodeWalk(root, root, CodesOf(root, [])[c] + rest, acc) == DecodeWalk(root, root, rest, acc + [c])
  {
    WalkCode(root, root, [], c, rest, acc);
    assert CodesOf(root, [])[c][0..] == CodesOf(root, [])[c];
  }

  // ---------------------------------------------------------------------------
  // The tables and round trips for the tree of a text

  /** The code table build_tree leaves for a non-empty text: an entry for exactly
      the distinct symbols, a prefix code of non-empty bit strings, reverse_codes its
      exact inverse, and the single code "0" when there is only one symbol. */
  lemma CodeTableProperties<S>(text: seq<S>)
    requires text != []
    ensures var t := HuffmanTreeOf(text).value;
      var codes, rev := CodesOf(t, []), ReverseOf(t, []);
      && (forall c :: c in codes <==> c in text)
      && PrefixFree(codes)
      && (forall c :: c in codes ==> codes[c] != [] && IsBits(codes[c]))
      && (forall c :: c in codes ==> codes[c] in rev && rev[codes[c]] == c)
      && (forall w :: w in rev ==> rev[w] in codes && codes[rev[w]] == w)
      && (|Distinct(text)| == 1 ==> codes == map[text[0] := "0"])
  {
    HuffmanTreeProperties(text);
    var t := HuffmanTreeOf(text).value;
    CodesKeys(t, []);
    CodesExtend(t, []);
    CodesPrefixFree(t, []);
    ReverseIsInverse(t, []);
    assert IsBits([]);
    if |Distinct(text)| == 1 {
      assert text[0] in Leaves(t);
    }
  }

  /** decode(encode(text)) == text for a text with at least two distinct symbols,
      using the tree and codes build_tree produced for it. */
  lemma TreeRoundTrip<S>(text: seq<S>)
    requires |Distinct(text)| >= 2
    ensures text != []
    ensures var t := HuffmanTreeOf(text).value;
      DecodeWalk(t, t, EncodeWith(CodesOf(t, []), text), []) == Some(text)
  {
    HuffmanTreeProperties(text);
    var t := HuffmanTreeOf(text).value;
    forall i | 0 <= i < |text| ensures text[i] in Leaves(t) {
      assert text[i] in text;
    }
    DecodeEncode(t, text, []);
    assert [] + text == text;
  }

  /** A text of one repeated symbol encodes to one '0' per symbol. */
  lemma {:induction false} EncodeRepeated<S>(c: S, text: seq<S>)
    requires forall i :: 0 <= i < |text| ==> text[i] == c
    ensures EncodeWith(map[c := "0"], text) == seq(|text|, _ => '0')
  {
    if text != [] {
      EncodeRepeated(c, text[1..]);
      assert seq(|text|, _ => '0') == "0" + seq(|text| - 1, _ => '0');
    }
  }

  /** As written, decode fails on every non-empty text with a single distinct
      symbol: the root is a leaf, so the first bit moves the cursor to a missing
      child. */
  lemma SingleSymbolDecodeFails<S>(text: seq<S>)
    requires text != [] && |Distinct(text)| == 1
    ensures var t := HuffmanTreeOf(text).value;
      && t.Leaf?
      && EncodeWith(CodesOf(t, []), text) == seq(|text|, _ => '0')
      && DecodeWalk(t, t, EncodeWith(CodesOf(t, []), text), []) == None
  {
    HuffmanTreeProperties(text);
    CodeTableProperties(text);
    var t := HuffmanTreeOf(text).value;
    forall i | 0 <= i < |text| ensures text[i] == text[0] {
      assert text[i] in text && text[0] in text;
    }
    EncodeRepeated(text[0], text);
  }

  /** The code table build_tree leaves behind: the codes of the tree, or the empty
      table for an empty text, which has no tree. */
  function CodeTable<S(==)>(text: seq<S>): map<S, Code> {
    if HuffmanTreeOf(text).Some? then CodesOf(HuffmanTreeOf(text).value, []) else map[]
  }

  /** decode with the single-leaf case handled: without a tree the result is empty,
      as decode returns '' then; with a lone leaf each bit stands for its symbol, as
      "0" is its code. */
  function DecodeFixed<S>(root: Option<Node<S>>, bits: seq<char>): Option<seq<S>> {
    match root
    case None => Some([])
    case Some(t) =>
      if t.Leaf? then Some(seq(|bits|, _ => t.symbol))
      else DecodeWalk(t, t, bits, [])
  }

  /** With the single-leaf case handled, decode(encode(text)) == text for every
      text: the empty text has no tree and encodes to no bits. */
  lemma FixedRoundTrip<S>(text: seq<S>)
    ensures DecodeFixed(HuffmanTreeOf(text), EncodeWith(CodeTable(text), text)) == Some(text)
  {
    HuffmanTreeProperties(text);
    if text != [] {
      var t := HuffmanTreeOf(text).value;
      if |Distinct(text)| >= 2 {
        TreeRoundTrip(text);
      } else {
        assert text[0] in Distinct(text);
        FixedSingle(text);
      }
    }
  }

  lemma FixedSingle<S>(text: seq<S>)
    requires text != [] && |Distinct(text)| == 1
    ensures var t := HuffmanTreeOf(text).value;
      DecodeFixed(Some(t), EncodeWith(CodesOf(t, []), text)) == Some(text)
  {
    SingleSymbolDecodeFails(text);
    HuffmanTreeProperties(text);
    var t := HuffmanTreeOf(text).value;
    var bits := EncodeWith(CodesOf(t, []), text);
    assert |bits| == |text|;
    assert Leaves(t) == [t.symbol];
    forall i | 0 <= i < |text| ensures text[i] == t.symbol {
      assert text[i] in text;
      assert text[i] in Leaves(t);
    }
    assert seq(|bits|, _ => t.symbol) == text;
  }
}
