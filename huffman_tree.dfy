/** The Huffman tree of huffman.py (class Node) and the reference definition of
    HuffmanCoding.build_tree: seed a frequency-sorted list with one leaf per distinct
    symbol, then repeatedly merge its two cheapest nodes and reinsert the result. */
module HuffmanTree {
  import opened Frequency

  /** A tree node. Internal nodes always have both children (build_tree only ever
      creates them by merging two nodes); a leaf carries its symbol. */
  datatype Node<S> = Leaf(symbol: S, freq: nat) | Internal(freq: nat, left: Node<S>, right: Node<S>)
  {
    /** Node.is_leaf: no children. */
    predicate IsLeaf() {
      Leaf?
    }
  }

  /** The symbols at the leaves, left to right. */
  function Leaves<S>(t: Node<S>): (r: seq<S>)
    ensures |r| >= 1
    ensures t.Internal? ==> |r| >= 2
  {
    match t
    case Leaf(c, _) => [c]
    case Internal(_, l, r) => Leaves(l) + Leaves(r)
  }

  /** The frequency-sum invariant: every internal node's frequency is the sum of its
      children's. */
  ghost predicate WellFormed<S>(t: Node<S>) {
    match t
    case Leaf(_, _) => true
    case Internal(f, l, r) => f == l.freq + r.freq && WellFormed(l) && WellFormed(r)
  }

  /** Every leaf carries the number of occurrences of its symbol in `text`. */
  ghost predicate LeafCounts<S>(t: Node<S>, text: seq<S>) {
    match t
    case Leaf(c, f) => f == Count(text, c)
    case Internal(_, l, r) => LeafCounts(l, text) && LeafCounts(r, text)
  }

  /** The leaves of every node of a list, concatenated in list order. */
  function LeavesOf<S>(s: seq<Node<S>>): seq<S> {
    if s == [] then [] else Leaves(s[0]) + LeavesOf(s[1..])
  }

  /** The sum of the frequencies of a list of nodes. */
  function SumFreq<S>(s: seq<Node<S>>): nat {
    if s == [] then 0 else s[0].freq + SumFreq(s[1..])
  }

  /** Non-decreasing frequency order: the ChainedList invariant. */
  ghost predicate Sorted<S>(s: seq<Node<S>>) {
    forall i, j :: 0 <= i < j < |s| ==> s[i].freq <= s[j].freq
  }

  // ---------------------------------------------------------------------------
  // Sorted insertion (ChainedList.insert_sorted)

  /** Where insert_sorted puts a node of frequency `f`: in front of the first node
      whose frequency is at least `f` (`>=` at the head, strict `<` while scanning). */
  function InsertPos<S>(s: seq<Node<S>>, f: nat): (k: nat)
    ensures k <= |s|
    ensures forall i :: 0 <= i < k ==> s[i].freq < f
    ensures k < |s| ==> s[k].freq >= f
  {
    if s == [] || s[0].freq >= f then 0 else 1 + InsertPos(s[1..], f)
  }

  /** The list after insert_sorted(t). */
  function InsertSorted<S>(s: seq<Node<S>>, t: Node<S>): (r: seq<Node<S>>)
    ensures |r| == |s| + 1
  {
    var k := InsertPos(s, t.freq);
    s[..k] + [t] + s[k..]
  }

  /** The list after insertion, element by element. */
  lemma InsertSortedAt<S>(s: seq<Node<S>>, t: Node<S>)
    ensures var k, r := InsertPos(s, t.freq), InsertSorted(s, t);
      && |r| == |s| + 1
      && r[k] == t
      && (forall i :: 0 <= i < k ==> r[i] == s[i])
      && (forall i :: k < i < |r| ==> r[i] == s[i - 1])
  {
  }

  /** Inserting keeps the list sorted, adds exactly one node and loses none. */
  lemma InsertSortedProperties<S>(s: seq<Node<S>>, t: Node<S>)
    ensures |InsertSorted(s, t)| == |s| + 1
    ensures multiset(InsertSorted(s, t)) == multiset(s) + multiset{t}
    ensures Sorted(s) ==> Sorted(InsertSorted(s, t))
  {
    var k := InsertPos(s, t.freq);
    assert s == s[..k] + s[k..];
    if Sorted(s) {
      InsertKeepsOrder(s, t);
    }
  }

  lemma InsertKeepsOrder<S>(s: seq<Node<S>>, t: Node<S>)
    requires Sorted(s)
    ensures Sorted(InsertSorted(s, t))
  {
    var k := InsertPos(s, t.freq);
    var r := InsertSorted(s, t);
    InsertSortedAt(s, t);
    forall i, j | 0 <= i < j < |r| ensures r[i].freq <= r[j].freq {
      if j < k {
        assert r[i] == s[i] && r[j] == s[j];
      } else if j == k {
        assert r[i] == s[i];
      } else if i == k {
        assert r[j] == s[j - 1];
      } else if i < k {
        assert r[i] == s[i] && r[j] == s[j - 1];
      } else {
        assert r[i] == s[i - 1] && r[j] == s[j - 1];
      }
    }
  }

  /** Ties: the inserted node lands in front of every node of equal frequency that
      was already in the list; everything before it is strictly cheaper and the
      order of the old nodes is kept. */
  lemma InsertBeforeEqual<S>(s: seq<Node<S>>, t: Node<S>, i: nat)
    requires i < |s| && s[i].freq == t.freq
    ensures var k := InsertPos(s, t.freq);
      && InsertSorted(s, t)[k] == t
      && k <= i
      && InsertSorted(s, t)[i + 1] == s[i]
  {
  }

  /** insert_sorted's scan stops exactly at InsertPos: the first index whose
      frequency is not below `f`. */
  lemma InsertPosUnique<S>(s: seq<Node<S>>, f: nat, k: nat)
    requires k <= |s|
    requires forall i :: 0 <= i < k ==> s[i].freq < f
    requires k < |s| ==> s[k].freq >= f
    ensures InsertPos(s, f) == k
  {
  }

  lemma {:induction false} LeavesOfAppend<S>(a: seq<Node<S>>, b: seq<Node<S>>)
    ensures LeavesOf(a + b) == LeavesOf(a) + LeavesOf(b)
  {
    if a != [] {
      assert (a + b)[0] == a[0];
      assert (a + b)[1..] == a[1..] + b;
      LeavesOfAppend(a[1..], b);
      assert LeavesOf(a) == Leaves(a[0]) + LeavesOf(a[1..]);
      calc {
        LeavesOf(a + b);
        Leaves(a[0]) + LeavesOf(a[1..] + b);
        Leaves(a[0]) + (LeavesOf(a[1..]) + LeavesOf(b));
        (Leaves(a[0]) + LeavesOf(a[1..])) + LeavesOf(b);
      }
    } else {
      assert a + b == b;
    }
  }

  lemma {:induction false} SumFreqAppend<S>(a: seq<Node<S>>, b: seq<Node<S>>)
    ensures SumFreq(a + b) == SumFreq(a) + SumFreq(b)
  {
    if a != [] {
      assert (a + b)[0] == a[0];
      assert (a + b)[1..] == a[1..] + b;
      SumFreqAppend(a[1..], b);
    } else {
      assert a + b == b;
    }
  }

  /** Inserting a node adds its leaves and its frequency to the list's. */
  lemma InsertSortedSums<S>(s: seq<Node<S>>, t: Node<S>)
    ensures multiset(LeavesOf(InsertSorted(s, t))) == multiset(LeavesOf(s)) + multiset(Leaves(t))
    ensures SumFreq(InsertSorted(s, t)) == SumFreq(s) + t.freq
  {
    var k := InsertPos(s, t.freq);
    assert s == s[..k] + s[k..];
    LeavesOfAppend(s[..k] + [t], s[k..]);
    LeavesOfAppend(s[..k], [t]);
    LeavesOfAppend(s[..k], s[k..]);
    SumFreqAppend(s[..k] + [t], s[k..]);
    SumFreqAppend(s[..k], [t]);
    SumFreqAppend(s[..k], s[k..]);
    assert LeavesOf([t]) == Leaves(t);
  }

  // ---------------------------------------------------------------------------
  // build_tree

  /** The list after seeding it with one leaf per key, in key order. */
  function SeedList<S>(keys: seq<S>, counts: map<S, nat>): seq<Node<S>>
    requires forall i :: 0 <= i < |keys| ==> keys[i] in counts
  {
    if keys == [] then []
    else
      var last := keys[|keys| - 1];
      InsertSorted(SeedList(keys[..|keys| - 1], counts), Leaf(last, counts[last]))
  }

  /** The node that merges the two cheapest nodes at the front of a list. */
  function Merge<S>(left: Node<S>, right: Node<S>): Node<S> {
    Internal(left.freq + right.freq, left, right)
  }

  /** One round of the merge loop. */
  function MergeStep<S>(s: seq<Node<S>>): seq<Node<S>>
    requires |s| >= 2
  {
    InsertSorted(s[2..], Merge(s[0], s[1]))
  }

  /** The merge loop run to the end: the last remaining node. */
  function MergeAll<S>(s: seq<Node<S>>): Node<S>
    requires |s| >= 1
    decreases |s|
  {
    if |s| == 1 then s[0]
    else MergeAll(MergeStep(s))
  }

  /** The tree build_tree returns for `text`: none for an empty text. */
  function HuffmanTreeOf<S(==)>(text: seq<S>): Option<Node<S>> {
    var keys := Distinct(text);
    if keys == [] then None
    else Some(MergeAll(SeedList(keys, CountMap(text))))
  }

  datatype Option<T> = None | Some(value: T)

  /** What holds of every list that build_tree's loops work on, for the keys seeded
      so far: sorted, well formed, leaves counted, and leaves and frequencies
      accounting exactly for those keys. */
  ghost predicate ListInv<S>(s: seq<Node<S>>, keys: seq<S>, text: seq<S>) {
    && Sorted(s)
    && (forall i :: 0 <= i < |s| ==> WellFormed(s[i]) && LeafCounts(s[i], text))
    && multiset(LeavesOf(s)) == multiset(keys)
    && SumFreq(s) == SumCounts(keys, text)
  }

  lemma InsertInv<S>(s: seq<Node<S>>, t: Node<S>, keys: seq<S>, extra: seq<S>, text: seq<S>)
    requires Sorted(s)
    requires forall i :: 0 <= i < |s| ==> WellFormed(s[i]) && LeafCounts(s[i], text)
    requires WellFormed(t) && LeafCounts(t, text)
    requires multiset(LeavesOf(s)) + multiset(Leaves(t)) == multiset(keys + extra)
    ensures var r := InsertSorted(s, t);
      && Sorted(r)
      && (forall i :: 0 <= i < |r| ==> WellFormed(r[i]) && LeafCounts(r[i], text))
      && multiset(LeavesOf(r)) == multiset(keys + extra)
      && SumFreq(r) == SumFreq(s) + t.freq
  {
    var r := InsertSorted(s, t);
    InsertSortedProperties(s, t);
    InsertSortedSums(s, t);
    forall i | 0 <= i < |r| ensures WellFormed(r[i]) && LeafCounts(r[i], text) {
      assert r[i] in multiset(s) + multiset{t};
      if r[i] != t {
        assert r[i] in s;
      }
    }
  }

  lemma {:induction false} SeedListInv<S>(keys: seq<S>, text: seq<S>)
    requires forall i :: 0 <= i < |keys| ==> keys[i] in text
    ensures forall i :: 0 <= i < |keys| ==> keys[i] in CountMap(text)
    ensures ListInv(SeedList(keys, CountMap(text)), keys, text)
    ensures |SeedList(keys, CountMap(text))| == |keys|
  {
    var counts := CountMap(text);
    if keys != [] {
      var init, last := keys[..|keys| - 1], keys[|keys| - 1];
      assert keys == init + [last];
      SeedListInv(init, text);
      var s := SeedList(init, counts);
      var t := Leaf(last, counts[last]);
      InsertInv(s, t, init, [last], text);
      InsertSortedProperties(s, t);
    }
  }

  lemma MergeStepInv<S>(s: seq<Node<S>>, keys: seq<S>, text: seq<S>)
    requires |s| >= 2
    requires ListInv(s, keys, text)
    ensures ListInv(MergeStep(s), keys, text)
    ensures |MergeStep(s)| == |s| - 1
  {
    var rest, m := s[2..], Merge(s[0], s[1]);
    assert s == [s[0], s[1]] + rest;
    LeavesOfAppend([s[0], s[1]], rest);
    SumFreqAppend([s[0], s[1]], rest);
    assert LeavesOf([s[0], s[1]]) == Leaves(s[0]) + Leaves(s[1]);
    assert Sorted(rest) by {
      forall i, j | 0 <= i < j < |rest| ensures rest[i].freq <= rest[j].freq {
        assert rest[i] == s[i + 2] && rest[j] == s[j + 2];
      }
    }
    InsertInv(rest, m, keys, [], text);
    InsertSortedProperties(rest, m);
    assert keys + [] == keys;
  }

  lemma {:induction false} MergeAllInv<S>(s: seq<Node<S>>, keys: seq<S>, text: seq<S>)
    requires |s| >= 1
    requires ListInv(s, keys, text)
    ensures ListInv([MergeAll(s)], keys, text)
    decreases |s|
  {
    if |s| > 1 {
      MergeStepInv(s, keys, text);
      MergeAllInv(MergeStep(s), keys, text);
      assert MergeAll(s) == MergeAll(MergeStep(s));
    } else {
      assert s == [MergeAll(s)];
    }
  }

  lemma MultisetNoDup<S>(a: seq<S>, b: seq<S>)
    requires multiset(a) == multiset(b) && NoDup(b)
    ensures NoDup(a)
  {
    forall i, j | 0 <= i < j < |a| ensures a[i] != a[j] {
      MultisetAtMostOnce(b, a[i]);
      if a[i] == a[j] {
        MultisetTwice(a, i, j);
      }
    }
  }

  lemma MultisetTwice<S>(a: seq<S>, i: nat, j: nat)
    requires i < j < |a| && a[i] == a[j]
    ensures multiset(a)[a[i]] >= 2
  {
    var x := a[i];
    assert a == a[..i] + [x] + a[i + 1..j] + [x] + a[j + 1..];
  }

  lemma {:induction false} MultisetAtMostOnce<S>(b: seq<S>, x: S)
    requires NoDup(b)
    ensures multiset(b)[x] <= 1
  {
    if b != [] {
      assert b == [b[0]] + b[1..];
      assert NoDup(b[1..]);
      MultisetAtMostOnce(b[1..], x);
      if b[0] == x {
        assert x !in b[1..];
      }
    }
  }

  /** The root produced for a non-empty text, with the facts the merge loop keeps. */
  lemma RootInv<S>(text: seq<S>)
    requires text != []
    ensures Distinct(text) != []
    ensures var t := MergeAll(SeedList(Distinct(text), CountMap(text)));
      && WellFormed(t)
      && LeafCounts(t, text)
      && multiset(Leaves(t)) == multiset(Distinct(text))
      && t.freq == |text|
  {
    var keys := Distinct(text);
    assert text[0] in keys;
    SeedListInv(keys, text);
    var s := SeedList(keys, CountMap(text));
    MergeAllInv(s, keys, text);
    SingletonInv(MergeAll(s), keys, text);
    FrequencySum(text);
  }

  lemma SingletonInv<S>(t: Node<S>, keys: seq<S>, text: seq<S>)
    requires ListInv([t], keys, text)
    ensures WellFormed(t) && LeafCounts(t, text)
    ensures multiset(Leaves(t)) == multiset(keys)
    ensures t.freq == SumCounts(keys, text)
  {
    assert [t][0] == t;
    assert LeavesOf([t]) == Leaves(t);
    assert SumFreq([t]) == t.freq;
  }

  /** Sequences with the same multiset have the same members. */
  lemma SameMembers<S>(a: seq<S>, b: seq<S>, text: seq<S>)
    requires multiset(a) == multiset(b)
    requires forall i :: 0 <= i < |text| ==> text[i] in b
    requires forall i :: 0 <= i < |b| ==> b[i] in text
    ensures forall c :: c in a <==> c in text
    ensures |a| == |b|
  {
    forall c ensures c in a <==> c in text {
      assert c in a <==> c in multiset(a);
      assert c in b <==> c in multiset(b);
      if c in b {
        var i :| 0 <= i < |b| && b[i] == c;
      }
      if c in text {
        var i :| 0 <= i < |text| && text[i] == c;
      }
    }
    assert |multiset(a)| == |multiset(b)|;
  }

  /** build_tree's result: none exactly for the empty text; otherwise a tree in
      which every internal node's frequency is the sum of its children's, the root's
      frequency is the text length, the leaves are the distinct symbols of the text,
      each exactly once and with its count, and the root is a leaf exactly when the
      text has a single distinct symbol. */
  lemma HuffmanTreeProperties<S>(text: seq<S>)
    ensures HuffmanTreeOf(text).None? <==> text == []
    ensures HuffmanTreeOf(text).Some? ==>
      var t := HuffmanTreeOf(text).value;
      && WellFormed(t)
      && t.freq == |text|
      && LeafCounts(t, text)
      && multiset(Leaves(t)) == multiset(Distinct(text))
      && NoDup(Leaves(t))
      && (forall c :: c in Leaves(t) <==> c in text)
      && (t.Internal? <==> |Distinct(text)| >= 2)
  {
    if text != [] {
      RootInv(text);
      var keys := Distinct(text);
      var t := HuffmanTreeOf(text).value;
      MultisetNoDup(Leaves(t), keys);
      SameMembers(Leaves(t), keys, text);
    }
  }
}
