/** Symbol counting: the reference definitions behind HuffmanCoding.calculate_frequency
    (huffman.py).  A text is a sequence of symbols; its frequency dictionary is
    insertion-ordered, so the order of first occurrence matters as much as the counts. */
module Frequency {

  /** No symbol occurs twice. */
  ghost predicate NoDup<S>(s: seq<S>) {
    forall i, j :: 0 <= i < j < |s| ==> s[i] != s[j]
  }

  /** The number of occurrences of `c` in `s`. */
  function Count<S(==)>(s: seq<S>, c: S): (n: nat)
    ensures n > 0 <==> c in s
    ensures n <= |s|
  {
    if s == [] then 0
    else Count(s[..|s| - 1], c) + (if s[|s| - 1] == c then 1 else 0)
  }

  /** The distinct symbols of `s`, in order of first occurrence (the key order of
      a Python dict filled by scanning `s` from the left). */
  function Distinct<S(==)>(s: seq<S>): (d: seq<S>)
    ensures forall i :: 0 <= i < |s| ==> s[i] in d
    ensures forall i :: 0 <= i < |d| ==> d[i] in s
    ensures NoDup(d)
    ensures |d| <= |s|
  {
    if s == [] then []
    else
      var d := Distinct(s[..|s| - 1]);
      if s[|s| - 1] in d then d else d + [s[|s| - 1]]
  }

  /** The index of the first occurrence of `c` in `s`. */
  function FirstIndex<S(==)>(s: seq<S>, c: S): (k: nat)
    requires c in s
    ensures k < |s| && s[k] == c && c !in s[..k]
  {
    if c in s[..|s| - 1] then FirstIndex(s[..|s| - 1], c)
    else |s| - 1
  }

  /** The keys of `Distinct(s)` come in the order of their first occurrences in `s`:
      a key listed earlier was first seen earlier. */
  lemma {:induction false} DistinctFirstOccurrence<S>(s: seq<S>)
    ensures forall i, j :: 0 <= i < j < |Distinct(s)| ==>
      FirstIndex(s, Distinct(s)[i]) < FirstIndex(s, Distinct(s)[j])
  {
    if s != [] {
      var init := s[..|s| - 1];
      DistinctFirstOccurrence(init);
      var d, d' := Distinct(init), Distinct(s);
      forall c | c in init ensures FirstIndex(s, c) == FirstIndex(init, c) {
        assert s[..|s| - 1] == init;
      }
      forall i, j | 0 <= i < j < |d'|
        ensures FirstIndex(s, d'[i]) < FirstIndex(s, d'[j])
      {
        assert d'[i] in init by {
          assert d'[i] == d[i];
        }
        if j < |d| {
          assert d'[j] == d[j] && d'[i] == d[i];
          assert d[j] in init;
        } else {
          assert d'[j] == s[|s| - 1] && d'[j] !in init;
        }
      }
    }
  }

  /** The counts as a map from each symbol of `s` to its number of occurrences. */
  function CountMap<S(==)>(s: seq<S>): (m: map<S, nat>)
    ensures m.Keys == set c | c in s
    ensures forall c :: c in m ==> m[c] == Count(s, c) && m[c] > 0
  {
    map c | c in s :: Count(s, c)
  }

  /** The sum of the counts of `keys` in `s`. */
  function SumCounts<S(==)>(keys: seq<S>, s: seq<S>): nat {
    if keys == [] then 0
    else SumCounts(keys[..|keys| - 1], s) + Count(s, keys[|keys| - 1])
  }

  /** Appending one symbol `x` to the text raises the sum over `keys` by the
      number of times `x` is among the keys. */
  lemma {:induction false} SumCountsSnoc<S>(keys: seq<S>, s: seq<S>, x: S)
    ensures SumCounts(keys, s + [x]) == SumCounts(keys, s) + Count(keys, x)
  {
    if keys != [] {
      var init := keys[..|keys| - 1];
      SumCountsSnoc(init, s, x);
      assert (s + [x])[..|s + [x]| - 1] == s;
    }
  }

  /** In a sequence without duplicates a member occurs exactly once. */
  lemma {:induction false} CountNoDup<S>(d: seq<S>, x: S)
    requires NoDup(d)
    ensures Count(d, x) == if x in d then 1 else 0
  {
    if d != [] {
      var init := d[..|d| - 1];
      assert NoDup(init);
      CountNoDup(init, x);
      if d[|d| - 1] == x {
        assert x !in init;
      } else {
        assert x in d ==> x in init by {
          if x in d {
            var i :| 0 <= i < |d| && d[i] == x;
            assert i < |d| - 1 && init[i] == x;
          }
        }
      }
    }
  }

  /** The counts of the distinct symbols of a text add up to the length of the text. */
  lemma {:induction false} FrequencySum<S>(s: seq<S>)
    ensures SumCounts(Distinct(s), s) == |s|
  {
    if s != [] {
      var init, x := s[..|s| - 1], s[|s| - 1];
      assert s == init + [x];
      var d := Distinct(init);
      FrequencySum(init);
      SumCountsSnoc(d, init, x);
      CountNoDup(d, x);
      if x !in d {
        assert (d + [x])[..|d + [x]| - 1] == d;
        assert Count(s, x) == Count(init, x) + 1;
        assert Count(init, x) == 0;
      }
    }
  }
}
