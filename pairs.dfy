/** The index pairs (i, j) with i < j, in the order the nested loops of
    partial_corr and main visit them: by i, then by j. */
module Pairs {

  /** The pairs (i, k) with i < k < j, by increasing k: what row i of the
      loops has produced by the time the inner index reaches j. */
  function Row(i: nat, j: nat): (s: seq<(nat, nat)>)
    ensures |s| == if i < j then j - i - 1 else 0
    ensures forall k :: 0 <= k < |s| ==> s[k] == (i, i + 1 + k)
  {
    seq(if i < j then j - i - 1 else 0, k requires 0 <= k => (i, i + 1 + k))
  }

  /** All pairs of the rows 0 .. i-1 of a p-by-p upper triangle. */
  function PairsBefore(i: nat, p: nat): (s: seq<(nat, nat)>)
    ensures forall k :: 0 <= k < |s| ==> s[k].0 < i && s[k].0 < s[k].1 < p
  {
    if i == 0 then [] else PairsBefore(i - 1, p) + Row(i - 1, p)
  }

  /** Every pair i < j < p, ordered by i and then j. */
  function PairOrder(p: nat): (s: seq<(nat, nat)>)
    ensures forall k :: 0 <= k < |s| ==> s[k].0 < s[k].1 < p
  {
    PairsBefore(p, p)
  }

  /** Lexicographic order on pairs. */
  predicate LexLess(a: (nat, nat), b: (nat, nat)) {
    a.0 < b.0 || (a.0 == b.0 && a.1 < b.1)
  }

  /** The rows before i hold exactly the pairs x.0 < x.1 < p with x.0 < i. */
  lemma {:induction false} PairsBeforeMembers(i: nat, p: nat)
    ensures forall x :: x in PairsBefore(i, p) <==> x.0 < i && x.0 < x.1 < p
  {
    if i > 0 {
      PairsBeforeMembers(i - 1, p);
      var s := PairsBefore(i, p);
      assert s == PairsBefore(i - 1, p) + Row(i - 1, p);
      forall x: (nat, nat) | x.0 == i - 1 && x.0 < x.1 < p ensures x in s {
        assert Row(i - 1, p)[x.1 - i] == x;
      }
    }
  }

  /** The rows before i are in strictly increasing lexicographic order. */
  lemma {:induction false} PairsBeforeSorted(i: nat, p: nat)
    ensures forall a, b :: 0 <= a < b < |PairsBefore(i, p)| ==>
              LexLess(PairsBefore(i, p)[a], PairsBefore(i, p)[b])
  {
    if i > 0 {
      PairsBeforeSorted(i - 1, p);
      var front, row := PairsBefore(i - 1, p), Row(i - 1, p);
      var s := PairsBefore(i, p);
      assert s == front + row;
      forall a, b | 0 <= a < b < |s| ensures LexLess(s[a], s[b]) {
        if b < |front| {
          assert s[a] == front[a] && s[b] == front[b];
        } else if a < |front| {
          assert s[a] == front[a] && s[b] == row[b - |front|];
        } else {
          assert s[a] == row[a - |front|] && s[b] == row[b - |front|];
        }
      }
    }
  }

  /** Twice the number of pairs in the rows before i. */
  lemma {:induction false} PairsBeforeLength(i: nat, p: nat)
    requires i <= p
    ensures 2 * |PairsBefore(i, p)| == i * (2 * p - i - 1)
  {
    if i > 0 {
      PairsBeforeLength(i - 1, p);
      assert |PairsBefore(i, p)| == |PairsBefore(i - 1, p)| + (p - i);
      calc {
        2 * |PairsBefore(i, p)|;
        (i - 1) * (2 * p - i) + 2 * (p - i);
        i * (2 * p - i - 1);
      }
    }
  }

  /** The loops visit every pair i < j < p and no other, each exactly once,
      in row-major order, p(p-1)/2 of them in all. */
  lemma PairOrderExact(p: nat)
    ensures forall x :: x in PairOrder(p) <==> x.0 < x.1 < p
    ensures forall a, b :: 0 <= a < b < |PairOrder(p)| ==> LexLess(PairOrder(p)[a], PairOrder(p)[b])
    ensures forall a, b :: 0 <= a < b < |PairOrder(p)| ==> PairOrder(p)[a] != PairOrder(p)[b]
    ensures |PairOrder(p)| == p * (p - 1) / 2
  {
    PairsBeforeMembers(p, p);
    PairsBeforeSorted(p, p);
    PairsBeforeLength(p, p);
  }

  /** The pairs of three variables. */
  lemma PairOrderThree()
    ensures PairOrder(3) == [(0, 1), (0, 2), (1, 2)]
  {
  }
}
