/** Hamming distance (06_hamm/hamm.py): the number of mismatched pairs in
    `zip(seq1, seq2)`. `zip` stops at the shorter string, so any trailing
    characters of the longer one are ignored. */
module Hamm {

  /** The command-line arguments: the two sequences. */
  datatype Args = Args(seq1: string, seq2: string)

  function Min(a: int, b: int): int
  {
    if a <= b then a else b
  }

  /** `zip(a, b)`: the pairs of characters at equal positions, up to the
      shorter length. */
  function Zip(a: string, b: string): (pairs: seq<(char, char)>)
    ensures |pairs| == Min(|a|, |b|)
    ensures forall i :: 0 <= i < |pairs| ==> pairs[i] == (a[i], b[i])
  {
    seq(Min(|a|, |b|), i requires 0 <= i < Min(|a|, |b|) => (a[i], b[i]))
  }

  /** Number of pairs whose two characters differ. */
  function Mismatches(pairs: seq<(char, char)>): nat
  {
    if pairs == [] then 0
    else
      var last := pairs[|pairs| - 1];
      Mismatches(pairs[..|pairs| - 1]) + (if last.0 != last.1 then 1 else 0)
  }

  /** The distance `Hamm.solve` computes. */
  function Distance(a: string, b: string): nat
  {
    Mismatches(Zip(a, b))
  }

  /** `Hamm.solve`: loop over the zipped pairs, counting those that differ. */
  method Solve(args: Args) returns (hammingDistance: nat)
    ensures hammingDistance == Distance(args.seq1, args.seq2)
  {
    hammingDistance := 0;
    var pairs := Zip(args.seq1, args.seq2);
    for k := 0 to |pairs|
      invariant hammingDistance == Mismatches(pairs[..k])
    {
      assert pairs[..k + 1][..k] == pairs[..k];
      var (base1, base2) := pairs[k];
      if base1 != base2 {
        hammingDistance := hammingDistance + 1;
      }
    }
    assert pairs[..|pairs|] == pairs;
  }

  /** The positions below `n` at which `a` and `b` differ. */
  function MismatchedPositions(a: string, b: string, n: nat): set<nat>
    requires n <= |a| && n <= |b|
  {
    set i: nat | i < n && a[i] != b[i]
  }

  lemma {:induction false} MismatchesCountPositions(a: string, b: string, n: nat)
    requires n <= Min(|a|, |b|)
    ensures Mismatches(Zip(a, b)[..n]) == |MismatchedPositions(a, b, n)|
  {
    if n > 0 {
      var pairs := Zip(a, b);
      MismatchesCountPositions(a, b, n - 1);
      assert pairs[..n][..n - 1] == pairs[..n - 1];
      var before := MismatchedPositions(a, b, n - 1);
      if a[n - 1] != b[n - 1] {
        assert MismatchedPositions(a, b, n) == before + {n - 1};
        assert n - 1 !in before;
      } else {
        assert MismatchedPositions(a, b, n) == before;
      }
    }
  }

  /** The distance is the number of positions below min(|a|, |b|) at which
      the two strings differ. */
  lemma DistanceCountsPositions(a: string, b: string)
    ensures Distance(a, b) == |MismatchedPositions(a, b, Min(|a|, |b|))|
  {
    var pairs := Zip(a, b);
    MismatchesCountPositions(a, b, Min(|a|, |b|));
    assert pairs[..|pairs|] == pairs;
  }

  lemma {:induction false} MismatchesBound(pairs: seq<(char, char)>)
    ensures Mismatches(pairs) <= |pairs|
    ensures Mismatches(pairs) == 0 <==> forall i :: 0 <= i < |pairs| ==> pairs[i].0 == pairs[i].1
  {
    if pairs != [] {
      var p := pairs[..|pairs| - 1];
      MismatchesBound(p);
      assert forall i :: 0 <= i < |p| ==> p[i] == pairs[i];
    }
  }

  /** The distance never exceeds the length of the shorter string. */
  lemma DistanceBound(a: string, b: string)
    ensures Distance(a, b) <= Min(|a|, |b|)
  {
    MismatchesBound(Zip(a, b));
  }

  /** The distance is zero exactly when the strings agree on their common
      length. */
  lemma DistanceZeroIff(a: string, b: string)
    ensures Distance(a, b) == 0 <==> a[..Min(|a|, |b|)] == b[..Min(|a|, |b|)]
  {
    var m := Min(|a|, |b|);
    MismatchesBound(Zip(a, b));
    if a[..m] == b[..m] {
      assert forall i :: 0 <= i < m ==> a[i] == a[..m][i] == b[..m][i] == b[i];
    }
  }

  /** A string is at distance zero from itself. */
  lemma DistanceSelf(s: string)
    ensures Distance(s, s) == 0
  {
    DistanceZeroIff(s, s);
  }

  /** The distance is symmetric. */
  lemma DistanceSymmetric(a: string, b: string)
    ensures Distance(a, b) == Distance(b, a)
  {
    DistanceCountsPositions(a, b);
    DistanceCountsPositions(b, a);
    assert MismatchedPositions(a, b, Min(|a|, |b|)) == MismatchedPositions(b, a, Min(|b|, |a|));
  }

  /** Characters past the shorter length play no part. */
  lemma DistanceIgnoresTail(a: string, b: string)
    ensures var m := Min(|a|, |b|); Distance(a, b) == Distance(a[..m], b[..m])
  {
    var m := Min(|a|, |b|);
    assert Zip(a, b) == Zip(a[..m], b[..m]);
  }

  /** A trailing character of the longer string is not counted. */
  lemma TrailingCharacterIgnored()
    ensures Distance("A", "AG") == 0
  {
  }

  /** The comparison is case-sensitive. */
  lemma CaseSensitive()
    ensures Distance("a", "A") == 1
  {
  }
}
