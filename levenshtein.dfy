/**
 * Levenshtein distance and the normalised similarity that `get_match` scores
 * registry names with (`Levenshtein.normalized_similarity`, unit weights).
 * Similarity is an exact rational, so the 0.9 cutoff is compared exactly.
 */
module Levenshtein {
  function Max(a: nat, b: nat): nat { if a < b then b else a }

  function Min3(a: nat, b: nat, c: nat): nat {
    if a <= b && a <= c then a else if b <= c then b else c
  }

  /** The least number of single-character insertions, deletions and substitutions turning `a` into `b`. */
  function Distance(a: string, b: string): nat
    decreases |a| + |b|
  {
    if a == [] then |b|
    else if b == [] then |a|
    else Min3(Distance(a[1..], b) + 1,
              Distance(a, b[1..]) + 1,
              Distance(a[1..], b[1..]) + (if a[0] == b[0] then 0 else 1))
  }

  lemma {:induction false} DistanceSelf(a: string)
    ensures Distance(a, a) == 0
    decreases |a|
  {
    if a != [] {
      DistanceSelf(a[1..]);
    }
  }

  lemma {:induction false} DistanceZero(a: string, b: string)
    requires Distance(a, b) == 0
    ensures a == b
    decreases |a| + |b|
  {
    if a != [] && b != [] {
      DistanceZero(a[1..], b[1..]);
      assert a == [a[0]] + a[1..] && b == [b[0]] + b[1..];
    }
  }

  /** The distance never exceeds the longer length. */
  lemma {:induction false} DistanceUpper(a: string, b: string)
    ensures Distance(a, b) <= Max(|a|, |b|)
    decreases |a| + |b|
  {
    if a != [] && b != [] {
      DistanceUpper(a[1..], b[1..]);
    }
  }

  /** The distance is at least the difference in length. */
  lemma {:induction false} DistanceLower(a: string, b: string)
    ensures Distance(a, b) >= |a| - |b| && Distance(a, b) >= |b| - |a|
    decreases |a| + |b|
  {
    if a != [] && b != [] {
      DistanceLower(a[1..], b);
      DistanceLower(a, b[1..]);
      DistanceLower(a[1..], b[1..]);
    }
  }

  /** Appending one character costs exactly one edit. */
  lemma {:induction false} DistanceAppend(a: string, c: char)
    ensures Distance(a, a + [c]) == 1
    decreases |a|
  {
    if a != [] {
      assert (a + [c])[1..] == a[1..] + [c];
      DistanceAppend(a[1..], c);
    }
    DistanceLower(a, a + [c]);
  }

  /**
   * `normalized_similarity`: 1 - distance / longer length. Equal names, two empty
   * strings among them, score 1.
   */
  function Similarity(a: string, b: string): (r: real)
    ensures 0.0 <= r <= 1.0
    ensures r == 1.0 <==> a == b
  {
    if a == b then 1.0
    else
      var m := Max(|a|, |b|);
      var d := Distance(a, b);
      DistancePositive(a, b);
      RatioBelowOne(m - d, m);
      (m - d) as real / m as real
  }

  /** Different names are at a positive distance, at most the longer length. */
  lemma DistancePositive(a: string, b: string)
    requires a != b
    ensures 0 < Distance(a, b) <= Max(|a|, |b|)
  {
    DistanceUpper(a, b);
    if Distance(a, b) == 0 {
      DistanceZero(a, b);
    }
  }

  lemma RatioBelowOne(x: nat, y: nat)
    requires x < y
    ensures 0.0 <= x as real / y as real < 1.0
  {
  }


  /** `SIMILARITY_CUTOFF`. */
  const SIMILARITY_CUTOFF: real := 0.9

  /** `extractOne(..., score_cutoff=SIMILARITY_CUTOFF)` keeps a candidate scoring at least the cutoff. */
  predicate Accepts(query: string, name: string) {
    Similarity(query, name) >= SIMILARITY_CUTOFF
  }

  /** No non-empty query accepts an empty name: it scores zero against it. */
  lemma EmptyNameRejected(q: string)
    requires q != []
    ensures !Accepts(q, "")
  {
    assert Distance(q, "") == |q|;
  }

  /** The cutoff in integers: with `m` the longer length and `d` the distance, `10 * (m - d) >= 9 * m`. */
  lemma AcceptsIff(a: string, b: string)
    ensures Accepts(a, b) <==> 10 * (Max(|a|, |b|) - Distance(a, b)) >= 9 * Max(|a|, |b|)
  {
    var m := Max(|a|, |b|);
    var d := Distance(a, b);
    DistanceUpper(a, b);
    if a == b {
      DistanceSelf(a);
    } else if m > 0 {
      if d == 0 {
        DistanceZero(a, b);
      }
      RatioAtLeast((m - d) as real, m as real);
    }
  }

  lemma RatioAtLeast(x: real, y: real)
    requires y > 0.0
    ensures x / y >= 0.9 <==> 10.0 * x >= 9.0 * y
  {
  }

  /** A score of exactly 0.9 is accepted: ten characters against nine of them. */
  lemma CutoffInclusive(a: string, c: char)
    requires |a| == 9
    ensures Similarity(a, a + [c]) == 0.9 && Accepts(a, a + [c])
  {
    DistanceAppend(a, c);
    assert a != a + [c] by { assert |a + [c]| == 10; }
  }

  /** A score just under 0.9 (eight of nine) is rejected. */
  lemma BelowCutoffRejected(a: string, c: char)
    requires |a| == 8
    ensures !Accepts(a, a + [c])
  {
  }

  /** Names whose lengths differ by more than a tenth of the longer one never match. */
  lemma LengthGapRejected(a: string, b: string)
    requires 10 * |a| < 9 * |b| || 10 * |b| < 9 * |a|
    ensures !Accepts(a, b)
  {
    DistanceLower(a, b);
    AcceptsIff(a, b);
  }
}
