/** similarity: the Jaccard score of two token lists, computed by counting. Scores are exact rationals. */
module Similarity {
  import opened Tokenizer

  /** How many positions of e hold a member of q. */
  ghost function Hits(q: set<string>, e: seq<string>): (n: nat)
    ensures n <= |e|
  {
    if e == [] then 0
    else Hits(q, e[..|e| - 1]) + if e[|e| - 1] in q then 1 else 0
  }

  /** What the counting loop returns for any two lists, duplicates included. */
  ghost function Score(q: seq<string>, e: seq<string>): real {
    if q == [] || e == [] then 0.0
    else
      assert q[0] in Elements(q);
      var hits := Hits(Elements(q), e);
      hits as real / (|Elements(q)| + |e| - hits) as real
  }

  /** The reference: size of the intersection over size of the union. */
  ghost function Jaccard(a: set<string>, b: set<string>): real {
    if a + b == {} then 0.0 else |a * b| as real / |a + b| as real
  }

  method Compare(queryTokens: seq<string>, entryTokens: seq<string>) returns (score: real)
    ensures score == Score(queryTokens, entryTokens)
    ensures NoDuplicates(entryTokens) ==> score == Jaccard(Elements(queryTokens), Elements(entryTokens))
  {
    if |queryTokens| == 0 || |entryTokens| == 0 {
      if NoDuplicates(entryTokens) { CountingIsJaccard(queryTokens, entryTokens); }
      return 0.0;
    }
    var qset: set<string> := {};
    for i := 0 to |queryTokens|
      invariant qset == Elements(queryTokens[..i])
    {
      qset := qset + {queryTokens[i]};
    }
    assert queryTokens[..|queryTokens|] == queryTokens;
    var intersection, union := 0, |qset|;
    for i := 0 to |entryTokens|
      invariant intersection == Hits(qset, entryTokens[..i])
      invariant union == |qset| + i - intersection
    {
      assert entryTokens[..i + 1][..i] == entryTokens[..i];
      if entryTokens[i] in qset {
        intersection := intersection + 1;
      } else {
        union := union + 1;
      }
    }
    assert entryTokens[..|entryTokens|] == entryTokens;
    assert queryTokens[0] in qset;
    if NoDuplicates(entryTokens) { CountingIsJaccard(queryTokens, entryTokens); }
    score := intersection as real / union as real;
  }

  lemma {:induction false} HitsIsIntersectionSize(q: set<string>, e: seq<string>)
    requires NoDuplicates(e)
    ensures Hits(q, e) == |q * Elements(e)| && |e| == |Elements(e)|
  {
    if e != [] {
      var front, last := e[..|e| - 1], e[|e| - 1];
      HitsIsIntersectionSize(q, front);
      assert last !in Elements(front);
      assert Elements(e) == Elements(front) + {last};
      if last in q {
        assert q * Elements(e) == q * Elements(front) + {last};
      } else {
        assert q * Elements(e) == q * Elements(front);
      }
    }
  }

  /** On lists without duplicates, counting computes the Jaccard score. */
  lemma CountingIsJaccard(q: seq<string>, e: seq<string>)
    requires NoDuplicates(e)
    ensures Score(q, e) == Jaccard(Elements(q), Elements(e))
  {
    HitsIsIntersectionSize(Elements(q), e);
    var a, b := Elements(q), Elements(e);
    assert |a + b| == |a| + |b| - |a * b|;
    if q == [] || e == [] {
      assert a * b == {};
    } else {
      assert q[0] in a;
    }
  }

  lemma SubsetSize<T>(a: set<T>, b: set<T>)
    requires a <= b
    ensures |a| <= |b| && (|a| == |b| ==> a == b)
  {
    assert b == a + (b - a);
  }

  lemma QuotientOfSizes(m: int, n: int)
    requires 0 <= m <= n && n > 0
    ensures 0.0 <= m as real / n as real <= 1.0
    ensures m as real / n as real > 0.0 <==> m > 0
    ensures m as real / n as real == 1.0 <==> m == n
  {
    var x, y := m as real, n as real;
    assert x / y * y == x;
  }

  /** The score lies in [0,1]; it is symmetric, positive exactly when the sets meet, 1 exactly when they are equal. */
  lemma JaccardMeasuresOverlap(a: set<string>, b: set<string>)
    ensures 0.0 <= Jaccard(a, b) <= 1.0
    ensures Jaccard(a, b) == Jaccard(b, a)
    ensures Jaccard(a, b) > 0.0 <==> a * b != {}
    ensures Jaccard(a, b) == 1.0 <==> a == b && a != {}
  {
    assert a * b == b * a && a + b == b + a;
    SubsetSize(a * b, a + b);
    if a + b != {} {
      assert |a + b| > 0;
      QuotientOfSizes(|a * b|, |a + b|);
      assert a * b == a + b <==> a == b by {
        if a * b == a + b {
          assert forall x :: x in a <==> x in a + b;
          assert forall x :: x in b <==> x in a + b;
        }
      }
      if a == b { assert a * b == a + b; }
    }
  }
}
