/** Facts about sequence slicing and concatenation that the codec proofs
    use at abstract sequences, so that no proof has to rediscover them on a
    long concrete encoding. */
module Seqs {

  lemma SplitAt<T>(s: seq<T>, i: nat)
    requires i <= |s|
    ensures s == s[..i] + s[i..]
  {
  }

  lemma DropPrefix<T>(a: seq<T>, b: seq<T>)
    ensures (a + b)[..|a|] == a && (a + b)[|a|..] == b
  {
  }

  lemma SliceOfSlice<T>(s: seq<T>, a: nat, b: nat, i: nat, j: nat)
    requires a <= b <= |s| && i <= j <= b - a
    ensures s[a..b][i..j] == s[a + i..a + j]
  {
    assert |s[a..b][i..j]| == j - i;
    forall k | 0 <= k < j - i
      ensures s[a..b][i..j][k] == s[a + i..a + j][k]
    {
    }
  }

  lemma FrontAndRest<T>(s: seq<T>)
    requires |s| > 0
    ensures [s[0]] + s[1..] == s
  {
  }

  lemma FrontAndLast<T>(s: seq<T>)
    requires |s| > 0
    ensures s[..|s| - 1] + [s[|s| - 1]] == s
  {
  }

  lemma ConsAppend<T>(s: seq<T>, m: seq<T>)
    requires |s| > 0
    ensures [s[0]] + (s[1..] + m) == s + m
  {
  }

  lemma EmptyAppend<T>(s: seq<T>, m: seq<T>)
    requires |s| == 0
    ensures s + m == m
  {
  }

  lemma AppendEmpty<T>(s: seq<T>)
    ensures s + [] == s
  {
  }

  lemma Associative<T>(a: seq<T>, b: seq<T>, c: seq<T>)
    ensures (a + b) + c == a + (b + c)
  {
  }

  /** Removing the element at a positive position keeps the front. */
  lemma RemoveAt<T>(s: seq<T>, i: nat)
    requires 0 < i < |s|
    ensures var d := s[..i] + s[i + 1..];
      |d| > 0 && d[0] == s[0] && d[1..] == s[1..][..i - 1] + s[1..][i..]
  {
  }
}
