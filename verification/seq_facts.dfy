/** Small facts about sequences that the proofs of several tools use. */
module SeqFacts {

  lemma SliceSnoc<T>(s: seq<T>, a: nat, b: nat)
    requires a <= b < |s|
    ensures s[a..b + 1] == s[a..b] + [s[b]]
  {
  }

  lemma SnocAssoc<T>(a: seq<T>, x: T, b: seq<T>)
    ensures (a + [x]) + b == a + ([x] + b)
  {
  }

  lemma LastSplit<T>(s: seq<T>)
    requires s != []
    ensures s == s[..|s| - 1] + [s[|s| - 1]]
  {
  }

  lemma SuffixCons<T>(s: seq<T>, i: nat)
    requires i < |s|
    ensures s[i..] == [s[i]] + s[i + 1..]
  {
  }

  /** A sequence is `x` followed by `b` when its head is `x` and its tail matches `b` element by element. */
  lemma ConsEqual<T>(a: seq<T>, x: T, b: seq<T>)
    requires |a| == |b| + 1 && a[0] == x
    requires forall k | 1 <= k < |a| :: a[k] == b[k - 1]
    ensures a == [x] + b
  {
    assert forall k | 1 <= k < |a| :: a[k] == ([x] + b)[k];
  }

  lemma ConcatAssoc<T>(a: seq<T>, b: seq<T>, c: seq<T>, d: seq<T>)
    ensures a + b + c + d == a + (b + c + d)
  {
  }}
