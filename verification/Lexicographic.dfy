// Lexicographic order on number sequences: ranks, and strings by code point.
module Lexicographic {
  predicate Less(a: seq<int>, b: seq<int>) {
    if b == [] then false
    else if a == [] then true
    else a[0] < b[0] || (a[0] == b[0] && Less(a[1..], b[1..]))
  }

  function Codes(s: string): (codes: seq<int>)
    ensures |codes| == |s|
  {
    seq(|s|, i requires 0 <= i < |s| => s[i] as int)
  }

  lemma {:induction false} Irreflexive(a: seq<int>)
    ensures !Less(a, a)
  {
    if a != [] {
      Irreflexive(a[1..]);
    }
  }

  lemma {:induction false} Transitive(a: seq<int>, b: seq<int>, c: seq<int>)
    requires Less(a, b) && Less(b, c)
    ensures Less(a, c)
  {
    if a != [] && a[0] == b[0] == c[0] {
      Transitive(a[1..], b[1..], c[1..]);
    }
  }

  lemma {:induction false} Trichotomy(a: seq<int>, b: seq<int>)
    ensures Less(a, b) || Less(b, a) || a == b
  {
    if a != [] && b != [] && a[0] == b[0] {
      Trichotomy(a[1..], b[1..]);
      assert a == [a[0]] + a[1..] && b == [b[0]] + b[1..];
    }
  }

  lemma CodesAreInjective(s: string, t: string)
    requires Codes(s) == Codes(t)
    ensures s == t
  {
    forall i | 0 <= i < |s|
      ensures s[i] == t[i]
    {
      assert Codes(s)[i] == Codes(t)[i];
    }
  }

  // Equal common prefixes are what a shorter comparison sees.
  lemma {:induction false} PrefixNotLess(a: seq<int>, b: seq<int>, n: nat)
    requires n <= |a| && n <= |b| && |a| == |b| && !Less(a, b)
    ensures !Less(a[..n], b[..n])
  {
    if n > 0 {
      if a[0] == b[0] {
        PrefixNotLess(a[1..], b[1..], n - 1);
      }
      assert a[..n][1..] == a[1..][..n - 1] && b[..n][1..] == b[1..][..n - 1];
    }
  }
}
