/**
  Sequence plumbing shared by the proofs: regrouping a concatenation, and
  cutting a sequence at one or two positions.
 */
module Seqs {
  lemma SeqAssoc<T>(x: seq<T>, y: seq<T>, z: seq<T>)
    ensures x + (y + z) == (x + y) + z
  {
  }

  lemma HeadTail<T>(s: seq<T>)
    requires |s| > 0
    ensures [s[0]] + s[1..] == s
  {
  }

  lemma SliceJoin<T>(s: seq<T>, i: nat, j: nat)
    requires i <= j <= |s|
    ensures s[..i] + s[i..j] == s[..j]
  {
  }

  /** Four elements put in front of a sequence one at a time. */
  lemma ConsFour<T>(a: T, b: T, c: T, d: T, r: seq<T>)
    ensures [a] + ([b] + ([c] + ([d] + r))) == [a, b, c, d] + r
  {
    var lhs := [a] + ([b] + ([c] + ([d] + r)));
    assert lhs[..4] == [a, b, c, d];
    assert lhs[4..] == r;
  }

  /** Five elements put in front of a sequence one at a time. */
  lemma ConsFive<T>(a: T, b: T, c: T, d: T, e: T, r: seq<T>)
    ensures [a] + ([b] + ([c] + ([d] + ([e] + r)))) == [a, b, c, d, e] + r
  {
    var lhs := [a] + ([b] + ([c] + ([d] + ([e] + r))));
    assert lhs[..5] == [a, b, c, d, e];
    assert lhs[5..] == r;
  }
}
