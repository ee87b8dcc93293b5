/**
 * The token-overlap score the diagnostics use to flag near-duplicate prompts
 * (generation-client.tsx:166-201).
 */
module Similarity {
  import opened Text

  /** A prompt with fewer tokens than this is never scored. */
  const MinTokens: nat := 3

  /** The distinct tokens of a list, as `new Set(tokens)` holds them. */
  function TokenSet(tokens: seq<string>): (s: set<string>)
    ensures forall t :: t in s <==> t in tokens
    ensures |s| <= |tokens|
    ensures |tokens| > 0 ==> |s| > 0
  {
    var s := set t | t in tokens;
    SetOfSeqSize(tokens);
    if |tokens| > 0 then
      assert tokens[0] in s;
      s
    else s
  }

  lemma {:induction false} SetOfSeqSize(tokens: seq<string>)
    ensures |set t | t in tokens| <= |tokens|
  {
    if tokens != [] {
      var init := tokens[..|tokens| - 1];
      SetOfSeqSize(init);
      assert (set t | t in tokens) == (set t | t in init) + {tokens[|tokens| - 1]};
    }
  }

  function Min(a: nat, b: nat): (m: nat)
    ensures m <= a && m <= b && (m == a || m == b)
  {
    if a <= b then a else b
  }

  /** `overlap / smaller >= 0.8`, decided without division: 5 * overlap >= 4 * smaller. */
  function MeetsThreshold(overlap: nat, smaller: nat): (r: bool)
    requires smaller > 0
    ensures r <==> (overlap as real) / (smaller as real) >= 0.8
  {
    RatioAtLeast(overlap as real, smaller as real);
    5 * overlap >= 4 * smaller
  }

  /** Comparing a quotient with 0.8 is comparing the numerator with 0.8 times the denominator. */
  lemma RatioAtLeast(x: real, y: real)
    requires y > 0.0
    ensures x / y >= 0.8 <==> 5.0 * x >= 4.0 * y
  {
    var q := x / y;
    assert q * y == x;
    if q >= 0.8 {
      assert q * y >= 0.8 * y;
    } else {
      assert q * y < 0.8 * y;
    }
  }

  /** The share of the smaller token set that the two sets have in common. */
  function OverlapRatio(firstSet: set<string>, secondSet: set<string>): real
    requires |firstSet| > 0 && |secondSet| > 0
  {
    (|firstSet * secondSet| as real) / (Min(|firstSet|, |secondSet|) as real)
  }

  /** The token test of the scorer: both token lists have at least three tokens and
      the distinct tokens they share are at least 80% of the smaller token set. */
  function SharedEnough(firstTokens: seq<string>, secondTokens: seq<string>): (r: bool)
    ensures r <==> |firstTokens| >= MinTokens && |secondTokens| >= MinTokens
                   && OverlapRatio(TokenSet(firstTokens), TokenSet(secondTokens)) >= 0.8
  {
    if |firstTokens| < MinTokens || |secondTokens| < MinTokens then false
    else
      var firstSet, secondSet := TokenSet(firstTokens), TokenSet(secondTokens);
      MeetsThreshold(|firstSet * secondSet|, Min(|firstSet|, |secondSet|))
  }

  /** The token test does not depend on which list comes first. */
  lemma SharedEnoughSymmetric(firstTokens: seq<string>, secondTokens: seq<string>)
    ensures SharedEnough(firstTokens, secondTokens) == SharedEnough(secondTokens, firstTokens)
  {
    var a, b := TokenSet(firstTokens), TokenSet(secondTokens);
    assert a * b == b * a;
  }

  /** A token list whose distinct tokens all occur in another passes the token test
      against it, in both directions, when both have at least three tokens. */
  lemma ContainedTokensShareEnough(firstTokens: seq<string>, secondTokens: seq<string>)
    requires |firstTokens| >= MinTokens && |secondTokens| >= MinTokens
    requires TokenSet(firstTokens) <= TokenSet(secondTokens)
    ensures SharedEnough(firstTokens, secondTokens) && SharedEnough(secondTokens, firstTokens)
  {
    var a, b := TokenSet(firstTokens), TokenSet(secondTokens);
    assert a * b == a;
    assert b * a == a;
    SubsetSize(a, b);
  }

  /** The scorer's verdict on a pair of prompts (generation-client.tsx:166-191): both
      have at least three tokens, their normalised forms differ (exact matches are left
      to the buckets), and their distinct tokens overlap by at least 80% of the smaller
      set. */
  function Similar(first: string, second: string): (r: bool)
    ensures r <==> |Tokenize(first)| >= MinTokens && |Tokenize(second)| >= MinTokens
                   && Normalize(first) != Normalize(second)
                   && OverlapRatio(TokenSet(Tokenize(first)), TokenSet(Tokenize(second))) >= 0.8
  {
    SharedEnough(Tokenize(first), Tokenize(second)) && Normalize(first) != Normalize(second)
  }

  /** The verdict does not depend on which prompt comes first. */
  lemma SimilarSymmetric(first: string, second: string)
    ensures Similar(first, second) == Similar(second, first)
  {
    SharedEnoughSymmetric(Tokenize(first), Tokenize(second));
  }

  lemma SubsetSize(a: set<string>, b: set<string>)
    requires a <= b
    ensures |a| <= |b|
  {
    assert b == a + (b - a);
  }

  /** `firstSet.forEach(token => { if (secondSet.has(token)) overlap += 1; })`:
      counts the tokens the two sets share, visiting the first set in any order. */
  method CountOverlap(firstSet: set<string>, secondSet: set<string>) returns (overlap: nat)
    ensures overlap == |firstSet * secondSet|
  {
    overlap := 0;
    var remaining := firstSet;
    ghost var visited: set<string> := {};
    while remaining != {}
      invariant visited !! remaining && visited + remaining == firstSet
      invariant overlap == |visited * secondSet|
      decreases |remaining|
    {
      var token :| token in remaining;
      ghost var shared := visited * secondSet;
      if token in secondSet {
        assert (visited + {token}) * secondSet == shared + {token};
        assert token !in shared;
        overlap := overlap + 1;
      } else {
        assert (visited + {token}) * secondSet == shared;
      }
      visited := visited + {token};
      remaining := remaining - {token};
    }
    assert visited == firstSet;
  }

  /** The body of the scorer's inner loop (generation-client.tsx:172-191) for one
      later prompt `second`, given the tokens and the normalised form of the earlier
      prompt `first`, which has at least three tokens: skip a short or an identical
      prompt, otherwise count the shared distinct tokens and compare with 80% of the
      smaller set.  The verdict is the scorer's pairing of the two prompts. */
  method ScorePair(ghost first: string, firstTokens: seq<string>, firstNormalized: string, second: string)
    returns (linked: bool)
    requires firstTokens == Tokenize(first) && firstNormalized == Normalize(first)
    requires |firstTokens| >= MinTokens
    ensures linked == Similar(first, second)
  {
    var secondTokens := Tokenize(second);
    if |secondTokens| < MinTokens {
      return false;
    }
    var secondNormalized := Normalize(second);
    if firstNormalized == secondNormalized {
      return false;
    }
    var firstSet := TokenSet(firstTokens);
    var secondSet := TokenSet(secondTokens);
    var overlap := CountOverlap(firstSet, secondSet);
    linked := MeetsThreshold(overlap, Min(|firstSet|, |secondSet|));
  }
}
