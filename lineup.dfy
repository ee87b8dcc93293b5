/**
 * Shuffling the unlocked questions of the working list (generation-client.tsx:427-450):
 * the unlocked questions are shuffled with Fisher–Yates swaps and put back into
 * the unlocked positions, the locked questions keep their positions, and the list
 * is renumbered.  The random index drawn at each step is a parameter.
 */
module Lineup {
  import opened Questions

  /** `prev.filter((question) => question.locked == locked)`: the questions whose
      lock flag is `locked`, in list order. */
  function Keep(qs: seq<Question>, locked: bool): (kept: seq<Question>)
    ensures |kept| <= |qs|
  {
    if qs == [] then []
    else Keep(qs[..|qs| - 1], locked) + (if qs[|qs| - 1].locked == locked then [qs[|qs| - 1]] else [])
  }

  /** A filtered list holds only questions of the list with the wanted flag. */
  lemma {:induction false} KeepFlag(qs: seq<Question>, locked: bool)
    ensures forall q :: q in Keep(qs, locked) ==> q in qs && q.locked == locked
  {
    if qs != [] {
      KeepFlag(qs[..|qs| - 1], locked);
    }
  }

  /** Filtering a concatenation filters each part. */
  lemma {:induction false} KeepAppend(a: seq<Question>, b: seq<Question>, locked: bool)
    ensures Keep(a + b, locked) == Keep(a, locked) + Keep(b, locked)
  {
    if b == [] {
      assert a + b == a;
    } else {
      var init := b[..|b| - 1];
      KeepAppend(a, init, locked);
      var last := b[|b| - 1];
      assert (a + b)[..|a + b| - 1] == a + init;
      assert (a + b)[|a + b| - 1] == last;
      var tail := if last.locked == locked then [last] else [];
      calc {
        Keep(a + b, locked);
        Keep(a + init, locked) + tail;
        Keep(a, locked) + Keep(init, locked) + tail;
        Keep(a, locked) + (Keep(init, locked) + tail);
      }
    }
  }

  /** Question `p` is the entry of its own filtered list that comes after the ones
      before it: `locked[lockedIndex]` is the question at the position being filled. */
  lemma KeepAt(qs: seq<Question>, p: nat)
    requires p < |qs|
    ensures |Keep(qs[..p], qs[p].locked)| < |Keep(qs, qs[p].locked)|
    ensures Keep(qs, qs[p].locked)[|Keep(qs[..p], qs[p].locked)|] == qs[p]
  {
    var locked := qs[p].locked;
    assert qs == qs[..p] + [qs[p]] + qs[p + 1..];
    KeepAppend(qs[..p] + [qs[p]], qs[p + 1..], locked);
    KeepAppend(qs[..p], [qs[p]], locked);
    assert Keep([qs[p]], locked) == [qs[p]] by {
      assert [qs[p]][..0] == [];
    }
  }

  /** Every question of the list is in exactly one of the two filtered lists. */
  lemma {:induction false} KeepSizes(qs: seq<Question>)
    ensures |Keep(qs, true)| + |Keep(qs, false)| == |qs|
  {
    if qs != [] {
      KeepSizes(qs[..|qs| - 1]);
    }
  }

  /** The `u`-th entry of a filtered list sits at some position `p` of the list,
      with `u` entries of that kind before it. */
  lemma {:induction false} KeepIndex(qs: seq<Question>, locked: bool, u: nat)
    requires u < |Keep(qs, locked)|
    ensures exists p :: 0 <= p < |qs| && qs[p].locked == locked && |Keep(qs[..p], locked)| == u
  {
    var init := qs[..|qs| - 1];
    if u < |Keep(init, locked)| {
      KeepIndex(init, locked, u);
      var p :| 0 <= p < |init| && init[p].locked == locked && |Keep(init[..p], locked)| == u;
      assert init[..p] == qs[..p];
    } else {
      var p := |qs| - 1;
      assert qs[..p] == init;
    }
  }

  // ---------------------------------------------------------------------------
  // The Fisher–Yates pass
  // ---------------------------------------------------------------------------

  /** `picks[i]` is the index drawn at step `i`, `Math.floor(Math.random() * (i + 1))`:
      at most `i`. */
  predicate Picks(picks: seq<nat>, n: nat) {
    |picks| == n && forall i :: 0 < i < n ==> picks[i] <= i
  }

  /** `[s[i], s[j]] = [s[j], s[i]]`. */
  function Swap(s: seq<Question>, i: nat, j: nat): (r: seq<Question>)
    requires i < |s| && j < |s|
    ensures |r| == |s| && multiset(r) == multiset(s)
    ensures r[i] == s[j] && r[j] == s[i]
    ensures forall k :: 0 <= k < |s| && k != i && k != j ==> r[k] == s[k]
  {
    s[i := s[j]][j := s[i]]
  }

  /** The steps `i`, `i - 1`, ..., 1 of the Fisher–Yates loop. */
  function Shuffled(s: seq<Question>, picks: seq<nat>, i: nat): (r: seq<Question>)
    requires Picks(picks, |s|) && (i < |s| || i == 0)
    ensures |r| == |s| && multiset(r) == multiset(s)
    decreases i
  {
    if i == 0 then s else Shuffled(Swap(s, i, picks[i]), picks, i - 1)
  }

  /** The index the loop starts from: the last one. */
  function Last(n: nat): (i: nat)
    ensures i < n || i == 0
  {
    if n == 0 then 0 else n - 1
  }

  /** The swap loop (generation-client.tsx:432-435), in place: the array ends as the
      Fisher–Yates shuffle of what it held, and so holds the same questions. */
  method ShuffleInPlace(a: array<Question>, picks: seq<nat>)
    requires Picks(picks, a.Length)
    modifies a
    ensures a[..] == Shuffled(old(a[..]), picks, Last(a.Length))
    ensures multiset(a[..]) == multiset(old(a[..]))
  {
    var i := a.Length - 1;
    while i > 0
      invariant -1 <= i < a.Length
      invariant Shuffled(a[..], picks, if i > 0 then i else 0) == Shuffled(old(a[..]), picks, Last(a.Length))
    {
      var j := picks[i];
      ghost var before := a[..];
      a[i], a[j] := a[j], a[i];
      assert a[..] == Swap(before, i, j);
      i := i - 1;
    }
  }

  // ---------------------------------------------------------------------------
  // Putting the questions back
  // ---------------------------------------------------------------------------

  /** The rebuild after the first `p` positions. */
  ghost predicate Rebuilt(qs: seq<Question>, shuffled: seq<Question>, p: nat, result: seq<Question>)
    requires p <= |qs|
  {
    && |result| == p
    && (forall m :: 0 <= m < p && qs[m].locked ==> result[m] == qs[m].(order := m))
    && (forall m :: 0 <= m < p && !qs[m].locked ==>
          |Keep(qs[..m], false)| < |shuffled| && result[m] == shuffled[|Keep(qs[..m], false)|].(order := m))
  }

  /** Filling position `p` with what the rebuild puts there moves it on by one. */
  lemma RebuiltSnoc(qs: seq<Question>, shuffled: seq<Question>, p: nat, result: seq<Question>, x: Question)
    requires p < |qs| && Rebuilt(qs, shuffled, p, result)
    requires qs[p].locked ==> x == qs[p].(order := p)
    requires !qs[p].locked ==>
               |Keep(qs[..p], false)| < |shuffled| && x == shuffled[|Keep(qs[..p], false)|].(order := p)
    ensures Rebuilt(qs, shuffled, p + 1, result + [x])
  {
    var r := result + [x];
    forall m | 0 <= m < p ensures r[m] == result[m] {
    }
  }

  /** One more question adds one to the count of its kind and nothing to the other. */
  lemma KeepCount(qs: seq<Question>, p: nat)
    requires p < |qs|
    ensures |Keep(qs[..p + 1], true)| == |Keep(qs[..p], true)| + (if qs[p].locked then 1 else 0)
    ensures |Keep(qs[..p + 1], false)| == |Keep(qs[..p], false)| + (if qs[p].locked then 0 else 1)
  {
    assert qs[..p + 1][..p] == qs[..p];
  }

  /** The `forEach` that refills the list (generation-client.tsx:436-447): a locked
      position takes the next locked question, which is the one that was there, and
      an unlocked position takes the next shuffled question; every question gets
      its new position as its order. */
  method Rebuild(qs: seq<Question>, locked: seq<Question>, shuffled: seq<Question>) returns (result: seq<Question>)
    requires locked == Keep(qs, true) && |shuffled| == |Keep(qs, false)|
    ensures |result| == |qs| && InOrder(result)
    ensures forall p :: 0 <= p < |qs| && qs[p].locked ==> result[p] == qs[p].(order := p)
    ensures forall p :: 0 <= p < |qs| && !qs[p].locked ==>
              |Keep(qs[..p], false)| < |shuffled| && result[p] == shuffled[|Keep(qs[..p], false)|].(order := p)
  {
    result := [];
    var unlockedIndex, lockedIndex := 0, 0;
    var p := 0;
    while p < |qs|
      invariant p <= |qs|
      invariant lockedIndex == |Keep(qs[..p], true)| && unlockedIndex == |Keep(qs[..p], false)|
      invariant Rebuilt(qs, shuffled, p, result)
    {
      KeepAt(qs, p);
      KeepCount(qs, p);
      var question;
      if qs[p].locked {
        question := locked[lockedIndex].(order := |result|);
        lockedIndex := lockedIndex + 1;
      } else {
        question := shuffled[unlockedIndex].(order := |result|);
        unlockedIndex := unlockedIndex + 1;
      }
      RebuiltSnoc(qs, shuffled, p, result, question);
      result := result + [question];
      p := p + 1;
    }
  }

  /** `shuffleUnlocked` (generation-client.tsx:427-450), with `picks[i]` the index the
      random draw gives at step `i`.  The list keeps its length and is renumbered;
      every locked question stays where it was and every position keeps its lock
      flag; the unlocked positions, in list order, receive the Fisher–Yates shuffle
      of the unlocked questions, which holds exactly the unlocked questions; and
      every shuffled question is placed. */
  method ShuffleUnlocked(qs: seq<Question>, picks: seq<nat>) returns (result: seq<Question>)
    requires Picks(picks, |Keep(qs, false)|)
    ensures |result| == |qs| && InOrder(result)
    ensures forall p :: 0 <= p < |qs| && qs[p].locked ==> result[p] == qs[p].(order := p)
    ensures forall p :: 0 <= p < |qs| ==> result[p].locked == qs[p].locked
    ensures forall p :: 0 <= p < |qs| && !qs[p].locked ==>
              var shuffled := Shuffled(Keep(qs, false), picks, Last(|Keep(qs, false)|));
              |Keep(qs[..p], false)| < |shuffled| && result[p] == shuffled[|Keep(qs[..p], false)|].(order := p)
    ensures var shuffled := Shuffled(Keep(qs, false), picks, Last(|Keep(qs, false)|));
            forall u :: 0 <= u < |shuffled| ==> exists p :: 0 <= p < |qs| && result[p] == shuffled[u].(order := p)
  {
    var locked := Keep(qs, true);
    var unlocked := Keep(qs, false);
    var a := new Question[|unlocked|](i requires 0 <= i < |unlocked| => unlocked[i]);
    assert a[..] == unlocked;
    ShuffleInPlace(a, picks);
    result := Rebuild(qs, locked, a[..]);
    ghost var shuffled := a[..];
    KeepFlag(qs, false);
    forall p | 0 <= p < |qs| && !qs[p].locked ensures !result[p].locked {
      assert shuffled[|Keep(qs[..p], false)|] in multiset(unlocked);
    }
    forall u | 0 <= u < |shuffled| ensures exists p :: 0 <= p < |qs| && result[p] == shuffled[u].(order := p) {
      KeepIndex(qs, false, u);
    }
  }
}
