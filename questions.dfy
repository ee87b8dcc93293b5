/**
 * The question list the diagnostics run over, the records they produce, and the
 * reference definitions of what the diagnostics must compute
 * (generation-client.tsx:13-16, 70-79, 81-264).
 *
 * The structural definitions are stated over the list of normalised keys and over
 * sets of indices, so that reasoning about buckets and references never has to look
 * inside the text functions; `KeysOf`, `SameKey` and `SimilarTo` tie them to the
 * prompts.
 */
module Questions {
  import opened Text
  import opened Grammar
  import opened Similarity

  datatype Option<T> = None | Some(value: T)

  /** A question of the working list: the blueprint fields the diagnostics read,
      plus the lock flag and the position the workspace keeps (`QuestionState`). */
  datatype Question = Question(id: string, section: string, prompt: string, order: int, locked: bool)

  /** `{ order, section }`: a pointer to another question, numbered from 1. */
  datatype DuplicateRef = DuplicateRef(order: int, section: string)

  /** `QuestionDiagnostic`. */
  datatype Diagnostic = Diagnostic(grammar: seq<string>, duplicates: seq<DuplicateRef>, clusterId: Option<string>)

  /** `DuplicateCluster`. */
  datatype Cluster = Cluster(id: string, questions: seq<Question>)

  predicate UniqueIds(qs: seq<Question>) {
    forall i, j :: 0 <= i < j < |qs| ==> qs[i].id != qs[j].id
  }

  /** Every question's `order` is its index, as the workspace keeps it: the list is
      built with `order: index` and every reordering renumbers it the same way. */
  predicate InOrder(qs: seq<Question>) {
    forall k :: 0 <= k < |qs| ==> qs[k].order == k
  }

  predicate WellFormed(qs: seq<Question>) {
    UniqueIds(qs) && InOrder(qs)
  }

  /** Orders strictly increase along the list and ids are distinct. */
  predicate Increasing(items: seq<Question>) {
    forall i, j :: 0 <= i < j < |items| ==> items[i].order < items[j].order && items[i].id != items[j].id
  }

  function Ids(qs: seq<Question>): (ids: set<string>)
    ensures forall k :: 0 <= k < |qs| ==> qs[k].id in ids
    ensures forall x :: x in ids ==> exists k :: 0 <= k < |qs| && qs[k].id == x
  {
    set k | 0 <= k < |qs| :: qs[k].id
  }

  /** The normalised comparison key of a question (generation-client.tsx:141). */
  function Key(q: Question): string {
    Normalize(q.prompt)
  }

  /** The reference other questions keep to `q` (generation-client.tsx:103). */
  function Ref(q: Question): DuplicateRef {
    DuplicateRef(q.order + 1, q.section)
  }

  /** The entry every question starts with (generation-client.tsx:133-137). */
  function Initial(q: Question): (d: Diagnostic)
    ensures d.grammar == GrammarMessages(q.prompt)
    ensures d.duplicates == [] && d.clusterId == None
  {
    Diagnostic(GrammarMessages(q.prompt), [], None)
  }

  /** The key of every question, in list order. */
  function KeysOf(qs: seq<Question>): (keys: seq<string>)
    ensures |keys| == |qs|
  {
    if qs == [] then [] else KeysOf(qs[..|qs| - 1]) + [Key(qs[|qs| - 1])]
  }

  /** The key listed at index `k` is the key of question `k`. */
  lemma {:induction false} KeyAt(qs: seq<Question>, k: nat)
    requires k < |qs|
    ensures KeysOf(qs)[k] == Key(qs[k])
  {
    if k < |qs| - 1 {
      var init := qs[..|qs| - 1];
      KeyAt(init, k);
      assert KeysOf(qs)[k] == KeysOf(init)[k];
      assert init[k] == qs[k];
    }
  }

  // ---------------------------------------------------------------------------
  // Index sets and the references they stand for
  // ---------------------------------------------------------------------------

  /** The indices other than `k` whose key is the key of `k`. */
  function SameKey(keys: seq<string>, k: nat): (s: set<nat>)
    requires k < |keys|
    ensures forall m: nat :: m in s <==> m < |keys| && m != k && keys[m] == keys[k]
  {
    set m: nat | m < |keys| && m != k && keys[m] == keys[k]
  }

  /** The indices whose prompt the scorer pairs with the prompt of `k`. */
  function SimilarTo(qs: seq<Question>, k: nat): set<nat>
    requires k < |qs|
  {
    set m: nat | m < |qs| && Similar(qs[k].prompt, qs[m].prompt)
  }

  /** The references to the questions at the indices of `s` below `bound`, in index order. */
  function RefsOf(qs: seq<Question>, s: set<nat>, bound: nat): seq<DuplicateRef>
    requires bound <= |qs|
  {
    if bound == 0 then []
    else RefsOf(qs, s, bound - 1) + (if bound - 1 in s then [Ref(qs[bound - 1])] else [])
  }

  /** The ids of the questions at the indices of `s`. */
  function IdsOf(qs: seq<Question>, s: set<nat>): set<string> {
    set m | m in s && m < |qs| :: qs[m].id
  }

  /** The `duplicates` list question `k` must end with: the other members of its
      bucket in list order, then the questions the scorer pairs with it in list order. */
  function ExpectedDuplicates(qs: seq<Question>, k: nat): seq<DuplicateRef>
    requires k < |qs|
  {
    RefsOf(qs, SameKey(KeysOf(qs), k), |qs|) + RefsOf(qs, SimilarTo(qs, k), |qs|)
  }

  /** The neighbours question `k` must end with in the duplicate graph. */
  function Partners(qs: seq<Question>, k: nat): set<string>
    requires k < |qs|
  {
    IdsOf(qs, SameKey(KeysOf(qs), k) + SimilarTo(qs, k))
  }

  /** No element of the sequence appears twice. */
  predicate Distinct<T(==)>(s: seq<T>) {
    forall a, b :: 0 <= a < b < |s| ==> s[a] != s[b]
  }

  /** The ids of the questions at the indices of `s` below `bound`. */
  function IdsBelow(qs: seq<Question>, s: set<nat>, bound: nat): set<string>
    requires bound <= |qs|
  {
    if bound == 0 then {}
    else IdsBelow(qs, s, bound - 1) + (if bound - 1 in s then {qs[bound - 1].id} else {})
  }

  // ---------------------------------------------------------------------------
  // Facts about the reference definitions
  // ---------------------------------------------------------------------------

  lemma DistinctSnoc<T>(s: seq<T>, x: T)
    requires Distinct(s) && x !in s
    ensures Distinct(s + [x])
  {
    var t := s + [x];
    forall a, b | 0 <= a < b < |t| ensures t[a] != t[b] {
      assert t[a] == s[a];
      if b < |s| {
        assert t[b] == s[b];
      }
    }
  }

  /** Raising the bound of `RefsOf` past indices outside the set changes nothing. */
  lemma {:induction false} RefsOfSame(qs: seq<Question>, s: set<nat>, low: nat, high: nat)
    requires low <= high <= |qs|
    requires forall m :: low <= m < high ==> m !in s
    ensures RefsOf(qs, s, high) == RefsOf(qs, s, low)
  {
    if low < high {
      RefsOfSame(qs, s, low, high - 1);
      assert high - 1 !in s;
    }
  }

  /** Raising the bound of `IdsBelow` past indices outside the set changes nothing. */
  lemma {:induction false} IdsBelowSame(qs: seq<Question>, s: set<nat>, low: nat, high: nat)
    requires low <= high <= |qs|
    requires forall m :: low <= m < high ==> m !in s
    ensures IdsBelow(qs, s, high) == IdsBelow(qs, s, low)
  {
    if low < high {
      IdsBelowSame(qs, s, low, high - 1);
      assert high - 1 !in s;
    }
  }

  /** `IdsBelow` holds exactly the ids at the indices of the set below the bound. */
  lemma {:induction false} IdsBelowMeaning(qs: seq<Question>, s: set<nat>, bound: nat)
    requires bound <= |qs|
    ensures IdsBelow(qs, s, bound) == set m | m in s && m < bound :: qs[m].id
  {
    if bound > 0 {
      IdsBelowMeaning(qs, s, bound - 1);
      var below := set m | m in s && m < bound - 1 :: qs[m].id;
      var all := set m | m in s && m < bound :: qs[m].id;
      assert all == below + (if bound - 1 in s then {qs[bound - 1].id} else {});
    }
  }

  /** With every index of the set in range, `IdsBelow` up to the length is `IdsOf`. */
  lemma IdsBelowAll(qs: seq<Question>, s: set<nat>)
    requires forall m :: m in s ==> m < |qs|
    ensures IdsBelow(qs, s, |qs|) == IdsOf(qs, s)
  {
    IdsBelowMeaning(qs, s, |qs|);
  }

  lemma WellFormedIncreasing(qs: seq<Question>)
    requires WellFormed(qs)
    ensures Increasing(qs)
  {
  }

  /** A question of a list kept in order sits at the index its `order` names. */
  lemma AtOrder(qs: seq<Question>, x: Question)
    requires InOrder(qs) && x in qs
    ensures 0 <= x.order < |qs| && qs[x.order] == x
  {
    var k :| 0 <= k < |qs| && qs[k] == x;
  }

  /** Every reference of `refs` points, through its `order`, at a question whose
      index is in `s` and below `bound`, and the references come by strictly
      increasing `order`. */
  ghost predicate RefsShaped(qs: seq<Question>, s: set<nat>, bound: nat, refs: seq<DuplicateRef>)
    requires bound <= |qs|
  {
    && (forall a :: 0 <= a < |refs| ==>
          1 <= refs[a].order <= bound && refs[a].order - 1 in s && refs[a] == Ref(qs[refs[a].order - 1]))
    && (forall a, b :: 0 <= a < b < |refs| ==> refs[a].order < refs[b].order)
  }

  /** `RefsOf` lists only references to indices of the set below the bound, by
      strictly increasing `order`. */
  lemma {:induction false} RefsOfShape(qs: seq<Question>, s: set<nat>, bound: nat)
    requires InOrder(qs) && bound <= |qs|
    ensures RefsShaped(qs, s, bound, RefsOf(qs, s, bound))
  {
    if bound > 0 {
      RefsOfShape(qs, s, bound - 1);
      var init := RefsOf(qs, s, bound - 1);
      if bound - 1 in s {
        var refs := init + [Ref(qs[bound - 1])];
        assert refs == RefsOf(qs, s, bound);
        forall a | 0 <= a < |refs|
          ensures 1 <= refs[a].order <= bound && refs[a].order - 1 in s && refs[a] == Ref(qs[refs[a].order - 1])
        {
          if a < |init| {
            assert refs[a] == init[a];
          }
        }
        forall a, b | 0 <= a < b < |refs| ensures refs[a].order < refs[b].order {
          assert refs[a] == init[a];
          if b < |init| {
            assert refs[b] == init[b];
          }
        }
      }
    }
  }

  /** `RefsOf` lists every index of the set below the bound. */
  lemma {:induction false} RefsOfComplete(qs: seq<Question>, s: set<nat>, bound: nat, m: nat)
    requires bound <= |qs| && m < bound && m in s
    ensures Ref(qs[m]) in RefsOf(qs, s, bound)
  {
    if m < bound - 1 {
      RefsOfComplete(qs, s, bound - 1, m);
    }
  }

  /** With orders kept, a reference is in `RefsOf` exactly when its index is in the
      set and below the bound. */
  lemma RefsOfMeaning(qs: seq<Question>, s: set<nat>, bound: nat, m: nat)
    requires InOrder(qs) && bound <= |qs| && m < |qs|
    ensures Ref(qs[m]) in RefsOf(qs, s, bound) <==> m < bound && m in s
  {
    if m < bound && m in s {
      RefsOfComplete(qs, s, bound, m);
    }
    RefsOfShape(qs, s, bound);
  }

  /** `RefsOf` never lists a reference twice. */
  lemma RefsOfDistinct(qs: seq<Question>, s: set<nat>, bound: nat)
    requires InOrder(qs) && bound <= |qs|
    ensures Distinct(RefsOf(qs, s, bound))
  {
    RefsOfShape(qs, s, bound);
  }

  /** With ids unique, an id is in `IdsOf` exactly when its index is in the set. */
  lemma IdsOfMeaning(qs: seq<Question>, s: set<nat>, m: nat)
    requires WellFormed(qs) && m < |qs|
    ensures qs[m].id in IdsOf(qs, s) <==> m in s
  {
    if qs[m].id in IdsOf(qs, s) {
      var j :| j in s && j < |qs| && qs[j].id == qs[m].id;
    }
  }

  /** Another question with the same key, or a prompt the scorer pairs with, is a
      partner. */
  lemma DuplicateIsPartner(qs: seq<Question>, i: nat, j: nat)
    requires WellFormed(qs) && i < |qs| && j < |qs|
    requires (i != j && Key(qs[i]) == Key(qs[j])) || Similar(qs[i].prompt, qs[j].prompt)
    ensures qs[j].id in Partners(qs, i)
  {
    KeyAt(qs, i);
    KeyAt(qs, j);
    assert j in SameKey(KeysOf(qs), i) + SimilarTo(qs, i);
    IdsOfMeaning(qs, SameKey(KeysOf(qs), i) + SimilarTo(qs, i), j);
  }

  /** Having the same key is an equivalence between different indices. */
  lemma SameKeySymmetric(keys: seq<string>, k: nat, m: nat)
    requires k < |keys| && m < |keys|
    ensures m in SameKey(keys, k) <==> k in SameKey(keys, m)
  {
  }

  /** The scorer's pairing goes both ways and never pairs a question with itself. */
  lemma SimilarToSymmetric(qs: seq<Question>, k: nat, m: nat)
    requires k < |qs| && m < |qs|
    ensures m in SimilarTo(qs, k) <==> k in SimilarTo(qs, m)
    ensures k !in SimilarTo(qs, k)
  {
    SimilarSymmetric(qs[k].prompt, qs[m].prompt);
  }

  /** Exact matches are left to the buckets: the scorer never pairs two questions
      with the same key. */
  lemma ExactAndNearDisjoint(qs: seq<Question>, k: nat)
    requires k < |qs|
    ensures SameKey(KeysOf(qs), k) !! SimilarTo(qs, k)
  {
    var keys := KeysOf(qs);
    forall m | m in SimilarTo(qs, k) ensures m !in SameKey(keys, k) {
      assert Similar(qs[k].prompt, qs[m].prompt);
      KeyAt(qs, m);
      KeyAt(qs, k);
    }
  }

  /** Question `m` is in the duplicates of `k` exactly when it is another question
      with the same key or the scorer pairs the two. */
  lemma DuplicatesMeaning(qs: seq<Question>, k: nat, m: nat)
    requires WellFormed(qs) && k < |qs| && m < |qs|
    ensures Ref(qs[m]) in ExpectedDuplicates(qs, k) <==>
              m != k && (Key(qs[m]) == Key(qs[k]) || Similar(qs[k].prompt, qs[m].prompt))
  {
    var keys := KeysOf(qs);
    RefsOfMeaning(qs, SameKey(keys, k), |qs|, m);
    RefsOfMeaning(qs, SimilarTo(qs, k), |qs|, m);
    SimilarToSymmetric(qs, k, m);
    KeyAt(qs, m);
    KeyAt(qs, k);
  }

  /** Duplicate references are symmetric: `m` is listed for `k` exactly when `k` is
      listed for `m`. */
  lemma DuplicatesSymmetric(qs: seq<Question>, k: nat, m: nat)
    requires WellFormed(qs) && k < |qs| && m < |qs|
    ensures Ref(qs[m]) in ExpectedDuplicates(qs, k) <==> Ref(qs[k]) in ExpectedDuplicates(qs, m)
  {
    DuplicatesMeaning(qs, k, m);
    DuplicatesMeaning(qs, m, k);
    SimilarSymmetric(qs[k].prompt, qs[m].prompt);
  }

  /** Two repeat-free lists with no element in common concatenate to a repeat-free list. */
  lemma ConcatDistinct<T>(e: seq<T>, n: seq<T>)
    requires Distinct(e) && Distinct(n)
    requires forall a :: 0 <= a < |e| ==> e[a] !in n
    ensures Distinct(e + n)
  {
    var d := e + n;
    forall a, b | 0 <= a < b < |d| ensures d[a] != d[b] {
      if b < |e| {
        assert d[a] == e[a] && d[b] == e[b];
      } else if a >= |e| {
        assert d[a] == n[a - |e|] && d[b] == n[b - |e|];
      } else {
        assert d[a] == e[a] && d[b] == n[b - |e|];
      }
    }
  }

  /** The references to two disjoint index sets, one list after the other, repeat
      nothing, and a question in neither set is not referred to. */
  lemma DisjointRefs(qs: seq<Question>, s1: set<nat>, s2: set<nat>, k: nat)
    requires InOrder(qs) && s1 !! s2 && k < |qs| && k !in s1 && k !in s2
    ensures Ref(qs[k]) !in RefsOf(qs, s1, |qs|) + RefsOf(qs, s2, |qs|)
    ensures Distinct(RefsOf(qs, s1, |qs|) + RefsOf(qs, s2, |qs|))
  {
    var e, n := RefsOf(qs, s1, |qs|), RefsOf(qs, s2, |qs|);
    RefsOfMeaning(qs, s1, |qs|, k);
    RefsOfMeaning(qs, s2, |qs|, k);
    RefsOfShape(qs, s1, |qs|);
    RefsOfShape(qs, s2, |qs|);
    forall a | 0 <= a < |e| ensures e[a] !in n {
      RefsOfMeaning(qs, s2, |qs|, e[a].order - 1);
    }
    ConcatDistinct(e, n);
  }

  /** A `duplicates` list never names its own question and never names a question twice. */
  lemma DuplicatesDistinct(qs: seq<Question>, k: nat)
    requires WellFormed(qs) && k < |qs|
    ensures Ref(qs[k]) !in ExpectedDuplicates(qs, k)
    ensures Distinct(ExpectedDuplicates(qs, k))
  {
    ExactAndNearDisjoint(qs, k);
    SimilarToSymmetric(qs, k, k);
    DisjointRefs(qs, SameKey(KeysOf(qs), k), SimilarTo(qs, k), k);
  }

  /** The graph neighbours of `k` are exactly the questions its duplicates name. */
  lemma PartnersMeaning(qs: seq<Question>, k: nat, m: nat)
    requires WellFormed(qs) && k < |qs| && m < |qs|
    ensures qs[m].id in Partners(qs, k) <==> Ref(qs[m]) in ExpectedDuplicates(qs, k)
  {
    var keys := KeysOf(qs);
    IdsOfMeaning(qs, SameKey(keys, k) + SimilarTo(qs, k), m);
    RefsOfMeaning(qs, SameKey(keys, k), |qs|, m);
    RefsOfMeaning(qs, SimilarTo(qs, k), |qs|, m);
  }

  // ---------------------------------------------------------------------------
  // Buckets
  // ---------------------------------------------------------------------------

  /** `normalizedBuckets.get(key)` after the first `n` questions: the questions among
      them whose key is `key`, in list order. */
  function Bucket(qs: seq<Question>, keys: seq<string>, key: string, n: nat): seq<Question>
    requires |keys| == |qs| && n <= |qs|
  {
    if n == 0 then []
    else Bucket(qs, keys, key, n - 1) + (if keys[n - 1] == key then [qs[n - 1]] else [])
  }

  /** Every member of `b` sits at its `order`, below `n`, with key `key`, and the
      members come by strictly increasing `order`. */
  ghost predicate BucketShaped(qs: seq<Question>, keys: seq<string>, key: string, n: nat, b: seq<Question>)
    requires |keys| == |qs| && n <= |qs|
  {
    && (forall a :: 0 <= a < |b| ==> 0 <= b[a].order < n && qs[b[a].order] == b[a] && keys[b[a].order] == key)
    && (forall a, c :: 0 <= a < c < |b| ==> b[a].order < b[c].order)
  }

  /** A bucket of a list kept in order holds only questions before `n` with key
      `key`, by strictly increasing `order`. */
  lemma {:induction false} BucketShape(qs: seq<Question>, keys: seq<string>, key: string, n: nat)
    requires InOrder(qs) && |keys| == |qs| && n <= |qs|
    ensures BucketShaped(qs, keys, key, n, Bucket(qs, keys, key, n))
  {
    if n > 0 {
      BucketShape(qs, keys, key, n - 1);
      var init := Bucket(qs, keys, key, n - 1);
      if keys[n - 1] == key {
        var b := init + [qs[n - 1]];
        assert b == Bucket(qs, keys, key, n);
        forall a | 0 <= a < |b|
          ensures 0 <= b[a].order < n && qs[b[a].order] == b[a] && keys[b[a].order] == key
        {
          if a < |init| {
            assert b[a] == init[a];
          }
        }
        forall a, c | 0 <= a < c < |b| ensures b[a].order < b[c].order {
          assert b[a] == init[a];
          if c < |init| {
            assert b[c] == init[c];
          }
        }
      }
    }
  }

  /** No question before `n` has key `key`: its bucket is empty. */
  lemma {:induction false} BucketAbsent(qs: seq<Question>, keys: seq<string>, key: string, n: nat)
    requires |keys| == |qs| && n <= |qs|
    requires forall k :: 0 <= k < n ==> keys[k] != key
    ensures Bucket(qs, keys, key, n) == []
  {
    if n > 0 {
      BucketAbsent(qs, keys, key, n - 1);
    }
  }

  /** A bucket holds every question before `n` with its key. */
  lemma {:induction false} BucketComplete(qs: seq<Question>, keys: seq<string>, key: string, n: nat, i: nat)
    requires |keys| == |qs| && i < n <= |qs| && keys[i] == key
    ensures qs[i] in Bucket(qs, keys, key, n)
  {
    if i < n - 1 {
      BucketComplete(qs, keys, key, n - 1, i);
    }
  }

  /** A bucket of a well-formed list has increasing orders and distinct ids. */
  lemma BucketIncreasing(qs: seq<Question>, keys: seq<string>, key: string, n: nat)
    requires WellFormed(qs) && |keys| == |qs| && n <= |qs|
    ensures Increasing(Bucket(qs, keys, key, n))
  {
    BucketShape(qs, keys, key, n);
  }

  /** The references to the items whose id is not `id`, in item order. */
  function RefsExcept(items: seq<Question>, id: string): seq<DuplicateRef> {
    if items == [] then []
    else
      var last := items[|items| - 1];
      RefsExcept(items[..|items| - 1], id) + (if last.id != id then [Ref(last)] else [])
  }

  /** The ids of the items other than `id`. */
  function IdsExcept(items: seq<Question>, id: string): set<string> {
    set x | x in items && x.id != id :: x.id
  }

  lemma RefsExceptSnoc(items: seq<Question>, x: Question, id: string)
    ensures RefsExcept(items + [x], id) == RefsExcept(items, id) + (if x.id != id then [Ref(x)] else [])
  {
    assert (items + [x])[..|items|] == items;
  }

  /** The references to items whose orders are below `bound` have orders up to `bound`. */
  lemma {:induction false} RefsExceptBefore(items: seq<Question>, id: string, bound: int)
    requires forall a :: 0 <= a < |items| ==> items[a].order < bound
    ensures forall r :: r in RefsExcept(items, id) ==> r.order <= bound
  {
    if items != [] {
      RefsExceptBefore(items[..|items| - 1], id, bound);
    }
  }

  lemma IdsExceptSnoc(items: seq<Question>, x: Question, id: string)
    ensures IdsExcept(items + [x], id) == IdsExcept(items, id) + (if x.id != id then {x.id} else {})
  {
  }

  /** Walking a bucket and referencing every other member yields the bucket
      references of the reference definition. */
  lemma {:induction false} BucketRefs(qs: seq<Question>, keys: seq<string>, k: nat, n: nat)
    requires WellFormed(qs) && |keys| == |qs| && k < |qs| && n <= |qs|
    ensures RefsExcept(Bucket(qs, keys, keys[k], n), qs[k].id) == RefsOf(qs, SameKey(keys, k), n)
  {
    if n > 0 {
      BucketRefs(qs, keys, k, n - 1);
      var init := Bucket(qs, keys, keys[k], n - 1);
      assert n - 1 in SameKey(keys, k) <==> keys[n - 1] == keys[k] && qs[n - 1].id != qs[k].id;
      if keys[n - 1] == keys[k] {
        assert Bucket(qs, keys, keys[k], n) == init + [qs[n - 1]];
        RefsExceptSnoc(init, qs[n - 1], qs[k].id);
      } else {
        assert Bucket(qs, keys, keys[k], n) == init;
        assert RefsOf(qs, SameKey(keys, k), n) == RefsOf(qs, SameKey(keys, k), n - 1);
      }
    }
  }

  /** The edges a bucket walk adds for `k` join it to the rest of its bucket. */
  lemma BucketIds(qs: seq<Question>, keys: seq<string>, k: nat)
    requires WellFormed(qs) && |keys| == |qs| && k < |qs|
    ensures IdsExcept(Bucket(qs, keys, keys[k], |qs|), qs[k].id) == IdsOf(qs, SameKey(keys, k))
  {
    var b := Bucket(qs, keys, keys[k], |qs|);
    BucketShape(qs, keys, keys[k], |qs|);
    forall y | y in IdsExcept(b, qs[k].id) ensures y in IdsOf(qs, SameKey(keys, k)) {
      var x :| x in b && x.id != qs[k].id && x.id == y;
      var a :| 0 <= a < |b| && b[a] == x;
      assert x.order in SameKey(keys, k);
    }
    forall y | y in IdsOf(qs, SameKey(keys, k)) ensures y in IdsExcept(b, qs[k].id) {
      var m :| m in SameKey(keys, k) && m < |qs| && qs[m].id == y;
      BucketComplete(qs, keys, keys[k], |qs|, m);
    }
  }

  /** A bucket of at most one question gives its member no other member to refer to. */
  lemma LoneBucket(qs: seq<Question>, keys: seq<string>, k: nat)
    requires |keys| == |qs| && k < |qs| && |Bucket(qs, keys, keys[k], |qs|)| <= 1
    ensures RefsExcept(Bucket(qs, keys, keys[k], |qs|), qs[k].id) == []
    ensures IdsExcept(Bucket(qs, keys, keys[k], |qs|), qs[k].id) == {}
  {
    var b := Bucket(qs, keys, keys[k], |qs|);
    BucketComplete(qs, keys, keys[k], |qs|, k);
    assert b == [qs[k]];
    assert RefsExcept(b, qs[k].id) == RefsExcept([], qs[k].id) + [];
  }

  /** The list index a walk over `items` has reached after its first `p` items: the
      position of the next item, or `n` once every item is visited. */
  function Reached(items: seq<Question>, p: nat, n: int): int
    requires p <= |items|
  {
    if p < |items| then items[p].order else n
  }

  /** A question with the bucket's key sits at or after the bucket's first member. */
  lemma BucketReachedStart(qs: seq<Question>, keys: seq<string>, key: string, k: nat)
    requires InOrder(qs) && |keys| == |qs| && k < |qs| && keys[k] == key
    ensures k >= Reached(Bucket(qs, keys, key, |qs|), 0, |qs|)
  {
    var b := Bucket(qs, keys, key, |qs|);
    BucketShape(qs, keys, key, |qs|);
    BucketComplete(qs, keys, key, |qs|, k);
    var c :| 0 <= c < |b| && b[c] == qs[k];
    if c > 0 {
      assert b[0].order < b[c].order;
    }
  }

  /** Visiting the bucket member `p` extends the visited questions of the bucket's
      key by exactly that member: no question with the key lies between two
      consecutive members. */
  lemma BucketReachedStep(qs: seq<Question>, keys: seq<string>, key: string, p: nat, k: nat)
    requires InOrder(qs) && |keys| == |qs| && p < |Bucket(qs, keys, key, |qs|)| && k < |qs|
    ensures var b := Bucket(qs, keys, key, |qs|);
            (keys[k] == key && k < Reached(b, p + 1, |qs|)) <==>
            (keys[k] == key && k < Reached(b, p, |qs|)) || k == b[p].order
  {
    var b := Bucket(qs, keys, key, |qs|);
    BucketShape(qs, keys, key, |qs|);
    assert b[p].order < Reached(b, p + 1, |qs|) by {
      if p + 1 < |b| {
        assert b[p].order < b[p + 1].order;
      }
    }
    if keys[k] == key {
      BucketComplete(qs, keys, key, |qs|, k);
      var c :| 0 <= c < |b| && b[c] == qs[k];
      assert b[c].order == k;
      if c < p {
        assert b[c].order < b[p].order;
      } else if c > p + 1 {
        assert b[p + 1].order < b[c].order;
      }
    }
  }
}
