/**
 * The first three passes of the question diagnostics
 * (generation-client.tsx:81-201): one entry and one key bucket per question, the
 * references and edges between questions that share a key, and the pairwise
 * similarity scoring.  The maps the source fills in place are local variables of
 * each pass, handed on from one pass to the next.
 */
module Diagnostics {
  import opened Text
  import opened Grammar
  import opened Similarity
  import opened Graph
  import opened Questions

  /** `addDuplicateReference` (generation-client.tsx:96-106): appends a reference to
      `target` unless a reference with the same order and section is already listed
      (a `DuplicateRef` is exactly that pair).  The list keeps its old references in
      place, gains exactly the reference to `target`, and stays free of repeats. */
  function AddDuplicateReference(entry: Diagnostic, target: Question): (r: Diagnostic)
    ensures r.grammar == entry.grammar && r.clusterId == entry.clusterId
    ensures |entry.duplicates| <= |r.duplicates| <= |entry.duplicates| + 1
    ensures r.duplicates[..|entry.duplicates|] == entry.duplicates
    ensures forall x :: x in r.duplicates <==> x in entry.duplicates || x == Ref(target)
    ensures Distinct(entry.duplicates) ==> Distinct(r.duplicates)
  {
    if Ref(target) in entry.duplicates then entry
    else
      assert Distinct(entry.duplicates) ==> Distinct(entry.duplicates + [Ref(target)]) by {
        if Distinct(entry.duplicates) {
          DistinctSnoc(entry.duplicates, Ref(target));
        }
      }
      entry.(duplicates := entry.duplicates + [Ref(target)])
  }

  /** A reference not yet listed goes to the end of the list. */
  lemma AddNewReference(entry: Diagnostic, target: Question)
    requires Ref(target) !in entry.duplicates
    ensures AddDuplicateReference(entry, target) == entry.(duplicates := entry.duplicates + [Ref(target)])
  {
    var r := AddDuplicateReference(entry, target);
    assert |r.duplicates| == |entry.duplicates| + 1;
    assert r.duplicates == r.duplicates[..|entry.duplicates|] + [r.duplicates[|entry.duplicates|]];
  }

  /** Adding the same reference twice is adding it once. */
  lemma AddDuplicateReferenceIdempotent(entry: Diagnostic, target: Question)
    ensures AddDuplicateReference(AddDuplicateReference(entry, target), target)
              == AddDuplicateReference(entry, target)
  {
  }

  // ---------------------------------------------------------------------------
  // First pass: entries, the id index and the key buckets
  // ---------------------------------------------------------------------------

  /** The buckets after the first `n` questions: a key's bucket is the map's entry
      for it, or empty when the map has none. */
  ghost predicate Bucketed(qs: seq<Question>, keys: seq<string>, n: nat, buckets: map<string, seq<Question>>)
    requires |keys| == |qs| && n <= |qs|
  {
    forall key {:trigger Bucket(qs, keys, key, n)} ::
      Bucket(qs, keys, key, n) == if key in buckets then buckets[key] else []
  }

  /** Appending question `i` to the bucket of its key moves the buckets on by one. */
  lemma BucketedStep(qs: seq<Question>, keys: seq<string>, i: nat, buckets: map<string, seq<Question>>,
                     bucket: seq<Question>)
    requires |keys| == |qs| && i < |qs| && Bucketed(qs, keys, i, buckets)
    requires bucket == Bucket(qs, keys, keys[i], i)
    ensures Bucketed(qs, keys, i + 1, buckets[keys[i] := bucket + [qs[i]]])
  {
    var next := buckets[keys[i] := bucket + [qs[i]]];
    forall key ensures Bucket(qs, keys, key, i + 1) == if key in next then next[key] else [] {
      if key != keys[i] {
        assert Bucket(qs, keys, key, i + 1) == Bucket(qs, keys, key, i) + [];
      }
    }
  }

  /** Once every question is in, every key has its bucket, and every bucket is the
      one of its key over the whole list. */
  lemma BucketedEnds(qs: seq<Question>, keys: seq<string>, buckets: map<string, seq<Question>>)
    requires |keys| == |qs| && Bucketed(qs, keys, |qs|, buckets)
    ensures forall k :: 0 <= k < |qs| ==> keys[k] in buckets
    ensures forall key :: key in buckets ==> buckets[key] == Bucket(qs, keys, key, |qs|)
  {
    forall k | 0 <= k < |qs| ensures keys[k] in buckets {
      BucketComplete(qs, keys, keys[k], |qs|, k);
    }
  }

  /** `bucketKeys` lists the keys of `buckets`, each once. */
  ghost predicate Listed(buckets: map<string, seq<Question>>, bucketKeys: seq<string>) {
    Distinct(bucketKeys) && forall key :: key in buckets <==> key in bucketKeys
  }

  /** A key new to the map goes to the end of the list. */
  lemma ListedStep(buckets: map<string, seq<Question>>, bucketKeys: seq<string>, key: string, bucket: seq<Question>)
    requires Listed(buckets, bucketKeys)
    ensures key in buckets ==> Listed(buckets[key := bucket], bucketKeys)
    ensures key !in buckets ==> Listed(buckets[key := bucket], bucketKeys + [key])
  {
    if key !in buckets {
      DistinctSnoc(bucketKeys, key);
    }
  }

  /** `keys` and `entries` list the key and the starting entry of every question.
      The quantifiers fire only where a key or a starting entry is computed. */
  ghost predicate Prepared(qs: seq<Question>, keys: seq<string>, entries: seq<Diagnostic>) {
    && |keys| == |qs| && |entries| == |qs|
    && (forall k {:trigger Key(qs[k])} :: 0 <= k < |qs| ==> keys[k] == Key(qs[k]))
    && (forall k {:trigger Initial(qs[k])} :: 0 <= k < |qs| ==> entries[k] == Initial(qs[k]))
  }

  /** The callback of the per-question pass for question `i`
      (generation-client.tsx:116-144): its entry gets the grammar messages, no
      duplicates and no cluster; the id index learns it; and it joins the end of the
      bucket of its normalised key, a new key going to the end of the key list. */
  method IndexQuestion(qs: seq<Question>, ghost keys: seq<string>, ghost entries: seq<Diagnostic>, i: nat,
                       diagnostics: map<string, Diagnostic>, buckets: map<string, seq<Question>>,
                       bucketKeys: seq<string>, questionById: map<string, Question>)
    returns (diagnosticsOut: map<string, Diagnostic>, bucketsOut: map<string, seq<Question>>,
             bucketKeysOut: seq<string>, questionByIdOut: map<string, Question>)
    requires Prepared(qs, keys, entries) && i < |qs|
    ensures diagnosticsOut == diagnostics[qs[i].id := entries[i]]
    ensures questionByIdOut == questionById[qs[i].id := qs[i]]
    ensures bucketsOut == buckets[keys[i] := (if keys[i] in buckets then buckets[keys[i]] else []) + [qs[i]]]
    ensures bucketKeysOut == if keys[i] in buckets then bucketKeys else bucketKeys + [keys[i]]
  {
    var question := qs[i];
    assert keys[i] == Key(qs[i]) && entries[i] == Initial(qs[i]);
    diagnosticsOut := diagnostics[question.id := Diagnostic(GrammarMessages(question.prompt), [], None)];
    questionByIdOut := questionById[question.id := question];
    var normalizedKey := Normalize(question.prompt);
    var bucket := [];
    bucketKeysOut := bucketKeys;
    if normalizedKey in buckets {
      bucket := buckets[normalizedKey];
    } else {
      bucketKeysOut := bucketKeys + [normalizedKey];
    }
    bucketsOut := buckets[normalizedKey := bucket + [question]];
  }

  /** The entries and the id index after the first `n` questions. */
  ghost predicate Indexed(qs: seq<Question>, entries: seq<Diagnostic>, n: nat,
                          diagnostics: map<string, Diagnostic>, questionById: map<string, Question>)
    requires |entries| == |qs| && n <= |qs|
  {
    && diagnostics.Keys == questionById.Keys <= Ids(qs)
    && (forall k :: 0 <= k < n ==> qs[k].id in diagnostics)
    && (forall k :: 0 <= k < n ==> diagnostics[qs[k].id] == entries[k] && questionById[qs[k].id] == qs[k])
  }

  /** Entering question `i` in both maps moves them on by one. */
  lemma IndexedStep(qs: seq<Question>, entries: seq<Diagnostic>, i: nat,
                    diagnostics: map<string, Diagnostic>, questionById: map<string, Question>)
    requires UniqueIds(qs) && |entries| == |qs| && i < |qs| && Indexed(qs, entries, i, diagnostics, questionById)
    ensures Indexed(qs, entries, i + 1, diagnostics[qs[i].id := entries[i]], questionById[qs[i].id := qs[i]])
  {
    var diagnostics', questionById' := diagnostics[qs[i].id := entries[i]], questionById[qs[i].id := qs[i]];
    assert qs[i].id in Ids(qs);
    forall k | 0 <= k < i + 1
      ensures qs[k].id in diagnostics' && diagnostics'[qs[k].id] == entries[k] && questionById'[qs[k].id] == qs[k]
    {
      if k < i {
        assert qs[k].id != qs[i].id;
      }
    }
  }

  /** Once every question is in, both maps hold exactly the ids of the list. */
  lemma IndexedEnds(qs: seq<Question>, entries: seq<Diagnostic>,
                    diagnostics: map<string, Diagnostic>, questionById: map<string, Question>)
    requires |entries| == |qs| && Indexed(qs, entries, |qs|, diagnostics, questionById)
    ensures diagnostics.Keys == Ids(qs) && questionById.Keys == Ids(qs)
    ensures forall k :: 0 <= k < |qs| ==> diagnostics[qs[k].id] == entries[k]
    ensures forall k :: 0 <= k < |qs| ==> questionById[qs[k].id] == qs[k]
  {
  }

  /** The state of the per-question pass after the first `n` questions. */
  ghost predicate Scanned(qs: seq<Question>, keys: seq<string>, entries: seq<Diagnostic>, n: nat,
                          diagnostics: map<string, Diagnostic>, buckets: map<string, seq<Question>>,
                          bucketKeys: seq<string>, questionById: map<string, Question>)
    requires |keys| == |qs| && |entries| == |qs| && n <= |qs|
  {
    Indexed(qs, entries, n, diagnostics, questionById) && Listed(buckets, bucketKeys) && Bucketed(qs, keys, n, buckets)
  }

  /** One call of the callback moves the pass on by one question. */
  lemma ScannedStep(qs: seq<Question>, keys: seq<string>, entries: seq<Diagnostic>, i: nat,
                    diagnostics: map<string, Diagnostic>, buckets: map<string, seq<Question>>,
                    bucketKeys: seq<string>, questionById: map<string, Question>,
                    diagnostics': map<string, Diagnostic>, buckets': map<string, seq<Question>>,
                    bucketKeys': seq<string>, questionById': map<string, Question>)
    requires UniqueIds(qs) && |keys| == |qs| && |entries| == |qs| && i < |qs|
    requires Scanned(qs, keys, entries, i, diagnostics, buckets, bucketKeys, questionById)
    requires diagnostics' == diagnostics[qs[i].id := entries[i]]
    requires questionById' == questionById[qs[i].id := qs[i]]
    requires buckets' == buckets[keys[i] := (if keys[i] in buckets then buckets[keys[i]] else []) + [qs[i]]]
    requires bucketKeys' == if keys[i] in buckets then bucketKeys else bucketKeys + [keys[i]]
    ensures Scanned(qs, keys, entries, i + 1, diagnostics', buckets', bucketKeys', questionById')
  {
    IndexedStep(qs, entries, i, diagnostics, questionById);
    BucketedStep(qs, keys, i, buckets, if keys[i] in buckets then buckets[keys[i]] else []);
    ListedStep(buckets, bucketKeys, keys[i], (if keys[i] in buckets then buckets[keys[i]] else []) + [qs[i]]);
  }

  /** The per-question pass (generation-client.tsx:115-145): every question gets its
      entry, with its grammar messages, no duplicates and no cluster; the id index
      maps every id to its question; and every question joins the bucket of its
      normalised key, the buckets holding their questions in list order and the keys
      being remembered in the order they first appear (the iteration order of a
      JavaScript `Map`). */
  method InitialPass(qs: seq<Question>, ghost keys: seq<string>, ghost entries: seq<Diagnostic>)
    returns (diagnostics: map<string, Diagnostic>, buckets: map<string, seq<Question>>,
             bucketKeys: seq<string>, questionById: map<string, Question>)
    requires UniqueIds(qs) && Prepared(qs, keys, entries)
    ensures diagnostics.Keys == Ids(qs) && questionById.Keys == Ids(qs)
    ensures forall k :: 0 <= k < |qs| ==> diagnostics[qs[k].id] == entries[k]
    ensures forall k :: 0 <= k < |qs| ==> questionById[qs[k].id] == qs[k]
    ensures Listed(buckets, bucketKeys)
    ensures forall k :: 0 <= k < |qs| ==> keys[k] in buckets
    ensures forall key :: key in buckets ==> buckets[key] == Bucket(qs, keys, key, |qs|)
  {
    diagnostics, buckets, bucketKeys, questionById := map[], map[], [], map[];
    var i := 0;
    while i < |qs|
      invariant i <= |qs|
      invariant Scanned(qs, keys, entries, i, diagnostics, buckets, bucketKeys, questionById)
    {
      var diagnostics', buckets', bucketKeys', questionById' :=
        IndexQuestion(qs, keys, entries, i, diagnostics, buckets, bucketKeys, questionById);
      ScannedStep(qs, keys, entries, i, diagnostics, buckets, bucketKeys, questionById,
                  diagnostics', buckets', bucketKeys', questionById');
      diagnostics, buckets, bucketKeys, questionById := diagnostics', buckets', bucketKeys', questionById';
      i := i + 1;
    }
    IndexedEnds(qs, entries, diagnostics, questionById);
    BucketedEnds(qs, keys, buckets);
  }

  // ---------------------------------------------------------------------------
  // Second pass: exact matches
  // ---------------------------------------------------------------------------

  /** The entry of `item` after the first `q` items of the innermost bucket loop: it
      refers to the other items among them. */
  ghost predicate ItemRefs(items: seq<Question>, item: Question, entry: Diagnostic, q: nat, linked: Diagnostic)
    requires q <= |items|
  {
    linked == entry.(duplicates := RefsExcept(items[..q], item.id))
  }

  /** The graph after the first `q` items of the innermost bucket loop: `item` has
      gained edges to the other items among them, and nothing else has changed. */
  ghost predicate ItemEdges(items: seq<Question>, item: Question, adjacency: Adjacency, q: nat,
                            adjacencyOut: Adjacency)
    requires q <= |items|
  {
    && Neighbors(adjacencyOut, item.id) == Neighbors(adjacency, item.id) + IdsExcept(items[..q], item.id)
    && (forall x :: x != item.id ==> Neighbors(adjacencyOut, x) == Neighbors(adjacency, x))
    && adjacencyOut.Keys <= adjacency.Keys + {item.id}
  }

  /** Visiting item `q` moves the entry of the innermost loop on by one. */
  lemma ItemRefsStep(items: seq<Question>, item: Question, entry: Diagnostic, q: nat, linked: Diagnostic,
                     linked': Diagnostic, next: nat)
    requires Increasing(items) && entry.duplicates == [] && q < |items| && next == q + 1
    requires ItemRefs(items, item, entry, q, linked)
    requires linked' == if items[q].id != item.id then AddDuplicateReference(linked, items[q]) else linked
    ensures ItemRefs(items, item, entry, next, linked')
  {
    var other := items[q];
    assert items[..next] == items[..q] + [other];
    RefsExceptSnoc(items[..q], other, item.id);
    if other.id != item.id {
      RefsExceptBefore(items[..q], item.id, other.order);
      AddNewReference(linked, other);
    }
  }

  /** Visiting item `q` moves the graph of the innermost loop on by one. */
  lemma ItemEdgesStep(items: seq<Question>, item: Question, adjacency: Adjacency, q: nat, adjacencyOut: Adjacency,
                      adjacencyOut': Adjacency, next: nat)
    requires q < |items| && next == q + 1
    requires ItemEdges(items, item, adjacency, q, adjacencyOut)
    requires adjacencyOut' == if items[q].id != item.id then EnsureEdge(adjacencyOut, item.id, items[q].id)
                              else adjacencyOut
    ensures ItemEdges(items, item, adjacency, next, adjacencyOut')
  {
    var other := items[q];
    assert items[..next] == items[..q] + [other];
    IdsExceptSnoc(items[..q], other, item.id);
  }

  /** The innermost loop of the bucket pass (generation-client.tsx:156-162): refers
      `item` to every other member of its bucket, in bucket order, and records an
      edge from `item` to each of them.  Nothing else in the graph changes. */
  method LinkItem(items: seq<Question>, item: Question, entry: Diagnostic, adjacency: Adjacency)
    returns (linked: Diagnostic, adjacencyOut: Adjacency)
    requires Increasing(items) && entry.duplicates == []
    ensures linked == entry.(duplicates := RefsExcept(items, item.id))
    ensures Neighbors(adjacencyOut, item.id) == Neighbors(adjacency, item.id) + IdsExcept(items, item.id)
    ensures forall x :: x != item.id ==> Neighbors(adjacencyOut, x) == Neighbors(adjacency, x)
    ensures adjacencyOut.Keys <= adjacency.Keys + {item.id}
  {
    linked, adjacencyOut := entry, adjacency;
    assert items[..0] == [];
    var q := 0;
    while q < |items|
      invariant q <= |items|
      invariant ItemRefs(items, item, entry, q, linked)
      invariant ItemEdges(items, item, adjacency, q, adjacencyOut)
    {
      var other := items[q];
      var linked', adjacencyOut' := linked, adjacencyOut;
      if other.id != item.id {
        linked' := AddDuplicateReference(linked, other);
        adjacencyOut' := EnsureEdge(adjacencyOut, item.id, other.id);
      }
      var next := q + 1;
      ItemRefsStep(items, item, entry, q, linked, linked', next);
      ItemEdgesStep(items, item, adjacency, q, adjacencyOut, adjacencyOut', next);
      linked, adjacencyOut, q := linked', adjacencyOut', next;
    }
    assert items[..|items|] == items;
  }

  /** The state of a bucket walk after its first `p` members: the members visited so
      far refer to, and have edges to, the other members; every other question is as
      it was. */
  ghost predicate BucketLinked(qs: seq<Question>, keys: seq<string>, key: string, items: seq<Question>,
                               diagnostics: map<string, Diagnostic>, adjacency: Adjacency, p: nat,
                               diagnosticsOut: map<string, Diagnostic>, adjacencyOut: Adjacency)
    requires |keys| == |qs| && p <= |items|
  {
    && diagnosticsOut.Keys == diagnostics.Keys
    && (forall k :: 0 <= k < |qs| ==> (qs[k].id in diagnostics &&
          diagnosticsOut[qs[k].id] ==
            if keys[k] == key && k < Reached(items, p, |qs|)
            then diagnostics[qs[k].id].(duplicates := RefsExcept(items, qs[k].id))
            else diagnostics[qs[k].id]))
    && (forall k :: 0 <= k < |qs| ==>
          Neighbors(adjacencyOut, qs[k].id) ==
            if keys[k] == key && k < Reached(items, p, |qs|) then IdsExcept(items, qs[k].id)
            else Neighbors(adjacency, qs[k].id))
    && adjacencyOut.Keys <= Ids(qs)
  }

  lemma BucketLinkedBegins(qs: seq<Question>, keys: seq<string>, key: string, items: seq<Question>,
                           diagnostics: map<string, Diagnostic>, adjacency: Adjacency)
    requires InOrder(qs) && |keys| == |qs| && items == Bucket(qs, keys, key, |qs|)
    requires forall k :: 0 <= k < |qs| ==> qs[k].id in diagnostics
    requires adjacency.Keys <= Ids(qs)
    ensures BucketLinked(qs, keys, key, items, diagnostics, adjacency, 0, diagnostics, adjacency)
  {
    forall k | 0 <= k < |qs| && keys[k] == key ensures k >= Reached(items, 0, |qs|) {
      BucketReachedStart(qs, keys, key, k);
    }
  }

  /** The member about to be visited still has its untouched entry. */
  lemma BucketLinkedNext(qs: seq<Question>, keys: seq<string>, key: string, items: seq<Question>,
                         diagnostics: map<string, Diagnostic>, adjacency: Adjacency, p: nat,
                         diagnosticsOut: map<string, Diagnostic>, adjacencyOut: Adjacency)
    requires InOrder(qs) && |keys| == |qs| && items == Bucket(qs, keys, key, |qs|) && p < |items|
    requires forall k :: 0 <= k < |qs| ==> qs[k].id in diagnostics
    requires forall k :: 0 <= k < |qs| && keys[k] == key ==> diagnostics[qs[k].id].duplicates == []
    requires BucketLinked(qs, keys, key, items, diagnostics, adjacency, p, diagnosticsOut, adjacencyOut)
    ensures items[p].id in diagnosticsOut && diagnosticsOut[items[p].id].duplicates == []
  {
    BucketShape(qs, keys, key, |qs|);
    var at := items[p].order;
    assert qs[at] == items[p] && keys[at] == key;
  }

  /** Visiting member `p` turns exactly the visited questions of the key into the
      member itself plus those visited before. */
  lemma BucketVisit(qs: seq<Question>, keys: seq<string>, key: string, items: seq<Question>, p: nat, k: nat)
    requires WellFormed(qs) && |keys| == |qs| && items == Bucket(qs, keys, key, |qs|) && p < |items| && k < |qs|
    ensures (keys[k] == key && k < Reached(items, p + 1, |qs|)) <==>
            (keys[k] == key && k < Reached(items, p, |qs|)) || qs[k].id == items[p].id
    ensures qs[k].id == items[p].id ==> k == items[p].order && !(k < Reached(items, p, |qs|))
  {
    BucketShape(qs, keys, key, |qs|);
    var at := items[p].order;
    assert qs[at] == items[p] && keys[at] == key;
    BucketReachedStep(qs, keys, key, p, k);
    if k != at {
      assert qs[k].id != qs[at].id;
    }
  }

  /** Linking member `p` moves the bucket walk on by one. */
  lemma BucketLinkedStep(qs: seq<Question>, keys: seq<string>, key: string, items: seq<Question>,
                         diagnostics: map<string, Diagnostic>, adjacency: Adjacency, p: nat,
                         diagnosticsOut: map<string, Diagnostic>, adjacencyOut: Adjacency,
                         linked: Diagnostic, adjacencyNext: Adjacency)
    requires WellFormed(qs) && |keys| == |qs| && items == Bucket(qs, keys, key, |qs|) && p < |items|
    requires forall k :: 0 <= k < |qs| && keys[k] == key ==> Neighbors(adjacency, qs[k].id) == {}
    requires BucketLinked(qs, keys, key, items, diagnostics, adjacency, p, diagnosticsOut, adjacencyOut)
    requires items[p].id in diagnosticsOut
    requires linked == diagnosticsOut[items[p].id].(duplicates := RefsExcept(items, items[p].id))
    requires Neighbors(adjacencyNext, items[p].id) ==
               Neighbors(adjacencyOut, items[p].id) + IdsExcept(items, items[p].id)
    requires forall x :: x != items[p].id ==> Neighbors(adjacencyNext, x) == Neighbors(adjacencyOut, x)
    requires adjacencyNext.Keys <= adjacencyOut.Keys + {items[p].id}
    ensures BucketLinked(qs, keys, key, items, diagnostics, adjacency, p + 1,
                         diagnosticsOut[items[p].id := linked], adjacencyNext)
  {
    BucketEntriesStep(qs, keys, key, items, diagnostics, p, diagnosticsOut, linked);
    BucketEdgesStep(qs, keys, key, items, adjacency, p, adjacencyOut, adjacencyNext);
    assert items[p].id in Ids(qs) by {
      BucketShape(qs, keys, key, |qs|);
      assert qs[items[p].order] == items[p];
    }
  }

  lemma BucketEntriesStep(qs: seq<Question>, keys: seq<string>, key: string, items: seq<Question>,
                          diagnostics: map<string, Diagnostic>, p: nat,
                          diagnosticsOut: map<string, Diagnostic>, linked: Diagnostic)
    requires WellFormed(qs) && |keys| == |qs| && items == Bucket(qs, keys, key, |qs|) && p < |items|
    requires forall k :: 0 <= k < |qs| ==> (qs[k].id in diagnostics && qs[k].id in diagnosticsOut &&
               diagnosticsOut[qs[k].id] ==
                 if keys[k] == key && k < Reached(items, p, |qs|)
                 then diagnostics[qs[k].id].(duplicates := RefsExcept(items, qs[k].id))
                 else diagnostics[qs[k].id])
    requires items[p].id in diagnosticsOut
    requires linked == diagnosticsOut[items[p].id].(duplicates := RefsExcept(items, items[p].id))
    ensures forall k :: 0 <= k < |qs| ==>
              diagnosticsOut[items[p].id := linked][qs[k].id] ==
                if keys[k] == key && k < Reached(items, p + 1, |qs|)
                then diagnostics[qs[k].id].(duplicates := RefsExcept(items, qs[k].id))
                else diagnostics[qs[k].id]
  {
    forall k | 0 <= k < |qs|
      ensures diagnosticsOut[items[p].id := linked][qs[k].id] ==
                if keys[k] == key && k < Reached(items, p + 1, |qs|)
                then diagnostics[qs[k].id].(duplicates := RefsExcept(items, qs[k].id))
                else diagnostics[qs[k].id]
    {
      BucketVisit(qs, keys, key, items, p, k);
    }
  }

  lemma BucketEdgesStep(qs: seq<Question>, keys: seq<string>, key: string, items: seq<Question>,
                        adjacency: Adjacency, p: nat, adjacencyOut: Adjacency, adjacencyNext: Adjacency)
    requires WellFormed(qs) && |keys| == |qs| && items == Bucket(qs, keys, key, |qs|) && p < |items|
    requires forall k :: 0 <= k < |qs| && keys[k] == key ==> Neighbors(adjacency, qs[k].id) == {}
    requires forall k :: 0 <= k < |qs| ==>
               Neighbors(adjacencyOut, qs[k].id) ==
                 if keys[k] == key && k < Reached(items, p, |qs|) then IdsExcept(items, qs[k].id)
                 else Neighbors(adjacency, qs[k].id)
    requires Neighbors(adjacencyNext, items[p].id) ==
               Neighbors(adjacencyOut, items[p].id) + IdsExcept(items, items[p].id)
    requires forall x :: x != items[p].id ==> Neighbors(adjacencyNext, x) == Neighbors(adjacencyOut, x)
    ensures forall k :: 0 <= k < |qs| ==>
              Neighbors(adjacencyNext, qs[k].id) ==
                if keys[k] == key && k < Reached(items, p + 1, |qs|) then IdsExcept(items, qs[k].id)
                else Neighbors(adjacency, qs[k].id)
  {
    forall k | 0 <= k < |qs|
      ensures Neighbors(adjacencyNext, qs[k].id) ==
                if keys[k] == key && k < Reached(items, p + 1, |qs|) then IdsExcept(items, qs[k].id)
                else Neighbors(adjacency, qs[k].id)
    {
      BucketVisit(qs, keys, key, items, p, k);
    }
  }

  /** Once every member is visited, the bucket's questions are all linked. */
  lemma BucketLinkedEnds(qs: seq<Question>, keys: seq<string>, key: string, items: seq<Question>,
                         diagnostics: map<string, Diagnostic>, adjacency: Adjacency,
                         diagnosticsOut: map<string, Diagnostic>, adjacencyOut: Adjacency)
    requires |keys| == |qs|
    requires BucketLinked(qs, keys, key, items, diagnostics, adjacency, |items|, diagnosticsOut, adjacencyOut)
    ensures diagnosticsOut.Keys == diagnostics.Keys
    ensures forall k :: 0 <= k < |qs| ==> (diagnosticsOut[qs[k].id] ==
              if keys[k] == key then diagnostics[qs[k].id].(duplicates := RefsExcept(items, qs[k].id))
              else diagnostics[qs[k].id])
    ensures forall k :: 0 <= k < |qs| ==> (Neighbors(adjacencyOut, qs[k].id) ==
              if keys[k] == key then IdsExcept(items, qs[k].id) else Neighbors(adjacency, qs[k].id))
    ensures adjacencyOut.Keys <= Ids(qs)
  {
  }

  /** One bucket of two or more questions (generation-client.tsx:151-163): every
      member gets the references to, and edges to, the other members, in bucket
      order; the entries and edges of the other questions stay as they were. */
  method LinkBucket(qs: seq<Question>, ghost keys: seq<string>, key: string, items: seq<Question>,
                    diagnostics: map<string, Diagnostic>, adjacency: Adjacency)
    returns (diagnosticsOut: map<string, Diagnostic>, adjacencyOut: Adjacency)
    requires WellFormed(qs) && |keys| == |qs| && items == Bucket(qs, keys, key, |qs|)
    requires forall k :: 0 <= k < |qs| ==> qs[k].id in diagnostics
    requires forall k :: 0 <= k < |qs| && keys[k] == key ==>
               diagnostics[qs[k].id].duplicates == [] && Neighbors(adjacency, qs[k].id) == {}
    requires adjacency.Keys <= Ids(qs)
    ensures diagnosticsOut.Keys == diagnostics.Keys
    ensures forall k :: 0 <= k < |qs| ==> (diagnosticsOut[qs[k].id] ==
              if keys[k] == key then diagnostics[qs[k].id].(duplicates := RefsExcept(items, qs[k].id))
              else diagnostics[qs[k].id])
    ensures forall k :: 0 <= k < |qs| ==> (Neighbors(adjacencyOut, qs[k].id) ==
              if keys[k] == key then IdsExcept(items, qs[k].id) else Neighbors(adjacency, qs[k].id))
    ensures adjacencyOut.Keys <= Ids(qs)
  {
    BucketIncreasing(qs, keys, key, |qs|);
    BucketLinkedBegins(qs, keys, key, items, diagnostics, adjacency);
    diagnosticsOut, adjacencyOut := diagnostics, adjacency;
    var p := 0;
    while p < |items|
      invariant p <= |items|
      invariant BucketLinked(qs, keys, key, items, diagnostics, adjacency, p, diagnosticsOut, adjacencyOut)
    {
      var item := items[p];
      BucketLinkedNext(qs, keys, key, items, diagnostics, adjacency, p, diagnosticsOut, adjacencyOut);
      var entry := diagnosticsOut[item.id];
      var linked, adjacencyNext := LinkItem(items, item, entry, adjacencyOut);
      BucketLinkedStep(qs, keys, key, items, diagnostics, adjacency, p, diagnosticsOut, adjacencyOut,
                       linked, adjacencyNext);
      diagnosticsOut := diagnosticsOut[item.id := linked];
      adjacencyOut := adjacencyNext;
      p := p + 1;
    }
    BucketLinkedEnds(qs, keys, key, items, diagnostics, adjacency, diagnosticsOut, adjacencyOut);
  }

  /** The entries of the bucket pass once the buckets of the keys in `done` are
      linked: those questions refer to the rest of their bucket, the others to nothing. */
  ghost predicate EntriesLinked(qs: seq<Question>, keys: seq<string>, diagnostics: map<string, Diagnostic>,
                                done: set<string>, diagnosticsOut: map<string, Diagnostic>)
    requires |keys| == |qs|
  {
    && diagnosticsOut.Keys == diagnostics.Keys
    && forall k :: 0 <= k < |qs| ==> (qs[k].id in diagnostics &&
         diagnosticsOut[qs[k].id] == diagnostics[qs[k].id].(duplicates :=
           if keys[k] in done then RefsExcept(Bucket(qs, keys, keys[k], |qs|), qs[k].id) else []))
  }

  /** The edges of the bucket pass once the buckets of the keys in `done` are
      linked: those questions are joined to the rest of their bucket, the others to nothing. */
  ghost predicate EdgesLinked(qs: seq<Question>, keys: seq<string>, done: set<string>, adjacency: Adjacency)
    requires |keys| == |qs|
  {
    && (forall k :: 0 <= k < |qs| ==> (Neighbors(adjacency, qs[k].id) ==
          if keys[k] in done then IdsExcept(Bucket(qs, keys, keys[k], |qs|), qs[k].id) else {}))
    && adjacency.Keys <= Ids(qs)
  }

  /** A bucket not yet linked still has untouched entries and no edges. */
  lemma BucketsLinkedNext(qs: seq<Question>, keys: seq<string>, diagnostics: map<string, Diagnostic>,
                          done: set<string>, diagnosticsOut: map<string, Diagnostic>, adjacency: Adjacency,
                          key: string)
    requires |keys| == |qs| && EntriesLinked(qs, keys, diagnostics, done, diagnosticsOut)
    requires EdgesLinked(qs, keys, done, adjacency)
    requires key !in done
    ensures forall k :: 0 <= k < |qs| ==> qs[k].id in diagnosticsOut
    ensures forall k :: 0 <= k < |qs| && keys[k] == key ==>
              diagnosticsOut[qs[k].id].duplicates == [] && Neighbors(adjacency, qs[k].id) == {}
  {
  }

  /** Linking the bucket of `key` adds `key` to the keys whose entries are linked. */
  lemma EntriesLinkedStep(qs: seq<Question>, keys: seq<string>, diagnostics: map<string, Diagnostic>,
                          done: set<string>, diagnosticsOut: map<string, Diagnostic>,
                          key: string, diagnostics': map<string, Diagnostic>)
    requires |keys| == |qs| && EntriesLinked(qs, keys, diagnostics, done, diagnosticsOut)
    requires key !in done
    requires diagnostics'.Keys == diagnosticsOut.Keys
    requires forall k :: 0 <= k < |qs| ==> (diagnostics'[qs[k].id] ==
               if keys[k] == key
               then diagnosticsOut[qs[k].id].(duplicates := RefsExcept(Bucket(qs, keys, key, |qs|), qs[k].id))
               else diagnosticsOut[qs[k].id])
    ensures EntriesLinked(qs, keys, diagnostics, done + {key}, diagnostics')
  {
    forall k | 0 <= k < |qs|
      ensures diagnostics'[qs[k].id] == diagnostics[qs[k].id].(duplicates :=
                if keys[k] in done + {key} then RefsExcept(Bucket(qs, keys, keys[k], |qs|), qs[k].id) else [])
    {
    }
  }

  /** Linking the bucket of `key` adds `key` to the keys whose edges are linked. */
  lemma EdgesLinkedStep(qs: seq<Question>, keys: seq<string>, done: set<string>, adjacency: Adjacency,
                        key: string, adjacency': Adjacency)
    requires |keys| == |qs| && EdgesLinked(qs, keys, done, adjacency)
    requires key !in done
    requires forall k :: 0 <= k < |qs| ==> (Neighbors(adjacency', qs[k].id) ==
               if keys[k] == key then IdsExcept(Bucket(qs, keys, key, |qs|), qs[k].id)
               else Neighbors(adjacency, qs[k].id))
    requires adjacency'.Keys <= Ids(qs)
    ensures EdgesLinked(qs, keys, done + {key}, adjacency')
  {
    forall k | 0 <= k < |qs|
      ensures Neighbors(adjacency', qs[k].id) ==
                if keys[k] in done + {key} then IdsExcept(Bucket(qs, keys, keys[k], |qs|), qs[k].id) else {}
    {
    }
  }

  /** A bucket of at most one question links nothing, so `key` counts as linked. */
  lemma BucketsLinkedLone(qs: seq<Question>, keys: seq<string>, diagnostics: map<string, Diagnostic>,
                          done: set<string>, diagnosticsOut: map<string, Diagnostic>, adjacency: Adjacency,
                          key: string)
    requires |keys| == |qs| && EntriesLinked(qs, keys, diagnostics, done, diagnosticsOut)
    requires EdgesLinked(qs, keys, done, adjacency)
    requires |Bucket(qs, keys, key, |qs|)| <= 1
    ensures EntriesLinked(qs, keys, diagnostics, done + {key}, diagnosticsOut)
    ensures EdgesLinked(qs, keys, done + {key}, adjacency)
  {
    forall k | 0 <= k < |qs|
      ensures diagnosticsOut[qs[k].id] == diagnostics[qs[k].id].(duplicates :=
                if keys[k] in done + {key} then RefsExcept(Bucket(qs, keys, keys[k], |qs|), qs[k].id) else [])
      ensures Neighbors(adjacency, qs[k].id) ==
                if keys[k] in done + {key} then IdsExcept(Bucket(qs, keys, keys[k], |qs|), qs[k].id) else {}
    {
      if keys[k] == key {
        LoneBucket(qs, keys, k);
      }
    }
  }

  /** Once every key is linked, every question refers to, and has edges to, exactly
      the other questions with its key, in list order. */
  lemma BucketsLinkedEnds(qs: seq<Question>, keys: seq<string>, diagnostics: map<string, Diagnostic>,
                          done: set<string>, diagnosticsOut: map<string, Diagnostic>, adjacency: Adjacency)
    requires WellFormed(qs) && |keys| == |qs| && EntriesLinked(qs, keys, diagnostics, done, diagnosticsOut)
    requires EdgesLinked(qs, keys, done, adjacency)
    requires forall k :: 0 <= k < |qs| ==> keys[k] in done
    ensures diagnosticsOut.Keys == diagnostics.Keys
    ensures forall k :: 0 <= k < |qs| ==>
              diagnosticsOut[qs[k].id] == diagnostics[qs[k].id].(duplicates := RefsOf(qs, SameKey(keys, k), |qs|))
    ensures forall k :: 0 <= k < |qs| ==> Neighbors(adjacency, qs[k].id) == IdsOf(qs, SameKey(keys, k))
    ensures adjacency.Keys <= Ids(qs)
  {
    forall k | 0 <= k < |qs|
      ensures RefsExcept(Bucket(qs, keys, keys[k], |qs|), qs[k].id) == RefsOf(qs, SameKey(keys, k), |qs|)
      ensures IdsExcept(Bucket(qs, keys, keys[k], |qs|), qs[k].id) == IdsOf(qs, SameKey(keys, k))
    {
      BucketRefs(qs, keys, k, |qs|);
      BucketIds(qs, keys, k);
    }
  }

  /** The bucket pass (generation-client.tsx:147-164): every question ends with the
      references to the other questions of its key, in list order, and with edges to
      exactly them; a bucket of one question is skipped. */
  method LinkBuckets(qs: seq<Question>, ghost keys: seq<string>, diagnostics: map<string, Diagnostic>,
                     buckets: map<string, seq<Question>>, bucketKeys: seq<string>)
    returns (diagnosticsOut: map<string, Diagnostic>, adjacency: Adjacency)
    requires WellFormed(qs) && |keys| == |qs|
    requires forall k :: 0 <= k < |qs| ==> qs[k].id in diagnostics && diagnostics[qs[k].id].duplicates == []
    requires Listed(buckets, bucketKeys)
    requires forall k :: 0 <= k < |qs| ==> keys[k] in buckets
    requires forall key :: key in buckets ==> buckets[key] == Bucket(qs, keys, key, |qs|)
    ensures diagnosticsOut.Keys == diagnostics.Keys
    ensures forall k :: 0 <= k < |qs| ==>
              diagnosticsOut[qs[k].id] == diagnostics[qs[k].id].(duplicates := RefsOf(qs, SameKey(keys, k), |qs|))
    ensures forall k :: 0 <= k < |qs| ==> Neighbors(adjacency, qs[k].id) == IdsOf(qs, SameKey(keys, k))
    ensures adjacency.Keys <= Ids(qs)
  {
    diagnosticsOut, adjacency := diagnostics, map[];
    ghost var done: set<string> := {};
    var b := 0;
    while b < |bucketKeys|
      invariant b <= |bucketKeys|
      invariant EntriesLinked(qs, keys, diagnostics, done, diagnosticsOut)
      invariant EdgesLinked(qs, keys, done, adjacency)
      invariant forall a :: 0 <= a < b ==> bucketKeys[a] in done
      invariant forall a :: b <= a < |bucketKeys| ==> bucketKeys[a] !in done
    {
      var key := bucketKeys[b];
      var items := buckets[key];
      if |items| <= 1 {
        BucketsLinkedLone(qs, keys, diagnostics, done, diagnosticsOut, adjacency, key);
      } else {
        BucketsLinkedNext(qs, keys, diagnostics, done, diagnosticsOut, adjacency, key);
        var diagnostics', adjacency' := LinkBucket(qs, keys, key, items, diagnosticsOut, adjacency);
        EntriesLinkedStep(qs, keys, diagnostics, done, diagnosticsOut, key, diagnostics');
        EdgesLinkedStep(qs, keys, done, adjacency, key, adjacency');
        diagnosticsOut, adjacency := diagnostics', adjacency';
      }
      done := done + {key};
      b := b + 1;
    }
    forall k | 0 <= k < |qs| ensures keys[k] in done {
      assert keys[k] in bucketKeys;
    }
    BucketsLinkedEnds(qs, keys, diagnostics, done, diagnosticsOut, adjacency);
  }

  // ---------------------------------------------------------------------------
  // Third pass: near matches
  // ---------------------------------------------------------------------------

  /** `near[a]` holds indices of the list other than `a`, and `b` is in `near[a]`
      exactly when `a` is in `near[b]`. */
  ghost predicate NearShaped(qs: seq<Question>, near: seq<set<nat>>) {
    && |near| == |qs|
    && (forall a, b :: 0 <= a < |qs| && b in near[a] ==> b < |qs| && b != a)
    && (forall a, b {:trigger b in near[a]} :: 0 <= a < |qs| && b in near[a] ==> a in near[b])
  }

  /** `near[a]` holds the indices the scorer pairs with `a`. */
  ghost predicate NearSets(qs: seq<Question>, near: seq<set<nat>>) {
    && NearShaped(qs, near)
    && (forall a, b {:trigger Similar(qs[a].prompt, qs[b].prompt)} :: 0 <= a < |qs| && 0 <= b < |qs| ==>
          (b in near[a] <==> Similar(qs[a].prompt, qs[b].prompt)))
  }

  /** How far the scan has got for question `k` once every pair `(a, b)` with
      `a < i` and the pairs `(i, b)` with `b < j` are scored: its partners below the
      returned index are recorded. */
  function NearBound(k: nat, i: nat, j: nat, n: nat): (bound: nat)
    requires i <= j <= n
    ensures bound <= n
    ensures k < i ==> bound == n
  {
    if k < i then n else if k == i then j else if k < j then i + 1 else i
  }

  /** The entry of question `k` has gained, after the references it had, those to
      its partners below `bound`. */
  ghost predicate EntryScored(qs: seq<Question>, near: seq<set<nat>>, base: map<string, Diagnostic>,
                              diagnostics: map<string, Diagnostic>, bound: nat, k: nat)
    requires |near| == |qs| && bound <= |qs| && k < |qs|
  {
    && qs[k].id in base && qs[k].id in diagnostics
    && diagnostics[qs[k].id] == base[qs[k].id].(duplicates :=
         base[qs[k].id].duplicates + RefsOf(qs, near[k], bound))
  }

  /** Question `k` has gained edges to its partners below `bound`. */
  ghost predicate EdgeScored(qs: seq<Question>, near: seq<set<nat>>, adjacency0: Adjacency,
                             adjacency: Adjacency, bound: nat, k: nat)
    requires |near| == |qs| && bound <= |qs| && k < |qs|
  {
    Neighbors(adjacency, qs[k].id) == Neighbors(adjacency0, qs[k].id) + IdsBelow(qs, near[k], bound)
  }

  /** The entries of the scoring pass after the pairs up to `(i, j)`. */
  ghost predicate EntriesScored(qs: seq<Question>, near: seq<set<nat>>, base: map<string, Diagnostic>,
                                diagnostics: map<string, Diagnostic>, i: nat, j: nat)
    requires |near| == |qs| && i <= j <= |qs|
  {
    && diagnostics.Keys == base.Keys
    && forall k :: 0 <= k < |qs| ==> EntryScored(qs, near, base, diagnostics, NearBound(k, i, j, |qs|), k)
  }

  /** The edges of the scoring pass after the pairs up to `(i, j)`. */
  ghost predicate EdgesScored(qs: seq<Question>, near: seq<set<nat>>, adjacency0: Adjacency,
                              adjacency: Adjacency, i: nat, j: nat)
    requires |near| == |qs| && i <= j <= |qs|
  {
    && (forall k :: 0 <= k < |qs| ==> EdgeScored(qs, near, adjacency0, adjacency, NearBound(k, i, j, |qs|), k))
    && adjacency.Keys <= adjacency0.Keys + Ids(qs)
  }

  /** A prompt with fewer than three tokens is paired with nothing, either way. */
  lemma FewTokensNoPairs(qs: seq<Question>, near: seq<set<nat>>, i: nat)
    requires NearSets(qs, near) && i < |qs| && |Tokenize(qs[i].prompt)| < MinTokens
    ensures forall m :: 0 <= m < |qs| ==> m !in near[i] && i !in near[m]
  {
    forall m | 0 <= m < |qs| ensures m !in near[i] && i !in near[m] {
      assert !Similar(qs[i].prompt, qs[m].prompt);
    }
  }

  /** Skipping a question paired with nothing leaves every question's recorded
      partners as they were. */
  lemma SkipKeepsBounds(qs: seq<Question>, near: seq<set<nat>>, i: nat, k: nat)
    requires NearShaped(qs, near) && i < |qs| && k < |qs|
    requires forall m :: 0 <= m < |qs| ==> m !in near[i] && i !in near[m]
    ensures RefsOf(qs, near[k], NearBound(k, i + 1, i + 1, |qs|)) == RefsOf(qs, near[k], NearBound(k, i, i, |qs|))
    ensures IdsBelow(qs, near[k], NearBound(k, i + 1, i + 1, |qs|)) == IdsBelow(qs, near[k], NearBound(k, i, i, |qs|))
  {
    if k == i {
      RefsOfSame(qs, near[k], i, |qs|);
      IdsBelowSame(qs, near[k], i, |qs|);
    } else if k > i {
      RefsOfSame(qs, near[k], i, i + 1);
      IdsBelowSame(qs, near[k], i, i + 1);
    }
  }

  /** Skipping a question paired with nothing completes its row of pairs. */
  lemma EntriesSkip(qs: seq<Question>, near: seq<set<nat>>, base: map<string, Diagnostic>,
                    diagnostics: map<string, Diagnostic>, i: nat, next: nat)
    requires NearShaped(qs, near) && i < |qs|
    requires EntriesScored(qs, near, base, diagnostics, i, i)
    requires forall m :: 0 <= m < |qs| ==> m !in near[i] && i !in near[m]
    requires next == i + 1
    ensures EntriesScored(qs, near, base, diagnostics, next, next)
  {
    forall k | 0 <= k < |qs| ensures EntryScored(qs, near, base, diagnostics, NearBound(k, next, next, |qs|), k) {
      assert EntryScored(qs, near, base, diagnostics, NearBound(k, i, i, |qs|), k);
      SkipKeepsBounds(qs, near, i, k);
    }
  }

  lemma EdgesSkip(qs: seq<Question>, near: seq<set<nat>>, adjacency0: Adjacency, adjacency: Adjacency, i: nat, next: nat)
    requires NearShaped(qs, near) && i < |qs|
    requires EdgesScored(qs, near, adjacency0, adjacency, i, i)
    requires forall m :: 0 <= m < |qs| ==> m !in near[i] && i !in near[m]
    requires next == i + 1
    ensures EdgesScored(qs, near, adjacency0, adjacency, next, next)
  {
    forall k | 0 <= k < |qs| ensures EdgeScored(qs, near, adjacency0, adjacency, NearBound(k, next, next, |qs|), k) {
      assert EdgeScored(qs, near, adjacency0, adjacency, NearBound(k, i, i, |qs|), k);
      SkipKeepsBounds(qs, near, i, k);
    }
  }

  /** Entering the row of `i` changes no recorded partners: the pair of `i` with
      itself is never recorded. */
  lemma EnterKeepsBounds(qs: seq<Question>, near: seq<set<nat>>, i: nat, k: nat)
    requires NearShaped(qs, near) && i < |qs| && k < |qs|
    ensures NearBound(k, i, i + 1, |qs|) == NearBound(k, i, i, |qs|) || k == i
    ensures k == i ==> RefsOf(qs, near[k], i + 1) == RefsOf(qs, near[k], i)
    ensures k == i ==> IdsBelow(qs, near[k], i + 1) == IdsBelow(qs, near[k], i)
  {
    if k == i {
      assert i !in near[i];
    }
  }

  lemma EntriesEnter(qs: seq<Question>, near: seq<set<nat>>, base: map<string, Diagnostic>,
                     diagnostics: map<string, Diagnostic>, i: nat, next: nat)
    requires NearShaped(qs, near) && i < |qs|
    requires EntriesScored(qs, near, base, diagnostics, i, i)
    requires next == i + 1
    ensures EntriesScored(qs, near, base, diagnostics, i, next)
  {
    forall k | 0 <= k < |qs| ensures EntryScored(qs, near, base, diagnostics, NearBound(k, i, next, |qs|), k) {
      assert EntryScored(qs, near, base, diagnostics, NearBound(k, i, i, |qs|), k);
      EnterKeepsBounds(qs, near, i, k);
    }
  }

  lemma EdgesEnter(qs: seq<Question>, near: seq<set<nat>>, adjacency0: Adjacency, adjacency: Adjacency, i: nat, next: nat)
    requires NearShaped(qs, near) && i < |qs|
    requires EdgesScored(qs, near, adjacency0, adjacency, i, i)
    requires next == i + 1
    ensures EdgesScored(qs, near, adjacency0, adjacency, i, next)
  {
    forall k | 0 <= k < |qs| ensures EdgeScored(qs, near, adjacency0, adjacency, NearBound(k, i, next, |qs|), k) {
      assert EdgeScored(qs, near, adjacency0, adjacency, NearBound(k, i, i, |qs|), k);
      EnterKeepsBounds(qs, near, i, k);
    }
  }

  /** Finishing the row of `i` is starting the row of `i + 1`. */
  lemma EntriesRowEnds(qs: seq<Question>, near: seq<set<nat>>, base: map<string, Diagnostic>,
                       diagnostics: map<string, Diagnostic>, i: nat, next: nat)
    requires |near| == |qs| && i < |qs|
    requires EntriesScored(qs, near, base, diagnostics, i, |qs|)
    requires next == i + 1
    ensures EntriesScored(qs, near, base, diagnostics, next, next)
  {
    forall k | 0 <= k < |qs| ensures EntryScored(qs, near, base, diagnostics, NearBound(k, next, next, |qs|), k) {
      assert EntryScored(qs, near, base, diagnostics, NearBound(k, i, |qs|, |qs|), k);
      assert NearBound(k, i, |qs|, |qs|) == NearBound(k, i + 1, i + 1, |qs|);
    }
  }

  lemma EdgesRowEnds(qs: seq<Question>, near: seq<set<nat>>, adjacency0: Adjacency, adjacency: Adjacency, i: nat, next: nat)
    requires |near| == |qs| && i < |qs|
    requires EdgesScored(qs, near, adjacency0, adjacency, i, |qs|)
    requires next == i + 1
    ensures EdgesScored(qs, near, adjacency0, adjacency, next, next)
  {
    forall k | 0 <= k < |qs| ensures EdgeScored(qs, near, adjacency0, adjacency, NearBound(k, next, next, |qs|), k) {
      assert EdgeScored(qs, near, adjacency0, adjacency, NearBound(k, i, |qs|, |qs|), k);
      assert NearBound(k, i, |qs|, |qs|) == NearBound(k, i + 1, i + 1, |qs|);
    }
  }

  /** A pair not scored yet is not listed yet, either way round. */
  lemma PairFresh(qs: seq<Question>, near: seq<set<nat>>, base: map<string, Diagnostic>,
                  diagnostics: map<string, Diagnostic>, i: nat, j: nat)
    requires WellFormed(qs) && NearShaped(qs, near) && i < j < |qs|
    requires EntriesScored(qs, near, base, diagnostics, i, j)
    requires qs[i].id in base && qs[j].id in base
    requires Ref(qs[j]) !in base[qs[i].id].duplicates && Ref(qs[i]) !in base[qs[j].id].duplicates
    ensures qs[i].id in diagnostics && Ref(qs[j]) !in diagnostics[qs[i].id].duplicates
    ensures qs[j].id in diagnostics && Ref(qs[i]) !in diagnostics[qs[j].id].duplicates
  {
    assert EntryScored(qs, near, base, diagnostics, NearBound(i, i, j, |qs|), i);
    assert EntryScored(qs, near, base, diagnostics, NearBound(j, i, j, |qs|), j);
    RefsOfMeaning(qs, near[i], j, j);
    RefsOfMeaning(qs, near[j], i, i);
  }

  /** Scoring the pair `(i, j)` moves the bounds of `i` and `j` past each other and
      leaves every other bound alone. */
  lemma PairBounds(qs: seq<Question>, near: seq<set<nat>>, i: nat, j: nat, k: nat)
    requires NearShaped(qs, near) && i < j < |qs| && k < |qs|
    ensures k != i && k != j ==> NearBound(k, i, j + 1, |qs|) == NearBound(k, i, j, |qs|)
    ensures k == i ==> NearBound(k, i, j, |qs|) == j && NearBound(k, i, j + 1, |qs|) == j + 1
    ensures k == j ==> NearBound(k, i, j, |qs|) == i && NearBound(k, i, j + 1, |qs|) == i + 1
    ensures i in near[j] <==> j in near[i]
  {
  }

  /** Scoring the pair `(i, j)`, for the entry of question `k`. */
  lemma EntryPair(qs: seq<Question>, near: seq<set<nat>>, base: map<string, Diagnostic>,
                  diagnostics: map<string, Diagnostic>, i: nat, j: nat, linked: bool,
                  diagnostics': map<string, Diagnostic>, k: nat)
    requires WellFormed(qs) && NearShaped(qs, near) && i < j < |qs| && k < |qs|
    requires qs[i].id in diagnostics && qs[j].id in diagnostics
    requires EntryScored(qs, near, base, diagnostics, NearBound(k, i, j, |qs|), k)
    requires linked <==> j in near[i]
    requires !linked ==> diagnostics' == diagnostics
    requires linked ==> diagnostics' == diagnostics
               [qs[i].id := diagnostics[qs[i].id].(duplicates := diagnostics[qs[i].id].duplicates + [Ref(qs[j])])]
               [qs[j].id := diagnostics[qs[j].id].(duplicates := diagnostics[qs[j].id].duplicates + [Ref(qs[i])])]
    ensures EntryScored(qs, near, base, diagnostics', NearBound(k, i, j + 1, |qs|), k)
  {
    PairBounds(qs, near, i, j, k);
    if k != i && k != j {
      assert qs[k].id != qs[i].id && qs[k].id != qs[j].id;
    }
  }

  /** Scoring the pair `(i, j)`: when it is linked, `i` gains the reference to `j`
      and `j` the one to `i`, each at the end of its list. */
  lemma EntriesPair(qs: seq<Question>, near: seq<set<nat>>, base: map<string, Diagnostic>,
                    diagnostics: map<string, Diagnostic>, i: nat, j: nat, linked: bool,
                    diagnostics': map<string, Diagnostic>, next: nat)
    requires WellFormed(qs) && NearShaped(qs, near) && i < j < |qs| && next == j + 1
    requires EntriesScored(qs, near, base, diagnostics, i, j)
    requires qs[i].id in diagnostics && qs[j].id in diagnostics
    requires linked <==> j in near[i]
    requires !linked ==> diagnostics' == diagnostics
    requires linked ==> diagnostics' == diagnostics
               [qs[i].id := diagnostics[qs[i].id].(duplicates := diagnostics[qs[i].id].duplicates + [Ref(qs[j])])]
               [qs[j].id := diagnostics[qs[j].id].(duplicates := diagnostics[qs[j].id].duplicates + [Ref(qs[i])])]
    ensures EntriesScored(qs, near, base, diagnostics', i, next)
  {
    forall k | 0 <= k < |qs| ensures EntryScored(qs, near, base, diagnostics', NearBound(k, i, next, |qs|), k) {
      assert EntryScored(qs, near, base, diagnostics, NearBound(k, i, j, |qs|), k);
      EntryPair(qs, near, base, diagnostics, i, j, linked, diagnostics', k);
    }
  }

  /** Scoring the pair `(i, j)`, for the edges of question `k`. */
  lemma EdgePair(qs: seq<Question>, near: seq<set<nat>>, adjacency0: Adjacency, adjacency: Adjacency,
                 i: nat, j: nat, linked: bool, adjacency': Adjacency, k: nat)
    requires WellFormed(qs) && NearShaped(qs, near) && i < j < |qs| && k < |qs|
    requires EdgeScored(qs, near, adjacency0, adjacency, NearBound(k, i, j, |qs|), k)
    requires linked <==> j in near[i]
    requires !linked ==> adjacency' == adjacency
    requires linked ==> forall x :: (Neighbors(adjacency', x) ==
               if x == qs[i].id then Neighbors(adjacency, x) + {qs[j].id}
               else if x == qs[j].id then Neighbors(adjacency, x) + {qs[i].id}
               else Neighbors(adjacency, x))
    ensures EdgeScored(qs, near, adjacency0, adjacency', NearBound(k, i, j + 1, |qs|), k)
  {
    PairBounds(qs, near, i, j, k);
    if k != i && k != j {
      assert qs[k].id != qs[i].id && qs[k].id != qs[j].id;
    }
  }

  /** Scoring the pair `(i, j)`: when it is linked, `i` and `j` gain an edge to each other. */
  lemma EdgesPair(qs: seq<Question>, near: seq<set<nat>>, adjacency0: Adjacency, adjacency: Adjacency,
                  i: nat, j: nat, linked: bool, adjacency': Adjacency, next: nat)
    requires WellFormed(qs) && NearShaped(qs, near) && i < j < |qs| && next == j + 1
    requires EdgesScored(qs, near, adjacency0, adjacency, i, j)
    requires linked <==> j in near[i]
    requires !linked ==> adjacency' == adjacency
    requires linked ==> adjacency'.Keys == adjacency.Keys + {qs[i].id, qs[j].id}
    requires linked ==> forall x :: (Neighbors(adjacency', x) ==
               if x == qs[i].id then Neighbors(adjacency, x) + {qs[j].id}
               else if x == qs[j].id then Neighbors(adjacency, x) + {qs[i].id}
               else Neighbors(adjacency, x))
    ensures EdgesScored(qs, near, adjacency0, adjacency', i, next)
  {
    forall k | 0 <= k < |qs| ensures EdgeScored(qs, near, adjacency0, adjacency', NearBound(k, i, next, |qs|), k) {
      assert EdgeScored(qs, near, adjacency0, adjacency, NearBound(k, i, j, |qs|), k);
      EdgePair(qs, near, adjacency0, adjacency, i, j, linked, adjacency', k);
    }
  }

  /** Linking a scored pair (generation-client.tsx:192-199): each entry gains the
      reference to the other, which neither lists yet, and each question an edge to
      the other. */
  method LinkPair(first: Question, second: Question, diagnostics: map<string, Diagnostic>, adjacency: Adjacency)
    returns (diagnosticsOut: map<string, Diagnostic>, adjacencyOut: Adjacency)
    requires first.id != second.id && first.id in diagnostics && second.id in diagnostics
    requires Ref(second) !in diagnostics[first.id].duplicates && Ref(first) !in diagnostics[second.id].duplicates
    ensures diagnosticsOut == diagnostics
              [first.id := diagnostics[first.id].(duplicates := diagnostics[first.id].duplicates + [Ref(second)])]
              [second.id := diagnostics[second.id].(duplicates := diagnostics[second.id].duplicates + [Ref(first)])]
    ensures adjacencyOut.Keys == adjacency.Keys + {first.id, second.id}
    ensures forall x :: Neighbors(adjacencyOut, x) ==
              if x == first.id then Neighbors(adjacency, x) + {second.id}
              else if x == second.id then Neighbors(adjacency, x) + {first.id}
              else Neighbors(adjacency, x)
  {
    var firstEntry := diagnostics[first.id];
    var secondEntry := diagnostics[second.id];
    AddNewReference(firstEntry, second);
    AddNewReference(secondEntry, first);
    diagnosticsOut := diagnostics[first.id := AddDuplicateReference(firstEntry, second)];
    diagnosticsOut := diagnosticsOut[second.id := AddDuplicateReference(secondEntry, first)];
    adjacencyOut := EnsureEdge(adjacency, first.id, second.id);
    adjacencyOut := EnsureEdge(adjacencyOut, second.id, first.id);
  }

  /** Once every row is scored, every question has gained all its partners. */
  lemma ScoredEnds(qs: seq<Question>, near: seq<set<nat>>, base: map<string, Diagnostic>,
                   diagnostics: map<string, Diagnostic>, adjacency0: Adjacency, adjacency: Adjacency)
    requires NearShaped(qs, near)
    requires EntriesScored(qs, near, base, diagnostics, |qs|, |qs|)
    requires EdgesScored(qs, near, adjacency0, adjacency, |qs|, |qs|)
    ensures forall k :: 0 <= k < |qs| ==> (qs[k].id in base && diagnostics[qs[k].id] ==
              base[qs[k].id].(duplicates := base[qs[k].id].duplicates + RefsOf(qs, near[k], |qs|)))
    ensures forall k :: 0 <= k < |qs| ==> (Neighbors(adjacency, qs[k].id) ==
              Neighbors(adjacency0, qs[k].id) + IdsOf(qs, near[k]))
  {
    forall k | 0 <= k < |qs|
      ensures qs[k].id in base && diagnostics[qs[k].id] ==
                base[qs[k].id].(duplicates := base[qs[k].id].duplicates + RefsOf(qs, near[k], |qs|))
      ensures Neighbors(adjacency, qs[k].id) == Neighbors(adjacency0, qs[k].id) + IdsOf(qs, near[k])
    {
      assert EntryScored(qs, near, base, diagnostics, NearBound(k, |qs|, |qs|, |qs|), k);
      assert EdgeScored(qs, near, adjacency0, adjacency, NearBound(k, |qs|, |qs|, |qs|), k);
      IdsBelowAll(qs, near[k]);
    }
  }

  /** Scoring the pair of questions `i < j` (generation-client.tsx:173-199): when
      the scorer pairs their prompts, each entry gains the reference to the other
      and each question an edge to the other. */
  method ScoreStep(qs: seq<Question>, ghost near: seq<set<nat>>, ghost base: map<string, Diagnostic>,
                   ghost adjacency0: Adjacency, i: nat, j: nat, firstTokens: seq<string>, firstNormalized: string,
                   diagnostics: map<string, Diagnostic>, adjacency: Adjacency)
    returns (diagnosticsOut: map<string, Diagnostic>, adjacencyOut: Adjacency, next: nat)
    requires WellFormed(qs) && NearSets(qs, near) && i < j < |qs|
    requires firstTokens == Tokenize(qs[i].prompt) && firstNormalized == Normalize(qs[i].prompt)
    requires |firstTokens| >= MinTokens
    requires forall k :: 0 <= k < |qs| ==> qs[k].id in base
    requires forall k, m :: 0 <= k < |qs| && 0 <= m < |qs| && m in near[k] ==>
               Ref(qs[m]) !in base[qs[k].id].duplicates
    requires EntriesScored(qs, near, base, diagnostics, i, j)
    requires EdgesScored(qs, near, adjacency0, adjacency, i, j)
    ensures next == j + 1
    ensures EntriesScored(qs, near, base, diagnosticsOut, i, next)
    ensures EdgesScored(qs, near, adjacency0, adjacencyOut, i, next)
  {
    var first, second := qs[i], qs[j];
    var linked := ScorePair(first.prompt, firstTokens, firstNormalized, second.prompt);
    assert linked <==> j in near[i];
    diagnosticsOut, adjacencyOut := diagnostics, adjacency;
    if linked {
      PairFresh(qs, near, base, diagnostics, i, j);
      diagnosticsOut, adjacencyOut := LinkPair(first, second, diagnostics, adjacency);
    }
    next := j + 1;
    EntriesPair(qs, near, base, diagnostics, i, j, linked, diagnosticsOut, next);
    EdgesPair(qs, near, adjacency0, adjacency, i, j, linked, adjacencyOut, next);
  }

  /** One row of the scoring pass (generation-client.tsx:172-200): question `i`,
      whose prompt has at least three tokens, is scored against every later question. */
  method ScoreRow(qs: seq<Question>, ghost near: seq<set<nat>>, ghost base: map<string, Diagnostic>,
                  ghost adjacency0: Adjacency, i: nat, start: nat, firstTokens: seq<string>, firstNormalized: string,
                  diagnostics: map<string, Diagnostic>, adjacency: Adjacency)
    returns (diagnosticsOut: map<string, Diagnostic>, adjacencyOut: Adjacency)
    requires WellFormed(qs) && NearSets(qs, near) && i < |qs| && start == i + 1
    requires firstTokens == Tokenize(qs[i].prompt) && firstNormalized == Normalize(qs[i].prompt)
    requires |firstTokens| >= MinTokens
    requires forall k :: 0 <= k < |qs| ==> qs[k].id in base
    requires forall k, m :: 0 <= k < |qs| && 0 <= m < |qs| && m in near[k] ==>
               Ref(qs[m]) !in base[qs[k].id].duplicates
    requires EntriesScored(qs, near, base, diagnostics, i, start)
    requires EdgesScored(qs, near, adjacency0, adjacency, i, start)
    ensures EntriesScored(qs, near, base, diagnosticsOut, i, |qs|)
    ensures EdgesScored(qs, near, adjacency0, adjacencyOut, i, |qs|)
  {
    diagnosticsOut, adjacencyOut := diagnostics, adjacency;
    var j := start;
    while j < |qs|
      invariant i < j <= |qs|
      invariant EntriesScored(qs, near, base, diagnosticsOut, i, j)
      invariant EdgesScored(qs, near, adjacency0, adjacencyOut, i, j)
    {
      diagnosticsOut, adjacencyOut, j :=
        ScoreStep(qs, near, base, adjacency0, i, j, firstTokens, firstNormalized, diagnosticsOut, adjacencyOut);
    }
    assert j == |qs|;
  }

  /** The scoring pass (generation-client.tsx:166-201): for every pair `i < j` whose
      prompts the scorer pairs, each question gains the reference to the other and
      an edge to it; a question with fewer than three tokens is skipped whole.  Every
      question ends with the references to its partners in list order after the
      ones it had, and with edges to its partners. */
  method ScorePairs(qs: seq<Question>, ghost near: seq<set<nat>>, diagnostics: map<string, Diagnostic>,
                    adjacency: Adjacency)
    returns (diagnosticsOut: map<string, Diagnostic>, adjacencyOut: Adjacency)
    requires WellFormed(qs) && NearSets(qs, near)
    requires forall k :: 0 <= k < |qs| ==> qs[k].id in diagnostics
    requires forall k, m :: 0 <= k < |qs| && 0 <= m < |qs| && m in near[k] ==>
               Ref(qs[m]) !in diagnostics[qs[k].id].duplicates
    ensures diagnosticsOut.Keys == diagnostics.Keys
    ensures forall k :: 0 <= k < |qs| ==> (diagnosticsOut[qs[k].id] ==
              diagnostics[qs[k].id].(duplicates := diagnostics[qs[k].id].duplicates + RefsOf(qs, near[k], |qs|)))
    ensures forall k :: 0 <= k < |qs| ==> (Neighbors(adjacencyOut, qs[k].id) ==
              Neighbors(adjacency, qs[k].id) + IdsOf(qs, near[k]))
    ensures adjacencyOut.Keys <= adjacency.Keys + Ids(qs)
  {
    diagnosticsOut, adjacencyOut := diagnostics, adjacency;
    forall k | 0 <= k < |qs| ensures EntryScored(qs, near, diagnostics, diagnostics, NearBound(k, 0, 0, |qs|), k) {
    }
    var i := 0;
    while i < |qs|
      invariant i <= |qs|
      invariant EntriesScored(qs, near, diagnostics, diagnosticsOut, i, i)
      invariant EdgesScored(qs, near, adjacency, adjacencyOut, i, i)
    {
      var first := qs[i];
      var firstTokens := Tokenize(first.prompt);
      var next := i + 1;
      if |firstTokens| < MinTokens {
        FewTokensNoPairs(qs, near, i);
        EntriesSkip(qs, near, diagnostics, diagnosticsOut, i, next);
        EdgesSkip(qs, near, adjacency, adjacencyOut, i, next);
      } else {
        var firstNormalized := Normalize(first.prompt);
        EntriesEnter(qs, near, diagnostics, diagnosticsOut, i, next);
        EdgesEnter(qs, near, adjacency, adjacencyOut, i, next);
        diagnosticsOut, adjacencyOut := ScoreRow(qs, near, diagnostics, adjacency, i, next, firstTokens,
                                                 firstNormalized, diagnosticsOut, adjacencyOut);
        EntriesRowEnds(qs, near, diagnostics, diagnosticsOut, i, next);
        EdgesRowEnds(qs, near, adjacency, adjacencyOut, i, next);
      }
      i := next;
    }
    assert i == |qs|;
    ScoredEnds(qs, near, diagnostics, diagnosticsOut, adjacency, adjacencyOut);
  }
}
