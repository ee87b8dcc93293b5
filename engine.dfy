/**
 * The diagnostics computation as a whole (generation-client.tsx:81-264): the
 * per-question pass, the bucket pass, the scoring pass and the cluster scan run one
 * after the other over the working question list, and what they produce together
 * is stated against the reference definitions of the `Questions` module.
 */
module Engine {
  import opened Grammar
  import opened Graph
  import opened Questions
  import Diagnostics
  import Clusters
  import Similarity

  /** The duplicate graph the passes must build: every question is linked to the
      other questions of its key and to the questions the scorer pairs with it. */
  ghost function DuplicateGraph(qs: seq<Question>): (graph: Adjacency)
    requires WellFormed(qs)
    ensures graph.Keys == Ids(qs)
    ensures forall k :: 0 <= k < |qs| ==> Neighbors(graph, qs[k].id) == Partners(qs, k)
  {
    map k | 0 <= k < |qs| :: qs[k].id := Partners(qs, k)
  }

  /** The starting entry of every question, in list order. */
  ghost function InitialEntries(qs: seq<Question>): (entries: seq<Diagnostic>)
    ensures |entries| == |qs|
    ensures forall k :: 0 <= k < |qs| ==> entries[k] == Initial(qs[k])
  {
    seq(|qs|, k requires 0 <= k < |qs| => Initial(qs[k]))
  }

  /** The questions the scorer pairs with each question, in list order. */
  ghost function NearOf(qs: seq<Question>): (near: seq<set<nat>>)
    ensures |near| == |qs|
    ensures forall k :: 0 <= k < |qs| ==> near[k] == SimilarTo(qs, k)
  {
    seq(|qs|, k requires 0 <= k < |qs| => SimilarTo(qs, k))
  }

  /** The keys and starting entries the per-question pass computes are the
      reference ones. */
  lemma InitialPrepared(qs: seq<Question>)
    ensures Diagnostics.Prepared(qs, KeysOf(qs), InitialEntries(qs))
  {
    forall k | 0 <= k < |qs| ensures KeysOf(qs)[k] == Key(qs[k]) {
      KeyAt(qs, k);
    }
  }

  /** The scorer's pairings are symmetric, never pair a question with itself, and
      are exactly what `NearOf` lists. */
  lemma NearOfSets(qs: seq<Question>)
    ensures Diagnostics.NearSets(qs, NearOf(qs))
  {
    var near := NearOf(qs);
    forall a, b | 0 <= a < |qs| && b in near[a] ensures b < |qs| && b != a && a in near[b] {
      Questions.SimilarToSymmetric(qs, a, b);
      Questions.SimilarToSymmetric(qs, a, a);
    }
  }

  /** After the bucket pass no question refers yet to a question the scorer pairs
      with it: exact matches and near matches never overlap. */
  lemma NearPairsFresh(qs: seq<Question>, diagnostics: map<string, Diagnostic>)
    requires WellFormed(qs)
    requires forall k :: 0 <= k < |qs| ==>
               qs[k].id in diagnostics && diagnostics[qs[k].id].duplicates == RefsOf(qs, SameKey(KeysOf(qs), k), |qs|)
    ensures forall k, m :: 0 <= k < |qs| && 0 <= m < |qs| && m in NearOf(qs)[k] ==>
              Ref(qs[m]) !in diagnostics[qs[k].id].duplicates
  {
    var near := NearOf(qs);
    forall k, m | 0 <= k < |qs| && 0 <= m < |qs| && m in near[k]
      ensures Ref(qs[m]) !in diagnostics[qs[k].id].duplicates
    {
      ExactAndNearDisjoint(qs, k);
      RefsOfMeaning(qs, SameKey(KeysOf(qs), k), |qs|, m);
    }
  }

  /** The ids of the union of two index sets are the union of their ids. */
  lemma IdsOfUnion(qs: seq<Question>, s: set<nat>, t: set<nat>)
    ensures IdsOf(qs, s + t) == IdsOf(qs, s) + IdsOf(qs, t)
  {
  }

  /** An adjacency whose every question has exactly its partners as neighbours, and
      which has no other entry, is the duplicate graph in everything `Neighbors`
      sees. */
  lemma PartnerGraph(qs: seq<Question>, adj: Adjacency)
    requires WellFormed(qs) && adj.Keys <= Ids(qs)
    requires forall k :: 0 <= k < |qs| ==> Neighbors(adj, qs[k].id) == Partners(qs, k)
    ensures forall x :: Neighbors(adj, x) == Neighbors(DuplicateGraph(qs), x)
  {
    var graph := DuplicateGraph(qs);
    forall x ensures Neighbors(adj, x) == Neighbors(graph, x) {
      if x in Ids(qs) {
        var k :| 0 <= k < |qs| && qs[k].id == x;
      }
    }
  }

  /** Such an adjacency has the shape the cluster scan relies on: it stays within
      the list, every edge goes both ways and no question is linked to itself. */
  lemma PartnerGraphShape(qs: seq<Question>, adj: Adjacency)
    requires WellFormed(qs) && adj.Keys <= Ids(qs)
    requires forall k :: 0 <= k < |qs| ==> Neighbors(adj, qs[k].id) == Partners(qs, k)
    ensures Clusters.ScanGraph(qs, adj)
  {
    PartnerEntries(qs, adj);
    PartnerEdges(qs, adj);
  }

  lemma PartnerEntries(qs: seq<Question>, adj: Adjacency)
    requires WellFormed(qs) && adj.Keys <= Ids(qs)
    requires forall k :: 0 <= k < |qs| ==> Neighbors(adj, qs[k].id) == Partners(qs, k)
    ensures Within(adj, Ids(qs)) && NoSelfLoops(adj)
  {
    forall x | x in adj ensures adj[x] <= Ids(qs) && x !in adj[x] {
      PartnerEntry(qs, adj, x);
    }
  }

  lemma PartnerEdges(qs: seq<Question>, adj: Adjacency)
    requires WellFormed(qs) && adj.Keys <= Ids(qs)
    requires forall k :: 0 <= k < |qs| ==> Neighbors(adj, qs[k].id) == Partners(qs, k)
    ensures Symmetric(adj)
  {
    forall x, y | x in adj && y in adj[x] ensures x in Neighbors(adj, y) {
      PartnerEdge(qs, adj, x, y);
    }
  }

  lemma PartnerEntry(qs: seq<Question>, adj: Adjacency, x: string)
    requires WellFormed(qs) && adj.Keys <= Ids(qs) && x in adj
    requires forall k :: 0 <= k < |qs| ==> Neighbors(adj, qs[k].id) == Partners(qs, k)
    ensures adj[x] <= Ids(qs) && x !in adj[x]
  {
    var k :| 0 <= k < |qs| && qs[k].id == x;
    assert adj[x] == Partners(qs, k);
    IdsOfWithin(qs, SameKey(KeysOf(qs), k) + SimilarTo(qs, k));
    PartnersMeaning(qs, k, k);
    DuplicatesDistinct(qs, k);
  }

  /** Ids picked from the list by index are ids of the list. */
  lemma IdsOfWithin(qs: seq<Question>, s: set<nat>)
    ensures IdsOf(qs, s) <= Ids(qs)
  {
    forall y | y in IdsOf(qs, s) ensures y in Ids(qs) {
      var m :| m in s && m < |qs| && qs[m].id == y;
    }
  }

  lemma PartnerEdge(qs: seq<Question>, adj: Adjacency, x: string, y: string)
    requires WellFormed(qs) && adj.Keys <= Ids(qs) && x in adj && y in adj[x]
    requires forall k :: 0 <= k < |qs| ==> Neighbors(adj, qs[k].id) == Partners(qs, k)
    ensures x in Neighbors(adj, y)
  {
    var k :| 0 <= k < |qs| && qs[k].id == x;
    assert adj[x] == Partners(qs, k);
    var m: nat :| m in SameKey(KeysOf(qs), k) + SimilarTo(qs, k) && m < |qs| && qs[m].id == y;
    PartnersMeaning(qs, k, m);
    PartnersMeaning(qs, m, k);
    DuplicatesSymmetric(qs, k, m);
  }

  /** Two adjacencies that agree on every node's neighbours have the same paths. */
  lemma SameNeighborsSamePaths(adj: Adjacency, other: Adjacency, p: seq<string>)
    requires forall x :: Neighbors(adj, x) == Neighbors(other, x)
    ensures IsPath(adj, p) <==> IsPath(other, p)
  {
  }

  /** Two adjacencies that agree on every node's neighbours have the same
      components, so a cluster of one is a cluster of the other. */
  lemma SameNeighborsSameMembers(qs: seq<Question>, adj: Adjacency, other: Adjacency, items: seq<Question>)
    requires forall x :: Neighbors(adj, x) == Neighbors(other, x)
    requires Clusters.ComponentMembers(qs, adj, items)
    ensures Clusters.ComponentMembers(qs, other, items)
  {
    var a := items[0].id;
    forall b ensures Reachable(adj, a, b) <==> Reachable(other, a, b) {
      if Reachable(adj, a, b) {
        var p :| IsPath(adj, p) && p[0] == a && p[|p| - 1] == b;
        SameNeighborsSamePaths(adj, other, p);
      }
      if Reachable(other, a, b) {
        var p :| IsPath(other, p) && p[0] == a && p[|p| - 1] == b;
        SameNeighborsSamePaths(adj, other, p);
      }
    }
    assert Component(adj, Ids(qs), a) == Component(other, Ids(qs), a);
  }

  /** The bucket pass's edges followed by the scoring pass's are the partners of
      every question, and nothing else. */
  lemma ScoredGraph(qs: seq<Question>, adjacency: Adjacency, graph: Adjacency)
    requires adjacency.Keys <= Ids(qs)
    requires forall k :: 0 <= k < |qs| ==> Neighbors(adjacency, qs[k].id) == IdsOf(qs, SameKey(KeysOf(qs), k))
    requires graph.Keys <= adjacency.Keys + Ids(qs)
    requires forall k :: 0 <= k < |qs| ==>
               Neighbors(graph, qs[k].id) == Neighbors(adjacency, qs[k].id) + IdsOf(qs, NearOf(qs)[k])
    ensures graph.Keys <= Ids(qs)
    ensures forall k :: 0 <= k < |qs| ==> Neighbors(graph, qs[k].id) == Partners(qs, k)
  {
    forall k | 0 <= k < |qs| ensures Neighbors(graph, qs[k].id) == Partners(qs, k) {
      IdsOfUnion(qs, SameKey(KeysOf(qs), k), SimilarTo(qs, k));
    }
  }

  /** The entries after the first three passes: the grammar messages of the first
      pass, the exact references of the bucket pass followed by the near ones of the
      scoring pass, and no cluster yet. */
  lemma ScoredEntries(qs: seq<Question>, initial: map<string, Diagnostic>, exact: map<string, Diagnostic>,
                      scored: map<string, Diagnostic>)
    requires exact.Keys == initial.Keys && scored.Keys == exact.Keys
    requires forall k :: 0 <= k < |qs| ==> qs[k].id in initial && initial[qs[k].id] == Initial(qs[k])
    requires forall k :: 0 <= k < |qs| ==>
               exact[qs[k].id] == initial[qs[k].id].(duplicates := RefsOf(qs, SameKey(KeysOf(qs), k), |qs|))
    requires forall k :: 0 <= k < |qs| ==>
               scored[qs[k].id] == exact[qs[k].id].(duplicates := exact[qs[k].id].duplicates + RefsOf(qs, NearOf(qs)[k], |qs|))
    ensures forall k :: 0 <= k < |qs| ==>
              scored[qs[k].id] == Diagnostic(GrammarMessages(qs[k].prompt), ExpectedDuplicates(qs, k), None)
  {
  }

  /** The clusters the scan finds in the computed graph are clusters of the
      duplicate graph. */
  lemma ClustersOfGraph(qs: seq<Question>, graph: Adjacency, clusters: seq<Cluster>)
    requires WellFormed(qs)
    requires forall x :: Neighbors(graph, x) == Neighbors(DuplicateGraph(qs), x)
    requires forall c :: 0 <= c < |clusters| ==>
               clusters[c].id == Clusters.ClusterName(c + 1) && |clusters[c].questions| >= 2
               && Clusters.ComponentMembers(qs, graph, clusters[c].questions)
    ensures forall c :: 0 <= c < |clusters| ==>
              clusters[c].id == Clusters.ClusterName(c + 1) && |clusters[c].questions| >= 2
              && Clusters.ComponentMembers(qs, DuplicateGraph(qs), clusters[c].questions)
  {
    forall c | 0 <= c < |clusters| ensures Clusters.ComponentMembers(qs, DuplicateGraph(qs), clusters[c].questions) {
      SameNeighborsSameMembers(qs, graph, DuplicateGraph(qs), clusters[c].questions);
    }
  }

  /** A question carries a cluster name exactly when it has a partner, and then it
      is the name of the cluster it is in. */
  lemma ClusterLabels(qs: seq<Question>, graph: Adjacency, scored: map<string, Diagnostic>,
                      labelled: map<string, Diagnostic>, clusters: seq<Cluster>)
    requires forall k :: 0 <= k < |qs| ==> Neighbors(graph, qs[k].id) == Partners(qs, k)
    requires scored.Keys == Ids(qs) && labelled.Keys == scored.Keys
    requires forall k :: 0 <= k < |qs| ==>
               scored[qs[k].id] == Diagnostic(GrammarMessages(qs[k].prompt), ExpectedDuplicates(qs, k), None)
    requires forall x :: x in scored ==> labelled[x] == scored[x].(clusterId := labelled[x].clusterId)
    requires forall c, i :: 0 <= c < |clusters| && 0 <= i < |clusters[c].questions| ==> clusters[c].questions[i] in qs
    requires forall k :: 0 <= k < |qs| && Neighbors(graph, qs[k].id) != {} ==>
               exists c :: 0 <= c < |clusters| && qs[k] in clusters[c].questions
    requires forall c, i :: 0 <= c < |clusters| && 0 <= i < |clusters[c].questions| && clusters[c].questions[i].id in scored ==>
               labelled[clusters[c].questions[i].id] == scored[clusters[c].questions[i].id].(clusterId := Some(clusters[c].id))
    requires forall x :: x in scored && (x !in Ids(qs) || Neighbors(graph, x) == {}) ==> labelled[x] == scored[x]
    ensures forall c, i :: 0 <= c < |clusters| && 0 <= i < |clusters[c].questions| ==>
              clusters[c].questions[i].id in labelled
              && labelled[clusters[c].questions[i].id].clusterId == Some(clusters[c].id)
    ensures forall k :: 0 <= k < |qs| ==> labelled[qs[k].id].grammar == GrammarMessages(qs[k].prompt)
    ensures forall k :: 0 <= k < |qs| ==> labelled[qs[k].id].duplicates == ExpectedDuplicates(qs, k)
    ensures forall k :: 0 <= k < |qs| ==> (labelled[qs[k].id].clusterId == None <==> Partners(qs, k) == {})
    ensures forall k :: 0 <= k < |qs| && Partners(qs, k) != {} ==>
              exists c :: 0 <= c < |clusters| && qs[k] in clusters[c].questions
  {
    forall c, i | 0 <= c < |clusters| && 0 <= i < |clusters[c].questions|
      ensures clusters[c].questions[i].id in labelled
      ensures labelled[clusters[c].questions[i].id].clusterId == Some(clusters[c].id)
    {
      assert clusters[c].questions[i] in qs;
      var k :| 0 <= k < |qs| && qs[k] == clusters[c].questions[i];
      assert qs[k].id in Ids(qs);
    }
    forall k | 0 <= k < |qs|
      ensures labelled[qs[k].id].grammar == GrammarMessages(qs[k].prompt)
      ensures labelled[qs[k].id].duplicates == ExpectedDuplicates(qs, k)
      ensures labelled[qs[k].id].clusterId == None <==> Partners(qs, k) == {}
    {
      assert qs[k].id in Ids(qs);
      if Partners(qs, k) != {} {
        var c :| 0 <= c < |clusters| && qs[k] in clusters[c].questions;
        var i :| 0 <= i < |clusters[c].questions| && clusters[c].questions[i] == qs[k];
      }
    }
  }

  /** The first three passes (generation-client.tsx:115-201): every question gets
      its grammar messages, the references to the other questions of its key and
      then to the questions the scorer pairs with it, and no cluster; the graph links
      every question to exactly its partners; the id index holds every question. */
  method LinkDuplicates(qs: seq<Question>)
    returns (linked: map<string, Diagnostic>, graph: Adjacency, questionById: map<string, Question>)
    requires WellFormed(qs)
    ensures linked.Keys == Ids(qs)
    ensures forall k :: 0 <= k < |qs| ==>
              linked[qs[k].id] == Diagnostic(GrammarMessages(qs[k].prompt), ExpectedDuplicates(qs, k), None)
    ensures graph.Keys <= Ids(qs)
    ensures forall k :: 0 <= k < |qs| ==> Neighbors(graph, qs[k].id) == Partners(qs, k)
    ensures Clusters.Indexed(qs, questionById)
  {
    ghost var keys, entries := KeysOf(qs), InitialEntries(qs);
    InitialPrepared(qs);
    var initial, buckets, bucketKeys;
    initial, buckets, bucketKeys, questionById := Diagnostics.InitialPass(qs, keys, entries);
    var exact, adjacency := Diagnostics.LinkBuckets(qs, keys, initial, buckets, bucketKeys);
    ghost var near := NearOf(qs);
    NearOfSets(qs);
    NearPairsFresh(qs, exact);
    linked, graph := Diagnostics.ScorePairs(qs, near, exact, adjacency);
    ScoredGraph(qs, adjacency, graph);
    ScoredEntries(qs, initial, exact, linked);
  }

  /** What the diagnostics memo must produce for a well-formed list.  Every question
      ends with its grammar messages and with the references to the other questions
      of its key and then to the questions the scorer pairs with it, each in list
      order.  The clusters are the connected components of the duplicate graph with
      two or more questions, each sorted by order and named `cluster-1`,
      `cluster-2`, ... in the order of their first question; they are disjoint,
      every question with a partner is in one, and a question carries the name of
      its cluster exactly when it has a partner. */
  ghost predicate Computed(qs: seq<Question>, diagnostics: map<string, Diagnostic>, clusters: seq<Cluster>)
    requires WellFormed(qs)
  {
    EntriesComputed(qs, diagnostics) && ClustersComputed(qs, clusters) && ClustersLabelled(diagnostics, clusters)
  }

  /** Every question's entry: its grammar messages, its duplicates in the reference
      order, and a cluster exactly when it has a partner. */
  ghost predicate EntriesComputed(qs: seq<Question>, diagnostics: map<string, Diagnostic>)
    requires WellFormed(qs)
  {
    && diagnostics.Keys == Ids(qs)
    && (forall k :: 0 <= k < |qs| ==> diagnostics[qs[k].id].grammar == GrammarMessages(qs[k].prompt))
    && (forall k :: 0 <= k < |qs| ==> diagnostics[qs[k].id].duplicates == ExpectedDuplicates(qs, k))
    && (forall k :: 0 <= k < |qs| ==> (diagnostics[qs[k].id].clusterId == None <==> Partners(qs, k) == {}))
  }

  /** The clusters: disjoint, in the order of their first question, named by their
      position, each a component of the duplicate graph with two or more questions,
      and covering every question with a partner. */
  ghost predicate ClustersComputed(qs: seq<Question>, clusters: seq<Cluster>)
    requires WellFormed(qs)
  {
    && (forall c, d, i, j :: 0 <= c < d < |clusters| && 0 <= i < |clusters[c].questions| && 0 <= j < |clusters[d].questions| ==>
          clusters[c].questions[i].id != clusters[d].questions[j].id)
    && (forall c :: 0 <= c < |clusters| ==> clusters[c].id == Clusters.ClusterName(c + 1) && |clusters[c].questions| >= 2)
    && (forall c, d :: 0 <= c < d < |clusters| ==> clusters[c].questions[0].order < clusters[d].questions[0].order)
    && (forall c :: 0 <= c < |clusters| ==> Clusters.ComponentMembers(qs, DuplicateGraph(qs), clusters[c].questions))
    && (forall k :: 0 <= k < |qs| && Partners(qs, k) != {} ==>
          exists c :: 0 <= c < |clusters| && qs[k] in clusters[c].questions)
  }

  /** Every member of a cluster carries the cluster's name. */
  ghost predicate ClustersLabelled(diagnostics: map<string, Diagnostic>, clusters: seq<Cluster>) {
    forall c, i :: 0 <= c < |clusters| && 0 <= i < |clusters[c].questions| ==>
      clusters[c].questions[i].id in diagnostics
      && diagnostics[clusters[c].questions[i].id].clusterId == Some(clusters[c].id)
  }

  /** What the cluster scan's results mean for the list: the scan's guarantees over
      the computed graph, restated over the duplicate graph and the partners. */
  lemma ScanOutcome(qs: seq<Question>, graph: Adjacency, linked: map<string, Diagnostic>,
                    labelled: map<string, Diagnostic>, clusters: seq<Cluster>)
    requires WellFormed(qs)
    requires linked.Keys == Ids(qs)
    requires forall k :: 0 <= k < |qs| ==>
               linked[qs[k].id] == Diagnostic(GrammarMessages(qs[k].prompt), ExpectedDuplicates(qs, k), None)
    requires graph.Keys <= Ids(qs)
    requires forall k :: 0 <= k < |qs| ==> Neighbors(graph, qs[k].id) == Partners(qs, k)
    requires labelled.Keys == linked.Keys
    requires forall c :: 0 <= c < |clusters| ==>
               clusters[c].id == Clusters.ClusterName(c + 1) && |clusters[c].questions| >= 2
               && Clusters.ComponentMembers(qs, graph, clusters[c].questions)
    requires forall k :: 0 <= k < |qs| && Neighbors(graph, qs[k].id) != {} ==>
               exists c :: 0 <= c < |clusters| && qs[k] in clusters[c].questions
    requires forall c, i :: 0 <= c < |clusters| && 0 <= i < |clusters[c].questions| && clusters[c].questions[i].id in linked ==>
               labelled[clusters[c].questions[i].id] == linked[clusters[c].questions[i].id].(clusterId := Some(clusters[c].id))
    requires forall x :: x in linked && (x !in Ids(qs) || Neighbors(graph, x) == {}) ==> labelled[x] == linked[x]
    requires forall x :: x in linked ==> labelled[x] == linked[x].(clusterId := labelled[x].clusterId)
    requires forall c, d :: 0 <= c < d < |clusters| ==> clusters[c].questions[0].order < clusters[d].questions[0].order
    requires forall c, d, i, j :: 0 <= c < d < |clusters| && 0 <= i < |clusters[c].questions| && 0 <= j < |clusters[d].questions| ==>
               clusters[c].questions[i].id != clusters[d].questions[j].id
    ensures Computed(qs, labelled, clusters)
  {
    PartnerGraph(qs, graph);
    ClustersOfGraph(qs, graph, clusters);
    ClusterLabels(qs, graph, linked, labelled, clusters);
  }

  /** The diagnostics memo (generation-client.tsx:81-264): the per-question pass,
      the bucket pass and the scoring pass build the entries and the duplicate graph,
      and the cluster scan groups and labels the linked questions. */
  method ComputeDiagnostics(qs: seq<Question>) returns (diagnostics: map<string, Diagnostic>, clusters: seq<Cluster>)
    requires WellFormed(qs)
    ensures Computed(qs, diagnostics, clusters)
  {
    var linked, graph, questionById := LinkDuplicates(qs);
    PartnerGraphShape(qs, graph);
    diagnostics, clusters := Clusters.ScanClusters(qs, graph, questionById, linked);
    ScanOutcome(qs, graph, linked, diagnostics, clusters);
  }

  /** Two questions the diagnostics link, directly, end up under the same cluster
      name: the cluster holding the first is the component of the duplicate graph
      that also reaches the second. */
  lemma PartnersShareCluster(qs: seq<Question>, diagnostics: map<string, Diagnostic>, clusters: seq<Cluster>, i: nat, j: nat)
    requires WellFormed(qs) && Computed(qs, diagnostics, clusters)
    requires i < |qs| && j < |qs| && qs[j].id in Partners(qs, i)
    ensures qs[i].id in diagnostics && qs[j].id in diagnostics
    ensures diagnostics[qs[i].id].clusterId.Some?
    ensures diagnostics[qs[i].id].clusterId == diagnostics[qs[j].id].clusterId
  {
    assert ClustersComputed(qs, clusters) && ClustersLabelled(diagnostics, clusters);
    LabelledPartners(qs, diagnostics, clusters, i, j);
  }

  lemma LabelledPartners(qs: seq<Question>, diagnostics: map<string, Diagnostic>, clusters: seq<Cluster>, i: nat, j: nat)
    requires WellFormed(qs) && ClustersComputed(qs, clusters) && ClustersLabelled(diagnostics, clusters)
    requires i < |qs| && j < |qs| && qs[j].id in Partners(qs, i)
    ensures qs[i].id in diagnostics && qs[j].id in diagnostics
    ensures diagnostics[qs[i].id].clusterId == diagnostics[qs[j].id].clusterId == Some(diagnostics[qs[i].id].clusterId.value)
  {
    var c :| 0 <= c < |clusters| && qs[i] in clusters[c].questions;
    var items := clusters[c].questions;
    var n, m := ComponentHoldsPartner(qs, items, i, j);
    assert diagnostics[items[n].id].clusterId == Some(clusters[c].id);
    assert diagnostics[items[m].id].clusterId == Some(clusters[c].id);
  }

  /** A cluster that holds a question holds its partners too. */
  lemma ComponentHoldsPartner(qs: seq<Question>, items: seq<Question>, i: nat, j: nat) returns (n: nat, m: nat)
    requires WellFormed(qs) && Clusters.ComponentMembers(qs, DuplicateGraph(qs), items)
    requires i < |qs| && j < |qs| && qs[j].id in Partners(qs, i) && qs[i] in items
    ensures n < |items| && items[n].id == qs[i].id
    ensures m < |items| && items[m].id == qs[j].id
  {
    var graph := DuplicateGraph(qs);
    n :| 0 <= n < |items| && items[n] == qs[i];
    assert qs[i].id in Ids(items);
    assert Reachable(graph, items[0].id, qs[i].id);
    ReachableStep(graph, items[0].id, qs[i].id, qs[j].id);
    assert qs[j].id in Ids(items);
    m :| 0 <= m < |items| && items[m].id == qs[j].id;
  }

  /** Two different questions with the same key, or that the scorer pairs, share
      a cluster name. */
  lemma DuplicatesShareCluster(qs: seq<Question>, diagnostics: map<string, Diagnostic>, clusters: seq<Cluster>, i: nat, j: nat)
    requires WellFormed(qs) && Computed(qs, diagnostics, clusters)
    requires i < |qs| && j < |qs|
    requires (i != j && Key(qs[i]) == Key(qs[j])) || Similarity.Similar(qs[i].prompt, qs[j].prompt)
    ensures qs[i].id in diagnostics && qs[j].id in diagnostics
    ensures diagnostics[qs[i].id].clusterId.Some?
    ensures diagnostics[qs[i].id].clusterId == diagnostics[qs[j].id].clusterId
  {
    DuplicateIsPartner(qs, i, j);
    PartnersShareCluster(qs, diagnostics, clusters, i, j);
  }
}
