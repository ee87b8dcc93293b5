/**
 * The cluster scan that closes the diagnostics (generation-client.tsx:203-258):
 * every question with a neighbour in the duplicate graph starts, unless an earlier
 * walk reached it, a depth-first walk that collects its connected component; the
 * component becomes a cluster named `cluster-1`, `cluster-2`, ... in scan order,
 * its questions are sorted by `order`, and each member's diagnostic records the
 * cluster's id.
 *
 * The source keeps the clusters in a `Map` keyed by cluster id; the model keeps
 * them in a sequence in insertion order, which is the order the map iterates in,
 * and proves the ids distinct.
 */
module Clusters {
  import opened Text
  import opened Graph
  import opened Questions

  /** `cluster-${index}` (generation-client.tsx:243). */
  function ClusterName(index: nat): (name: string)
    ensures |name| > 8 && name[..8] == "cluster-"
  {
    "cluster-" + NatToString(index)
  }

  /** Different indices give different cluster ids. */
  lemma ClusterNameInjective(a: nat, b: nat)
    requires ClusterName(a) == ClusterName(b)
    ensures a == b
  {
    assert NatToString(a) == ClusterName(a)[8..];
    assert NatToString(b) == ClusterName(b)[8..];
    NatToStringInjective(a, b);
  }

  // ---------------------------------------------------------------------------
  // Listing and sorting the members of a component
  // ---------------------------------------------------------------------------

  /** Orders strictly increase along the list. */
  predicate ByOrder(items: seq<Question>) {
    forall i, j :: 0 <= i < j < |items| ==> items[i].order < items[j].order
  }

  /** No two questions of the list have the same `order`. */
  predicate DistinctOrders(items: seq<Question>) {
    forall i, j :: 0 <= i < j < |items| ==> items[i].order != items[j].order
  }

  /** Inserts `x` into a list sorted by `order`, before the first question with a
      larger `order`. */
  function InsertByOrder(x: Question, sorted: seq<Question>): (r: seq<Question>)
    requires ByOrder(sorted)
    requires forall i :: 0 <= i < |sorted| ==> sorted[i].order != x.order
    ensures multiset(r) == multiset(sorted) + multiset{x}
    ensures |r| == |sorted| + 1 && ByOrder(r)
    ensures r[0] == x || (sorted != [] && r[0] == sorted[0])
  {
    if sorted == [] || x.order < sorted[0].order then
      ByOrderCons(x, sorted);
      [x] + sorted
    else
      var rest := InsertByOrder(x, sorted[1..]);
      ByOrderCons(sorted[0], rest);
      assert sorted == [sorted[0]] + sorted[1..];
      [sorted[0]] + rest
  }

  /** A question placed before a list sorted by `order` whose first `order` is
      larger keeps the list sorted. */
  lemma ByOrderCons(x: Question, sorted: seq<Question>)
    requires ByOrder(sorted) && (sorted == [] || x.order < sorted[0].order)
    ensures ByOrder([x] + sorted)
  {
    var r := [x] + sorted;
    forall i, j | 0 <= i < j < |r| ensures r[i].order < r[j].order {
      if i == 0 && j > 1 {
        assert sorted[0].order < sorted[j - 1].order;
      }
    }
  }

  /** `.sort((a, b) => a.order - b.order)` on questions whose orders are distinct:
      the same questions, by increasing `order`. */
  function SortByOrder(items: seq<Question>): (r: seq<Question>)
    requires DistinctOrders(items)
    ensures multiset(r) == multiset(items)
    ensures ByOrder(r)
  {
    if items == [] then []
    else
      var init := items[..|items| - 1];
      var sorted := SortByOrder(init);
      assert items == init + [items[|items| - 1]];
      OrdersAvoid(sorted, init, items[|items| - 1]);
      InsertByOrder(items[|items| - 1], sorted)
  }

  /** A list with the same questions as `init` avoids every `order` that `init` avoids. */
  lemma OrdersAvoid(sorted: seq<Question>, init: seq<Question>, x: Question)
    requires multiset(sorted) == multiset(init)
    requires forall j :: 0 <= j < |init| ==> init[j].order != x.order
    ensures forall i :: 0 <= i < |sorted| ==> sorted[i].order != x.order
  {
    forall i | 0 <= i < |sorted| ensures sorted[i].order != x.order {
      assert sorted[i] in multiset(init);
    }
  }

  lemma IdsSnoc(items: seq<Question>, q: Question)
    ensures Ids(items + [q]) == Ids(items) + {q.id}
  {
    var longer := items + [q];
    assert longer[|items|] == q;
    forall x | x in Ids(items) ensures x in Ids(longer) {
      var i :| 0 <= i < |items| && items[i].id == x;
      assert longer[i] == items[i];
    }
  }

  /** Two lists with the same questions have the same ids. */
  lemma SameIds(a: seq<Question>, b: seq<Question>)
    requires multiset(a) == multiset(b)
    ensures Ids(a) == Ids(b)
  {
    forall x | x in Ids(a) ensures x in Ids(b) {
      var i :| 0 <= i < |a| && a[i].id == x;
      assert a[i] in multiset(b);
    }
    forall x | x in Ids(b) ensures x in Ids(a) {
      var i :| 0 <= i < |b| && b[i].id == x;
      assert b[i] in multiset(a);
    }
  }

  /** The questions listed so far for the member ids outside `remaining`: one per
      id, each the question `questionById` holds under its id. */
  ghost predicate MembersListed(members: set<string>, questionById: map<string, Question>,
                                remaining: set<string>, list: seq<Question>)
  {
    && remaining <= members
    && Ids(list) == members - remaining
    && (forall i :: 0 <= i < |list| ==> list[i].id in members && list[i].id in questionById
                                         && list[i] == questionById[list[i].id])
    && (forall i, j :: 0 <= i < j < |list| ==> list[i].id != list[j].id)
  }

  lemma MembersListedStep(members: set<string>, questionById: map<string, Question>,
                          remaining: set<string>, list: seq<Question>, memberId: string)
    requires MembersListed(members, questionById, remaining, list)
    requires memberId in remaining && memberId in questionById && questionById[memberId].id == memberId
    ensures MembersListed(members, questionById, remaining - {memberId}, list + [questionById[memberId]])
  {
    var member := questionById[memberId];
    var longer := list + [member];
    IdsSnoc(list, member);
    assert memberId !in Ids(list);
    forall i | 0 <= i < |longer|
      ensures longer[i].id in members && longer[i].id in questionById && longer[i] == questionById[longer[i].id]
    {
      if i < |list| {
        assert longer[i] == list[i];
      }
    }
    forall i, j | 0 <= i < j < |longer| ensures longer[i].id != longer[j].id {
      assert longer[i] == list[i];
      if j < |list| {
        assert longer[j] == list[j];
      }
    }
  }

  /** `Array.from(members).map((memberId) => questionById.get(memberId)!)`: the
      question of every member id, once each, in the set's iteration order (any
      order here).  The `!` asserts that every member has a question. */
  method MemberQuestions(members: set<string>, questionById: map<string, Question>)
    returns (list: seq<Question>)
    requires members <= questionById.Keys
    requires forall x :: x in members ==> questionById[x].id == x
    ensures Ids(list) == members
    ensures forall i :: 0 <= i < |list| ==> list[i].id in members && list[i] == questionById[list[i].id]
    ensures forall i, j :: 0 <= i < j < |list| ==> list[i].id != list[j].id
  {
    list := [];
    var remaining := members;
    while remaining != {}
      invariant MembersListed(members, questionById, remaining, list)
      decreases |remaining|
    {
      var memberId :| memberId in remaining;
      MembersListedStep(members, questionById, remaining, list, memberId);
      list := list + [questionById[memberId]];
      remaining := remaining - {memberId};
    }
  }

  /** `clusterQuestions.forEach(...)` (generation-client.tsx:248-253): every member
      that has a diagnostic gets `clusterId`; nothing else changes. */
  method AssignCluster(diagnostics: map<string, Diagnostic>, questions: seq<Question>, clusterId: string)
    returns (labelled: map<string, Diagnostic>)
    ensures labelled.Keys == diagnostics.Keys
    ensures forall x :: x in diagnostics ==>
              labelled[x] == (if x in Ids(questions) then diagnostics[x].(clusterId := Some(clusterId)) else diagnostics[x])
  {
    labelled := diagnostics;
    var i := 0;
    while i < |questions|
      invariant 0 <= i <= |questions|
      invariant labelled.Keys == diagnostics.Keys
      invariant forall x :: x in diagnostics ==>
                  labelled[x] == (if x in Ids(questions[..i]) then diagnostics[x].(clusterId := Some(clusterId)) else diagnostics[x])
    {
      var member := questions[i];
      if member.id in labelled {
        labelled := labelled[member.id := labelled[member.id].(clusterId := Some(clusterId))];
      }
      assert questions[..i + 1] == questions[..i] + [member];
      IdsSnoc(questions[..i], member);
      i := i + 1;
    }
    assert questions[..i] == questions;
  }

  // ---------------------------------------------------------------------------
  // What the scan keeps
  // ---------------------------------------------------------------------------

  /** The questions of a cluster as the scan emits them: at least two questions of
      the list, by strictly increasing `order`, whose ids are exactly the connected
      component of the first one in `adj`. */
  ghost predicate ComponentMembers(qs: seq<Question>, adj: Adjacency, items: seq<Question>)
    ensures ComponentMembers(qs, adj, items) ==> |items| >= 2
  {
    && |items| >= 2
    && (forall i :: 0 <= i < |items| ==> items[i] in qs)
    && ByOrder(items)
    && Ids(items) == Component(adj, Ids(qs), items[0].id)
  }

  /** The clusters are named `cluster-1`, `cluster-2`, ... in sequence. */
  predicate Named(clusters: seq<Cluster>) {
    forall c :: 0 <= c < |clusters| ==> clusters[c].id == ClusterName(c + 1)
  }

  /** Every cluster holds a component, as the scan emits it. */
  ghost predicate Components(qs: seq<Question>, adj: Adjacency, clusters: seq<Cluster>) {
    forall c :: 0 <= c < |clusters| ==> ComponentMembers(qs, adj, clusters[c].questions)
  }

  /** Every cluster starts with one of the first `k` questions, and the clusters
      come by increasing `order` of their first question. */
  predicate Starts(clusters: seq<Cluster>, k: int) {
    && (forall c :: 0 <= c < |clusters| ==> |clusters[c].questions| > 0 && clusters[c].questions[0].order < k)
    && (forall c, d :: 0 <= c < d < |clusters| ==> clusters[c].questions[0].order < clusters[d].questions[0].order)
  }

  /** The clusters emitted while scanning the first `k` questions. */
  ghost predicate ClustersFormed(qs: seq<Question>, adj: Adjacency, k: nat, clusters: seq<Cluster>) {
    Named(clusters) && Components(qs, adj, clusters) && Starts(clusters, k)
  }

  /** The visited ids are ids of the list, no edge leaves them, and they include the
      first `k` questions. */
  ghost predicate VisitedPrefix(qs: seq<Question>, adj: Adjacency, k: nat, visited: set<string>)
    requires k <= |qs|
  {
    && visited <= Ids(qs) && Closed(adj, visited)
    && (forall m :: 0 <= m < k ==> qs[m].id in visited)
  }

  /** `owner` is defined on the visited ids that have a neighbour. */
  ghost predicate OwnedKeys(adj: Adjacency, visited: set<string>, owner: map<string, nat>) {
    forall x :: x in owner <==> x in visited && Neighbors(adj, x) != {}
  }

  /** `owner` maps each of its ids to the index of the cluster holding it, and every
      cluster member to its cluster. */
  ghost predicate OwnedClusters(clusters: seq<Cluster>, owner: map<string, nat>) {
    && (forall x :: x in owner ==> owner[x] < |clusters| && x in Ids(clusters[owner[x]].questions))
    && (forall c, i :: 0 <= c < |clusters| && 0 <= i < |clusters[c].questions| ==>
          clusters[c].questions[i].id in owner && owner[clusters[c].questions[i].id] == c)
  }

  /** The diagnostics differ from `base` only in the cluster id of owned questions. */
  ghost predicate Entries(base: map<string, Diagnostic>, diagnostics: map<string, Diagnostic>, owner: map<string, nat>) {
    && diagnostics.Keys == base.Keys
    && forall x :: x in base ==>
         diagnostics[x] == (if x in owner then base[x].(clusterId := Some(ClusterName(owner[x] + 1))) else base[x])
  }

  /** The shape of the graph the scan runs on. */
  ghost predicate ScanGraph(qs: seq<Question>, adj: Adjacency) {
    Within(adj, Ids(qs)) && Symmetric(adj) && NoSelfLoops(adj)
  }

  /** `questionById` holds every question of the list under its id. */
  predicate Indexed(qs: seq<Question>, questionById: map<string, Question>) {
    forall m :: 0 <= m < |qs| ==> qs[m].id in questionById && questionById[qs[m].id] == qs[m]
  }

  // ---------------------------------------------------------------------------
  // Facts about components
  // ---------------------------------------------------------------------------

  /** A node with a neighbour shares its component with that neighbour, which is
      another node of `nodes`. */
  lemma NeighborInComponent(adj: Adjacency, nodes: set<string>, x: string, y: string)
    requires Within(adj, nodes) && NoSelfLoops(adj) && x in nodes && y in Neighbors(adj, x)
    ensures y != x && x in Component(adj, nodes, x) && y in Component(adj, nodes, x)
  {
    ReachableRefl(adj, x);
    ReachableStep(adj, x, x, y);
  }

  /** The component of a node with a neighbour has at least two nodes. */
  lemma ComponentOfLinked(adj: Adjacency, nodes: set<string>, x: string)
    requires Within(adj, nodes) && NoSelfLoops(adj) && x in nodes && Neighbors(adj, x) != {}
    ensures |Component(adj, nodes, x)| >= 2
  {
    var y :| y in Neighbors(adj, x);
    NeighborInComponent(adj, nodes, x, y);
    var component := Component(adj, nodes, x);
    assert component == {x, y} + (component - {x, y});
  }

  /** In a symmetric graph, every node of the component of a node with a neighbour
      has a neighbour too. */
  lemma LinkedComponent(adj: Adjacency, nodes: set<string>, x: string, y: string)
    requires Symmetric(adj) && Neighbors(adj, x) != {} && y in Component(adj, nodes, x)
    ensures Neighbors(adj, y) != {}
  {
    var p :| IsPath(adj, p) && p[0] == x && p[|p| - 1] == y;
    if |p| > 1 {
      var before := p[|p| - 2];
      assert y in Neighbors(adj, before);
      assert before in Neighbors(adj, y);
    }
  }

  // ---------------------------------------------------------------------------
  // The scan, step by step
  // ---------------------------------------------------------------------------

  /** Clusters formed before question `k` were formed before any later question. */
  lemma ClustersLater(qs: seq<Question>, adj: Adjacency, k: nat, next: nat, clusters: seq<Cluster>)
    requires k <= next && ClustersFormed(qs, adj, k, clusters)
    ensures ClustersFormed(qs, adj, next, clusters)
  {
  }

  /** A question an earlier walk reached is skipped. */
  lemma VisitedSkip(qs: seq<Question>, adj: Adjacency, k: nat, next: nat, visited: set<string>)
    requires k < |qs| && next == k + 1
    requires VisitedPrefix(qs, adj, k, visited) && qs[k].id in visited
    ensures VisitedPrefix(qs, adj, next, visited)
  {
  }

  /** A question without neighbours is only marked visited. */
  lemma VisitedIsolated(qs: seq<Question>, adj: Adjacency, k: nat, next: nat, visited: set<string>,
                        owner: map<string, nat>)
    requires k < |qs| && next == k + 1 && Neighbors(adj, qs[k].id) == {}
    requires VisitedPrefix(qs, adj, k, visited) && OwnedKeys(adj, visited, owner)
    ensures VisitedPrefix(qs, adj, next, visited + {qs[k].id})
    ensures OwnedKeys(adj, visited + {qs[k].id}, owner)
  {
  }

  /** A walk from question `k` marks its whole component visited. */
  lemma VisitedCluster(qs: seq<Question>, adj: Adjacency, k: nat, next: nat, visited: set<string>,
                       members: set<string>, visitedOut: set<string>)
    requires k < |qs| && next == k + 1
    requires VisitedPrefix(qs, adj, k, visited)
    requires members == Component(adj, Ids(qs), qs[k].id)
    requires visitedOut == visited + members && Closed(adj, visitedOut)
    ensures VisitedPrefix(qs, adj, next, visitedOut)
  {
    ReachableRefl(adj, qs[k].id);
  }

  /** A list sorted by `order`, of questions of the list from index `k` on, that
      holds the id of question `k` starts with question `k`. */
  lemma SortedStartsAt(qs: seq<Question>, k: nat, sorted: seq<Question>)
    requires WellFormed(qs) && k < |qs|
    requires forall i :: 0 <= i < |sorted| ==> sorted[i] in qs && sorted[i].order >= k
    requires ByOrder(sorted) && qs[k].id in Ids(sorted)
    ensures sorted[0] == qs[k]
  {
    var a :| 0 <= a < |sorted| && sorted[a].id == qs[k].id;
    AtOrder(qs, sorted[a]);
  }

  /** A list holding two different ids has at least two questions. */
  lemma TwoIds(items: seq<Question>, x: string, y: string)
    requires x != y && x in Ids(items) && y in Ids(items)
    ensures |items| >= 2
  {
    var a :| 0 <= a < |items| && items[a].id == x;
    var b :| 0 <= b < |items| && items[b].id == y;
    assert a != b;
  }

  /** The questions of a new cluster, sorted, start with the question that started
      the walk: every other member comes later in the list, since the earlier
      questions were all visited before the walk. */
  lemma NewClusterShape(qs: seq<Question>, adj: Adjacency, k: nat, visited: set<string>,
                        members: set<string>, sorted: seq<Question>)
    requires WellFormed(qs) && ScanGraph(qs, adj) && k < |qs|
    requires VisitedPrefix(qs, adj, k, visited)
    requires qs[k].id !in visited && Neighbors(adj, qs[k].id) != {}
    requires members == Component(adj, Ids(qs), qs[k].id)
    requires Ids(sorted) == members && ByOrder(sorted)
    requires forall i :: 0 <= i < |sorted| ==> sorted[i] in qs
    ensures members !! visited
    ensures ComponentMembers(qs, adj, sorted)
    ensures sorted[0] == qs[k]
  {
    var nodes := Ids(qs);
    var x := qs[k].id;
    ComponentAvoidsClosed(adj, nodes, visited, x);
    var y :| y in Neighbors(adj, x);
    NeighborInComponent(adj, nodes, x, y);
    TwoIds(sorted, x, y);
    forall i | 0 <= i < |sorted| ensures sorted[i].order >= k {
      AtOrder(qs, sorted[i]);
    }
    SortedStartsAt(qs, k, sorted);
  }

  /** `owner` with every id of `members` given to cluster `index`. */
  function Claim(owner: map<string, nat>, members: set<string>, index: nat): (claimed: map<string, nat>)
    ensures claimed.Keys == owner.Keys + members
    ensures forall x :: x in claimed ==> claimed[x] == if x in members then index else owner[x]
  {
    owner + map y | y in members :: index
  }

  /** The members of a new cluster become owned. */
  lemma NewClusterKeys(qs: seq<Question>, adj: Adjacency, k: nat, visited: set<string>, owner: map<string, nat>,
                       members: set<string>, index: nat, ownerOut: map<string, nat>)
    requires k < |qs| && Symmetric(adj) && OwnedKeys(adj, visited, owner)
    requires Neighbors(adj, qs[k].id) != {}
    requires members == Component(adj, Ids(qs), qs[k].id)
    requires ownerOut == Claim(owner, members, index)
    ensures OwnedKeys(adj, visited + members, ownerOut)
  {
    forall y | y in members ensures Neighbors(adj, y) != {} {
      LinkedComponent(adj, Ids(qs), qs[k].id, y);
    }
  }

  /** The new cluster owns exactly its members. */
  lemma NewClusterOwners(clusters: seq<Cluster>, owner: map<string, nat>, members: set<string>,
                         cluster: Cluster, ownerOut: map<string, nat>)
    requires OwnedClusters(clusters, owner) && members !! owner.Keys
    requires Ids(cluster.questions) == members
    requires ownerOut == Claim(owner, members, |clusters|)
    ensures OwnedClusters(clusters + [cluster], ownerOut)
  {
    var out := clusters + [cluster];
    forall x | x in ownerOut ensures ownerOut[x] < |out| && x in Ids(out[ownerOut[x]].questions) {
      if x !in members {
        assert out[owner[x]] == clusters[owner[x]];
      }
    }
    forall c, i | 0 <= c < |out| && 0 <= i < |out[c].questions|
      ensures out[c].questions[i].id in ownerOut && ownerOut[out[c].questions[i].id] == c
    {
      if c < |clusters| {
        assert out[c] == clusters[c];
        assert clusters[c].questions[i].id in owner;
      }
    }
  }

  /** Labelling the members of a new cluster keeps the entries in step with `owner`. */
  lemma NewClusterEntries(base: map<string, Diagnostic>, diagnostics: map<string, Diagnostic>,
                          owner: map<string, nat>, members: set<string>, index: nat,
                          labelled: map<string, Diagnostic>, ownerOut: map<string, nat>)
    requires Entries(base, diagnostics, owner) && members !! owner.Keys
    requires labelled.Keys == diagnostics.Keys
    requires forall x :: x in diagnostics ==>
               labelled[x] == (if x in members then diagnostics[x].(clusterId := Some(ClusterName(index + 1)))
                               else diagnostics[x])
    requires ownerOut == Claim(owner, members, index)
    ensures Entries(base, labelled, ownerOut)
  {
  }

  lemma NamedSnoc(clusters: seq<Cluster>, cluster: Cluster)
    requires Named(clusters) && cluster.id == ClusterName(|clusters| + 1)
    ensures Named(clusters + [cluster])
  {
    var out := clusters + [cluster];
    forall c | 0 <= c < |out| ensures out[c].id == ClusterName(c + 1) {
      if c < |clusters| {
        assert out[c] == clusters[c];
      }
    }
  }

  lemma ComponentsSnoc(qs: seq<Question>, adj: Adjacency, clusters: seq<Cluster>, cluster: Cluster)
    requires Components(qs, adj, clusters) && ComponentMembers(qs, adj, cluster.questions)
    ensures Components(qs, adj, clusters + [cluster])
  {
    var out := clusters + [cluster];
    forall c | 0 <= c < |out| ensures ComponentMembers(qs, adj, out[c].questions) {
      if c < |clusters| {
        assert out[c] == clusters[c];
      }
    }
  }

  /** A cluster started by question `k` keeps the clusters ordered by their first
      question. */
  lemma StartsSnoc(clusters: seq<Cluster>, cluster: Cluster, k: nat, next: nat)
    requires Starts(clusters, k) && next == k + 1
    requires |cluster.questions| > 0 && cluster.questions[0].order == k
    ensures Starts(clusters + [cluster], next)
  {
    var out := clusters + [cluster];
    forall c | 0 <= c < |out| ensures |out[c].questions| > 0 && out[c].questions[0].order < next {
      if c < |clusters| {
        assert out[c] == clusters[c];
      }
    }
    forall c, d | 0 <= c < d < |out| ensures out[c].questions[0].order < out[d].questions[0].order {
      assert out[c] == clusters[c];
      if d < |clusters| {
        assert out[d] == clusters[d];
      }
    }
  }

  /** A new cluster keeps the clusters named in sequence, each a component, and
      ordered by their first question. */
  lemma NewClusterFormed(qs: seq<Question>, adj: Adjacency, k: nat, next: nat, clusters: seq<Cluster>,
                         cluster: Cluster)
    requires k < |qs| && next == k + 1
    requires ClustersFormed(qs, adj, k, clusters)
    requires ComponentMembers(qs, adj, cluster.questions) && cluster.questions[0].order == k
    requires cluster.id == ClusterName(|clusters| + 1)
    ensures ClustersFormed(qs, adj, next, clusters + [cluster])
  {
    NamedSnoc(clusters, cluster);
    ComponentsSnoc(qs, adj, clusters, cluster);
    StartsSnoc(clusters, cluster, k, next);
  }

  // ---------------------------------------------------------------------------
  // What the scan leaves
  // ---------------------------------------------------------------------------

  /** Once every question is visited, every question with a neighbour is in a cluster. */
  lemma ScanCovers(qs: seq<Question>, adj: Adjacency, visited: set<string>, clusters: seq<Cluster>,
                   owner: map<string, nat>)
    requires WellFormed(qs) && VisitedPrefix(qs, adj, |qs|, visited)
    requires ClustersFormed(qs, adj, |qs|, clusters)
    requires OwnedKeys(adj, visited, owner) && OwnedClusters(clusters, owner)
    ensures forall k :: 0 <= k < |qs| && Neighbors(adj, qs[k].id) != {} ==>
              exists c :: 0 <= c < |clusters| && qs[k] in clusters[c].questions
  {
    forall k | 0 <= k < |qs| && Neighbors(adj, qs[k].id) != {}
      ensures exists c :: 0 <= c < |clusters| && qs[k] in clusters[c].questions
    {
      var x := qs[k].id;
      var c := owner[x];
      var i :| 0 <= i < |clusters[c].questions| && clusters[c].questions[i].id == x;
      var q := clusters[c].questions[i];
      assert q in qs;
      AtOrder(qs, q);
    }
  }

  /** Every cluster member's diagnostic carries its cluster's id. */
  lemma ScanLabels(base: map<string, Diagnostic>, clusters: seq<Cluster>, diagnostics: map<string, Diagnostic>,
                   owner: map<string, nat>)
    requires Named(clusters)
    requires OwnedClusters(clusters, owner) && Entries(base, diagnostics, owner)
    ensures forall c, i :: 0 <= c < |clusters| && 0 <= i < |clusters[c].questions| && clusters[c].questions[i].id in base ==>
              diagnostics[clusters[c].questions[i].id] == base[clusters[c].questions[i].id].(clusterId := Some(clusters[c].id))
  {
    forall c, i | 0 <= c < |clusters| && 0 <= i < |clusters[c].questions| && clusters[c].questions[i].id in base
      ensures diagnostics[clusters[c].questions[i].id] == base[clusters[c].questions[i].id].(clusterId := Some(clusters[c].id))
    {
      var x := clusters[c].questions[i].id;
      assert x in owner && owner[x] == c;
      assert diagnostics[x] == base[x].(clusterId := Some(ClusterName(owner[x] + 1)));
      assert clusters[c].id == ClusterName(c + 1);
    }
  }

  /** Once every question is visited, the diagnostics of questions without
      neighbours, and of ids outside the list, are as they were. */
  lemma ScanLeaves(qs: seq<Question>, adj: Adjacency, base: map<string, Diagnostic>, visited: set<string>,
                   diagnostics: map<string, Diagnostic>, owner: map<string, nat>)
    requires VisitedPrefix(qs, adj, |qs|, visited) && OwnedKeys(adj, visited, owner)
    requires Entries(base, diagnostics, owner)
    ensures forall x :: x in base && (x !in Ids(qs) || Neighbors(adj, x) == {}) ==> diagnostics[x] == base[x]
    ensures forall x :: x in base ==> diagnostics[x] == base[x].(clusterId := diagnostics[x].clusterId)
  {
  }

  /** No question is in two clusters. */
  lemma ScanDisjoint(clusters: seq<Cluster>, owner: map<string, nat>)
    requires OwnedClusters(clusters, owner)
    ensures forall c, d, i, j :: 0 <= c < d < |clusters| && 0 <= i < |clusters[c].questions| && 0 <= j < |clusters[d].questions| ==>
              clusters[c].questions[i].id != clusters[d].questions[j].id
  {
  }

  // ---------------------------------------------------------------------------
  // The scan
  // ---------------------------------------------------------------------------

  /** `Array.from(members).map(...).sort(...)` (generation-client.tsx:245-247): the
      questions of the member ids, by increasing `order`. */
  method ClusterQuestions(qs: seq<Question>, questionById: map<string, Question>, members: set<string>)
    returns (sorted: seq<Question>)
    requires WellFormed(qs) && Indexed(qs, questionById) && members <= Ids(qs)
    ensures Ids(sorted) == members && ByOrder(sorted)
    ensures forall i :: 0 <= i < |sorted| ==> sorted[i] in qs
  {
    forall x | x in members ensures x in questionById && questionById[x].id == x {
      var m :| 0 <= m < |qs| && qs[m].id == x;
    }
    var list := MemberQuestions(members, questionById);
    forall i | 0 <= i < |list| ensures list[i] in qs {
      assert list[i].id in Ids(qs);
      var m :| 0 <= m < |qs| && qs[m].id == list[i].id;
    }
    forall i, j | 0 <= i < j < |list| ensures list[i].order != list[j].order {
      AtOrder(qs, list[i]);
      AtOrder(qs, list[j]);
    }
    sorted := SortByOrder(list);
    SameIds(sorted, list);
    forall i | 0 <= i < |sorted| ensures sorted[i] in qs {
      assert sorted[i] in multiset(list);
    }
  }

  /** The walk from a question that has a neighbour and that no earlier walk
      reached (generation-client.tsx:239-247): its component, which has at least
      two members, none of them visited before, and its questions sorted by
      `order`, which start with the question itself. */
  method WalkCluster(qs: seq<Question>, adj: Adjacency, questionById: map<string, Question>, k: nat,
                     next: nat, visited: set<string>)
    returns (members: set<string>, visitedOut: set<string>, sorted: seq<Question>)
    requires WellFormed(qs) && ScanGraph(qs, adj) && Indexed(qs, questionById)
    requires k < |qs| && next == k + 1 && VisitedPrefix(qs, adj, k, visited)
    requires qs[k].id !in visited && Neighbors(adj, qs[k].id) != {}
    ensures members == Component(adj, Ids(qs), qs[k].id) && members !! visited
    ensures visitedOut == visited + members && VisitedPrefix(qs, adj, next, visitedOut)
    ensures Ids(sorted) == members && ComponentMembers(qs, adj, sorted) && sorted[0] == qs[k]
  {
    var nodes := Ids(qs);
    members, visitedOut := TraverseCluster(adj, nodes, visited, qs[k].id);
    ComponentOfLinked(adj, nodes, qs[k].id);
    if |members| <= 1 {
      assert false;
    }
    sorted := ClusterQuestions(qs, questionById, members);
    NewClusterShape(qs, adj, k, visited, members, sorted);
    VisitedCluster(qs, adj, k, next, visited, members, visitedOut);
  }

  /** The rest of the scan's body for a new cluster (generation-client.tsx:243-257):
      name it, record its id on its members' diagnostics and append it. */
  method FormCluster(qs: seq<Question>, adj: Adjacency, questionById: map<string, Question>,
                     ghost base: map<string, Diagnostic>, k: nat, next: nat, visited: set<string>, clusters: seq<Cluster>,
                     clusterIndex: nat, diagnostics: map<string, Diagnostic>, ghost owner: map<string, nat>)
    returns (visitedOut: set<string>, clustersOut: seq<Cluster>, clusterIndexOut: nat,
             diagnosticsOut: map<string, Diagnostic>, ghost ownerOut: map<string, nat>)
    requires WellFormed(qs) && ScanGraph(qs, adj) && Indexed(qs, questionById)
    requires k < |qs| && next == k + 1 && clusterIndex == |clusters| + 1
    requires VisitedPrefix(qs, adj, k, visited) && ClustersFormed(qs, adj, k, clusters)
    requires OwnedKeys(adj, visited, owner) && OwnedClusters(clusters, owner) && Entries(base, diagnostics, owner)
    requires qs[k].id !in visited && Neighbors(adj, qs[k].id) != {}
    ensures clusterIndexOut == |clustersOut| + 1
    ensures VisitedPrefix(qs, adj, next, visitedOut) && ClustersFormed(qs, adj, next, clustersOut)
    ensures OwnedKeys(adj, visitedOut, ownerOut) && OwnedClusters(clustersOut, ownerOut)
    ensures Entries(base, diagnosticsOut, ownerOut)
  {
    var members, sorted;
    members, visitedOut, sorted := WalkCluster(qs, adj, questionById, k, next, visited);
    var clusterId := ClusterName(clusterIndex);
    clusterIndexOut := clusterIndex + 1;
    diagnosticsOut := AssignCluster(diagnostics, sorted, clusterId);
    ownerOut := Claim(owner, members, |clusters|);
    var cluster := Cluster(clusterId, sorted);
    NewClusterFormed(qs, adj, k, next, clusters, cluster);
    clustersOut := clusters + [cluster];
    NewClusterState(qs, adj, base, k, visited, clusters, diagnostics, owner,
                    members, sorted, visitedOut, clustersOut, diagnosticsOut, ownerOut);
  }

  /** The scan's bookkeeping after one more cluster: the walk's component is marked
      visited, claimed by the new cluster and labelled with its name. */
  lemma NewClusterState(qs: seq<Question>, adj: Adjacency, base: map<string, Diagnostic>, k: nat,
                        visited: set<string>, clusters: seq<Cluster>, diagnostics: map<string, Diagnostic>,
                        owner: map<string, nat>, members: set<string>, sorted: seq<Question>,
                        visitedOut: set<string>, clustersOut: seq<Cluster>,
                        labelled: map<string, Diagnostic>, ownerOut: map<string, nat>)
    requires ScanGraph(qs, adj) && k < |qs|
    requires OwnedKeys(adj, visited, owner) && OwnedClusters(clusters, owner) && Entries(base, diagnostics, owner)
    requires Neighbors(adj, qs[k].id) != {}
    requires members == Component(adj, Ids(qs), qs[k].id) && members !! visited
    requires visitedOut == visited + members
    requires Ids(sorted) == members
    requires labelled.Keys == diagnostics.Keys
    requires forall x :: x in diagnostics ==>
               labelled[x] == (if x in Ids(sorted) then diagnostics[x].(clusterId := Some(ClusterName(|clusters| + 1)))
                               else diagnostics[x])
    requires clustersOut == clusters + [Cluster(ClusterName(|clusters| + 1), sorted)]
    requires ownerOut == Claim(owner, members, |clusters|)
    ensures OwnedKeys(adj, visitedOut, ownerOut) && OwnedClusters(clustersOut, ownerOut)
    ensures Entries(base, labelled, ownerOut)
  {
    var cluster := Cluster(ClusterName(|clusters| + 1), sorted);
    NewClusterKeys(qs, adj, k, visited, owner, members, |clusters|, ownerOut);
    NewClusterOwners(clusters, owner, members, cluster, ownerOut);
    NewClusterEntries(base, diagnostics, owner, members, |clusters|, labelled, ownerOut);
  }

  /** The cluster scan (generation-client.tsx:203-205, 230-258) over a duplicate
      graph whose edges join questions of the list, go both ways and never loop.
      It emits the connected components with at least two questions, named
      `cluster-1`, `cluster-2`, ... and ordered by their first question, each
      sorted by `order`; every question with a neighbour lands in exactly one
      cluster and its diagnostic carries that cluster's id, and every other
      diagnostic is left as it was. */
  method ScanClusters(qs: seq<Question>, adj: Adjacency, questionById: map<string, Question>,
                      diagnostics: map<string, Diagnostic>)
    returns (diagnosticsOut: map<string, Diagnostic>, clusters: seq<Cluster>)
    requires WellFormed(qs) && ScanGraph(qs, adj) && Indexed(qs, questionById)
    ensures diagnosticsOut.Keys == diagnostics.Keys
    ensures forall c :: 0 <= c < |clusters| ==>
              clusters[c].id == ClusterName(c + 1) && |clusters[c].questions| >= 2
              && ComponentMembers(qs, adj, clusters[c].questions)
    ensures forall c, d :: 0 <= c < d < |clusters| ==> clusters[c].questions[0].order < clusters[d].questions[0].order
    ensures forall k :: 0 <= k < |qs| && Neighbors(adj, qs[k].id) != {} ==>
              exists c :: 0 <= c < |clusters| && qs[k] in clusters[c].questions
    ensures forall c, i :: 0 <= c < |clusters| && 0 <= i < |clusters[c].questions| && clusters[c].questions[i].id in diagnostics ==>
              diagnosticsOut[clusters[c].questions[i].id]
                == diagnostics[clusters[c].questions[i].id].(clusterId := Some(clusters[c].id))
    ensures forall x :: x in diagnostics && (x !in Ids(qs) || Neighbors(adj, x) == {}) ==> diagnosticsOut[x] == diagnostics[x]
    ensures forall x :: x in diagnostics ==> diagnosticsOut[x] == diagnostics[x].(clusterId := diagnosticsOut[x].clusterId)
    ensures forall c, d, i, j :: 0 <= c < d < |clusters| && 0 <= i < |clusters[c].questions| && 0 <= j < |clusters[d].questions| ==>
              clusters[c].questions[i].id != clusters[d].questions[j].id
  {
    diagnosticsOut := diagnostics;
    clusters := [];
    var visited: set<string> := {};
    var clusterIndex: nat := 1;
    ghost var owner: map<string, nat> := map[];
    var k := 0;
    while k < |qs|
      invariant k <= |qs| && clusterIndex == |clusters| + 1
      invariant VisitedPrefix(qs, adj, k, visited) && ClustersFormed(qs, adj, k, clusters)
      invariant OwnedKeys(adj, visited, owner) && OwnedClusters(clusters, owner)
      invariant Entries(diagnostics, diagnosticsOut, owner)
    {
      var next := k + 1;
      var question := qs[k];
      if question.id in visited {
        VisitedSkip(qs, adj, k, next, visited);
        ClustersLater(qs, adj, k, next, clusters);
      } else if question.id !in adj || adj[question.id] == {} {
        VisitedIsolated(qs, adj, k, next, visited, owner);
        ClustersLater(qs, adj, k, next, clusters);
        visited := visited + {question.id};
      } else {
        visited, clusters, clusterIndex, diagnosticsOut, owner :=
          FormCluster(qs, adj, questionById, diagnostics, k, next, visited, clusters, clusterIndex, diagnosticsOut, owner);
      }
      k := next;
    }
    ScanCovers(qs, adj, visited, clusters, owner);
    ScanLabels(diagnostics, clusters, diagnosticsOut, owner);
    ScanLeaves(qs, adj, diagnostics, visited, diagnosticsOut, owner);
    ScanDisjoint(clusters, owner);
  }
}
