/**
 * The import-chain tracer: a breadth-first search over the bundle's module graph for
 * the shortest import chains from the synthetic entry to a target module, plus the
 * entry-node choice and the case-insensitive target filter around it.
 */
module TraceBundle {
  import opened Wrappers
  import opened Strings
  import opened Paths
  import Treeshaking

  type Node = Treeshaking.ModuleGraphNode

  /** The graph as the search sees it: module id to node. */
  type Graph = map<string, Node>

  /** Paths of this many ids or more are not extended. */
  const MAX_DEPTH: nat := 25

  // ---------------------------------------------------------------------------
  // Paths in the import graph
  // ---------------------------------------------------------------------------

  /** `b` is one of the ids `a` imports; an id with no node has no outgoing edges. */
  ghost predicate IsEdge(g: Graph, a: string, b: string) {
    a in g && b in g[a].importedIds
  }

  ghost predicate FollowsEdges(g: Graph, p: seq<string>) {
    forall k :: 0 <= k < |p| - 1 ==> IsEdge(g, p[k], p[k + 1])
  }

  /** No module id occurs twice. */
  ghost predicate Simple(p: seq<string>) {
    forall i, j :: 0 <= i < j < |p| ==> p[i] != p[j]
  }

  /** A simple import chain of at most MAX_DEPTH ids from `startId` to `endId`. */
  ghost predicate IsImportPath(g: Graph, startId: string, endId: string, p: seq<string>) {
    && 1 <= |p| <= MAX_DEPTH
    && p[0] == startId
    && p[|p| - 1] == endId
    && FollowsEdges(g, p)
    && Simple(p)
  }

  /** No import path from `startId` to `endId` is shorter than `p`. */
  ghost predicate Shortest(g: Graph, startId: string, endId: string, p: seq<string>) {
    forall P :: IsImportPath(g, startId, endId, P) ==> |p| <= |P|
  }

  /** What a queued path is: a simple chain from the start that has not yet passed the end. */
  ghost predicate Explored(g: Graph, startId: string, endId: string, p: seq<string>) {
    && 1 <= |p| <= MAX_DEPTH
    && p[0] == startId
    && FollowsEdges(g, p)
    && Simple(p)
    && forall k :: 0 <= k < |p| - 1 ==> p[k] != endId
  }

  ghost predicate AllExplored(g: Graph, startId: string, endId: string, queue: seq<seq<string>>) {
    forall j :: 0 <= j < |queue| ==> Explored(g, startId, endId, queue[j])
  }

  /** The queue holds paths by non-decreasing length, all within one of the head's length. */
  ghost predicate QueueOrdered(queue: seq<seq<string>>) {
    && (forall i, j :: 0 <= i < j < |queue| ==> |queue[i]| <= |queue[j]|)
    && (forall j :: 0 <= j < |queue| ==> |queue[j]| <= |queue[0]| + 1)
  }

  /** Every import path is already a result or still has a prefix waiting in the queue. */
  ghost predicate Covers(g: Graph, startId: string, endId: string, queue: seq<seq<string>>, results: seq<seq<string>>) {
    forall P :: IsImportPath(g, startId, endId, P) ==> P in results || exists j :: 0 <= j < |queue| && queue[j] <= P
  }

  // ---------------------------------------------------------------------------
  // Termination measure
  // ---------------------------------------------------------------------------

  function CountOfLength(queue: seq<seq<string>>, n: nat): nat
  {
    if queue == [] then 0 else (if |queue[0]| == n then 1 else 0) + CountOfLength(queue[1..], n)
  }

  lemma {:induction false} CountOfLengthConcat(a: seq<seq<string>>, b: seq<seq<string>>, n: nat)
    ensures CountOfLength(a + b, n) == CountOfLength(a, n) + CountOfLength(b, n)
    decreases |a|
  {
    if a == [] {
      assert a + b == b;
    } else {
      assert (a + b)[1..] == a[1..] + b;
      CountOfLengthConcat(a[1..], b, n);
    }
  }

  lemma {:induction false} CountOfLengthNone(a: seq<seq<string>>, n: nat)
    requires forall k :: 0 <= k < |a| ==> |a[k]| != n
    ensures CountOfLength(a, n) == 0
    decreases |a|
  {
    if a != [] {
      CountOfLengthNone(a[1..], n);
    }
  }

  /** How far the head path is from the depth cap. */
  function Rank(queue: seq<seq<string>>): nat {
    if queue == [] || |queue[0]| > MAX_DEPTH + 1 then 0 else MAX_DEPTH + 1 - |queue[0]|
  }

  /** How many queued paths share the head's length. */
  function Pending(queue: seq<seq<string>>): nat {
    if queue == [] then 0 else CountOfLength(queue, |queue[0]|)
  }

  // ---------------------------------------------------------------------------
  // One step of the search
  // ---------------------------------------------------------------------------

  /** The paths the inner loop appends: `path + [x]` for each imported `x` not already on the path, in order. */
  function Extensions(path: seq<string>, ids: seq<string>): (r: seq<seq<string>>)
    ensures forall k :: 0 <= k < |r| ==>
              |r[k]| == |path| + 1 && r[k][..|path|] == path && r[k][|path|] in ids && r[k][|path|] !in path
    ensures forall x :: x in ids && x !in path ==> path + [x] in r
  {
    if ids == [] then []
    else
      var init, x := ids[..|ids| - 1], ids[|ids| - 1];
      var r0 := Extensions(path, init);
      assert forall y :: y in ids <==> y in init || y == x;
      assert (path + [x])[..|path|] == path;
      r0 + (if x !in path then [path + [x]] else [])
  }

  lemma ExtensionsSnoc(path: seq<string>, ids: seq<string>, i: nat)
    requires i < |ids|
    ensures Extensions(path, ids[..i + 1])
            == Extensions(path, ids[..i]) + (if ids[i] !in path then [path + [ids[i]]] else [])
  {
    assert ids[..i + 1][..i] == ids[..i];
  }

  /** Popping the head and appending paths one longer than it keeps the queue ordered and lowers the measure. */
  lemma PopPush(g: Graph, startId: string, endId: string, before: seq<seq<string>>, pushed: seq<seq<string>>)
    requires |before| > 0 && AllExplored(g, startId, endId, before) && QueueOrdered(before)
    requires AllExplored(g, startId, endId, pushed)
    requires forall k :: 0 <= k < |pushed| ==> |pushed[k]| == |before[0]| + 1
    ensures AllExplored(g, startId, endId, before[1..] + pushed)
    ensures QueueOrdered(before[1..] + pushed)
    ensures || Rank(before[1..] + pushed) < Rank(before)
            || (Rank(before[1..] + pushed) == Rank(before) && Pending(before[1..] + pushed) < Pending(before))
  {
    PopPushExplored(g, startId, endId, before, pushed);
    PopPushOrdered(before, pushed);
    assert Explored(g, startId, endId, before[0]);
    PopPushProgress(before, pushed);
  }

  lemma PopPushExplored(g: Graph, startId: string, endId: string, before: seq<seq<string>>, pushed: seq<seq<string>>)
    requires |before| > 0 && AllExplored(g, startId, endId, before) && AllExplored(g, startId, endId, pushed)
    ensures AllExplored(g, startId, endId, before[1..] + pushed)
  {
    var rest, after := before[1..], before[1..] + pushed;
    forall j | 0 <= j < |after| ensures Explored(g, startId, endId, after[j]) {
      if j < |rest| {
        assert after[j] == before[j + 1];
      } else {
        assert after[j] == pushed[j - |rest|];
      }
    }
  }

  lemma PopPushOrdered(before: seq<seq<string>>, pushed: seq<seq<string>>)
    requires |before| > 0 && QueueOrdered(before)
    requires forall k :: 0 <= k < |pushed| ==> |pushed[k]| == |before[0]| + 1
    ensures QueueOrdered(before[1..] + pushed)
  {
    var q, rest, after := before[0], before[1..], before[1..] + pushed;
    assert forall j :: 0 <= j < |rest| ==> rest[j] == before[j + 1];
    assert forall j :: 0 <= j < |after| ==> after[j] == if j < |rest| then rest[j] else pushed[j - |rest|];
    assert forall j :: 0 <= j < |after| ==> |q| <= |after[j]| <= |q| + 1;
  }

  lemma PopPushProgress(before: seq<seq<string>>, pushed: seq<seq<string>>)
    requires |before| > 0 && |before[0]| <= MAX_DEPTH && QueueOrdered(before)
    requires forall k :: 0 <= k < |pushed| ==> |pushed[k]| == |before[0]| + 1
    ensures || Rank(before[1..] + pushed) < Rank(before)
            || (Rank(before[1..] + pushed) == Rank(before) && Pending(before[1..] + pushed) < Pending(before))
  {
    var q, rest, after := before[0], before[1..], before[1..] + pushed;
    if after != [] {
      assert |q| <= |after[0]| <= |q| + 1 by {
        if rest != [] {
          assert after[0] == rest[0] == before[1];
        } else {
          assert after[0] == pushed[0];
        }
      }
      if |after[0]| == |q| {
        assert rest != [] && after[0] == rest[0];
        CountOfLengthConcat(rest, pushed, |q|);
        CountOfLengthNone(pushed, |q|);
        assert CountOfLength(before, |q|) == 1 + CountOfLength(rest, |q|);
      }
    }
  }

  /** Where an import path meets a queued path that stops short of the end, it runs on along an edge the search will try. */
  lemma ImportPathThrough(g: Graph, startId: string, endId: string, q: seq<string>, P: seq<string>)
    requires |q| >= 1 && q[|q| - 1] != endId
    ensures IsImportPath(g, startId, endId, P) && q <= P ==>
              && |q| < |P| && |q| < MAX_DEPTH
              && IsEdge(g, q[|q| - 1], P[|q|])
              && P[|q|] !in q
              && q + [P[|q|]] <= P
  {
    if IsImportPath(g, startId, endId, P) && q <= P {
      assert |q| != |P| by {
        assert q[|q| - 1] != P[|P| - 1];
      }
      assert P[|q| - 1] == q[|q| - 1];
      assert IsEdge(g, P[|q| - 1], P[|q|]);
      forall k | 0 <= k < |q| ensures q[k] != P[|q|] {
        assert q[k] == P[k];
      }
    }
  }

  /** A head that neither reaches the end nor can be extended covers no import path. */
  lemma DropKeepsCover(g: Graph, startId: string, endId: string, before: seq<seq<string>>, results: seq<seq<string>>)
    requires |before| > 0 && |before[0]| >= 1 && Covers(g, startId, endId, before, results)
    requires before[0][|before[0]| - 1] != endId
    requires |before[0]| >= MAX_DEPTH || before[0][|before[0]| - 1] !in g
    ensures Covers(g, startId, endId, before[1..], results)
  {
    forall P | IsImportPath(g, startId, endId, P) && P !in results
      ensures exists j :: 0 <= j < |before[1..]| && before[1..][j] <= P
    {
      var j :| 0 <= j < |before| && before[j] <= P;
      ImportPathThrough(g, startId, endId, before[0], P);
      assert before[1..][j - 1] == before[j];
    }
  }

  /** A path that ends at the end id is a prefix of an import path only when it is that whole path. */
  lemma EndPrefixIsWhole(g: Graph, startId: string, endId: string, q: seq<string>, P: seq<string>)
    requires |q| >= 1 && q[|q| - 1] == endId && IsImportPath(g, startId, endId, P)
    ensures q <= P ==> q == P
  {
    if q <= P {
      EndOnlyLast(g, startId, endId, P);
      assert P[|q| - 1] == endId;
    }
  }

  /** A head that reaches the end is the one import path it covers, and it moves to the results. */
  lemma FoundKeepsCover(g: Graph, startId: string, endId: string, before: seq<seq<string>>, results: seq<seq<string>>)
    requires |before| > 0 && |before[0]| >= 1 && Covers(g, startId, endId, before, results)
    requires before[0][|before[0]| - 1] == endId
    ensures Covers(g, startId, endId, before[1..], results + [before[0]])
  {
    var q := before[0];
    forall P | IsImportPath(g, startId, endId, P) && P !in results + [q]
      ensures exists j :: 0 <= j < |before[1..]| && before[1..][j] <= P
    {
      EndPrefixIsWhole(g, startId, endId, q, P);
      var j :| 0 <= j < |before| && before[j] <= P;
      assert before[1..][j - 1] == before[j];
    }
  }

  /** Replacing the head by its one-step extensions keeps every import path covered. */
  lemma ExtendKeepsCover(g: Graph, startId: string, endId: string, before: seq<seq<string>>, results: seq<seq<string>>)
    requires |before| > 0 && |before[0]| >= 1 && Covers(g, startId, endId, before, results)
    requires before[0][|before[0]| - 1] != endId && before[0][|before[0]| - 1] in g
    ensures Covers(g, startId, endId,
                   before[1..] + Extensions(before[0], g[before[0][|before[0]| - 1]].importedIds), results)
  {
    var q := before[0];
    var ext := Extensions(q, g[q[|q| - 1]].importedIds);
    var after := before[1..] + ext;
    forall P | IsImportPath(g, startId, endId, P) && P !in results
      ensures exists j :: 0 <= j < |after| && after[j] <= P
    {
      var j :| 0 <= j < |before| && before[j] <= P;
      if j > 0 {
        assert after[j - 1] == before[j];
      } else {
        ImportPathThrough(g, startId, endId, q, P);
        var x := P[|q|];
        assert q + [x] in ext;
        var m :| 0 <= m < |ext| && ext[m] == q + [x];
        assert after[|before| - 1 + m] == q + [x];
      }
    }
  }

  /** The extensions of an explored path below the depth cap are explored paths one id longer. */
  lemma ExtensionsExplored(g: Graph, startId: string, endId: string, q: seq<string>)
    requires Explored(g, startId, endId, q) && |q| < MAX_DEPTH
    requires q[|q| - 1] != endId && q[|q| - 1] in g
    ensures var ext := Extensions(q, g[q[|q| - 1]].importedIds);
            && AllExplored(g, startId, endId, ext)
            && forall k :: 0 <= k < |ext| ==> |ext[k]| == |q| + 1
  {
    var ext := Extensions(q, g[q[|q| - 1]].importedIds);
    forall k | 0 <= k < |ext| ensures Explored(g, startId, endId, ext[k]) {
      var p := ext[k];
      assert p == q + [p[|q|]] by {
        assert p[..|q|] == q;
      }
      assert forall i :: 0 <= i < |q| ==> p[i] == q[i];
    }
  }

  /** The first path to reach the end, taken from the head of a covering ordered queue, is a shortest import path. */
  lemma FoundIsShortest(g: Graph, startId: string, endId: string, queue: seq<seq<string>>)
    requires |queue| > 0 && AllExplored(g, startId, endId, queue) && QueueOrdered(queue)
    requires Covers(g, startId, endId, queue, [])
    requires queue[0][|queue[0]| - 1] == endId
    ensures IsImportPath(g, startId, endId, queue[0]) && Shortest(g, startId, endId, queue[0])
  {
    forall P | IsImportPath(g, startId, endId, P) ensures |queue[0]| <= |P| {
      var j :| 0 <= j < |queue| && queue[j] <= P;
      assert |queue[0]| <= |queue[j]|;
    }
  }

  // ---------------------------------------------------------------------------
  // findShortestPaths
  // ---------------------------------------------------------------------------

  /** Every result is an import path. */
  ghost predicate ResultsValid(g: Graph, startId: string, endId: string, results: seq<seq<string>>) {
    forall i :: 0 <= i < |results| ==> IsImportPath(g, startId, endId, results[i])
  }

  /** Results come by non-decreasing length and are no longer than anything still queued. */
  ghost predicate ResultsOrdered(results: seq<seq<string>>, queue: seq<seq<string>>) {
    && (forall i, j :: 0 <= i < j < |results| ==> |results[i]| <= |results[j]|)
    && (forall i, j :: 0 <= i < |results| && 0 <= j < |queue| ==> |results[i]| <= |queue[j]|)
  }

  /** Once there is a result, the first one is shortest. */
  ghost predicate FirstResultShortest(g: Graph, startId: string, endId: string, results: seq<seq<string>>) {
    results != [] ==> Shortest(g, startId, endId, results[0])
  }

  /** What holds of the queue and the results before every iteration of the search loop. */
  ghost predicate SearchInvariant(g: Graph, startId: string, endId: string, maxResults: int,
                                  queue: seq<seq<string>>, results: seq<seq<string>>)
  {
    && AllExplored(g, startId, endId, queue)
    && QueueOrdered(queue)
    && ResultsValid(g, startId, endId, results)
    && ResultsOrdered(results, queue)
    && Covers(g, startId, endId, queue, results)
    && FirstResultShortest(g, startId, endId, results)
    && (results == [] || |results| <= maxResults)
    && (startId == endId ==> (queue == [[startId]] && results == []) || (queue == [] && results == [[startId]]))
  }

  /** The measure the search loop decreases, lexicographically. */
  predicate Progress(before: seq<seq<string>>, after: seq<seq<string>>) {
    || Rank(after) < Rank(before)
    || (Rank(after) == Rank(before) && Pending(after) < Pending(before))
  }

  lemma ResultsOrderedFound(results: seq<seq<string>>, queue: seq<seq<string>>)
    requires |queue| > 0 && QueueOrdered(queue) && ResultsOrdered(results, queue)
    ensures ResultsOrdered(results + [queue[0]], queue[1..])
  {
    var q, rest, results' := queue[0], queue[1..], results + [queue[0]];
    forall i, j | 0 <= i < j < |results'| ensures |results'[i]| <= |results'[j]| {
      assert results'[i] == if i < |results| then results[i] else q;
      assert results'[j] == if j < |results| then results[j] else q;
    }
    forall i, j | 0 <= i < |results'| && 0 <= j < |rest| ensures |results'[i]| <= |rest[j]| {
      assert results'[i] == if i < |results| then results[i] else q;
      assert rest[j] == queue[j + 1];
    }
  }

  lemma ResultsOrderedPush(results: seq<seq<string>>, queue: seq<seq<string>>, pushed: seq<seq<string>>)
    requires |queue| > 0 && ResultsOrdered(results, queue)
    requires forall k :: 0 <= k < |pushed| ==> |pushed[k]| == |queue[0]| + 1
    ensures ResultsOrdered(results, queue[1..] + pushed)
  {
    var after := queue[1..] + pushed;
    forall i, j | 0 <= i < |results| && 0 <= j < |after| ensures |results[i]| <= |after[j]| {
      if j < |queue| - 1 {
        assert after[j] == queue[j + 1];
      } else {
        assert after[j] == pushed[j - |queue| + 1];
        assert |results[i]| <= |queue[0]|;
      }
    }
  }

  lemma ResultsValidFound(g: Graph, startId: string, endId: string, results: seq<seq<string>>, p: seq<string>)
    requires ResultsValid(g, startId, endId, results) && IsImportPath(g, startId, endId, p)
    ensures ResultsValid(g, startId, endId, results + [p])
  {
    var results' := results + [p];
    forall i | 0 <= i < |results'| ensures IsImportPath(g, startId, endId, results'[i]) {
      if i < |results| { assert results'[i] == results[i]; }
    }
  }

  /** The head reaches the end: it becomes the next result. */
  lemma FoundStep(g: Graph, startId: string, endId: string, maxResults: int,
                  queue: seq<seq<string>>, results: seq<seq<string>>)
    requires SearchInvariant(g, startId, endId, maxResults, queue, results)
    requires |queue| > 0 && |results| < maxResults
    requires queue[0][|queue[0]| - 1] == endId
    ensures SearchInvariant(g, startId, endId, maxResults, queue[1..], results + [queue[0]])
    ensures Progress(queue, queue[1..])
  {
    var q, rest, results' := queue[0], queue[1..], results + [queue[0]];
    PopPush(g, startId, endId, queue, []);
    assert rest + [] == rest;
    ResultsOrderedFound(results, queue);
    ResultsValidFound(g, startId, endId, results, q);
    FoundKeepsCover(g, startId, endId, queue, results);
    FoundKeepsFirstShortest(g, startId, endId, queue, results);
  }

  /** The first result stays the first; when there was none, the found head is shortest. */
  lemma FoundKeepsFirstShortest(g: Graph, startId: string, endId: string,
                                queue: seq<seq<string>>, results: seq<seq<string>>)
    requires |queue| > 0 && AllExplored(g, startId, endId, queue) && QueueOrdered(queue)
    requires Covers(g, startId, endId, queue, results) && FirstResultShortest(g, startId, endId, results)
    requires queue[0][|queue[0]| - 1] == endId
    ensures FirstResultShortest(g, startId, endId, results + [queue[0]])
  {
    var results' := results + [queue[0]];
    if results == [] {
      FoundIsShortest(g, startId, endId, queue);
      assert results'[0] == queue[0];
    } else {
      assert results'[0] == results[0];
    }
  }

  /** The head stops short of the end and cannot be extended: it is dropped. */
  lemma DropStep(g: Graph, startId: string, endId: string, maxResults: int,
                 queue: seq<seq<string>>, results: seq<seq<string>>)
    requires SearchInvariant(g, startId, endId, maxResults, queue, results)
    requires |queue| > 0
    requires queue[0][|queue[0]| - 1] != endId
    requires |queue[0]| >= MAX_DEPTH || queue[0][|queue[0]| - 1] !in g
    ensures SearchInvariant(g, startId, endId, maxResults, queue[1..], results)
    ensures Progress(queue, queue[1..])
  {
    assert startId != endId by {
      assert queue != [[startId]] || queue[0][|queue[0]| - 1] == startId;
    }
    PopPush(g, startId, endId, queue, []);
    ResultsOrderedPush(results, queue, []);
    assert queue[1..] + [] == queue[1..];
    DropKeepsCover(g, startId, endId, queue, results);
  }

  /** The head is replaced at the back of the queue by its one-step extensions. */
  lemma ExtendStep(g: Graph, startId: string, endId: string, maxResults: int,
                   queue: seq<seq<string>>, results: seq<seq<string>>)
    requires SearchInvariant(g, startId, endId, maxResults, queue, results)
    requires |queue| > 0
    requires queue[0][|queue[0]| - 1] != endId
    requires |queue[0]| < MAX_DEPTH && queue[0][|queue[0]| - 1] in g
    ensures var after := queue[1..] + Extensions(queue[0], g[queue[0][|queue[0]| - 1]].importedIds);
            SearchInvariant(g, startId, endId, maxResults, after, results) && Progress(queue, after)
  {
    var q := queue[0];
    assert startId != endId by {
      assert queue != [[startId]] || q[|q| - 1] == startId;
    }
    var ext := Extensions(q, g[q[|q| - 1]].importedIds);
    ExtensionsExplored(g, startId, endId, q);
    PopPush(g, startId, endId, queue, ext);
    ResultsOrderedPush(results, queue, ext);
    ExtendKeepsCover(g, startId, endId, queue, results);
  }

  /** The search starts from the one-id path of the start module. */
  lemma SearchStart(g: Graph, startId: string, endId: string, maxResults: int)
    ensures SearchInvariant(g, startId, endId, maxResults, [[startId]], [])
  {
    forall P | IsImportPath(g, startId, endId, P) ensures exists j :: 0 <= j < |[[startId]]| && [[startId]][j] <= P {
      assert [[startId]][0] == [startId] <= P;
    }
  }

  /** When the loop stops, the invariant gives what the search promises. */
  lemma SearchDone(g: Graph, startId: string, endId: string, maxResults: int,
                   queue: seq<seq<string>>, results: seq<seq<string>>)
    requires SearchInvariant(g, startId, endId, maxResults, queue, results)
    requires queue == [] || |results| >= maxResults
    ensures |results| <= if maxResults > 0 then maxResults else 0
    ensures ResultsValid(g, startId, endId, results)
    ensures forall i, j :: 0 <= i < j < |results| ==> |results[i]| <= |results[j]|
    ensures startId == endId && maxResults >= 1 ==> results == [[startId]]
    ensures maxResults >= 1 ==> forall P :: IsImportPath(g, startId, endId, P) ==>
              results != [] && |results[0]| <= |P|
    ensures |results| < maxResults ==> forall P :: IsImportPath(g, startId, endId, P) ==> P in results
  {
  }

  /**
   * `findShortestPaths`: breadth-first search whose queue holds whole paths. A path that
   * reaches `endId` becomes a result and is not extended; one of MAX_DEPTH ids, or ending
   * at an id with no node, is dropped; otherwise it is extended by every imported id not
   * already on it. The search stops when the queue is empty or `maxResults` paths were found.
   */
  method FindShortestPaths(startId: string, endId: string, nodeById: Graph, maxResults: int)
    returns (results: seq<seq<string>>)
    ensures |results| <= if maxResults > 0 then maxResults else 0
    ensures ResultsValid(nodeById, startId, endId, results)
    ensures forall i, j :: 0 <= i < j < |results| ==> |results[i]| <= |results[j]|
    ensures startId == endId && maxResults >= 1 ==> results == [[startId]]
    ensures maxResults >= 1 ==> forall P :: IsImportPath(nodeById, startId, endId, P) ==>
              results != [] && |results[0]| <= |P|
    ensures |results| < maxResults ==> forall P :: IsImportPath(nodeById, startId, endId, P) ==> P in results
  {
    results := [];
    var queue: seq<seq<string>> := [[startId]];
    SearchStart(nodeById, startId, endId, maxResults);
    while |queue| > 0 && |results| < maxResults
      invariant SearchInvariant(nodeById, startId, endId, maxResults, queue, results)
      decreases Rank(queue), Pending(queue)
    {
      ghost var before := queue;
      var currentPath := queue[0];
      queue := queue[1..];
      var current := currentPath[|currentPath| - 1];

      if current == endId {
        FoundStep(nodeById, startId, endId, maxResults, before, results);
        results := results + [currentPath];
        continue;
      }

      if |currentPath| >= MAX_DEPTH {
        DropStep(nodeById, startId, endId, maxResults, before, results);
        continue;
      }

      if current !in nodeById {
        DropStep(nodeById, startId, endId, maxResults, before, results);
        continue;
      }

      queue := EnqueueExtensions(queue, currentPath, nodeById[current].importedIds);
      ExtendStep(nodeById, startId, endId, maxResults, before, results);
    }
    SearchDone(nodeById, startId, endId, maxResults, queue, results);
  }

  /** The inner loop of the search: each imported id not yet on the path extends it at the back of the queue. */
  method EnqueueExtensions(queue: seq<seq<string>>, currentPath: seq<string>, importedIds: seq<string>)
    returns (queue': seq<seq<string>>)
    ensures queue' == queue + Extensions(currentPath, importedIds)
  {
    queue' := queue;
    assert queue + Extensions(currentPath, importedIds[..0]) == queue;
    for i := 0 to |importedIds|
      invariant queue' == queue + Extensions(currentPath, importedIds[..i])
    {
      ExtensionsSnoc(currentPath, importedIds, i);
      var next := importedIds[i];
      if next !in currentPath {
        queue' := queue' + [currentPath + [next]];
      }
    }
    assert importedIds[..|importedIds|] == importedIds;
  }

  /** In an import path the end id appears only in the last position. */
  lemma EndOnlyLast(g: Graph, startId: string, endId: string, p: seq<string>)
    requires IsImportPath(g, startId, endId, p)
    ensures forall k :: 0 <= k < |p| - 1 ==> p[k] != endId
  {
  }

  // ---------------------------------------------------------------------------
  // Around the search: node table, entry node, targets
  // ---------------------------------------------------------------------------

  /** `new Map(graph.map(n => [n.id, n]))`: a later node with the same id replaces an earlier one. */
  function NodeById(graph: seq<Node>): (m: Graph)
    ensures forall i :: 0 <= i < |graph| ==> graph[i].id in m
    ensures forall id :: id in m ==> m[id].id == id && m[id] in graph
  {
    if graph == [] then map[]
    else
      var init, last := graph[..|graph| - 1], graph[|graph| - 1];
      var m0 := NodeById(init);
      assert forall i :: 0 <= i < |init| ==> init[i] == graph[i];
      assert forall n :: n in init ==> n in graph;
      m0[last.id := last]
  }

  /** The entry test: a module nothing imports but that imports something. */
  predicate IsEntryCandidate(n: Node) {
    |n.importers| == 0 && |n.importedIds| > 0
  }

  /** `graph.find(...)` for the entry test: the first node that passes it, None when none does. */
  function FindEntryNode(graph: seq<Node>): (r: Option<Node>)
    ensures r.None? <==> forall i :: 0 <= i < |graph| ==> !IsEntryCandidate(graph[i])
    ensures r.Some? ==> exists i :: && 0 <= i < |graph| && graph[i] == r.value && IsEntryCandidate(r.value)
                                   && forall j :: 0 <= j < i ==> !IsEntryCandidate(graph[j])
  {
    if graph == [] then None
    else if IsEntryCandidate(graph[0]) then
      assert graph[0] == graph[0];
      Some(graph[0])
    else
      var r := FindEntryNode(graph[1..]);
      assert forall i :: 0 < i < |graph| ==> graph[i] == graph[1..][i - 1];
      if r.Some? then
        var i :| && 0 <= i < |graph[1..]| && graph[1..][i] == r.value && IsEntryCandidate(r.value)
                 && forall j :: 0 <= j < i ==> !IsEntryCandidate(graph[1..][j]);
        assert graph[i + 1] == r.value;
        r
      else
        r
  }

  /**
   * The target test: the lower-cased pattern occurs in the lower-cased relative path, or
   * equals the lower-cased base name without ".js".
   */
  predicate MatchesTarget(id: string, packageRoot: string, toPattern: string) {
    var toPatternLower := ToLower(toPattern);
    || Contains(ToLower(RelativePath(id, packageRoot)), toPatternLower)
    || ToLower(Basename(id, ".js")) == toPatternLower
  }

  /** `graph.filter(...)` with the target test: the matching nodes, in graph order. */
  function TargetNodes(graph: seq<Node>, packageRoot: string, toPattern: string): (targets: seq<Node>)
    ensures |targets| <= |graph|
    ensures forall n :: n in targets <==> n in graph && MatchesTarget(n.id, packageRoot, toPattern)
  {
    if graph == [] then []
    else
      var rest := TargetNodes(graph[1..], packageRoot, toPattern);
      assert forall n :: n in graph <==> n == graph[0] || n in graph[1..];
      if MatchesTarget(graph[0].id, packageRoot, toPattern) then [graph[0]] + rest else rest
  }

  lemma ToLowerIdempotent(s: string)
    ensures ToLower(ToLower(s)) == ToLower(s)
  {
  }

  /** Lower-casing keeps every occurrence. */
  lemma ToLowerKeepsOccurrence(s: string, i: int, p: string)
    requires OccursAt(s, i, p)
    ensures OccursAt(ToLower(s), i, ToLower(p))
  {
    assert forall k :: 0 <= k < |p| ==> s[i + k] == p[k] by {
      forall k | 0 <= k < |p| ensures s[i + k] == p[k] {
        assert s[i..i + |p|][k] == s[i + k];
      }
    }
    assert ToLower(s)[i..i + |p|] == ToLower(p);
  }

  /** Matching ignores the case of the pattern and accepts any exact substring of the relative path. */
  lemma TargetMatchIsCaseInsensitive(id: string, packageRoot: string, toPattern: string)
    ensures MatchesTarget(id, packageRoot, toPattern) == MatchesTarget(id, packageRoot, ToLower(toPattern))
    ensures Contains(RelativePath(id, packageRoot), toPattern) ==> MatchesTarget(id, packageRoot, toPattern)
  {
    ToLowerIdempotent(toPattern);
    var rel := RelativePath(id, packageRoot);
    if Contains(rel, toPattern) {
      ContainsIff(rel, toPattern);
      var i :| OccursAt(rel, i, toPattern);
      ToLowerKeepsOccurrence(rel, i, toPattern);
      ContainsIff(ToLower(rel), ToLower(toPattern));
    }
  }

  /** What `main` reports for one target module. */
  datatype TargetTrace =
    | FullyTreeShaken(targetId: string)
    | NoPathFound(targetId: string)
    | PathsFound(targetId: string, paths: seq<seq<string>>)

  /**
   * What a trace says about its target: shaken away exactly when the target renders no
   * code; "no path" only when no import path exists; otherwise between 1 and 8 import
   * paths, the first of them shortest, and all of them when fewer than 8 were found.
   */
  ghost predicate TraceSound(g: Graph, entryId: string, target: Node, trace: TargetTrace) {
    && trace.targetId == target.id
    && (trace.FullyTreeShaken? <==> target.renderedLength == 0)
    && (trace.NoPathFound? ==> forall P :: !IsImportPath(g, entryId, target.id, P))
    && (trace.PathsFound? ==>
          && 1 <= |trace.paths| <= 8
          && ResultsValid(g, entryId, target.id, trace.paths)
          && Shortest(g, entryId, target.id, trace.paths[0])
          && (|trace.paths| < 8 ==> forall P :: IsImportPath(g, entryId, target.id, P) ==> P in trace.paths))
  }

  /**
   * The per-target loop of `main`: a target with rendered length 0 is reported as shaken
   * away, any other is searched for from the entry with at most 8 results. `foundAny`
   * records whether some search found a path.
   */
  method TraceTargets(graph: seq<Node>, entryId: string, targets: seq<Node>)
    returns (traces: seq<TargetTrace>, foundAny: bool)
    ensures |traces| == |targets|
    ensures forall i :: 0 <= i < |targets| ==> TraceSound(NodeById(graph), entryId, targets[i], traces[i])
    ensures foundAny <==> exists i :: 0 <= i < |targets| && traces[i].PathsFound?
  {
    var nodeById := NodeById(graph);
    traces := [];
    foundAny := false;
    for t := 0 to |targets|
      invariant |traces| == t
      invariant forall i :: 0 <= i < t ==> TraceSound(nodeById, entryId, targets[i], traces[i])
      invariant foundAny <==> exists i :: 0 <= i < t && traces[i].PathsFound?
    {
      var target := targets[t];
      var trace;
      if target.renderedLength == 0 {
        trace := FullyTreeShaken(target.id);
      } else {
        var paths := FindShortestPaths(entryId, target.id, nodeById, 8);
        if |paths| == 0 {
          trace := NoPathFound(target.id);
        } else {
          foundAny := true;
          trace := PathsFound(target.id, paths);
        }
      }
      assert TraceSound(nodeById, entryId, target, trace);
      traces := traces + [trace];
    }
  }

  /** The closing hint of `main`: nothing was found although every target contributes code. */
  predicate SuggestsDynamicImport(targets: seq<Node>, foundAny: bool) {
    !foundAny && forall i :: 0 <= i < |targets| ==> targets[i].renderedLength > 0
  }

  /** The hint is only given when no target has an import path from the entry at all. */
  lemma DynamicImportHintMeansNoStaticPath(g: Graph, entryId: string, targets: seq<Node>,
                                           traces: seq<TargetTrace>, foundAny: bool, t: nat)
    requires |traces| == |targets| && t < |targets|
    requires forall i :: 0 <= i < |targets| ==> TraceSound(g, entryId, targets[i], traces[i])
    requires foundAny <==> exists i :: 0 <= i < |targets| && traces[i].PathsFound?
    requires SuggestsDynamicImport(targets, foundAny)
    ensures forall P :: !IsImportPath(g, entryId, targets[t].id, P)
  {
    assert TraceSound(g, entryId, targets[t], traces[t]);
    assert !traces[t].PathsFound?;
  }
}
