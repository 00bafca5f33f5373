/**
  The per-subreddit prefetch cache of the Reddit provider, as values.

  For each subreddit the provider keeps a FIFO queue of media results, the set
  of fingerprints of results it has already queued, and the time of the last
  refresh; a persistent store mirrors the queue and the timestamp. This module
  states what one step of the provider does to one subreddit's state; the
  class in module Provider performs the same steps in place and is proved
  against these functions.
 */
module MediaQueue {
  import opened Wrappers
  import opened JavaStrings

  /** Ten minutes, in milliseconds. */
  const CACHE_EXPIRATION_TIME: int := 10 * 60 * 1000
  /** The queue is never filled beyond this many items by a refresh. */
  const MAX_RESULTS_PER_SUBREDDIT: nat := 200
  /** Below this many queued items a request triggers a refresh. */
  const MIN_QUEUE_SIZE: nat := 10

  /** A media result: the URL of the image or video, the post title and the remaining metadata. */
  datatype MediaItem = MediaItem(url: string, title: string, description: string)

  /**
    generateResultId: the Java hash of `url + "|" + title`. The source renders
    the hash as a decimal string; that rendering is one-to-one, so comparing
    the numbers decides the same as comparing the strings.
   */
  function ResultId(item: MediaItem): (id: int)
    ensures -0x8000_0000 <= id < 0x8000_0000
  {
    HashCode(item.url + "|" + item.title)
  }

  /** The fingerprints of a list of items. */
  function Fingerprints(items: seq<MediaItem>): set<int> {
    set x | x in items :: ResultId(x)
  }

  /** No two items of the list share a fingerprint. */
  predicate DistinctIds(items: seq<MediaItem>) {
    forall i, j :: 0 <= i < j < |items| ==> ResultId(items[i]) != ResultId(items[j])
  }

  /** `a` is obtained from `b` by deleting items, keeping the order of the rest. */
  predicate IsSubsequence(a: seq<MediaItem>, b: seq<MediaItem>)
    decreases |b|
  {
    a == [] || (b != [] && ((a[0] == b[0] && IsSubsequence(a[1..], b[1..])) || IsSubsequence(a, b[1..])))
  }

  lemma {:induction false} SubsequenceMembers(a: seq<MediaItem>, b: seq<MediaItem>)
    requires IsSubsequence(a, b)
    ensures forall x :: x in a ==> x in b
    decreases |b|
  {
    if a != [] {
      if a[0] == b[0] && IsSubsequence(a[1..], b[1..]) {
        SubsequenceMembers(a[1..], b[1..]);
        assert forall x :: x in a ==> x == a[0] || x in a[1..];
      } else {
        SubsequenceMembers(a, b[1..]);
      }
    }
  }

  /**
    The for-loop of addResultsToQueue: walk the results in order, stop as soon
    as the queue holds MAX_RESULTS_PER_SUBREDDIT items, skip a result whose
    fingerprint was seen, otherwise append it and record its fingerprint.
   */
  function MergeLoop(queue: seq<MediaItem>, seen: set<int>, results: seq<MediaItem>): (r: (seq<MediaItem>, set<int>))
    ensures |queue| <= |r.0| <= |queue| + |results|
    ensures seen <= r.1
    decreases |results|
  {
    if results == [] || |queue| >= MAX_RESULTS_PER_SUBREDDIT then (queue, seen)
    else
      var id := ResultId(results[0]);
      if id in seen then MergeLoop(queue, seen, results[1..])
      else MergeLoop(queue + [results[0]], seen + {id}, results[1..])
  }

  /**
    `q` is `queue` followed by items taken in order from `results`, no two of
    them with the same fingerprint and none with a fingerprint in `seen`.
   */
  predicate ExtendsWithUnseen(queue: seq<MediaItem>, seen: set<int>, results: seq<MediaItem>, q: seq<MediaItem>) {
    |queue| <= |q| && q[..|queue|] == queue
    && IsSubsequence(q[|queue|..], results)
    && DistinctIds(q[|queue|..])
    && forall x :: x in q[|queue|..] ==> ResultId(x) !in seen
  }

  /** The merge loop only appends unseen, pairwise distinct results, and records exactly their fingerprints. */
  lemma {:induction false} MergeLoopAppends(queue: seq<MediaItem>, seen: set<int>, results: seq<MediaItem>)
    ensures var (q, s) := MergeLoop(queue, seen, results);
      ExtendsWithUnseen(queue, seen, results, q) && s == seen + Fingerprints(q[|queue|..])
    decreases |results|
  {
    var (q, s) := MergeLoop(queue, seen, results);
    if results == [] || |queue| >= MAX_RESULTS_PER_SUBREDDIT {
      assert q[|queue|..] == [];
    } else {
      var x := results[0];
      var id := ResultId(x);
      if id in seen {
        MergeLoopAppends(queue, seen, results[1..]);
      } else {
        var queue' := queue + [x];
        MergeLoopAppends(queue', seen + {id}, results[1..]);
        var added' := q[|queue'|..];
        var added := q[|queue|..];
        assert q[..|queue'|] == queue';
        assert q[..|queue|] == queue;
        assert added == [x] + added';
        PrependUnseen(x, added', seen);
      }
    }
  }

  /** Putting an unseen item in front of a list of items unseen even after it keeps the list's properties. */
  lemma PrependUnseen(x: MediaItem, added: seq<MediaItem>, seen: set<int>)
    requires ResultId(x) !in seen && DistinctIds(added)
    requires forall y :: y in added ==> ResultId(y) !in seen + {ResultId(x)}
    ensures DistinctIds([x] + added)
    ensures forall y :: y in [x] + added ==> ResultId(y) !in seen
    ensures seen + {ResultId(x)} + Fingerprints(added) == seen + Fingerprints([x] + added)
  {
    var l := [x] + added;
    forall i, j | 0 <= i < j < |l|
      ensures ResultId(l[i]) != ResultId(l[j])
    {
      assert l[j] == added[j - 1];
      if i > 0 {
        assert l[i] == added[i - 1];
      } else {
        assert added[j - 1] in added;
      }
    }
    assert forall y :: y in l ==> y == x || y in added;
    assert Fingerprints(l) == {ResultId(x)} + Fingerprints(added);
  }

  /** The loop leaves a queue at or over the cap alone, and never pushes a queue past the cap. */
  lemma {:induction false} MergeLoopBounded(queue: seq<MediaItem>, seen: set<int>, results: seq<MediaItem>)
    ensures |queue| >= MAX_RESULTS_PER_SUBREDDIT ==> MergeLoop(queue, seen, results) == (queue, seen)
    ensures |queue| <= MAX_RESULTS_PER_SUBREDDIT ==> |MergeLoop(queue, seen, results).0| <= MAX_RESULTS_PER_SUBREDDIT
    decreases |results|
  {
    if results != [] && |queue| < MAX_RESULTS_PER_SUBREDDIT {
      var id := ResultId(results[0]);
      if id in seen {
        MergeLoopBounded(queue, seen, results[1..]);
      } else {
        MergeLoopBounded(queue + [results[0]], seen + {id}, results[1..]);
      }
    }
  }

  /**
    A result is left out of the queue only because the cap was reached or its
    fingerprint was already known: when the loop ends below the cap, every
    result's fingerprint is in the final set.
   */
  lemma {:induction false} MergeLoopSkipsOnlyKnown(queue: seq<MediaItem>, seen: set<int>, results: seq<MediaItem>)
    ensures var (q, s) := MergeLoop(queue, seen, results);
      |q| < MAX_RESULTS_PER_SUBREDDIT ==> forall x :: x in results ==> ResultId(x) in s
    decreases |results|
  {
    if results != [] && |queue| < MAX_RESULTS_PER_SUBREDDIT {
      var id := ResultId(results[0]);
      var (q, s) := MergeLoop(queue, seen, results);
      if id in seen {
        MergeLoopSkipsOnlyKnown(queue, seen, results[1..]);
        MergeLoopAppends(queue, seen, results[1..]);
      } else {
        MergeLoopSkipsOnlyKnown(queue + [results[0]], seen + {id}, results[1..]);
        MergeLoopAppends(queue + [results[0]], seen + {id}, results[1..]);
      }
      assert forall x :: x in results ==> x == results[0] || x in results[1..];
    }
  }

  /**
    The results worth queueing, independently of the loop: `rs[i]` is kept
    exactly when its fingerprint is not in `seen` and no earlier result has
    the same fingerprint. Defined from the back, one last result at a time.
   */
  function FirstUnseen(rs: seq<MediaItem>, seen: set<int>): (r: seq<MediaItem>)
    decreases |rs|
  {
    if rs == [] then []
    else
      var init := rs[..|rs| - 1];
      var x := rs[|rs| - 1];
      FirstUnseen(init, seen) + (if ResultId(x) in seen || ResultId(x) in Fingerprints(init) then [] else [x])
  }

  /** Read from the front, the filter takes the first result when it is unseen and then treats its fingerprint as seen. */
  lemma {:induction false} FirstUnseenCons(x: MediaItem, rs: seq<MediaItem>, seen: set<int>)
    ensures FirstUnseen([x] + rs, seen)
      == if ResultId(x) in seen then FirstUnseen(rs, seen) else [x] + FirstUnseen(rs, seen + {ResultId(x)})
    decreases |rs|
  {
    var id := ResultId(x);
    var xs := [x] + rs;
    if rs == [] {
      assert xs[..0] == [] && xs[0] == x;
      assert FirstUnseen(xs, seen) == FirstUnseen([], seen) + (if id in seen || id in Fingerprints([]) then [] else [x]);
    } else {
      var init := rs[..|rs| - 1];
      var y := rs[|rs| - 1];
      var yid := ResultId(y);
      FirstUnseenCons(x, init, seen);
      assert xs[..|xs| - 1] == [x] + init;
      assert xs[|xs| - 1] == y;
      FingerprintsCons(x, init);
      var tailIn := if yid in seen || yid in Fingerprints([x] + init) then [] else [y];
      assert FirstUnseen(xs, seen) == FirstUnseen([x] + init, seen) + tailIn;
      if id !in seen {
        assert FirstUnseen(rs, seen + {id}) == FirstUnseen(init, seen + {id}) + tailIn;
      } else {
        assert FirstUnseen(rs, seen) == FirstUnseen(init, seen) + tailIn;
      }
    }
  }

  lemma FingerprintsCons(x: MediaItem, items: seq<MediaItem>)
    ensures Fingerprints([x] + items) == {ResultId(x)} + Fingerprints(items)
  {
    assert forall z :: z in [x] + items <==> z == x || z in items;
  }

  /**
    The merge loop appends exactly the unseen, first-of-their-fingerprint
    results of some prefix of the results, and stops short of the whole list
    only because the queue reached the cap.
   */
  lemma {:induction false} MergeLoopTakesFirstUnseen(queue: seq<MediaItem>, seen: set<int>, results: seq<MediaItem>)
    ensures var q := MergeLoop(queue, seen, results).0;
      exists n :: TakesFirstUnseen(queue, seen, results, q, n)
    decreases |results|
  {
    var q := MergeLoop(queue, seen, results).0;
    if results == [] || |queue| >= MAX_RESULTS_PER_SUBREDDIT {
      assert q == queue;
      assert results[..0] == [] && q[|queue|..] == [] && q[..|queue|] == queue;
      assert FirstUnseen(results[..0], seen) == [];
      assert 0 < |results| ==> |q| >= MAX_RESULTS_PER_SUBREDDIT;
      assert TakesFirstUnseen(queue, seen, results, q, 0);
      assert exists n :: TakesFirstUnseen(queue, seen, results, MergeLoop(queue, seen, results).0, n);
    } else {
      var x := results[0];
      var id := ResultId(x);
      var rest := results[1..];
      if id in seen {
        assert q == MergeLoop(queue, seen, rest).0;
        MergeLoopTakesFirstUnseen(queue, seen, rest);
        var n :| TakesFirstUnseen(queue, seen, rest, q, n);
        SkipTakesFirstUnseen(queue, seen, results, q, n);
        assert TakesFirstUnseen(queue, seen, results, q, n + 1);
        assert exists n :: TakesFirstUnseen(queue, seen, results, MergeLoop(queue, seen, results).0, n);
      } else {
        assert q == MergeLoop(queue + [x], seen + {id}, rest).0;
        MergeLoopTakesFirstUnseen(queue + [x], seen + {id}, rest);
        var n :| TakesFirstUnseen(queue + [x], seen + {id}, rest, q, n);
        AppendTakesFirstUnseen(queue, seen, results, q, n);
        assert TakesFirstUnseen(queue, seen, results, q, n + 1);
        assert exists n :: TakesFirstUnseen(queue, seen, results, MergeLoop(queue, seen, results).0, n);
      }
    }
  }

  /** The conclusion of MergeLoopTakesFirstUnseen for one count `n` of consumed results. */
  predicate TakesFirstUnseen(queue: seq<MediaItem>, seen: set<int>, results: seq<MediaItem>, q: seq<MediaItem>, n: int) {
    0 <= n <= |results| && (n < |results| ==> |q| >= MAX_RESULTS_PER_SUBREDDIT)
    && |queue| <= |q| && q[..|queue|] == queue && q[|queue|..] == FirstUnseen(results[..n], seen)
  }

  /** A step of the loop that skips a seen first result. */
  lemma SkipTakesFirstUnseen(queue: seq<MediaItem>, seen: set<int>, results: seq<MediaItem>, q: seq<MediaItem>, n: int)
    requires results != [] && ResultId(results[0]) in seen
    requires TakesFirstUnseen(queue, seen, results[1..], q, n)
    ensures TakesFirstUnseen(queue, seen, results, q, n + 1)
  {
    var rest := results[1..];
    assert results[..n + 1] == [results[0]] + rest[..n];
    FirstUnseenCons(results[0], rest[..n], seen);
  }

  /** A step of the loop that appends an unseen first result. */
  lemma AppendTakesFirstUnseen(queue: seq<MediaItem>, seen: set<int>, results: seq<MediaItem>, q: seq<MediaItem>, n: int)
    requires results != [] && ResultId(results[0]) !in seen
    requires TakesFirstUnseen(queue + [results[0]], seen + {ResultId(results[0])}, results[1..], q, n)
    ensures TakesFirstUnseen(queue, seen, results, q, n + 1)
  {
    var x := results[0];
    var rest := results[1..];
    var queue' := queue + [x];
    assert results[..n + 1] == [x] + rest[..n];
    FirstUnseenCons(x, rest[..n], seen);
    assert q[|queue|..] == [x] + q[|queue'|..] by {
      assert q[|queue|..] == q[|queue|..|queue'|] + q[|queue'|..];
      assert q[|queue|..|queue'|] == q[..|queue'|][|queue|..] == [x];
    }
    assert q[..|queue|] == q[..|queue'|][..|queue|] == queue;
  }

  /**
    addResultsToQueue on values: the merge loop, then the seen-set is emptied
    when it holds more than twice the cap. Returns the new queue and seen-set.
   */
  function AddResults(queue: seq<MediaItem>, seen: set<int>, results: seq<MediaItem>): (r: (seq<MediaItem>, set<int>))
    ensures |queue| >= MAX_RESULTS_PER_SUBREDDIT ==> r.0 == queue
    ensures |queue| <= MAX_RESULTS_PER_SUBREDDIT ==> |r.0| <= MAX_RESULTS_PER_SUBREDDIT
    ensures |queue| <= |r.0| && r.0[..|queue|] == queue
  {
    MergeLoopBounded(queue, seen, results);
    MergeLoopAppends(queue, seen, results);
    var (q, s) := MergeLoop(queue, seen, results);
    (q, if |s| > 2 * MAX_RESULTS_PER_SUBREDDIT then {} else s)
  }

  /**
    What addResultsToQueue appends and records: results taken in order, unseen
    and pairwise distinct; the seen-set grows by exactly their fingerprints and
    is emptied when it then holds more than twice the cap; and when the queue
    ends below the cap, every result's fingerprint was known or is now recorded.
   */
  lemma AddResultsAppendsUnseen(queue: seq<MediaItem>, seen: set<int>, results: seq<MediaItem>)
    ensures var r := AddResults(queue, seen, results);
      var grown := seen + Fingerprints(r.0[|queue|..]);
      && ExtendsWithUnseen(queue, seen, results, r.0)
      && r.1 == (if |grown| > 2 * MAX_RESULTS_PER_SUBREDDIT then {} else grown)
      && (|r.0| < MAX_RESULTS_PER_SUBREDDIT ==> forall x :: x in results ==> ResultId(x) in grown)
  {
    MergeLoopAppends(queue, seen, results);
    MergeLoopSkipsOnlyKnown(queue, seen, results);
  }

  /**
    Which results addResultsToQueue appends: for some prefix of the results,
    exactly those whose fingerprint is unseen and not shared with an earlier
    result, in order; a result after that prefix is left out only because the
    queue reached the cap.
   */
  lemma AddResultsTakesFirstUnseen(queue: seq<MediaItem>, seen: set<int>, results: seq<MediaItem>)
    ensures exists n :: TakesFirstUnseen(queue, seen, results, AddResults(queue, seen, results).0, n)
  {
    MergeLoopTakesFirstUnseen(queue, seen, results);
    var q := MergeLoop(queue, seen, results).0;
    assert AddResults(queue, seen, results).0 == q;
    var n :| TakesFirstUnseen(queue, seen, results, q, n);
  }

  /**
    Two results with the same URL and title (or, more generally, the same
    fingerprint) never both end up among the appended items.
   */
  lemma SameFingerprintQueuedOnce(queue: seq<MediaItem>, seen: set<int>, results: seq<MediaItem>, a: MediaItem, b: MediaItem)
    requires a != b && ResultId(a) == ResultId(b)
    ensures var added := AddResults(queue, seen, results).0[|queue|..];
      !(a in added && b in added)
  {
    AddResultsAppendsUnseen(queue, seen, results);
  }

  /**
    Fingerprints may collide: "Aa" and "BB" have the same Java hash, so of two
    different results with these URLs and a common title only the first is queued.
   */
  lemma CollidingResultIsDropped(title: string)
    ensures var a := MediaItem("Aa", title, "");
      var b := MediaItem("BB", title, "");
      a != b && AddResults([], {}, [a, b]).0 == [a]
  {
    var a := MediaItem("Aa", title, "");
    var b := MediaItem("BB", title, "");
    assert HashBits("A") == 65 by { assert "A"[..0] == []; }
    assert HashBits("B") == 66 by { assert "B"[..0] == []; }
    assert HashBits("Aa") == 2112 by { assert "Aa"[..1] == "A"; }
    assert HashBits("BB") == 2112 by { assert "BB"[..1] == "B"; }
    HashBitsSuffix("Aa", "BB", "|" + title);
    assert "Aa" + "|" + title == "Aa" + ("|" + title);
    assert "BB" + "|" + title == "BB" + ("|" + title);
    assert ResultId(a) == ResultId(b);
    var id := ResultId(a);
    assert MergeLoop([a], {id}, [b]) == ([a], {id});
    assert MergeLoop([], {}, [a, b]) == MergeLoop([a], {id}, [b]) by {
      assert [a, b][1..] == [b] && [a, b][0] == a;
      assert [] + [a] == [a] && {} + {id} == {id};
    }
  }

  /** A queued item as written to the persistent cache, with the time it was captured. */
  datatype CachedMedia = CachedMedia(item: MediaItem, cachedAt: int)

  /** saveToPersistentCache: every queued item, in order, stamped with the time of the save. */
  function Snapshot(queue: seq<MediaItem>, now: int): (r: seq<CachedMedia>)
    ensures |r| == |queue|
  {
    if queue == [] then [] else [CachedMedia(queue[0], now)] + Snapshot(queue[1..], now)
  }

  /** The snapshot holds the queued items in order, each stamped with the time of the save. */
  lemma {:induction false} SnapshotStampsEach(queue: seq<MediaItem>, now: int)
    ensures forall i :: 0 <= i < |queue| ==> Snapshot(queue, now)[i] == CachedMedia(queue[i], now)
    decreases |queue|
  {
    if queue != [] {
      SnapshotStampsEach(queue[1..], now);
    }
  }

  /**
    The reload of loadFromPersistentCache: the items of the entries that are
    still valid, in order. `stillValid` stands for CachedMediaResult.isValid
    with the ten-minute window, whose body is not part of this model.
   */
  function Restore(cached: seq<CachedMedia>, stillValid: CachedMedia -> bool): (r: seq<MediaItem>)
    ensures |r| <= |cached|
    ensures (forall c :: c in cached ==> stillValid(c)) ==> |r| == |cached|
    decreases |cached|
  {
    if cached == [] then []
    else (if stillValid(cached[0]) then [cached[0].item] else []) + Restore(cached[1..], stillValid)
  }

  /** The items of the cache entries, in order. */
  function Items(cached: seq<CachedMedia>): (r: seq<MediaItem>)
    ensures |r| == |cached| && forall i :: 0 <= i < |r| ==> r[i] == cached[i].item
  {
    seq(|cached|, i requires 0 <= i < |cached| => cached[i].item)
  }

  /** The reloaded items keep the order they had in the snapshot. */
  lemma {:induction false} RestoreKeepsOrder(cached: seq<CachedMedia>, stillValid: CachedMedia -> bool)
    ensures IsSubsequence(Restore(cached, stillValid), Items(cached))
    decreases |cached|
  {
    if cached != [] {
      var rest := Restore(cached[1..], stillValid);
      var r := Restore(cached, stillValid);
      RestoreKeepsOrder(cached[1..], stillValid);
      assert Items(cached)[1..] == Items(cached[1..]);
      if stillValid(cached[0]) {
        assert r[0] == Items(cached)[0] && r[1..] == rest;
      } else {
        assert r == rest;
      }
    }
  }

  /**
    The reload works entry by entry: reloading two snapshots one after the
    other is reloading their concatenation. With the one-entry case (`[c.item]`
    for a valid `c`, `[]` otherwise) this fixes the order of the reloaded
    items whatever has expired.
   */
  lemma {:induction false} RestoreAppend(a: seq<CachedMedia>, b: seq<CachedMedia>, stillValid: CachedMedia -> bool)
    ensures Restore(a + b, stillValid) == Restore(a, stillValid) + Restore(b, stillValid)
    decreases |a|
  {
    if a != [] {
      assert (a + b)[1..] == a[1..] + b;
      assert (a + b)[0] == a[0];
      RestoreAppend(a[1..], b, stillValid);
    } else {
      assert a + b == b;
    }
  }

  /** Saving a queue and reloading it gives the queue back when no entry has expired. */
  lemma {:induction false} RestoreSnapshot(queue: seq<MediaItem>, now: int, stillValid: CachedMedia -> bool)
    requires forall x :: x in queue ==> stillValid(CachedMedia(x, now))
    ensures Restore(Snapshot(queue, now), stillValid) == queue
    decreases |queue|
  {
    if queue != [] {
      assert queue[0] in queue;
      assert forall x :: x in queue[1..] ==> x in queue;
      RestoreSnapshot(queue[1..], now, stillValid);
    }
  }

  /** A reloaded item is exactly the item of some still-valid entry of the snapshot. */
  lemma {:induction false} RestoreKeepsValid(cached: seq<CachedMedia>, stillValid: CachedMedia -> bool, x: MediaItem)
    ensures x in Restore(cached, stillValid) <==> exists c :: c in cached && stillValid(c) && c.item == x
    decreases |cached|
  {
    if cached != [] {
      RestoreKeepsValid(cached[1..], stillValid, x);
      assert forall c :: c in cached <==> c == cached[0] || c in cached[1..];
    }
  }

  /** The concatenation of the per-sort-order result lists. */
  function Flatten(lists: seq<seq<MediaItem>>): seq<MediaItem> {
    if lists == [] then [] else lists[0] + Flatten(lists[1..])
  }

  lemma {:induction false} InFlatten(lists: seq<seq<MediaItem>>, x: MediaItem)
    requires x in Flatten(lists)
    ensures exists i :: 0 <= i < |lists| && x in lists[i]
    decreases |lists|
  {
    if x !in lists[0] {
      InFlatten(lists[1..], x);
      var i :| 0 <= i < |lists[1..]| && x in lists[1..][i];
      assert x in lists[i + 1];
    }
  }

  /**
    What one refresh receives: one result list per sort order (a fetch that
    failed with an exception of its own gives an empty list) and the shuffled
    concatenation of those lists. A fetch cut off by the timeout is not a
    refill: its cancellation escapes the refresh, which this model leaves out.
   */
  datatype Refill = Refill(fetched: seq<seq<MediaItem>>, shuffled: seq<MediaItem>) {
    /** `shuffled` is some permutation of the concatenated results. */
    predicate Shuffles() {
      multiset(shuffled) == multiset(Flatten(fetched))
    }
  }

  /** The in-memory state of one subreddit: queue, seen fingerprints, time of the last refresh (absent before the first load). */
  datatype Entry = Entry(queue: seq<MediaItem>, seen: set<int>, lastUpdated: Option<int>)

  /** The persisted state of one subreddit: its refresh timestamp and its queue snapshot. */
  datatype Store = Store(timestamp: Option<int>, snapshot: Option<seq<CachedMedia>>)

  /**
    loadFromPersistentCache: with no persisted timestamp the entry is stamped 0;
    otherwise it takes the persisted timestamp and appends the still-valid
    snapshot items.
   */
  function Load(e: Entry, store: Store, stillValid: CachedMedia -> bool): (r: Entry)
    ensures r.lastUpdated == Some(store.timestamp.GetOr(0))
    ensures |e.queue| <= |r.queue| && r.queue[..|e.queue|] == e.queue && r.seen == e.seen
  {
    match store.timestamp
    case None => e.(lastUpdated := Some(0))
    case Some(t) =>
      var restored :=
        if store.snapshot.Some? && store.snapshot.value != [] then Restore(store.snapshot.value, stillValid) else [];
      e.(lastUpdated := Some(t), queue := e.queue + restored)
  }

  /**
    What the load puts in the queue: nothing without a persisted timestamp;
    with one, exactly the reloaded snapshot, after the items already queued.
   */
  lemma LoadAppendsRestored(e: Entry, store: Store, stillValid: CachedMedia -> bool)
    ensures var r := Load(e, store, stillValid);
      (store.timestamp.None? ==> r.queue == e.queue)
      && (store.timestamp.Some? ==>
            r.queue == e.queue + if store.snapshot.Some? then Restore(store.snapshot.value, stillValid) else [])
  {
  }

  /** The refresh test of ensureCacheReady; a missing timestamp counts as 0. */
  function NeedsRefresh(e: Entry, now: int): (b: bool)
    ensures |e.queue| < MIN_QUEUE_SIZE ==> b
    ensures now - e.lastUpdated.GetOr(0) > CACHE_EXPIRATION_TIME ==> b
    ensures e.lastUpdated == Some(now) ==> (b <==> |e.queue| < MIN_QUEUE_SIZE)
  {
    |e.queue| < MIN_QUEUE_SIZE || now - e.lastUpdated.GetOr(0) > CACHE_EXPIRATION_TIME
  }

  /**
    refreshCache: merge the shuffled results (when there are any) and save the
    new queue, then stamp the entry and the persisted timestamp with `now`.
   */
  function Refresh(e: Entry, store: Store, now: int, refill: Refill): (r: (Entry, Store))
    ensures r.0.lastUpdated == Some(now) && r.1.timestamp == Some(now)
    ensures |e.queue| <= |r.0.queue| && r.0.queue[..|e.queue|] == e.queue
  {
    if Flatten(refill.fetched) == [] then
      (e.(lastUpdated := Some(now)), store.(timestamp := Some(now)))
    else
      var (q, s) := AddResults(e.queue, e.seen, refill.shuffled);
      (Entry(q, s, Some(now)), Store(Some(now), Some(Snapshot(q, now))))
  }

  /** ensureCacheReady: load once from the persistent cache, then refresh when the queue is low or stale. */
  function Ready(e: Entry, store: Store, now: int, refill: Refill, stillValid: CachedMedia -> bool): (r: (Entry, Store))
    ensures |e.queue| <= |r.0.queue| && r.0.queue[..|e.queue|] == e.queue
  {
    var loaded := if e.lastUpdated.None? then Load(e, store, stillValid) else e;
    if NeedsRefresh(loaded, now) then Refresh(loaded, store, now, refill) else (loaded, store)
  }

  /** A loaded entry that needs no refresh is served as it is: nothing is fetched, loaded or saved. */
  lemma ReadyCacheHit(e: Entry, store: Store, now: int, refill: Refill, stillValid: CachedMedia -> bool)
    requires e.lastUpdated.Some? && !NeedsRefresh(e, now)
    ensures Ready(e, store, now, refill, stillValid) == (e, store)
  {
  }

  /**
    ensureCacheReady refreshes exactly when the loaded entry is low or stale:
    then both stamps become `now` and what is appended comes from the fetches;
    otherwise the loaded entry is kept and the store is untouched.
   */
  lemma ReadyRefreshesWhenNeeded(e: Entry, store: Store, now: int, refill: Refill, stillValid: CachedMedia -> bool)
    ensures var loaded := if e.lastUpdated.None? then Load(e, store, stillValid) else e;
      var (e', st') := Ready(e, store, now, refill, stillValid);
      (NeedsRefresh(loaded, now) ==>
         e'.lastUpdated == Some(now) && st'.timestamp == Some(now)
         && |loaded.queue| <= |e'.queue| && e'.queue[..|loaded.queue|] == loaded.queue
         && (refill.Shuffles() ==> forall x :: x in e'.queue[|loaded.queue|..] ==>
               exists i :: 0 <= i < |refill.fetched| && x in refill.fetched[i]))
      && (!NeedsRefresh(loaded, now) ==> e' == loaded && st' == store)
  {
    var loaded := if e.lastUpdated.None? then Load(e, store, stillValid) else e;
    if NeedsRefresh(loaded, now) && refill.Shuffles() {
      RefreshAppendsFetchedOnly(loaded, store, now, refill);
    }
  }

  /** The outcome of serving one request for a subreddit: the item (absent when the queue ran dry) and the new state. */
  datatype Taken = Taken(item: Option<MediaItem>, entry: Entry, store: Store)

  /** The queue part of getRandomRedditMedia: make the entry ready, then poll the head and save the rest. */
  function Take(e: Entry, store: Store, now: int, refill: Refill, stillValid: CachedMedia -> bool): (r: Taken)
    ensures r.item.Some? ==> r.store.snapshot == Some(Snapshot(r.entry.queue, now))
  {
    var (ready, st) := Ready(e, store, now, refill, stillValid);
    if ready.queue == [] then Taken(None, ready, st)
    else Taken(Some(ready.queue[0]), ready.(queue := ready.queue[1..]),
               st.(snapshot := Some(Snapshot(ready.queue[1..], now))))
  }

  /**
    A refresh keeps the queued items in front and in order, appends only
    results of the completed fetches, and, when the fetches brought nothing,
    changes nothing but the two timestamps.
   */
  lemma RefreshAppendsFetchedOnly(e: Entry, store: Store, now: int, refill: Refill)
    requires refill.Shuffles()
    ensures var (e', st') := Refresh(e, store, now, refill);
      |e.queue| <= |e'.queue| && e'.queue[..|e.queue|] == e.queue
      && (forall x :: x in e'.queue[|e.queue|..] ==> exists i :: 0 <= i < |refill.fetched| && x in refill.fetched[i])
      && e'.lastUpdated == Some(now) && st'.timestamp == Some(now)
      && (Flatten(refill.fetched) == [] ==> e'.queue == e.queue && e'.seen == e.seen && st'.snapshot == store.snapshot)
  {
    var (e', st') := Refresh(e, store, now, refill);
    if Flatten(refill.fetched) != [] {
      AddResultsAppendsUnseen(e.queue, e.seen, refill.shuffled);
      var added := e'.queue[|e.queue|..];
      SubsequenceMembers(added, refill.shuffled);
      forall x | x in added
        ensures exists i :: 0 <= i < |refill.fetched| && x in refill.fetched[i]
      {
        assert x in multiset(refill.shuffled);
        assert x in multiset(Flatten(refill.fetched));
        InFlatten(refill.fetched, x);
      }
    }
  }

  /** A refresh never pushes a queue that was within the cap past it. */
  lemma RefreshWithinCap(e: Entry, store: Store, now: int, refill: Refill)
    requires |e.queue| <= MAX_RESULTS_PER_SUBREDDIT
    ensures |Refresh(e, store, now, refill).0.queue| <= MAX_RESULTS_PER_SUBREDDIT
  {
  }

  /**
    A request served from a ready queue returns its head and removes exactly
    that item; an empty ready queue gives no item.
   */
  lemma TakePopsHead(e: Entry, store: Store, now: int, refill: Refill, stillValid: CachedMedia -> bool)
    ensures var (ready, _) := Ready(e, store, now, refill, stillValid);
      var t := Take(e, store, now, refill, stillValid);
      (t.item.None? <==> ready.queue == [])
      && (t.item.Some? ==> [t.item.value] + t.entry.queue == ready.queue)
      && t.entry.seen == ready.seen && t.entry.lastUpdated == ready.lastUpdated
  {
  }

  /**
    Three items queued, refreshed just now, and every fetch coming back empty:
    three requests return the items in order and the fourth finds the queue dry.
    (With fewer than MIN_QUEUE_SIZE items each of the four requests already
    attempts a refresh.)
   */
  lemma DrainWithEmptyFetches(a: MediaItem, b: MediaItem, c: MediaItem, seen: set<int>, store: Store, now: int, stillValid: CachedMedia -> bool)
    ensures var empty := Refill([[], [], []], []);
      var t1 := Take(Entry([a, b, c], seen, Some(now)), store, now, empty, stillValid);
      var t2 := Take(t1.entry, t1.store, now, empty, stillValid);
      var t3 := Take(t2.entry, t2.store, now, empty, stillValid);
      var t4 := Take(t3.entry, t3.store, now, empty, stillValid);
      t1.item == Some(a) && t2.item == Some(b) && t3.item == Some(c) && t4.item == None
      && t4.entry.queue == []
  {
    var empty := Refill([[], [], []], []);
    assert Flatten(empty.fetched) == [];
  }

  /** An arbitrary element of a non-empty set of keys. */
  ghost function Pick(keys: set<string>): string
    requires keys != {}
  {
    var k :| k in keys; k
  }

  /** The number of items queued under the given keys. */
  ghost function SumSizes(m: map<string, seq<MediaItem>>, keys: set<string>): nat
    requires keys <= m.Keys
    decreases keys
  {
    if keys == {} then 0 else var k := Pick(keys); |m[k]| + SumSizes(m, keys - {k})
  }

  /** The number of items queued over all subreddits (the total_cached_images statistic). */
  ghost function TotalQueued(m: map<string, seq<MediaItem>>): nat {
    SumSizes(m, m.Keys)
  }

  /** The sum may be split at any key, not only at the one `Pick` chooses. */
  lemma {:induction false} SumSizesAt(m: map<string, seq<MediaItem>>, keys: set<string>, k: string)
    requires k in keys && keys <= m.Keys
    ensures SumSizes(m, keys) == |m[k]| + SumSizes(m, keys - {k})
    decreases |keys|
  {
    var j := Pick(keys);
    if j != k {
      SumSizesAt(m, keys - {j}, k);
      SumSizesAt(m, keys - {k}, j);
      assert keys - {j} - {k} == keys - {k} - {j};
    }
  }

  /** Maps whose queues have the same lengths under `keys` have the same sum there. */
  lemma {:induction false} SumSizesAgree(m1: map<string, seq<MediaItem>>, m2: map<string, seq<MediaItem>>, keys: set<string>)
    requires keys <= m1.Keys && keys <= m2.Keys
    requires forall k :: k in keys ==> |m1[k]| == |m2[k]|
    ensures SumSizes(m1, keys) == SumSizes(m2, keys)
    decreases keys
  {
    if keys != {} {
      var k := Pick(keys);
      SumSizesAgree(m1, m2, keys - {k});
    }
  }

  /** Replacing one subreddit's queue changes the total by the difference in that queue's length. */
  lemma TotalQueuedUpdate(m: map<string, seq<MediaItem>>, key: string, q: seq<MediaItem>)
    ensures TotalQueued(m[key := q]) + (if key in m then |m[key]| else 0) == TotalQueued(m) + |q|
  {
    var m' := m[key := q];
    SumSizesAt(m', m'.Keys, key);
    SumSizesAgree(m, m', m.Keys - {key});
    assert m'.Keys - {key} == m.Keys - {key};
    if key in m {
      SumSizesAt(m, m.Keys, key);
    } else {
      assert m.Keys - {key} == m.Keys;
    }
  }
}
