/**
  RedditProvider: serves a random media result for a subreddit from an
  in-memory queue, refilled from Reddit when the queue is low or stale.

  The provider's five maps are fields of the class; each method changes them
  as the Java method does and is proved against the per-subreddit functions of
  module MediaQueue. What the network, the clock, the dictionary service and
  the two shuffles would supply is passed in:
    - `now`: System.currentTimeMillis() at the time of the call;
    - `refill`: the three listings' results and their shuffled concatenation;
    - `stillValid`: CachedMediaResult.isValid with the ten-minute window;
    - `about`, `lines`, `shuffledNames`, `dictionaryWord`: see Subreddits.
 */
module Provider {
  import opened Wrappers
  import opened MediaQueue
  import opened Subreddits

  /** How getRandomRedditMedia fails. */
  datatype ProviderError =
    | NoValidSubreddit(cause: Selection)   // "Unable to find a valid subreddit. " + the cause's message
    | ExistenceCheckFailed(subreddit: string)   // the IOException of doesSubredditExist, passed on
    | UncheckedError                       // a runtime exception, passed on
    | NoImages(subreddit: string)           // "No images available for subreddit: " + subreddit

  /** getCacheStats: cached_subreddits, total_cached_images, persistent_cache_size. */
  datatype CacheStats = CacheStats(cachedSubreddits: nat, totalCachedImages: nat, persistentCacheSize: nat)

  /** The provider's state as a value: the three in-memory maps and the two persistent caches. */
  datatype Maps = Maps(
    imageQueues: map<string, seq<MediaItem>>,
    lastUpdated: map<string, int>,
    processedPostIds: map<string, set<int>>,
    persistentCache: map<string, seq<CachedMedia>>,
    timestampCache: map<string, int>)

  function Get<V>(m: map<string, V>, k: string): Option<V> {
    if k in m then Some(m[k]) else None
  }

  function Put<V>(m: map<string, V>, k: string, v: Option<V>): map<string, V> {
    match v
    case Some(x) => m[k := x]
    case None => m - {k}
  }

  /** One subreddit's in-memory state; a subreddit never seen has an empty queue and seen-set. */
  function EntryOf(m: Maps, k: string): Entry {
    Entry(if k in m.imageQueues then m.imageQueues[k] else [],
          if k in m.processedPostIds then m.processedPostIds[k] else {},
          Get(m.lastUpdated, k))
  }

  /** One subreddit's persisted state. */
  function StoreOf(m: Maps, k: string): Store {
    Store(Get(m.timestampCache, k), Get(m.persistentCache, k))
  }

  /** The state with subreddit `k`'s entry and store replaced, every other subreddit as it was. */
  function PutEntry(m: Maps, k: string, e: Entry, st: Store): Maps {
    Maps(m.imageQueues[k := e.queue],
         Put(m.lastUpdated, k, e.lastUpdated),
         m.processedPostIds[k := e.seen],
         Put(m.persistentCache, k, st.snapshot),
         Put(m.timestampCache, k, st.timestamp))
  }

  /** Writing back what a map already holds leaves it as it was. */
  lemma PutGet<V>(m: map<string, V>, k: string)
    ensures Put(m, k, Get(m, k)) == m
  {
  }

  /** A key reads back what was last written for it. */
  lemma PutTwice<V>(m: map<string, V>, k: string, v1: Option<V>, v2: Option<V>)
    ensures Get(Put(m, k, v1), k) == v1
    ensures Put(Put(m, k, v1), k, v2) == Put(m, k, v2)
  {
    if v2.None? {
      assert Put(Put(m, k, v1), k, v2).Keys == m.Keys - {k};
    }
  }

  /** A subreddit reads back what was written for it. */
  lemma ReadBack(m: Maps, k: string, e: Entry, st: Store)
    ensures EntryOf(PutEntry(m, k, e, st), k) == e && StoreOf(PutEntry(m, k, e, st), k) == st
  {
    PutTwice(m.lastUpdated, k, e.lastUpdated, None);
    PutTwice(m.persistentCache, k, st.snapshot, None);
    PutTwice(m.timestampCache, k, st.timestamp, None);
  }

  /** A second write for the same subreddit replaces the first. */
  lemma PutEntryTwice(m: Maps, k: string, e1: Entry, s1: Store, e2: Entry, s2: Store)
    ensures PutEntry(PutEntry(m, k, e1, s1), k, e2, s2) == PutEntry(m, k, e2, s2)
  {
    PutTwice(m.lastUpdated, k, e1.lastUpdated, e2.lastUpdated);
    PutTwice(m.persistentCache, k, s1.snapshot, s2.snapshot);
    PutTwice(m.timestampCache, k, s1.timestamp, s2.timestamp);
    var m1 := PutEntry(m, k, e1, s1);
    assert m1.imageQueues[k := e2.queue] == m.imageQueues[k := e2.queue];
    assert m1.processedPostIds[k := e2.seen] == m.processedPostIds[k := e2.seen];
  }

  /** The computeIfAbsent calls of ensureCacheReady write back the subreddit's own (possibly empty) entry. */
  lemma CreateEntry(m: Maps, k: string)
    requires k in m.imageQueues <==> k in m.processedPostIds
    ensures m.(imageQueues := if k in m.imageQueues then m.imageQueues else m.imageQueues[k := []],
               processedPostIds := if k in m.processedPostIds then m.processedPostIds else m.processedPostIds[k := {}])
         == PutEntry(m, k, EntryOf(m, k), StoreOf(m, k))
  {
    PutGet(m.lastUpdated, k);
    PutGet(m.persistentCache, k);
    PutGet(m.timestampCache, k);
    if k in m.imageQueues {
      assert m.imageQueues[k := m.imageQueues[k]] == m.imageQueues;
      assert m.processedPostIds[k := m.processedPostIds[k]] == m.processedPostIds;
    }
  }

  /** Replacing a subreddit's queue and snapshot is a write of its entry and store with those two parts changed. */
  lemma PollState(m: Maps, k: string, q: seq<MediaItem>, snapshot: seq<CachedMedia>)
    requires k in m.imageQueues && k in m.processedPostIds
    ensures m.(imageQueues := m.imageQueues[k := q], persistentCache := m.persistentCache[k := snapshot])
         == PutEntry(m, k, EntryOf(m, k).(queue := q), StoreOf(m, k).(snapshot := Some(snapshot)))
  {
    PutGet(m.lastUpdated, k);
    PutGet(m.timestampCache, k);
    assert m.processedPostIds[k := m.processedPostIds[k]] == m.processedPostIds;
  }

  /** Polling the ready queue and saving the rest is the take step on values. */
  lemma ServeState(m: Maps, k: string, now: int, refill: Refill, stillValid: CachedMedia -> bool)
    ensures var (ready, st) := Ready(EntryOf(m, k), StoreOf(m, k), now, refill, stillValid);
      var m1 := PutEntry(m, k, ready, st);
      var t := Take(EntryOf(m, k), StoreOf(m, k), now, refill, stillValid);
      && (ready.queue == [] ==> t.item.None? && PutEntry(m, k, t.entry, t.store) == m1)
      && (ready.queue != [] ==>
            t.item == Some(ready.queue[0])
            && m1.(imageQueues := m1.imageQueues[k := ready.queue[1..]],
                   persistentCache := m1.persistentCache[k := Snapshot(ready.queue[1..], now)])
               == PutEntry(m, k, t.entry, t.store))
  {
    var (ready, st) := Ready(EntryOf(m, k), StoreOf(m, k), now, refill, stillValid);
    var m1 := PutEntry(m, k, ready, st);
    ReadBack(m, k, ready, st);
    if ready.queue != [] {
      var rest := ready.queue[1..];
      PollState(m1, k, rest, Snapshot(rest, now));
      PutEntryTwice(m, k, ready, st, ready.(queue := rest), st.(snapshot := Some(Snapshot(rest, now))));
    }
  }

  /** Refresh on values is what refreshCache does to the maps: the merge of updateImageQueue, then both timestamps. */
  lemma RefreshState(m: Maps, k: string, now: int, refill: Refill)
    requires k in m.imageQueues && k in m.processedPostIds
    ensures var merged :=
        if Flatten(refill.fetched) == [] then m
        else
          var (q, s) := AddResults(m.imageQueues[k], m.processedPostIds[k], refill.shuffled);
          m.(imageQueues := m.imageQueues[k := q], processedPostIds := m.processedPostIds[k := s],
             persistentCache := m.persistentCache[k := Snapshot(q, now)]);
      var (e, st) := Refresh(EntryOf(m, k), StoreOf(m, k), now, refill);
      merged.(lastUpdated := merged.lastUpdated[k := now], timestampCache := merged.timestampCache[k := now])
        == PutEntry(m, k, e, st)
  {
    if Flatten(refill.fetched) == [] {
      assert m.imageQueues[k := m.imageQueues[k]] == m.imageQueues;
      assert m.processedPostIds[k := m.processedPostIds[k]] == m.processedPostIds;
      PutGet(m.persistentCache, k);
    }
  }

  /**
    A request served from a subreddit whose queue needs no refresh lowers the
    total_cached_images statistic by exactly one.
   */
  lemma ServingLowersTotal(m: Maps, k: string, now: int, refill: Refill, stillValid: CachedMedia -> bool)
    requires k in m.imageQueues && k in m.lastUpdated
    requires !NeedsRefresh(EntryOf(m, k), now)
    ensures var t := Take(EntryOf(m, k), StoreOf(m, k), now, refill, stillValid);
      t.item.Some? && TotalQueued(PutEntry(m, k, t.entry, t.store).imageQueues) + 1 == TotalQueued(m.imageQueues)
  {
    var e := EntryOf(m, k);
    assert Ready(e, StoreOf(m, k), now, refill, stillValid) == (e, StoreOf(m, k));
    TotalQueuedUpdate(m.imageQueues, k, e.queue[1..]);
  }

  /** The persistent cache after the queues under `keys` are saved at time `now`. */
  function SaveAll(saved: map<string, seq<CachedMedia>>, queues: map<string, seq<MediaItem>>, keys: set<string>, now: int)
    : (r: map<string, seq<CachedMedia>>)
    requires keys <= queues.Keys
    ensures r.Keys == saved.Keys + keys
    ensures forall k :: k in r ==> r[k] == if k in keys then Snapshot(queues[k], now) else saved[k]
  {
    saved + map k | k in keys :: Snapshot(queues[k], now)
  }

  /** Saving one more queue extends the saved set by that subreddit. */
  lemma SaveAllStep(saved: map<string, seq<CachedMedia>>, queues: map<string, seq<MediaItem>>, keys: set<string>, k: string, now: int)
    requires keys <= queues.Keys && k in queues
    ensures SaveAll(saved, queues, keys, now)[k := Snapshot(queues[k], now)] == SaveAll(saved, queues, keys + {k}, now)
  {
  }

  /**
    The fallback of getRandomRedditMedia: getRandomSubreddit's pick, or its
    failure wrapped as the provider's error; with the memo it leaves.
   */
  function Fallback(cache: map<string, bool>, lines: seq<string>, shuffledNames: seq<string>, about: string -> AboutReply)
    : (r: (Result<string, ProviderError>, map<string, bool>))
    ensures r.0.Success? ==> r.0.value in shuffledNames
    ensures r.0.Failure? ==> r.0.error.UncheckedError? || r.0.error.NoValidSubreddit?
    ensures var (sel, c) := SelectSubreddit(cache, lines, shuffledNames, about);
      && r.1 == c
      && (sel.Chosen? ==> r.0 == Success(sel.name))
      && (sel.NoSubreddits? || sel.NoneValid? ==> r.0 == Failure(NoValidSubreddit(sel)))
      && (sel.Aborted? ==> r.0 == Failure(UncheckedError))
  {
    var (selection, c) := SelectSubreddit(cache, lines, shuffledNames, about);
    match selection
    case Chosen(name) => (Success(name), c)
    case Aborted => (Failure(UncheckedError), c)
    case NoSubreddits => (Failure(NoValidSubreddit(selection)), c)
    case NoneValid(_) => (Failure(NoValidSubreddit(selection)), c)
  }

  /**
    What the caller learns when the fallback fails: an empty list gives the
    "no subreddits" error, and otherwise running out of candidates gives the
    "no valid subreddit" error carrying the min(10, n) attempts made.
   */
  lemma FallbackReportsAttempts(cache: map<string, bool>, lines: seq<string>, shuffledNames: seq<string>,
                                about: string -> AboutReply)
    requires multiset(shuffledNames) == multiset(TrimAll(lines))
    ensures var r := Fallback(cache, lines, shuffledNames, about).0;
      && (lines == [] ==> r == Failure(NoValidSubreddit(NoSubreddits)))
      && (lines != [] && r.Failure? && r.error.NoValidSubreddit? ==>
            r.error.cause == NoneValid(Min(MAX_ATTEMPTS, |lines|)))
  {
    SelectionOutcome(cache, lines, shuffledNames, about);
  }

  /**
    The check of the subreddit in hand: it is kept when it exists; with none in
    hand, or one that does not exist, the fallback decides. An exception of
    the existence check is passed on.
   */
  function Confirm(cache: map<string, bool>, subreddit: Option<string>, lines: seq<string>, shuffledNames: seq<string>,
                   about: string -> AboutReply): (r: (Result<string, ProviderError>, map<string, bool>))
    ensures r.0.Success? ==> subreddit == Some(r.0.value) || r.0.value in shuffledNames
    ensures r.0.Failure? ==> !r.0.error.NoImages?
  {
    match subreddit
    case None => Fallback(cache, lines, shuffledNames, about)
    case Some(name) =>
      var (check, c) := ExistsStep(cache, name, about);
      match check
      case Answer(valid) => if valid then (Success(name), c) else Fallback(c, lines, shuffledNames, about)
      case IoError => (Failure(ExistenceCheckFailed(name)), c)
      case RuntimeError => (Failure(UncheckedError), c)
  }

  /**
    The subreddit choice of getRandomRedditMedia on values, with the memo it
    leaves: with no subreddit requested but a user known, the dictionary's
    word is taken when it exists; then the subreddit in hand is confirmed.
   */
  function Choose(cache: map<string, bool>, requested: Option<string>, userId: Option<string>, dictionaryWord: Option<string>,
                  lines: seq<string>, shuffledNames: seq<string>, about: string -> AboutReply)
    : (r: (Result<string, ProviderError>, map<string, bool>))
    ensures r.0.Success? ==>
      (requested.Some? && r.0.value == requested.value)
      || (requested.None? && userId.Some? && dictionaryWord == Some(r.0.value))
      || r.0.value in shuffledNames
    ensures r.0.Failure? ==> !r.0.error.NoImages?
  {
    if requested.None? && userId.Some? && dictionaryWord.Some? then
      var (check, c) := ExistsStep(cache, dictionaryWord.value, about);
      match check
      case Answer(valid) => Confirm(c, if valid then dictionaryWord else None, lines, shuffledNames, about)
      case IoError => (Failure(ExistenceCheckFailed(dictionaryWord.value)), c)
      case RuntimeError => (Failure(UncheckedError), c)
    else Confirm(cache, requested, lines, shuffledNames, about)
  }

  /**
    With a memo that agrees with upstream, confirming is decided by upstream's
    reply: an existing subreddit is kept, a missing one (or none) is replaced
    by the fallback's pick, which exists too; an exception is passed on; and
    the memo keeps agreeing with upstream.
   */
  lemma ConfirmWithConsistentMemo(cache: map<string, bool>, subreddit: Option<string>, lines: seq<string>,
                                  shuffledNames: seq<string>, about: string -> AboutReply)
    requires Consistent(cache, about)
    ensures var (r, c) := Confirm(cache, subreddit, lines, shuffledNames, about);
      && Consistent(c, about)
      && (r.Success? ==> about(r.value) == Json(false))
      && (subreddit.None? ==> (r.Success? ==> r.value in shuffledNames) && (r, c) == Fallback(cache, lines, shuffledNames, about))
      && (subreddit.Some? ==>
            match about(subreddit.value)
            case Json(hasErrorKey) =>
              if hasErrorKey then
                (r.Success? ==> r.value in shuffledNames)
                && (r, c) == Fallback(ExistsStep(cache, subreddit.value, about).1, lines, shuffledNames, about)
              else r == Success(subreddit.value)
            case IoFailure => r == Failure(ExistenceCheckFailed(subreddit.value))
            case UncheckedFailure => r == Failure(UncheckedError))
  {
    var c := cache;
    if subreddit.Some? {
      MemoIsTransparent(cache, subreddit.value, about);
      c := ExistsStep(cache, subreddit.value, about).1;
    }
    SelectionKeepsConsistent(c, lines, shuffledNames, about);
  }

  /**
    With a memo that agrees with upstream, the choice follows upstream's
    replies: an existing requested subreddit is used; with none requested and
    a user known, an existing dictionary word is used; a missing one is
    replaced by a listed subreddit that exists; an exception of an existence
    check is passed on. Every chosen subreddit exists, and the memo keeps
    agreeing with upstream.
   */
  lemma ChooseWithConsistentMemo(cache: map<string, bool>, requested: Option<string>, userId: Option<string>,
                                 dictionaryWord: Option<string>, lines: seq<string>, shuffledNames: seq<string>,
                                 about: string -> AboutReply)
    requires Consistent(cache, about)
    ensures var (r, c) := Choose(cache, requested, userId, dictionaryWord, lines, shuffledNames, about);
      && Consistent(c, about)
      && (r.Success? ==> about(r.value) == Json(false))
      && (requested.Some? ==>
            match about(requested.value)
            case Json(hasErrorKey) =>
              if hasErrorKey then
                (r.Success? ==> r.value in shuffledNames)
                && (r, c) == Fallback(ExistsStep(cache, requested.value, about).1, lines, shuffledNames, about)
              else r == Success(requested.value)
            case IoFailure => r == Failure(ExistenceCheckFailed(requested.value))
            case UncheckedFailure => r == Failure(UncheckedError))
      && (requested.None? && userId.Some? && dictionaryWord.Some? ==>
            match about(dictionaryWord.value)
            case Json(hasErrorKey) =>
              if hasErrorKey then
                (r.Success? ==> r.value in shuffledNames)
                && (r, c) == Fallback(ExistsStep(cache, dictionaryWord.value, about).1, lines, shuffledNames, about)
              else r == Success(dictionaryWord.value)
            case IoFailure => r == Failure(ExistenceCheckFailed(dictionaryWord.value))
            case UncheckedFailure => r == Failure(UncheckedError))
      && (requested.None? && (userId.None? || dictionaryWord.None?) ==>
            (r.Success? ==> r.value in shuffledNames) && (r, c) == Fallback(cache, lines, shuffledNames, about))
  {
    if requested.None? && userId.Some? && dictionaryWord.Some? {
      var w := dictionaryWord.value;
      MemoIsTransparent(cache, w, about);
      var c := ExistsStep(cache, w, about).1;
      ConfirmWithConsistentMemo(c, if about(w) == Json(false) then dictionaryWord else None, lines, shuffledNames, about);
      if about(w) == Json(false) {
        MemoIsTransparent(c, w, about);
      }
    } else {
      ConfirmWithConsistentMemo(cache, requested, lines, shuffledNames, about);
    }
  }

  class RedditProvider {
    var imageQueues: map<string, seq<MediaItem>>
    var lastUpdated: map<string, int>
    var processedPostIds: map<string, set<int>>
    /** reddit_media_cache.json */
    var persistentCache: map<string, seq<CachedMedia>>
    /** reddit_timestamps.json */
    var timestampCache: map<string, int>
    const subredditManager: SubredditManager

    /** A subreddit has a queue exactly when it has a seen-set, and a timestamp only if it has both. */
    ghost predicate Valid()
      reads this
    {
      processedPostIds.Keys == imageQueues.Keys && lastUpdated.Keys <= imageQueues.Keys
    }

    function State(): Maps
      reads this
    {
      Maps(imageQueues, lastUpdated, processedPostIds, persistentCache, timestampCache)
    }

    /** The in-memory maps start empty; the persistent caches hold what earlier runs saved. */
    constructor(manager: SubredditManager, savedMedia: map<string, seq<CachedMedia>>, savedTimestamps: map<string, int>)
      ensures Valid() && subredditManager == manager
      ensures State() == Maps(map[], map[], map[], savedMedia, savedTimestamps)
    {
      subredditManager := manager;
      imageQueues, lastUpdated, processedPostIds := map[], map[], map[];
      persistentCache, timestampCache := savedMedia, savedTimestamps;
    }

    /**
      The part of getRandomRedditMedia after the subreddit is chosen: make its
      cache ready, poll the queue head or fail, and save the rest of the queue.
     */
    method ServeFromQueue(subreddit: string, now: int, refill: Refill, stillValid: CachedMedia -> bool)
      returns (r: Result<MediaItem, ProviderError>)
      requires Valid() && refill.Shuffles()
      modifies this
      ensures Valid()
      ensures var t := Take(EntryOf(old(State()), subreddit), StoreOf(old(State()), subreddit), now, refill, stillValid);
        && State() == PutEntry(old(State()), subreddit, t.entry, t.store)
        && r == (if t.item.Some? then Success(t.item.value) else Failure(NoImages(subreddit)))
    {
      ghost var m0 := State();
      ghost var t := Take(EntryOf(m0, subreddit), StoreOf(m0, subreddit), now, refill, stillValid);
      EnsureCacheReady(subreddit, now, refill, stillValid);
      ghost var ready := Ready(EntryOf(m0, subreddit), StoreOf(m0, subreddit), now, refill, stillValid);
      ghost var m1 := State();
      ReadBack(m0, subreddit, ready.0, ready.1);
      ServeState(m0, subreddit, now, refill, stillValid);
      var queue := imageQueues[subreddit];
      assert queue == ready.0.queue;
      if queue == [] {
        assert State() == PutEntry(m0, subreddit, t.entry, t.store);
        return Failure(NoImages(subreddit));
      }
      var result := queue[0];
      imageQueues := imageQueues[subreddit := queue[1..]];
      SaveToPersistentCache(subreddit, queue[1..], now);
      assert State() == m1.(imageQueues := m1.imageQueues[subreddit := queue[1..]],
                            persistentCache := m1.persistentCache[subreddit := Snapshot(queue[1..], now)]);
      return Success(result);
    }

    /**
      getRandomRedditMedia: choose the subreddit, then serve from its queue. A
      failed choice changes no cache; a successful one is served by the take
      step. The memo ends as the choice leaves it.
     */
    method GetRandomRedditMedia(requested: Option<string>, userId: Option<string>, dictionaryWord: Option<string>,
                                lines: seq<string>, shuffledNames: seq<string>, about: string -> AboutReply,
                                now: int, refill: Refill, stillValid: CachedMedia -> bool)
      returns (r: Result<MediaItem, ProviderError>)
      requires Valid() && refill.Shuffles()
      requires multiset(shuffledNames) == multiset(TrimAll(lines))
      modifies this, subredditManager
      ensures Valid()
      ensures var (choice, memo) := Choose(old(subredditManager.existsCache), requested, userId, dictionaryWord,
                                           lines, shuffledNames, about);
        && subredditManager.existsCache == memo
        && (choice.Failure? ==> r == Failure(choice.error) && State() == old(State()))
        && (choice.Success? ==>
              var t := Take(EntryOf(old(State()), choice.value), StoreOf(old(State()), choice.value), now, refill, stillValid);
              && State() == PutEntry(old(State()), choice.value, t.entry, t.store)
              && r == (if t.item.Some? then Success(t.item.value) else Failure(NoImages(choice.value))))
    {
      var subreddit := ResolveSubreddit(requested, userId, dictionaryWord, lines, shuffledNames, about);
      if subreddit.Failure? {
        return Failure(subreddit.error);
      }
      r := ServeFromQueue(subreddit.value, now, refill, stillValid);
    }

    /**
      The subreddit choice of getRandomRedditMedia, performed with the
      manager's memo; `Choose` states its outcome and the memo it leaves.
     */
    method ResolveSubreddit(requested: Option<string>, userId: Option<string>, dictionaryWord: Option<string>,
                            lines: seq<string>, shuffledNames: seq<string>, about: string -> AboutReply)
      returns (r: Result<string, ProviderError>)
      requires multiset(shuffledNames) == multiset(TrimAll(lines))
      modifies subredditManager
      ensures (r, subredditManager.existsCache)
        == Choose(old(subredditManager.existsCache), requested, userId, dictionaryWord, lines, shuffledNames, about)
    {
      var subreddit := requested;
      if requested.None? && userId.Some? && dictionaryWord.Some? {
        var check := subredditManager.DoesSubredditExist(dictionaryWord.value, about);
        match check {
          case Answer(valid) =>
            if valid {
              subreddit := dictionaryWord;
            }
          case IoError =>
            return Failure(ExistenceCheckFailed(dictionaryWord.value));
          case RuntimeError =>
            return Failure(UncheckedError);
        }
      }
      var needsFallback := subreddit.None?;
      if subreddit.Some? {
        var check := subredditManager.DoesSubredditExist(subreddit.value, about);
        match check {
          case Answer(valid) =>
            needsFallback := !valid;
          case IoError =>
            return Failure(ExistenceCheckFailed(subreddit.value));
          case RuntimeError =>
            return Failure(UncheckedError);
        }
      }
      if !needsFallback {
        return Success(subreddit.value);
      }
      var selection := subredditManager.GetRandomSubreddit(lines, shuffledNames, about);
      match selection {
        case Chosen(name) =>
          return Success(name);
        case Aborted =>
          return Failure(UncheckedError);
        case NoSubreddits =>
          return Failure(NoValidSubreddit(selection));
        case NoneValid(_) =>
          return Failure(NoValidSubreddit(selection));
      }
    }

    /** ensureCacheReady. */
    method EnsureCacheReady(subreddit: string, now: int, refill: Refill, stillValid: CachedMedia -> bool)
      requires Valid() && refill.Shuffles()
      modifies this
      ensures Valid() && subreddit in imageQueues
      ensures var (e, st) := Ready(EntryOf(old(State()), subreddit), StoreOf(old(State()), subreddit), now, refill, stillValid);
        State() == PutEntry(old(State()), subreddit, e, st)
    {
      ghost var m0 := State();
      ghost var e0, st0 := EntryOf(m0, subreddit), StoreOf(m0, subreddit);
      if subreddit !in imageQueues {
        imageQueues := imageQueues[subreddit := []];
      }
      if subreddit !in processedPostIds {
        processedPostIds := processedPostIds[subreddit := {}];
      }
      CreateEntry(m0, subreddit);
      ReadBack(m0, subreddit, e0, st0);
      assert State() == PutEntry(m0, subreddit, e0, st0);
      ghost var loaded := if e0.lastUpdated.None? then Load(e0, st0, stillValid) else e0;
      if subreddit !in lastUpdated {
        assert e0.lastUpdated.None?;
        LoadFromPersistentCache(subreddit, stillValid);
        PutEntryTwice(m0, subreddit, e0, st0, loaded, st0);
      }
      assert State() == PutEntry(m0, subreddit, loaded, st0);
      ReadBack(m0, subreddit, loaded, st0);
      assert EntryOf(State(), subreddit) == loaded;
      var imageQueue := imageQueues[subreddit];
      var lastUpdateTime := if subreddit in lastUpdated then lastUpdated[subreddit] else 0;
      assert imageQueue == loaded.queue && lastUpdateTime == loaded.lastUpdated.GetOr(0);
      var needsRefresh := |imageQueue| < MIN_QUEUE_SIZE || now - lastUpdateTime > CACHE_EXPIRATION_TIME;
      assert needsRefresh == NeedsRefresh(loaded, now);
      if needsRefresh {
        RefreshCache(subreddit, now, refill);
        var (e1, st1) := Refresh(loaded, st0, now, refill);
        PutEntryTwice(m0, subreddit, loaded, st0, e1, st1);
      }
    }

    /** loadFromPersistentCache. */
    method LoadFromPersistentCache(subreddit: string, stillValid: CachedMedia -> bool)
      requires Valid() && subreddit in imageQueues
      modifies this
      ensures Valid()
      ensures State() == PutEntry(old(State()), subreddit,
                                  Load(EntryOf(old(State()), subreddit), StoreOf(old(State()), subreddit), stillValid),
                                  StoreOf(old(State()), subreddit))
    {
      ghost var m0 := State();
      ghost var loaded := Load(EntryOf(m0, subreddit), StoreOf(m0, subreddit), stillValid);
      if subreddit in timestampCache {
        lastUpdated := lastUpdated[subreddit := timestampCache[subreddit]];
        if subreddit in persistentCache && persistentCache[subreddit] != [] {
          var queue := imageQueues[subreddit];
          imageQueues := imageQueues[subreddit := queue + Restore(persistentCache[subreddit], stillValid)];
        } else {
          assert loaded.queue == imageQueues[subreddit] + [] == imageQueues[subreddit];
        }
      } else {
        lastUpdated := lastUpdated[subreddit := 0];
      }
      assert imageQueues == m0.imageQueues[subreddit := loaded.queue];
      assert processedPostIds == m0.processedPostIds[subreddit := loaded.seen];
      PutGet(persistentCache, subreddit);
      PutGet(timestampCache, subreddit);
    }

    /** refreshCache. */
    method RefreshCache(subreddit: string, now: int, refill: Refill)
      requires Valid() && subreddit in imageQueues && refill.Shuffles()
      modifies this
      ensures Valid()
      ensures var (e, st) := Refresh(EntryOf(old(State()), subreddit), StoreOf(old(State()), subreddit), now, refill);
        State() == PutEntry(old(State()), subreddit, e, st)
    {
      UpdateImageQueue(subreddit, now, refill);
      lastUpdated := lastUpdated[subreddit := now];
      timestampCache := timestampCache[subreddit := now];
      RefreshState(old(State()), subreddit, now, refill);
    }

    /** The part of updateImageQueue after the fetches: flatten, give up on nothing, else merge the shuffled results. */
    method UpdateImageQueue(subreddit: string, now: int, refill: Refill)
      requires Valid() && subreddit in imageQueues && refill.Shuffles()
      modifies this
      ensures Valid()
      ensures Flatten(refill.fetched) == [] ==> State() == old(State())
      ensures Flatten(refill.fetched) != [] ==>
        var (q, s) := AddResults(old(imageQueues[subreddit]), old(processedPostIds[subreddit]), refill.shuffled);
        State() == old(State()).(imageQueues := old(imageQueues)[subreddit := q],
                                 processedPostIds := old(processedPostIds)[subreddit := s],
                                 persistentCache := old(persistentCache)[subreddit := Snapshot(q, now)])
    {
      var allNewResults := Flatten(refill.fetched);
      if allNewResults == [] {
        return;
      }
      var shuffledResults := refill.shuffled;
      AddResultsToQueue(subreddit, shuffledResults, now);
    }

    /** addResultsToQueue. */
    method AddResultsToQueue(subreddit: string, results: seq<MediaItem>, now: int)
      requires Valid() && subreddit in imageQueues
      modifies this
      ensures Valid()
      ensures var (q, s) := AddResults(old(imageQueues[subreddit]), old(processedPostIds[subreddit]), results);
        State() == old(State()).(imageQueues := old(imageQueues)[subreddit := q],
                                 processedPostIds := old(processedPostIds)[subreddit := s],
                                 persistentCache := old(persistentCache)[subreddit := Snapshot(q, now)])
    {
      var queue := imageQueues[subreddit];
      var processedIds := processedPostIds[subreddit];
      var i := 0;
      while i < |results|
        invariant 0 <= i <= |results|
        invariant MergeLoop(queue, processedIds, results[i..])
               == MergeLoop(old(imageQueues[subreddit]), old(processedPostIds[subreddit]), results)
      {
        if |queue| >= MAX_RESULTS_PER_SUBREDDIT {
          break;
        }
        var resultId := ResultId(results[i]);
        if resultId !in processedIds {
          queue := queue + [results[i]];
          processedIds := processedIds + {resultId};
        }
        i := i + 1;
      }
      if |processedIds| > MAX_RESULTS_PER_SUBREDDIT * 2 {
        processedIds := {};
      }
      imageQueues := imageQueues[subreddit := queue];
      processedPostIds := processedPostIds[subreddit := processedIds];
      SaveToPersistentCache(subreddit, queue, now);
    }

    /** saveToPersistentCache. */
    method SaveToPersistentCache(subreddit: string, queue: seq<MediaItem>, now: int)
      modifies this
      ensures State() == old(State()).(persistentCache := old(persistentCache)[subreddit := Snapshot(queue, now)])
    {
      persistentCache := persistentCache[subreddit := Snapshot(queue, now)];
    }

    /** cleanup: save every queue, then empty the in-memory maps. */
    method Cleanup(now: int)
      modifies this
      ensures Valid()
      ensures imageQueues == map[] && lastUpdated == map[] && processedPostIds == map[]
      ensures persistentCache == SaveAll(old(persistentCache), old(imageQueues), old(imageQueues).Keys, now)
      ensures timestampCache == old(timestampCache)
    {
      var keys := imageQueues.Keys;
      while keys != {}
        invariant keys <= imageQueues.Keys
        invariant imageQueues == old(imageQueues) && timestampCache == old(timestampCache)
        invariant persistentCache == SaveAll(old(persistentCache), imageQueues, imageQueues.Keys - keys, now)
        decreases keys
      {
        var k :| k in keys;
        SaveAllStep(old(persistentCache), imageQueues, imageQueues.Keys - keys, k, now);
        SaveToPersistentCache(k, imageQueues[k], now);
        assert imageQueues.Keys - (keys - {k}) == (imageQueues.Keys - keys) + {k};
        keys := keys - {k};
      }
      assert imageQueues.Keys - keys == imageQueues.Keys;
      imageQueues := map[];
      lastUpdated := map[];
      processedPostIds := map[];
    }

    /** getCacheStats. */
    method GetCacheStats() returns (stats: CacheStats)
      ensures stats == CacheStats(|imageQueues|, TotalQueued(imageQueues), |persistentCache|)
    {
      var total := 0;
      var keys := imageQueues.Keys;
      while keys != {}
        invariant keys <= imageQueues.Keys
        invariant total + SumSizes(imageQueues, keys) == TotalQueued(imageQueues)
        decreases keys
      {
        var k :| k in keys;
        SumSizesAt(imageQueues, keys, k);
        total := total + |imageQueues[k]|;
        keys := keys - {k};
      }
      stats := CacheStats(|imageQueues|, total, |persistentCache|);
    }
  }
}
