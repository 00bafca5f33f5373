/**
  SubredditManager: the memo of which subreddits exist, and the fallback that
  draws a valid subreddit from the bundled list.

  The upstream about-page request is an oracle `about`: for a subreddit name
  it gives the parsed reply, or the kind of exception the request raised.
 */
module Subreddits {
  import opened JavaStrings

  /** Above this many entries the existence memo is cleared. */
  const MAX_EXISTS_ENTRIES: nat := 1000
  /** At most this many candidates are checked by the fallback. */
  const MAX_ATTEMPTS: nat := 10

  /** What the request for `/r/<name>/about` gives. */
  datatype AboutReply =
    | Json(hasErrorKey: bool)   // the body parsed; whether it has an "error" key
    | IoFailure                 // an IOException (token request, reading the body)
    | UncheckedFailure          // a runtime exception (failed request surfacing from join, body that is not JSON)

  /** The outcome of doesSubredditExist: an answer, or the exception it let escape. */
  datatype Check = Answer(valid: bool) | IoError | RuntimeError

  /** What the upstream reply alone says, with no memo in between. */
  function Verdict(reply: AboutReply): Check {
    match reply
    case Json(hasErrorKey) => Answer(!hasErrorKey)
    case IoFailure => IoError
    case UncheckedFailure => RuntimeError
  }

  /**
    doesSubredditExist on values: a memo hit answers from the memo; a miss asks
    upstream, stores the answer, and clears the whole memo when it then holds
    more than MAX_EXISTS_ENTRIES entries. A failed request stores nothing.
   */
  function ExistsStep(cache: map<string, bool>, name: string, about: string -> AboutReply): (r: (Check, map<string, bool>))
    ensures !r.0.Answer? ==> r.1 == cache
    ensures r.0.Answer? && name in r.1 ==> r.1[name] == r.0.valid
  {
    if name in cache then (Answer(cache[name]), cache)
    else
      match about(name)
      case IoFailure => (IoError, cache)
      case UncheckedFailure => (RuntimeError, cache)
      case Json(hasErrorKey) =>
        var c := cache[name := !hasErrorKey];
        (Answer(!hasErrorKey), if |c| > MAX_EXISTS_ENTRIES then map[] else c)
  }

  /**
    The memo step for any memo, agreeing with upstream or not: a name in the
    memo is answered from it and nothing changes; a miss is answered by
    upstream, and an answered miss adds exactly that name, keeping every other
    entry, unless the memo already held MAX_EXISTS_ENTRIES entries, in which
    case it ends empty.
   */
  lemma MemoKeepsOtherEntries(cache: map<string, bool>, name: string, about: string -> AboutReply)
    ensures name in cache ==> ExistsStep(cache, name, about) == (Answer(cache[name]), cache)
    ensures name !in cache ==> ExistsStep(cache, name, about).0 == Verdict(about(name))
    ensures var c := ExistsStep(cache, name, about).1;
      name !in cache && about(name).Json? ==>
        (c == map[] <==> |cache| >= MAX_EXISTS_ENTRIES)
        && (|cache| < MAX_EXISTS_ENTRIES ==>
              c.Keys == cache.Keys + {name} && forall k :: k in cache ==> c[k] == cache[k])
  {
    if name !in cache && about(name).Json? {
      var c := cache[name := !about(name).hasErrorKey];
      assert c.Keys == cache.Keys + {name};
      assert |c| == |cache| + 1;
      assert name in c;
    }
  }

  /**
    Asking about A, then about another name B, then about A again: when the
    memo had room for both, the third question is a memo hit with the first
    answer, so upstream is asked about A only once.
   */
  lemma {:induction false} MemoHitAfterOtherQuestion(cache: map<string, bool>, a: string, b: string, about: string -> AboutReply)
    requires |cache| + 2 <= MAX_EXISTS_ENTRIES
    ensures var (r1, c1) := ExistsStep(cache, a, about);
      var (_, c2) := ExistsStep(c1, b, about);
      r1.Answer? ==> ExistsStep(c2, a, about) == (r1, c2)
  {
    var (r1, c1) := ExistsStep(cache, a, about);
    MemoKeepsOtherEntries(cache, a, about);
    if r1.Answer? {
      assert a in c1 && c1[a] == r1.valid && |c1| <= |cache| + 1 by {
        if a !in cache {
          assert c1.Keys == cache.Keys + {a};
        }
      }
      MemoKeepsOtherEntries(c1, b, about);
      var c2 := ExistsStep(c1, b, about).1;
      assert a in c2 && c2[a] == c1[a];
      MemoKeepsOtherEntries(c2, a, about);
    }
  }

  /** Every memo entry is what upstream answers for that name. */
  ghost predicate Consistent(cache: map<string, bool>, about: string -> AboutReply) {
    forall k :: k in cache ==> about(k).Json? && cache[k] == !about(k).hasErrorKey
  }

  /** A memo that agrees with upstream is invisible: the answer is upstream's, and the memo keeps agreeing. */
  lemma MemoIsTransparent(cache: map<string, bool>, name: string, about: string -> AboutReply)
    requires Consistent(cache, about)
    ensures ExistsStep(cache, name, about).0 == Verdict(about(name))
    ensures Consistent(ExistsStep(cache, name, about).1, about)
  {
    if name !in cache && about(name).Json? {
      var c := cache[name := !about(name).hasErrorKey];
      assert forall k :: k in c ==> k == name || k in cache;
    }
  }

  /**
    After a call that produced an answer, the same call again is a memo hit
    giving the same answer (so it does not reach upstream), unless the first
    call cleared the memo.
   */
  lemma RepeatIsMemoHit(cache: map<string, bool>, name: string, about: string -> AboutReply)
    ensures var (r1, c1) := ExistsStep(cache, name, about);
      r1.Answer? ==> (name in c1 && ExistsStep(c1, name, about) == (r1, c1)) || c1 == map[]
  {
  }

  /**
    The memo never holds more than MAX_EXISTS_ENTRIES entries after a call that
    started within the bound; the insert that would overflow it empties it,
    losing the new entry too, and the fresh answer is still returned.
   */
  lemma MemoBounded(cache: map<string, bool>, name: string, about: string -> AboutReply)
    requires |cache| <= MAX_EXISTS_ENTRIES
    ensures |ExistsStep(cache, name, about).1| <= MAX_EXISTS_ENTRIES
    ensures name !in cache && about(name).Json? && |cache| == MAX_EXISTS_ENTRIES ==>
      ExistsStep(cache, name, about) == (Answer(!about(name).hasErrorKey), map[])
  {
    if name !in cache && about(name).Json? {
      var c := cache[name := !about(name).hasErrorKey];
      assert c.Keys == cache.Keys + {name};
      assert |c| == |cache| + 1;
    }
  }

  /** The outcome of getRandomSubreddit. */
  datatype Selection =
    | Chosen(name: string)       // the first candidate found to exist
    | NoSubreddits               // "No subreddits available in the list."
    | NoneValid(attempts: nat)   // "No valid subreddits found after <attempts> attempts."
    | Aborted                    // a runtime exception escaped the loop

  /**
    The attempt loop of getRandomSubreddit, from `attempts` attempts already
    made: stop at `maxAttempts`, return the first candidate that exists, go on
    past a candidate that does not exist or whose check threw an IOException.
   */
  function TryCandidates(cache: map<string, bool>, candidates: seq<string>, attempts: nat, maxAttempts: nat,
                         about: string -> AboutReply): (r: (Selection, map<string, bool>))
    ensures !r.0.NoSubreddits?
    ensures r.0.Chosen? ==> r.0.name in candidates
    ensures r.0.NoneValid? ==> attempts <= r.0.attempts <= attempts + |candidates|
    decreases |candidates|
  {
    if candidates == [] || attempts >= maxAttempts then (NoneValid(attempts), cache)
    else
      var (check, cache') := ExistsStep(cache, candidates[0], about);
      match check
      case Answer(valid) =>
        if valid then (Chosen(candidates[0]), cache')
        else TryCandidates(cache', candidates[1..], attempts + 1, maxAttempts, about)
      case IoError => TryCandidates(cache', candidates[1..], attempts + 1, maxAttempts, about)
      case RuntimeError => (Aborted, cache')
  }

  /** The lines of the bundled list, each trimmed. */
  function TrimAll(lines: seq<string>): seq<string> {
    seq(|lines|, k requires 0 <= k < |lines| => Trim(lines[k]))
  }

  function Min(a: nat, b: nat): nat {
    if a < b then a else b
  }

  /**
    getRandomSubreddit on values: fail on an empty list, otherwise try the
    shuffled candidates with a budget of min(10, list size).
   */
  function SelectSubreddit(cache: map<string, bool>, lines: seq<string>, shuffled: seq<string>,
                           about: string -> AboutReply): (r: (Selection, map<string, bool>))
    ensures r.0.NoSubreddits? ==> r.1 == cache
    ensures r.0.Chosen? ==> r.0.name in shuffled
  {
    var subreddits := TrimAll(lines);
    if subreddits == [] then (NoSubreddits, cache)
    else TryCandidates(cache, shuffled, 0, Min(MAX_ATTEMPTS, |subreddits|), about)
  }

  /** A check that lets the loop go on: the subreddit does not exist, or the request threw an IOException. */
  predicate Skippable(reply: AboutReply) {
    reply == Json(true) || reply == IoFailure
  }

  /** The loop reaches candidate `j`: it is within the budget and every candidate before it was skippable. */
  predicate ReachedAt(candidates: seq<string>, attempts: nat, maxAttempts: nat, about: string -> AboutReply, j: int) {
    0 <= j < |candidates| && attempts + j < maxAttempts
    && forall i :: 0 <= i < j ==> Skippable(about(candidates[i]))
  }

  /** When the list has enough candidates, giving up means the whole budget was spent. */
  lemma {:induction false} ExhaustedSpendsBudget(cache: map<string, bool>, candidates: seq<string>, attempts: nat,
                                                 maxAttempts: nat, about: string -> AboutReply)
    requires attempts <= maxAttempts <= attempts + |candidates|
    ensures var (r, _) := TryCandidates(cache, candidates, attempts, maxAttempts, about);
      r.NoneValid? ==> r.attempts == maxAttempts
    decreases |candidates|
  {
    if candidates != [] && attempts < maxAttempts {
      var (check, cache') := ExistsStep(cache, candidates[0], about);
      ExhaustedSpendsBudget(cache', candidates[1..], attempts + 1, maxAttempts, about);
    }
  }

  /** The chosen subreddit is one of the candidates within the budget. */
  lemma {:induction false} ChosenWithinBudget(cache: map<string, bool>, candidates: seq<string>, attempts: nat,
                                              maxAttempts: nat, about: string -> AboutReply)
    ensures var (r, _) := TryCandidates(cache, candidates, attempts, maxAttempts, about);
      r.Chosen? ==> exists j :: 0 <= j < |candidates| && attempts + j < maxAttempts && candidates[j] == r.name
    decreases |candidates|
  {
    if candidates != [] && attempts < maxAttempts {
      var (check, cache') := ExistsStep(cache, candidates[0], about);
      var (r, _) := TryCandidates(cache, candidates, attempts, maxAttempts, about);
      if r.Chosen? && r.name != candidates[0] {
        ChosenWithinBudget(cache', candidates[1..], attempts + 1, maxAttempts, about);
        var j :| 0 <= j < |candidates[1..]| && attempts + 1 + j < maxAttempts && candidates[1..][j] == r.name;
        assert candidates[j + 1] == r.name;
      }
    }
  }

  /**
    With a memo that agrees with upstream, the loop's outcome is decided by the
    replies alone: it picks the first candidate in the budget that exists, all
    earlier ones being skippable; it gives up only when every candidate in the
    budget is skippable; it aborts only at a runtime exception after skippable
    candidates.
   */
  lemma {:induction false} FirstValidCandidate(cache: map<string, bool>, candidates: seq<string>, attempts: nat,
                                               maxAttempts: nat, about: string -> AboutReply)
    requires Consistent(cache, about)
    ensures var (r, _) := TryCandidates(cache, candidates, attempts, maxAttempts, about);
      && (r.Chosen? ==> exists j :: ReachedAt(candidates, attempts, maxAttempts, about, j)
                                 && candidates[j] == r.name && about(r.name) == Json(false))
      && (r.NoneValid? ==> forall i :: 0 <= i < |candidates| && attempts + i < maxAttempts ==> Skippable(about(candidates[i])))
      && (r.Aborted? ==> exists j :: ReachedAt(candidates, attempts, maxAttempts, about, j)
                                  && about(candidates[j]) == UncheckedFailure)
    decreases |candidates|
  {
    var (r, _) := TryCandidates(cache, candidates, attempts, maxAttempts, about);
    if candidates != [] && attempts < maxAttempts {
      var c := candidates[0];
      MemoIsTransparent(cache, c, about);
      var (check, cache') := ExistsStep(cache, c, about);
      assert check == Verdict(about(c));
      if Skippable(about(c)) {
        assert r == TryCandidates(cache', candidates[1..], attempts + 1, maxAttempts, about).0;
        FirstValidCandidate(cache', candidates[1..], attempts + 1, maxAttempts, about);
        var tail := candidates[1..];
        assert forall i :: 1 <= i < |candidates| ==> candidates[i] == tail[i - 1];
        if r.Chosen? {
          var j :| ReachedAt(tail, attempts + 1, maxAttempts, about, j) && tail[j] == r.name && about(r.name) == Json(false);
          assert ReachedAt(candidates, attempts, maxAttempts, about, j + 1);
        } else if r.Aborted? {
          var j :| ReachedAt(tail, attempts + 1, maxAttempts, about, j) && about(tail[j]) == UncheckedFailure;
          assert ReachedAt(candidates, attempts, maxAttempts, about, j + 1);
        }
      } else {
        assert r == (if about(c).Json? then Chosen(c) else Aborted);
        assert ReachedAt(candidates, attempts, maxAttempts, about, 0);
      }
    }
  }

  /**
    The whole of getRandomSubreddit: an empty list fails before any check and
    leaves the memo alone; giving up reports min(10, list size) attempts; a
    chosen subreddit is among the first min(10, list size) shuffled candidates.
   */
  lemma SelectionOutcome(cache: map<string, bool>, lines: seq<string>, shuffled: seq<string>, about: string -> AboutReply)
    requires multiset(shuffled) == multiset(TrimAll(lines))
    ensures var (r, c) := SelectSubreddit(cache, lines, shuffled, about);
      && (r.NoSubreddits? <==> lines == [])
      && (r.NoSubreddits? ==> c == cache)
      && (r.NoneValid? ==> r.attempts == Min(MAX_ATTEMPTS, |lines|))
      && (r.Chosen? ==> exists j :: 0 <= j < |shuffled| && j < Min(MAX_ATTEMPTS, |lines|) && shuffled[j] == r.name)
  {
    var subreddits := TrimAll(lines);
    assert |shuffled| == |multiset(shuffled)| == |subreddits| == |lines|;
    if subreddits != [] {
      ExhaustedSpendsBudget(cache, shuffled, 0, Min(MAX_ATTEMPTS, |lines|), about);
      ChosenWithinBudget(cache, shuffled, 0, Min(MAX_ATTEMPTS, |lines|), about);
    }
  }

  /** The attempt loop keeps a memo that agrees with upstream in agreement. */
  lemma {:induction false} TryKeepsConsistent(cache: map<string, bool>, candidates: seq<string>, attempts: nat,
                                              maxAttempts: nat, about: string -> AboutReply)
    requires Consistent(cache, about)
    ensures Consistent(TryCandidates(cache, candidates, attempts, maxAttempts, about).1, about)
    decreases |candidates|
  {
    if candidates != [] && attempts < maxAttempts {
      MemoIsTransparent(cache, candidates[0], about);
      TryKeepsConsistent(ExistsStep(cache, candidates[0], about).1, candidates[1..], attempts + 1, maxAttempts, about);
    }
  }

  /**
    With a memo that agrees with upstream, the subreddit getRandomSubreddit
    picks exists upstream, and the memo it leaves still agrees with upstream.
   */
  lemma SelectionKeepsConsistent(cache: map<string, bool>, lines: seq<string>, shuffled: seq<string>, about: string -> AboutReply)
    requires Consistent(cache, about)
    ensures var (r, c) := SelectSubreddit(cache, lines, shuffled, about);
      Consistent(c, about) && (r.Chosen? ==> about(r.name) == Json(false))
  {
    if TrimAll(lines) != [] {
      FirstValidCandidate(cache, shuffled, 0, Min(MAX_ATTEMPTS, |TrimAll(lines)|), about);
      TryKeepsConsistent(cache, shuffled, 0, Min(MAX_ATTEMPTS, |TrimAll(lines)|), about);
    }
  }

  class SubredditManager {
    /** SUBREDDIT_EXISTS_CACHE: subreddit name to whether it exists, persisted across runs. */
    var existsCache: map<string, bool>

    constructor(persisted: map<string, bool>)
      ensures existsCache == persisted
    {
      existsCache := persisted;
    }

    /** doesSubredditExist. */
    method DoesSubredditExist(subreddit: string, about: string -> AboutReply) returns (r: Check)
      modifies this
      ensures (r, existsCache) == ExistsStep(old(existsCache), subreddit, about)
    {
      if subreddit in existsCache {
        return Answer(existsCache[subreddit]);
      }
      match about(subreddit) {
        case IoFailure =>
          return IoError;
        case UncheckedFailure =>
          return RuntimeError;
        case Json(hasErrorKey) =>
          var doesExist := !hasErrorKey;
          existsCache := existsCache[subreddit := doesExist];
          if |existsCache| > MAX_EXISTS_ENTRIES {
            existsCache := map[];
          }
          return Answer(doesExist);
      }
    }

    /**
      getRandomSubreddit: `lines` are the lines of the bundled subreddits.txt;
      `shuffled` is the order Collections.shuffle put the trimmed names in.
     */
    method GetRandomSubreddit(lines: seq<string>, shuffled: seq<string>, about: string -> AboutReply) returns (r: Selection)
      requires multiset(shuffled) == multiset(TrimAll(lines))
      modifies this
      ensures (r, existsCache) == SelectSubreddit(old(existsCache), lines, shuffled, about)
    {
      var subreddits: seq<string> := [];
      for i := 0 to |lines|
        invariant |subreddits| == i
        invariant forall k :: 0 <= k < i ==> subreddits[k] == Trim(lines[k])
      {
        subreddits := subreddits + [Trim(lines[i])];
      }
      assert subreddits == TrimAll(lines);
      if subreddits == [] {
        return NoSubreddits;
      }
      var attempts := 0;
      var maxAttempts := Min(MAX_ATTEMPTS, |subreddits|);
      var i := 0;
      while i < |shuffled|
        invariant 0 <= i <= |shuffled| && attempts == i
        invariant TryCandidates(existsCache, shuffled[i..], attempts, maxAttempts, about)
               == TryCandidates(old(existsCache), shuffled, 0, maxAttempts, about)
      {
        if attempts >= maxAttempts {
          break;
        }
        attempts := attempts + 1;
        var check := DoesSubredditExist(shuffled[i], about);
        match check {
          case Answer(valid) =>
            if valid {
              return Chosen(shuffled[i]);
            }
          case IoError =>
          case RuntimeError =>
            return Aborted;
        }
        i := i + 1;
      }
      return NoneValid(attempts);
    }
  }
}
