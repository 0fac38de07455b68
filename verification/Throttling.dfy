/** The multi-rate sliding-window throttle: pruned histories in an expiring cache decide as the full log would. */
module Throttling {
  /** At most `limit` requests in any window of length `duration` (in seconds). */
  datatype Rate = Rate(limit: nat, duration: real)

  // ---------------------------------------------------------------------------------------------------------------
  // The specification: a log of all admissions, newest first
  // ---------------------------------------------------------------------------------------------------------------

  ghost predicate NewestFirst(log: seq<real>) {
    forall i, j :: 0 <= i < j < |log| ==> log[i] >= log[j]
  }

  /** The admissions after `since`. */
  function Newer(log: seq<real>, since: real): (r: seq<real>)
    ensures |r| <= |log|
  {
    if log == [] then [] else (if log[0] > since then [log[0]] else []) + Newer(log[1..], since)
  }

  /** Every rate has room for one more request now. */
  ghost predicate Admits(rates: seq<Rate>, log: seq<real>, now: real) {
    forall r :: r in rates ==> |Newer(log, now - r.duration)| < r.limit
  }

  ghost function LogAfter(rates: seq<Rate>, log: seq<real>, now: real): seq<real> {
    if Admits(rates, log, now) then [now] + log else log
  }

  /** The admissions of a run of requests, given by their arrival times. */
  ghost function Run(rates: seq<Rate>, times: seq<real>): seq<real> {
    if times == [] then [] else LogAfter(rates, Run(rates, times[..|times|-1]), times[|times|-1])
  }

  /** How many admissions fall into the window after `lo` and up to `hi`, or, if `closedBelow`, from `lo` to before `hi`. */
  function InWindow(log: seq<real>, lo: real, hi: real, closedBelow: bool): nat {
    if log == [] then 0
    else (if (if closedBelow then lo <= log[0] < hi else lo < log[0] <= hi) then 1 else 0)
         + InWindow(log[1..], lo, hi, closedBelow)
  }

  /** Where in the log the admissions in the window are. */
  ghost function Places(log: seq<real>, lo: real, hi: real, closedBelow: bool): set<int> {
    set i | 0 <= i < |log| && (if closedBelow then lo <= log[i] < hi else lo < log[i] <= hi)
  }

  lemma {:induction false} InWindowLast(log: seq<real>, x: real, lo: real, hi: real, closedBelow: bool)
    ensures InWindow(log + [x], lo, hi, closedBelow)
         == InWindow(log, lo, hi, closedBelow) + InWindow([x], lo, hi, closedBelow)
  {
    if log == [] {
      assert log + [x] == [x];
    } else {
      assert (log + [x])[1..] == log[1..] + [x];
      InWindowLast(log[1..], x, lo, hi, closedBelow);
    }
  }

  lemma {:induction false} InWindowCounts(log: seq<real>, lo: real, hi: real, closedBelow: bool)
    ensures InWindow(log, lo, hi, closedBelow) == |Places(log, lo, hi, closedBelow)|
  {
    if log == [] {
      assert Places(log, lo, hi, closedBelow) == {};
    } else {
      var init, n := log[..|log|-1], |log| - 1;
      InWindowCounts(init, lo, hi, closedBelow);
      assert log == init + [log[n]];
      InWindowLast(init, log[n], lo, hi, closedBelow);
      assert Places(log, lo, hi, closedBelow)
          == Places(init, lo, hi, closedBelow) + if InWindow([log[n]], lo, hi, closedBelow) == 1 then {n} else {};
    }
  }

  // ---------------------------------------------------------------------------------------------------------------
  // The rates hold in every window
  // ---------------------------------------------------------------------------------------------------------------

  /** Each admission was admitted by the log before it. */
  ghost predicate Earned(rates: seq<Rate>, log: seq<real>) {
    log != [] ==> Admits(rates, log[1..], log[0]) && Earned(rates, log[1..])
  }

  lemma {:induction false} WindowIsRecent(log: seq<real>, lo: real, hi: real, closedBelow: bool, since: real)
    requires since < lo || (since == lo && !closedBelow)
    ensures InWindow(log, lo, hi, closedBelow) <= |Newer(log, since)|
  {
    if log != [] {
      WindowIsRecent(log[1..], lo, hi, closedBelow, since);
    }
  }

  lemma {:induction false} WindowBound(rates: seq<Rate>, log: seq<real>, r: Rate, lo: real, closedBelow: bool)
    requires r in rates && Earned(rates, log) && NewestFirst(log)
    ensures InWindow(log, lo, lo + r.duration, closedBelow) <= r.limit
  {
    if log != [] {
      var newest, hi := log[0], lo + r.duration;
      if if closedBelow then lo <= newest < hi else lo < newest <= hi {
        WindowIsRecent(log[1..], lo, hi, closedBelow, newest - r.duration);
      } else {
        WindowBound(rates, log[1..], r, lo, closedBelow);
      }
    }
  }

  /** Every rate has room for one more request: the admission that many places back, if there is one, is old enough. */
  ghost predicate RoomLeft(rates: seq<Rate>, log: seq<real>, now: real) {
    forall r :: r in rates ==> r.limit > 0 && (|log| >= r.limit ==> log[r.limit-1] <= now - r.duration)
  }

  lemma {:induction false} FewerNewer(log: seq<real>, since: real, n: nat)
    requires NewestFirst(log)
    ensures |Newer(log, since)| < n <==> n > 0 && (|log| >= n ==> log[n-1] <= since)
  {
    if log != [] {
      if log[0] > since && n > 0 {
        FewerNewer(log[1..], since, n - 1);
      } else if n > 0 {
        NewerIsPrefix(log, 0, since);
      }
    }
  }

  lemma AdmitsIff(rates: seq<Rate>, log: seq<real>, now: real)
    requires NewestFirst(log)
    ensures Admits(rates, log, now) <==> RoomLeft(rates, log, now)
  {
    forall r | r in rates
      ensures |Newer(log, now - r.duration)| < r.limit
         <==> r.limit > 0 && (|log| >= r.limit ==> log[r.limit-1] <= now - r.duration)
    {
      FewerNewer(log, now - r.duration, r.limit);
    }
  }

  lemma {:induction false} RunIsEarned(rates: seq<Rate>, times: seq<real>)
    requires forall i, j :: 0 <= i < j < |times| ==> times[i] <= times[j]
    ensures Earned(rates, Run(rates, times)) && NewestFirst(Run(rates, times))
    ensures forall x :: x in Run(rates, times) ==> times != [] && x <= times[|times|-1]
  {
    if times != [] {
      var init, now := times[..|times|-1], times[|times|-1];
      RunIsEarned(rates, init);
      var log := Run(rates, init);
      assert init != [] ==> init[|init|-1] == times[|times|-2] <= now;
      forall i | 0 <= i < |log| ensures log[i] <= now {
        assert log[i] in log;
      }
      assert ([now] + log)[1..] == log;
    }
  }

  /** So of n + 1 successive admissions under a rate (n, d), the first and the last are at least d apart. */
  lemma {:induction false} AdmissionsApart(rates: seq<Rate>, log: seq<real>, r: Rate, i: nat)
    requires r in rates && Earned(rates, log) && NewestFirst(log) && i + r.limit < |log|
    ensures log[i] - log[i + r.limit] >= r.duration
  {
    if i == 0 {
      AdmitsIff(rates, log[1..], log[0]);
      assert RoomLeft(rates, log[1..], log[0]);
    } else {
      AdmissionsApart(rates, log[1..], r, i - 1);
    }
  }

  lemma RunAdmissionsApart(rates: seq<Rate>, times: seq<real>, r: Rate, i: nat)
    requires forall i, j :: 0 <= i < j < |times| ==> times[i] <= times[j]
    requires r in rates && i + r.limit < |Run(rates, times)|
    ensures Run(rates, times)[i] - Run(rates, times)[i + r.limit] >= r.duration
  {
    RunIsEarned(rates, times);
    AdmissionsApart(rates, Run(rates, times), r, i);
  }

  /** Whatever arrives under a non-decreasing clock, each rate (n, d) admits at most n requests in every half-open
      interval of length d. */
  lemma RatesHold(rates: seq<Rate>, times: seq<real>, r: Rate, lo: real, closedBelow: bool)
    requires forall i, j :: 0 <= i < j < |times| ==> times[i] <= times[j]
    requires r in rates
    ensures InWindow(Run(rates, times), lo, lo + r.duration, closedBelow) <= r.limit
    ensures |Places(Run(rates, times), lo, lo + r.duration, closedBelow)| <= r.limit
  {
    InWindowCounts(Run(rates, times), lo, lo + r.duration, closedBelow);
    RunIsEarned(rates, times);
    WindowBound(rates, Run(rates, times), r, lo, closedBelow);
  }

  // ---------------------------------------------------------------------------------------------------------------
  // The throttle
  // ---------------------------------------------------------------------------------------------------------------

  /** One cache entry per client (or bucket) and rate duration. */
  datatype CacheKey = CacheKey(ident: string, duration: real)
  datatype Entry = Entry(history: seq<real>, expires: real)
  type Cache = map<CacheKey, Entry>

  /** What the cache returns; an expired entry is gone. */
  function Fetch(cache: Cache, key: CacheKey, now: real): seq<real> {
    if key in cache && now < cache[key].expires then cache[key].history else []
  }

  function LongestDuration(rates: seq<Rate>): (d: real)
    requires rates != []
    ensures forall r :: r in rates ==> r.duration <= d
    ensures exists r :: r in rates && r.duration == d
  {
    if |rates| == 1 then rates[0].duration
    else
      var d := LongestDuration(rates[1..]);
      if rates[0].duration > d then rates[0].duration else d
  }

  /** Drops old entries from the end of a history. */
  method Prune(history: seq<real>, since: real) returns (pruned: seq<real>)
    requires NewestFirst(history)
    ensures pruned == Newer(history, since)
    ensures pruned <= history && forall i :: |pruned| <= i < |history| ==> history[i] <= since
  {
    pruned := history;
    while pruned != [] && pruned[|pruned|-1] <= since
      invariant pruned <= history
      invariant forall i :: |pruned| <= i < |history| ==> history[i] <= since
    {
      pruned := pruned[..|pruned|-1];
    }
    NewerIsPrefix(history, |pruned|, since);
  }

  lemma {:induction false} NewerIsPrefix(log: seq<real>, n: nat, since: real)
    requires NewestFirst(log) && n <= |log|
    requires forall i :: n <= i < |log| ==> log[i] <= since
    requires n > 0 ==> log[n-1] > since
    ensures Newer(log, since) == log[..n]
  {
    if log != [] {
      if n == 0 {
        NewerIsPrefix(log[1..], 0, since);
      } else {
        NewerIsPrefix(log[1..], n - 1, since);
        assert log[..n] == [log[0]] + log[1..][..n-1];
      }
    }
  }

  /** A history tells the same as the log about the time after `since`: it starts the log, and the rest is older. */
  ghost predicate Suffices(history: seq<real>, log: seq<real>, since: real) {
    history <= log && forall i :: |history| <= i < |log| ==> log[i] <= since
  }

  lemma {:induction false} SufficientHistory(history: seq<real>, log: seq<real>, since: real)
    requires NewestFirst(log) && Suffices(history, log, since)
    ensures Newer(history, since) == Newer(log, since)
  {
    if history != [] {
      SufficientHistory(history[1..], log[1..], since);
    } else if log != [] {
      SufficientHistory([], log[1..], since);
    }
  }

  /** What the cache keeps about one client.  Entries dropped from a history, or lost with it, are out of its window. */
  ghost predicate Faithful(rates: seq<Rate>, cache: Cache, ident: string, log: seq<real>, clock: real) {
    && NewestFirst(log) && (forall x :: x in log ==> x <= clock)
    && (forall r :: r in rates ==>
          var key := CacheKey(ident, r.duration);
          if key in cache then Suffices(cache[key].history, log, clock - r.duration)
                               && log != [] && (forall r' :: r' in rates ==> log[0] + r'.duration <= cache[key].expires)
          else log == [])
  }

  lemma FetchedSuffices(rates: seq<Rate>, cache: Cache, ident: string, log: seq<real>, clock: real, now: real, r: Rate)
    requires Faithful(rates, cache, ident, log, clock) && clock <= now && r in rates
    ensures Suffices(Fetch(cache, CacheKey(ident, r.duration), now), log, now - r.duration)
  {
    var key := CacheKey(ident, r.duration);
    if key in cache && now >= cache[key].expires {
      assert log[0] + r.duration <= cache[key].expires;
    }
  }

  lemma LaterStillFaithful(rates: seq<Rate>, cache: Cache, ident: string, log: seq<real>, clock: real, now: real)
    requires clock <= now
    ensures Faithful(rates, cache, ident, log, clock) ==> Faithful(rates, cache, ident, log, now)
  {
  }

  ghost function LogOf(logs: map<string, seq<real>>, ident: string): seq<real> {
    if ident in logs then logs[ident] else []
  }

  class ScopedRatesThrottle {
    const rates: seq<Rate>
    var cache: Cache
    ghost var logs: map<string, seq<real>>
    ghost var clock: real

    ghost function Log(ident: string): seq<real>
      reads this`logs
    {
      LogOf(logs, ident)
    }

    ghost predicate Valid()
      reads this
    {
      rates != [] && forall ident :: Faithful(rates, cache, ident, Log(ident), clock)
    }

    constructor (rates: seq<Rate>, start: real)
      requires rates != []
      ensures Valid() && this.rates == rates && clock == start && logs == map[]
    {
      this.rates, cache := rates, map[];
      logs, clock := map[], start;
    }

    /** Reads the histories of all rates. */
    method FetchHistories(ident: string, now: real, ghost log: seq<real>, ghost before: real)
      returns (history: map<real, seq<real>>)
      requires Faithful(rates, cache, ident, log, before) && before <= now
      ensures history.Keys == Durations(rates)
      ensures forall d :: d in history ==> Suffices(history[d], log, now - d)
    {
      history := map[];
      for i := 0 to |rates|
        invariant history.Keys == Durations(rates[..i])
        invariant forall d :: d in history ==> Suffices(history[d], log, now - d)
      {
        FetchedSuffices(rates, cache, ident, log, before, now, rates[i]);
        assert rates[..i + 1] == rates[..i] + [rates[i]];
        history := history[rates[i].duration := Fetch(cache, CacheKey(ident, rates[i].duration), now)];
      }
      assert rates[..|rates|] == rates;
    }

    /** Decides from the cached histories as the full log of the client's admissions would, records an admission, and
        leaves other clients alone. */
    method AllowRequest(ident: string, now: real) returns (allowed: bool)
      requires Valid() && clock <= now
      modifies this
      ensures Valid() && clock == now
      ensures allowed <==> Admits(rates, old(Log(ident)), now)
      ensures Log(ident) == LogAfter(rates, old(Log(ident)), now)
      ensures allowed <==> RoomLeft(rates, old(Log(ident)), now)
      ensures Log(ident) == if allowed then [now] + old(Log(ident)) else old(Log(ident))
      ensures forall other :: other != ident ==> Log(other) == old(Log(other))
    {
      hide Faithful, Admits, Stored, Suffices, RoomLeft;
      ghost var log := Log(ident);
      assert Faithful(rates, cache, ident, log, clock);
      forall other { LaterStillFaithful(rates, cache, other, Log(other), clock, now); }
      var history := FetchHistories(ident, now, log, clock);
      FaithfulLog(rates, cache, ident, log, clock);
      AdmitsIff(rates, log, now);
      clock := now;
      allowed, history := PruneAll(rates, history, now, log);
      if !allowed {
        return;
      }
      var expires := now + LongestDuration(rates);
      Recorded(rates, cache, ident, log, now, history, expires);
      ghost var logs0 := logs;
      forall other | other != ident
        ensures Faithful(rates, Stored(cache, ident, history, now, expires), other, LogOf(logs0, other), now)
      {
        assert Faithful(rates, cache, other, Log(other), now);
        OthersUnaffected(rates, cache, ident, history, expires, other, LogOf(logs0, other), now);
      }
      cache := Stored(cache, ident, history, now, expires);
      logs := logs[ident := [now] + log];
      forall x ensures Faithful(rates, cache, x, Log(x), clock) {
        assert Log(x) == if x == ident then [now] + log else LogOf(logs0, x);
      }
    }
  }

  /** The cache once the request is recorded: it goes to the front of each of the client's histories, and all of them
      expire together. */
  function Stored(cache: Cache, ident: string, history: map<real, seq<real>>, now: real, expires: real): Cache {
    cache + map key | key in (set d | d in history :: CacheKey(ident, d)) :: Entry([now] + history[key.duration], expires)
  }

  function Durations(rates: seq<Rate>): set<real> {
    set r | r in rates :: r.duration
  }

  /** Prunes the histories and checks the rates one after the other, up to the first one without room. */
  method PruneAll(rates: seq<Rate>, fetched: map<real, seq<real>>, now: real, ghost log: seq<real>)
    returns (allowed: bool, history: map<real, seq<real>>)
    requires NewestFirst(log) && fetched.Keys == Durations(rates)
    requires forall d :: d in fetched ==> Suffices(fetched[d], log, now - d)
    ensures allowed <==> Admits(rates, log, now)
    ensures history.Keys == fetched.Keys
    ensures forall d :: d in history ==> Suffices(history[d], log, now - d)
  {
    hide Suffices, Newer, NewestFirst;
    history := fetched;
    for i := 0 to |rates|
      invariant history.Keys == fetched.Keys
      invariant forall d :: d in history ==> Suffices(history[d], log, now - d)
      invariant forall j :: 0 <= j < i ==> |Newer(log, now - rates[j].duration)| < rates[j].limit
    {
      var r := rates[i];
      assert r in rates && r.duration in history;
      SufficientHistory(history[r.duration], log, now - r.duration);
      NewestFirstPrefix(history[r.duration], log, now - r.duration);
      var pruned := Prune(history[r.duration], now - r.duration);
      PrunedSuffices(history[r.duration], pruned, log, now - r.duration);
      if |pruned| >= r.limit {
        return false, history;
      }
      history := history[r.duration := pruned];
    }
    return true, history;
  }

  lemma NewestFirstPrefix(history: seq<real>, log: seq<real>, since: real)
    requires NewestFirst(log) && Suffices(history, log, since)
    ensures NewestFirst(history)
  {
  }

  lemma PrunedSuffices(history: seq<real>, pruned: seq<real>, log: seq<real>, since: real)
    requires Suffices(history, log, since)
    requires pruned <= history && forall i :: |pruned| <= i < |history| ==> history[i] <= since
    ensures Suffices(pruned, log, since)
  {
    forall i | |pruned| <= i < |log| ensures log[i] <= since {
      if i < |history| {
        assert history[i] == log[i];
      }
    }
  }

  lemma FaithfulLog(rates: seq<Rate>, cache: Cache, ident: string, log: seq<real>, clock: real)
    requires Faithful(rates, cache, ident, log, clock)
    ensures NewestFirst(log) && forall x :: x in log ==> x <= clock
  {
  }

  lemma OthersUnaffected(rates: seq<Rate>, cache: Cache, ident: string, history: map<real, seq<real>>, expires: real,
                         other: string, log: seq<real>, now: real)
    requires other != ident && Faithful(rates, cache, other, log, now)
    ensures Faithful(rates, Stored(cache, ident, history, now, expires), other, log, now)
  {
    var cache' := Stored(cache, ident, history, now, expires);
    forall r | r in rates
      ensures var key := CacheKey(other, r.duration);
              (key in cache' <==> key in cache) && (key in cache ==> cache'[key] == cache[key])
    {
    }
  }

  lemma HistoryGrows(history: seq<real>, log: seq<real>, now: real, since: real)
    requires Suffices(history, log, since)
    ensures Suffices([now] + history, [now] + log, since)
  {
    forall i | |history| + 1 <= i < |log| + 1 ensures ([now] + log)[i] <= since {
      assert ([now] + log)[i] == log[i - 1];
    }
  }

  lemma StoredEntry(cache: Cache, ident: string, history: map<real, seq<real>>, now: real, expires: real, d: real)
    requires d in history
    ensures var cache', key := Stored(cache, ident, history, now, expires), CacheKey(ident, d);
            key in cache' && cache'[key] == Entry([now] + history[d], expires)
  {
  }

  lemma LogGrows(log: seq<real>, now: real)
    requires NewestFirst(log) && (forall x :: x in log ==> x <= now)
    ensures NewestFirst([now] + log) && (forall x :: x in [now] + log ==> x <= now)
  {
    forall i | 0 <= i < |log| ensures log[i] <= now {
      assert log[i] in log;
    }
  }

  lemma Recorded(rates: seq<Rate>, cache: Cache, ident: string, log: seq<real>, now: real,
                 history: map<real, seq<real>>, expires: real)
    requires NewestFirst(log) && (forall x :: x in log ==> x <= now)
    requires history.Keys == Durations(rates)
    requires forall d :: d in history ==> Suffices(history[d], log, now - d)
    requires forall r :: r in rates ==> now + r.duration <= expires
    ensures Faithful(rates, Stored(cache, ident, history, now, expires), ident, [now] + log, now)
  {
    hide Stored, Suffices, NewestFirst;
    LogGrows(log, now);
    forall r | r in rates
      ensures var cache', key := Stored(cache, ident, history, now, expires), CacheKey(ident, r.duration);
              && key in cache' && cache'[key].expires == expires
              && Suffices(cache'[key].history, [now] + log, now - r.duration)
    {
      assert r.duration in Durations(rates);
      StoredEntry(cache, ident, history, now, expires, r.duration);
      HistoryGrows(history[r.duration], log, now, now - r.duration);
    }
  }
}
