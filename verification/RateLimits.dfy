/** The sliding-window limit of calls per API key. Times are in nanoseconds. */
module ApiKeyLimit {
  const WINDOW := 60_000_000_000
  const MAX_CALLS := 120

  type Key = string

  type Hits = map<Key, seq<int>>

  function HitsOf(hits: Hits, key: Key): seq<int> {
    if key in hits then hits[key] else []
  }

  /** The times after the cutoff. */
  function Recent(times: seq<int>, cutoff: int): seq<int> {
    if times == [] then []
    else
      var last := times[|times| - 1];
      Recent(times[..|times| - 1], cutoff) + if last > cutoff then [last] else []
  }

  predicate Admits(hits: Hits, key: Key, now: int) {
    |Recent(HitsOf(hits, key), now - WINDOW)| < MAX_CALLS
  }

  /** What is stored for a key after a call. */
  function KeptAfter(kept: seq<int>, now: int): seq<int> {
    var recent := Recent(kept, now - WINDOW);
    if |recent| < MAX_CALLS then recent + [now] else recent
  }

  function Checked(hits: Hits, key: Key, now: int): Hits {
    hits[key := KeptAfter(HitsOf(hits, key), now)]
  }

  class RateLimiter {
    var hits: Hits

    constructor ()
      ensures hits == map[]
    {
      hits := map[];
    }

    method CheckRateLimit(key: Key, now: int) returns (ok: bool)
      modifies this
      ensures ok == Admits(old(hits), key, now) && hits == Checked(old(hits), key, now)
    {
      var cutoff := now - WINDOW;
      var timestamps := if key in hits then hits[key] else [];
      var kept: seq<int> := [];
      for i := 0 to |timestamps|
        invariant kept == Recent(timestamps[..i], cutoff)
      {
        assert timestamps[..i + 1][..i] == timestamps[..i];
        if timestamps[i] > cutoff {
          kept := kept + [timestamps[i]];
        }
      }
      assert timestamps[..|timestamps|] == timestamps;
      if |kept| >= MAX_CALLS {
        hits := hits[key := kept];
        return false;
      }
      hits := hits[key := kept + [now]];
      return true;
    }
  }

  // ----- Runs -----

  datatype Call = Call(key: Key, now: int)

  /** The clock does not go back. */
  predicate Monotone(calls: seq<Call>) {
    forall i, j | 0 <= i < j < |calls| :: calls[i].now <= calls[j].now
  }

  function After(calls: seq<Call>): Hits {
    if calls == [] then map[]
    else
      var last := calls[|calls| - 1];
      Checked(After(calls[..|calls| - 1]), last.key, last.now)
  }

  /** The times of the calls that were accepted for a key. */
  function Accepted(calls: seq<Call>, key: Key): seq<int> {
    if calls == [] then []
    else
      var front, last := calls[..|calls| - 1], calls[|calls| - 1];
      Accepted(front, key) + if last.key == key && Admits(After(front), key, last.now) then [last.now] else []
  }

  predicate Ascending(times: seq<int>) {
    forall i, j | 0 <= i < j < |times| :: times[i] <= times[j]
  }

  /** Any 121 accepted calls in a row span at least the window. */
  predicate Spaced(times: seq<int>) {
    forall i | 0 <= i && i + MAX_CALLS < |times| :: times[i] + WINDOW <= times[i + MAX_CALLS]
  }

  /** What is stored for a key are its last accepted calls, and what was dropped has left the window. */
  ghost predicate Stored(all: seq<int>, kept: seq<int>, now: int) {
    && |kept| <= |all| && kept == all[|all| - |kept|..]
    && |kept| <= MAX_CALLS
    && (forall i | 0 <= i < |all| :: all[i] <= now)
    && (forall i | 0 <= i < |all| - |kept| :: all[i] + WINDOW <= now)
  }

  /** Of ascending times the recent ones are the last. */
  lemma {:induction false} RecentSuffix(times: seq<int>, cutoff: int)
    requires Ascending(times)
    ensures var recent := Recent(times, cutoff);
            && |recent| <= |times| && recent == times[|times| - |recent|..]
            && (forall i | 0 <= i < |times| - |recent| :: times[i] <= cutoff)
            && (forall i | |times| - |recent| <= i < |times| :: times[i] > cutoff)
  {
    if times != [] {
      var front := times[..|times| - 1];
      RecentSuffix(front, cutoff);
      if times[|times| - 1] <= cutoff {
        assert forall i | 0 <= i < |front| :: front[i] == times[i] <= cutoff;
      }
    }
  }

  lemma SuffixAscends(times: seq<int>, k: nat)
    requires Ascending(times) && k <= |times|
    ensures Ascending(times[k..])
  {
  }

  predicate InWindow(times: seq<int>, now: int) {
    forall i | 0 <= i < |times| :: now - WINDOW < times[i] <= now
  }

  /** Dropping what has left the window keeps what is stored a suffix. */
  lemma StoredRecent(all: seq<int>, kept: seq<int>, before: int, now: int)
    requires Ascending(all) && Stored(all, kept, before) && before <= now
    ensures Stored(all, Recent(kept, now - WINDOW), now)
    ensures InWindow(Recent(kept, now - WINDOW), now)
  {
    SuffixAscends(all, |all| - |kept|);
    RecentSuffix(kept, now - WINDOW);
    var recent := Recent(kept, now - WINDOW);
    assert recent == all[|all| - |recent|..];
    forall i | 0 <= i < |all| - |recent| ensures all[i] + WINDOW <= now {
      if i >= |all| - |kept| {
        assert all[i] == kept[i - (|all| - |kept|)];
      }
    }
  }

  /** One more accepted call is as far from the call 120 before it as the window. */
  lemma StoredMore(all: seq<int>, recent: seq<int>, now: int)
    requires Ascending(all) && Spaced(all) && Stored(all, recent, now) && |recent| < MAX_CALLS
    ensures Ascending(all + [now]) && Spaced(all + [now]) && Stored(all + [now], recent + [now], now)
  {
    var more := all + [now];
    forall i | 0 <= i && i + MAX_CALLS < |more| ensures more[i] + WINDOW <= more[i + MAX_CALLS] {
      if i + MAX_CALLS == |all| {
        assert i < |all| - |recent|;
      }
    }
  }

  /** The time of the last call; before the first, some time before it. */
  function LastTime(calls: seq<Call>): int
    requires calls != []
  {
    calls[|calls| - 1].now
  }

  lemma MonotoneFront(calls: seq<Call>)
    requires Monotone(calls) && |calls| > 1
    ensures Monotone(calls[..|calls| - 1]) && LastTime(calls[..|calls| - 1]) <= LastTime(calls)
  {
  }

  ghost predicate Good(all: seq<int>, kept: seq<int>, now: int) {
    Ascending(all) && Spaced(all) && Stored(all, kept, now)
  }

  /** The accepted calls after one call more. */
  function AllAfter(all: seq<int>, kept: seq<int>, now: int): seq<int> {
    if |Recent(kept, now - WINDOW)| < MAX_CALLS then all + [now] else all
  }

  lemma CallMore(front: seq<Call>, last: Call, key: Key)
    ensures last.key == key ==>
              && Accepted(front + [last], key) == AllAfter(Accepted(front, key), HitsOf(After(front), key), last.now)
              && HitsOf(After(front + [last]), key) == KeptAfter(HitsOf(After(front), key), last.now)
    ensures last.key != key ==>
              && Accepted(front + [last], key) == Accepted(front, key)
              && HitsOf(After(front + [last]), key) == HitsOf(After(front), key)
  {
    assert (front + [last])[..|front|] == front;
    assert Accepted(front, key) + [] == Accepted(front, key);
  }

  /** One call more, of this key or of another one. */
  lemma CallStores(front: seq<Call>, last: Call, key: Key, before: int)
    requires Good(Accepted(front, key), HitsOf(After(front), key), before) && before <= last.now
    ensures Good(Accepted(front + [last], key), HitsOf(After(front + [last]), key), last.now)
  {
    CallMore(front, last, key);
    StepStores(Accepted(front, key), HitsOf(After(front), key), before, last.now);
  }

  lemma {:induction false} RunStores(calls: seq<Call>, key: Key)
    requires Monotone(calls) && calls != []
    ensures Good(Accepted(calls, key), HitsOf(After(calls), key), LastTime(calls))
  {
    var front, last := calls[..|calls| - 1], calls[|calls| - 1];
    assert calls == front + [last];
    if front == [] {
      assert Accepted(front, key) == [] && HitsOf(After(front), key) == [];
      CallStores(front, last, key, last.now);
    } else {
      MonotoneFront(calls);
      RunStores(front, key);
      CallStores(front, last, key, LastTime(front));
    }
  }

  lemma StepStores(all: seq<int>, kept: seq<int>, before: int, now: int)
    requires Good(all, kept, before) && before <= now
    ensures Good(all, kept, now)
    ensures Good(AllAfter(all, kept, now), KeptAfter(kept, now), now)
  {
    StoredRecent(all, kept, before, now);
    if |Recent(kept, now - WINDOW)| < MAX_CALLS {
      StoredMore(all, Recent(kept, now - WINDOW), now);
    }
  }

  /** How many of the times lie in the half-open window that starts at `start`. */
  function Within(times: seq<int>, start: int): nat {
    if times == [] then 0
    else
      var last := times[|times| - 1];
      Within(times[..|times| - 1], start) + if start <= last < start + 60_000_000_000 then 1 else 0
  }

  lemma SpacedFront(times: seq<int>)
    requires Ascending(times) && Spaced(times) && times != []
    ensures Ascending(times[..|times| - 1]) && Spaced(times[..|times| - 1])
  {
    var front := times[..|times| - 1];
    forall i | 0 <= i && i + MAX_CALLS < |front| ensures front[i] + WINDOW <= front[i + MAX_CALLS] {
      assert times[i] + WINDOW <= times[i + MAX_CALLS];
    }
  }

  /** The times in a window are next to each other. */
  lemma {:induction false} WithinSpan(times: seq<int>, start: int)
    requires Ascending(times)
    ensures Within(times, start) <= |times|
    ensures times != [] && start <= times[|times| - 1] < start + WINDOW && Within(times, start) > 0 ==>
              times[|times| - Within(times, start)] >= start
  {
    if times != [] {
      var front := times[..|times| - 1];
      WithinSpan(front, start);
      if start <= times[|times| - 1] < start + WINDOW && Within(front, start) > 0 {
        WithinLast(front, start);
      }
    }
  }

  lemma {:induction false} WithinLast(times: seq<int>, start: int)
    requires Ascending(times) && Within(times, start) > 0
    ensures exists i :: 0 <= i < |times| && start <= times[i] < start + WINDOW
    ensures times[|times| - 1] >= start
  {
    var front := times[..|times| - 1];
    if !(start <= times[|times| - 1] < start + WINDOW) {
      WithinLast(front, start);
      var i :| 0 <= i < |front| && start <= front[i] < start + WINDOW;
      assert times[i] <= times[|times| - 1];
    }
  }

  lemma {:induction false} SpacedWindow(times: seq<int>, start: int)
    requires Ascending(times) && Spaced(times)
    ensures Within(times, start) <= MAX_CALLS
  {
    if times != [] {
      SpacedFront(times);
      SpacedWindow(times[..|times| - 1], start);
      WithinSpan(times, start);
      if |times| > MAX_CALLS && start <= times[|times| - 1] < start + WINDOW {
        var i := |times| - 1 - MAX_CALLS;
        assert times[i] + WINDOW <= times[i + MAX_CALLS];
      }
    }
  }

  /** In any run, any window of 60 seconds holds at most 120 accepted calls of a key. */
  lemma AtMost120(calls: seq<Call>, key: Key, start: int)
    requires Monotone(calls)
    ensures Within(Accepted(calls, key), start) <= 120
  {
    if calls != [] {
      RunStores(calls, key);
      SpacedWindow(Accepted(calls, key), start);
    }
  }

  /** A call is refused only when 120 calls were accepted in the 60 seconds up to it. */
  lemma RefusedOnlyWhenFull(calls: seq<Call>, key: Key, now: int)
    requires Monotone(calls + [Call(key, now)])
    requires !Admits(After(calls), key, now)
    ensures LastInWindow(Accepted(calls, key), now)
  {
    var more := calls + [Call(key, now)];
    assert calls == more[..|calls|];
    if calls != [] {
      MonotoneFront(more);
      RunStores(calls, key);
      FullStored(Accepted(calls, key), HitsOf(After(calls), key), LastTime(calls), now);
    }
  }

  /** The last 120 of the times lie in the window up to now. */
  predicate LastInWindow(times: seq<int>, now: int) {
    && |times| >= 120
    && forall i | |times| - 120 <= i < |times| :: now - 60_000_000_000 < times[i] <= now
  }

  lemma FullStored(all: seq<int>, kept: seq<int>, before: int, now: int)
    requires Good(all, kept, before) && before <= now
    requires |Recent(kept, now - WINDOW)| >= MAX_CALLS
    ensures LastInWindow(all, now)
  {
    StoredRecent(all, kept, before, now);
    var recent := Recent(kept, now - WINDOW);
    forall i | |all| - MAX_CALLS <= i < |all| ensures now - WINDOW < all[i] <= now {
      assert all[i] == recent[i - (|all| - |recent|)];
    }
  }
}

/**
 The fixed-window limit of wrong PINs per address. A request asks first whether the
 address is locked out; a wrong PIN is recorded, a right one clears the record.
 */
module PinLimit {
  import opened Results

  const LOCKOUT := 60_000_000_000
  const MAX_ATTEMPTS := 5

  type Address = string

  /** How many failures have been recorded since the first one of a window. */
  datatype Entry = Entry(count: nat, first: int)

  type Entries = map<Address, Entry>

  /** The entry after a failure: a new window once the old one has run out. */
  function Failed(entry: Option<Entry>, now: int): Entry {
    if entry.None? || now - entry.value.first >= LOCKOUT then Entry(1, now)
    else entry.value.(count := entry.value.count + 1)
  }

  predicate LockedOut(entry: Option<Entry>, now: int) {
    entry.Some? && now - entry.value.first < LOCKOUT && entry.value.count >= MAX_ATTEMPTS
  }

  class PinRateLimiter {
    var entries: Entries

    constructor ()
      ensures entries == map[]
    {
      entries := map[];
    }

    method RecordFailure(ip: Address, now: int) returns (locked: bool)
      modifies this
      ensures entries == old(entries)[ip := Failed(Get(old(entries), ip), now)]
      ensures locked == (entries[ip].count > MAX_ATTEMPTS)
    {
      var entry := if ip in entries then entries[ip] else Entry(0, now);
      if now - entry.first >= LOCKOUT {
        entry := Entry(0, now);
      }
      entry := entry.(count := entry.count + 1);
      entries := entries[ip := entry];
      locked := entry.count > MAX_ATTEMPTS;
    }

    method IsLockedOut(ip: Address, now: int) returns (locked: bool)
      ensures locked == LockedOut(Get(entries, ip), now)
    {
      if ip !in entries {
        return false;
      }
      if now - entries[ip].first >= LOCKOUT {
        return false;
      }
      return entries[ip].count >= MAX_ATTEMPTS;
    }

    method Reset(ip: Address)
      modifies this
      ensures entries == old(entries) - {ip}
    {
      entries := entries - {ip};
    }

    /** A request with a PIN; the PIN is checked between the two times. */
    method Attempt(ip: Address, asked: int, settled: int, matches: bool) returns (refused: bool)
      modifies this
      ensures refused == LockedOut(Get(old(entries), ip), asked)
      ensures entries == Attempted(old(entries), Request(ip, asked, settled, matches))
    {
      refused := IsLockedOut(ip, asked);
      if refused {
        return;
      }
      if matches {
        Reset(ip);
      } else {
        var _ := RecordFailure(ip, settled);
      }
    }
  }

  // ----- Runs of requests, one after the other -----

  datatype Request = Request(ip: Address, asked: int, settled: int, matches: bool)

  function Attempted(entries: Entries, r: Request): Entries {
    if LockedOut(Get(entries, r.ip), r.asked) then entries
    else if r.matches then entries - {r.ip}
    else entries[r.ip := Failed(Get(entries, r.ip), r.settled)]
  }

  function After(requests: seq<Request>): Entries {
    if requests == [] then map[]
    else Attempted(After(requests[..|requests| - 1]), requests[|requests| - 1])
  }

  /** The clock does not go back. */
  predicate Monotone(requests: seq<Request>) {
    && (forall i | 0 <= i < |requests| :: requests[i].asked <= requests[i].settled)
    && (forall i | 0 < i < |requests| :: requests[i - 1].settled <= requests[i].asked)
  }

  /** A failure that was recorded, and the entry it left. */
  datatype Failure = Failure(time: int, entry: Entry)

  /** The failures of an address since it was last cleared. */
  function Log(requests: seq<Request>, ip: Address): seq<Failure> {
    if requests == [] then []
    else
      var front, last := requests[..|requests| - 1], requests[|requests| - 1];
      var entry := Get(After(front), ip);
      if last.ip != ip || LockedOut(entry, last.asked) then Log(front, ip)
      else if last.matches then []
      else Log(front, ip) + [Failure(last.settled, Failed(entry, last.settled))]
  }

  // ----- Windows -----

  /** A failure belongs to the window its entry started, as one of its first five. */
  predicate InOwnWindow(f: Failure) {
    && 1 <= f.entry.count <= MAX_ATTEMPTS
    && f.entry.first <= f.time < f.entry.first + LOCKOUT
    && (f.entry.count == 1 ==> f.time == f.entry.first)
  }

  /** A failure goes on in the window of the one before it, or starts a window after it. */
  predicate Follows(f: Failure, g: Failure) {
    if g.entry.count == 1 then g.entry.first >= f.entry.first + LOCKOUT
    else g.entry == f.entry.(count := f.entry.count + 1)
  }

  predicate Windows(log: seq<Failure>) {
    && (forall i | 0 <= i < |log| :: InOwnWindow(log[i]))
    && (forall i | 0 < i < |log| :: Follows(log[i - 1], log[i]))
    && (log != [] ==> log[0].entry.count == 1)
    && (forall i, j | 0 <= i < j < |log| :: log[i].time <= log[j].time)
  }

  /** The entry of an address is what its last failure has left. */
  ghost predicate Mirrors(log: seq<Failure>, entry: Option<Entry>, now: int) {
    && Windows(log)
    && entry == (if log == [] then None else Some(log[|log| - 1].entry))
    && (forall i | 0 <= i < |log| :: log[i].time <= now)
  }

  lemma FailureMirrors(log: seq<Failure>, entry: Option<Entry>, before: int, asked: int, settled: int)
    requires Mirrors(log, entry, before) && before <= asked <= settled
    requires !LockedOut(entry, asked)
    ensures Mirrors(log + [Failure(settled, Failed(entry, settled))], Some(Failed(entry, settled)), settled)
  {
    var more := log + [Failure(settled, Failed(entry, settled))];
    if log != [] {
      assert InOwnWindow(log[|log| - 1]);
    }
    forall i | 0 < i < |more| ensures Follows(more[i - 1], more[i]) {
      if i < |log| {
        assert Follows(log[i - 1], log[i]);
      }
    }
  }

  lemma RequestMirrors(front: seq<Request>, last: Request, ip: Address, before: int)
    requires Mirrors(Log(front, ip), Get(After(front), ip), before)
    requires before <= last.asked <= last.settled
    ensures Mirrors(Log(front + [last], ip), Get(After(front + [last]), ip), last.settled)
  {
    assert (front + [last])[..|front|] == front;
    var entry := Get(After(front), ip);
    if last.ip == ip && !LockedOut(entry, last.asked) && !last.matches {
      FailureMirrors(Log(front, ip), entry, before, last.asked, last.settled);
    }
  }

  lemma {:induction false} RunMirrors(requests: seq<Request>, ip: Address)
    requires Monotone(requests) && requests != []
    ensures Mirrors(Log(requests, ip), Get(After(requests), ip), requests[|requests| - 1].settled)
  {
    var front, last := requests[..|requests| - 1], requests[|requests| - 1];
    assert requests == front + [last];
    if front == [] {
      assert Log(front, ip) == [] && Get(After(front), ip) == None;
      RequestMirrors(front, last, ip, last.asked);
    } else {
      assert front[|front| - 1].settled <= last.asked;
      RunMirrors(front, ip);
      RequestMirrors(front, last, ip, front[|front| - 1].settled);
    }
  }

  // ----- The bound -----

  /** A failure with count n is the n-th of its window. */
  lemma {:induction false} WindowStart(log: seq<Failure>, i: nat) returns (k: nat)
    requires Windows(log) && i < |log|
    ensures k == i + 1 - log[i].entry.count && log[k].time == log[i].entry.first
    ensures log[k].entry.first == log[i].entry.first && log[k].entry.count == 1
    decreases i
  {
    assert InOwnWindow(log[i]);
    if log[i].entry.count == 1 {
      k := i;
    } else {
      assert Follows(log[i - 1], log[i]);
      k := WindowStart(log, i - 1);
    }
  }

  /** Any ten failures in a row span at least the lockout. */
  lemma TenSpan(log: seq<Failure>, i: nat)
    requires Windows(log) && i + 9 < |log|
    ensures log[i + 9].time >= log[i].time + LOCKOUT
  {
    assert InOwnWindow(log[i + 9]);
    var j := WindowStart(log, i + 9);
    assert j >= i + 5 && InOwnWindow(log[j - 1]) && Follows(log[j - 1], log[j]);
    var k := WindowStart(log, j - 1);
    assert k >= i;
  }

  /** How many of the failures lie in the half-open window that starts at `start`. */
  function Within(log: seq<Failure>, start: int): nat {
    if log == [] then 0
    else
      Within(log[..|log| - 1], start)
      + if start <= log[|log| - 1].time < start + 60_000_000_000 then 1 else 0
  }

  lemma WindowsFront(log: seq<Failure>)
    requires Windows(log) && log != []
    ensures Windows(log[..|log| - 1])
  {
    var front := log[..|log| - 1];
    forall i | 0 < i < |front| ensures Follows(front[i - 1], front[i]) {
      assert Follows(log[i - 1], log[i]);
    }
  }

  lemma {:induction false} WithinSpan(log: seq<Failure>, start: int)
    requires Windows(log)
    ensures Within(log, start) <= |log|
    ensures log != [] && Within(log, start) > 0 ==> log[|log| - 1].time >= start
    ensures log != [] && start <= log[|log| - 1].time < start + LOCKOUT ==>
              0 < Within(log, start) && log[|log| - Within(log, start)].time >= start
  {
    if log != [] {
      WindowsFront(log);
      WithinSpan(log[..|log| - 1], start);
    }
  }

  lemma {:induction false} WithinNine(log: seq<Failure>, start: int)
    requires Windows(log)
    ensures Within(log, start) <= 9
  {
    if log != [] {
      WindowsFront(log);
      WithinNine(log[..|log| - 1], start);
      WithinSpan(log, start);
      if |log| > 9 && start <= log[|log| - 1].time < start + LOCKOUT {
        TenSpan(log, |log| - 10);
      }
    }
  }

  /** In any run, any window of 60 seconds holds at most 9 failures of an address between resets. */
  lemma AtMostNine(requests: seq<Request>, ip: Address, start: int)
    requires Monotone(requests)
    ensures Within(Log(requests, ip), start) <= 9
  {
    if requests != [] {
      RunMirrors(requests, ip);
      WithinNine(Log(requests, ip), start);
    }
  }

  function Wrong(ip: Address, now: int): Request {
    Request(ip, now, now, false)
  }

  /** A run of wrong PINs of one address that ends at `now`, with `count` failures since `start`. */
  ghost predicate Reached(requests: seq<Request>, ip: Address, entry: Option<Entry>, now: int, start: int, count: nat) {
    && Monotone(requests) && (requests != [] ==> requests[|requests| - 1].settled <= now)
    && Get(After(requests), ip) == entry && Within(Log(requests, ip), start) == count
  }

  lemma WithinMore(log: seq<Failure>, f: Failure, start: int)
    ensures Within(log + [f], start) == Within(log, start) + if start <= f.time < start + LOCKOUT then 1 else 0
  {
    assert (log + [f])[..|log|] == log;
  }

  lemma WrongMore(requests: seq<Request>, ip: Address, entry: Option<Entry>, now: int)
    requires Get(After(requests), ip) == entry && !LockedOut(entry, now)
    ensures Get(After(requests + [Wrong(ip, now)]), ip) == Some(Failed(entry, now))
    ensures Log(requests + [Wrong(ip, now)], ip) == Log(requests, ip) + [Failure(now, Failed(entry, now))]
  {
    assert (requests + [Wrong(ip, now)])[..|requests|] == requests;
  }

  lemma MonotoneMore(requests: seq<Request>, r: Request)
    requires Monotone(requests) && r.asked <= r.settled
    requires requests != [] ==> requests[|requests| - 1].settled <= r.asked
    ensures Monotone(requests + [r])
  {
    var more := requests + [r];
    forall i | 0 < i < |more| ensures more[i - 1].settled <= more[i].asked {
      if i < |requests| {
        assert requests[i - 1].settled <= requests[i].asked;
      }
    }
  }

  lemma OneMore(requests: seq<Request>, ip: Address, entry: Option<Entry>, before: int, start: int, count: nat,
                now: int)
    requires Reached(requests, ip, entry, before, start, count)
    requires before <= now && !LockedOut(entry, now)
    ensures Reached(requests + [Wrong(ip, now)], ip, Some(Failed(entry, now)), now, start,
                    count + if start <= now < start + LOCKOUT then 1 else 0)
  {
    MonotoneMore(requests, Wrong(ip, now));
    WrongMore(requests, ip, entry, now);
    WithinMore(Log(requests, ip), Failure(now, Failed(entry, now)), start);
  }

  /** Some failures in a row at the same time. */
  lemma {:induction false} SomeMore(requests: seq<Request>, ip: Address, entry: Entry, now: int, start: int,
                                    count: nat, n: nat)
    returns (more: seq<Request>)
    requires Reached(requests, ip, Some(entry), now, start, count)
    requires entry.count + n <= MAX_ATTEMPTS && entry.first <= now < entry.first + LOCKOUT
    ensures Reached(more, ip, Some(entry.(count := entry.count + n)), now, start,
                    count + if start <= now < start + LOCKOUT then n else 0)
    decreases n
  {
    more := requests;
    if n > 0 {
      OneMore(requests, ip, Some(entry), now, start, count, now);
      more := SomeMore(requests + [Wrong(ip, now)], ip, entry.(count := entry.count + 1), now, start,
                       count + if start <= now < start + LOCKOUT then 1 else 0, n - 1);
    }
  }

  /** From nothing, one failure, then four late ones of its window, and all five of the next. */
  lemma FourAndFive(ip: Address, first: int, late: int, next: int, start: int) returns (requests: seq<Request>)
    requires first < start <= late < first + LOCKOUT <= next < start + LOCKOUT
    ensures Reached(requests, ip, Some(Entry(5, next)), next, start, 9)
  {
    requests := [];
    OneMore(requests, ip, None, first, start, 0, first);
    requests := requests + [Wrong(ip, first)];
    requests := SomeMore(requests, ip, Entry(1, first), first, start, 0, 0);
    assert Reached(requests, ip, Some(Entry(1, first)), late, start, 0);
    requests := SomeMore(requests, ip, Entry(1, first), late, start, 0, 4);
    OneMore(requests, ip, Some(Entry(5, first)), late, start, 4, next);
    requests := requests + [Wrong(ip, next)];
    requests := SomeMore(requests, ip, Entry(1, next), next, start, 5, 4);
  }

  /** Nine is reached, so the bound is the best one. */
  lemma NineReached(ip: Address) returns (requests: seq<Request>)
    ensures Monotone(requests) && Within(Log(requests, ip), 1) == 9
  {
    requests := FourAndFive(ip, 0, LOCKOUT - 1, LOCKOUT, 1);
  }

  /** An address is locked out only after five failures in the last 60 seconds. */
  lemma LockedOnlyAfterFive(requests: seq<Request>, ip: Address, now: int)
    requires Monotone(requests) && LockedOut(Get(After(requests), ip), now)
    requires requests != [] ==> requests[|requests| - 1].settled <= now
    ensures var log := Log(requests, ip);
            |log| >= 5 && forall i | |log| - 5 <= i < |log| :: now - 60_000_000_000 < log[i].time <= now
  {
    RunMirrors(requests, ip);
    var log := Log(requests, ip);
    var k := WindowStart(log, |log| - 1);
    assert InOwnWindow(log[|log| - 1]);
  }
}
