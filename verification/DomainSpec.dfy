/**
 The domain cache of domain_lookup.c as a function on values, and where a cache hit comes from.
 `DomainCache` refines it.
 */
module DomainSpec {
  import opened Suffix
  import opened Bytes
  import opened Kept

  const ARENA_SIZE: nat := 65536
  const GC_INTERVAL := 300
  const DEFAULT_TTL := 60

  datatype Entry = Entry(domain: string, application: int, category: int, expire: int)

  /** The cached entries in the order they were inserted; a domain may occur more than once. */
  datatype State = State(entries: seq<Entry>, lastGc: int)

  const EMPTY := State([], 0)

  /** What the server sent, as far as it is looked at; `Failure` when the request failed. */
  datatype Reply =
    | Failure
    | Reply(category: Option<int>, application: Option<int>, ttl: Option<int>,
        cacheDomains: Option<seq<Option<string>>>)

  /** One call of domain_lookup: `clock(n)` and `roll(n)` are what time() and rand() return in its n-th insert. */
  datatype Request = Request(domain: string, now: int, reply: Reply, clock: nat -> int, roll: nat -> (nat -> nat))

  datatype Response = Response(category: int, application: int)

  const UNANSWERED := Response(0, 0)

  // ----- What a reply stores

  function GetOr(o: Option<int>, default: int): int {
    match o
    case None => default
    case Some(v) => v
  }

  function Ttl(reply: Reply): int {
    match reply
    case Failure => DEFAULT_TTL
    case Reply(_, _, ttl, _) => if ttl == None then 0 else if ttl.value == 0 then DEFAULT_TTL else ttl.value
  }

  /** The application is read only when the reply has a category (line 333). */
  function Answer(reply: Reply): Response {
    match reply
    case Failure => Response(0, 0)
    case Reply(category, application, _, _) =>
      Response(GetOr(category, 0), if category.Some? then GetOr(application, 0) else 0)
  }

  function Named(ds: seq<Option<string>>): seq<string> {
    if ds == [] then []
    else (if ds[0].Some? then [ds[0].value] else []) + Named(ds[1..])
  }

  /** The domains a reply to a query for `domain` is cached under. */
  function Domains(domain: string, reply: Reply): seq<string> {
    if reply.Reply? && reply.cacheDomains.Some? then Named(reply.cacheDomains.value) else [domain]
  }

  function EntryFor(domain: string, now: int, reply: Reply): Entry {
    Entry(domain, Answer(reply).application, Answer(reply).category, now + Ttl(reply))
  }

  // ----- Inserting, with collection

  predicate Doomed(e: Entry, now: int, roll: nat) {
    e.expire < now || roll == 0
  }

  /** What a collection leaves; `n` entries have been visited before. */
  function Survivors(entries: seq<Entry>, now: int, roll: nat -> nat, n: nat): seq<Entry> {
    if entries == [] then []
    else (if Doomed(entries[0], now, roll(n)) then [] else [entries[0]]) + Survivors(entries[1..], now, roll, n + 1)
  }

  predicate GcDue(s: State, now: int) {
    s.lastGc < now - GC_INTERVAL
  }

  function Collect(s: State, now: int, roll: nat -> nat): State {
    if GcDue(s, now) then State(Survivors(s.entries, now, roll, 0), now) else s
  }

  /** Create an entry and insert it, unless the arena is exhausted: then nothing happens, not even a collection. */
  function Store(s: State, e: Entry, now: int, roll: nat -> nat): State {
    if |s.entries| >= ARENA_SIZE then s
    else
      var t := Collect(s, now, roll);
      t.(entries := t.entries + [e])
  }

  /** Store the answer under each of `domains`; `k` inserts of this call have been made before. */
  function StoreAll(s: State, domains: seq<string>, q: Request, k: nat): State
    decreases |domains|
  {
    if domains == [] then s
    else StoreAll(Store(s, EntryFor(domains[0], q.now, q.reply), q.clock(k), q.roll(k)), domains[1..], q, k + 1)
  }

  // ----- domain_lookup

  /** No cached entry is for any of the first `n` candidates of `domain`. */
  ghost predicate NoneBefore(s: State, domain: string, n: nat) {
    forall m, i :: 0 <= m < n && m < |Candidates(domain)| && 0 <= i < |s.entries| ==>
        s.entries[i].domain != Candidates(domain)[m]
  }

  /** Entry `i` is one for the longest cached dot-suffix of `domain`. */
  ghost predicate LongestMatch(s: State, domain: string, i: nat) {
    && i < |s.entries|
    && exists n :: 0 <= n < |Candidates(domain)| && s.entries[i].domain == Candidates(domain)[n]
        && NoneBefore(s, domain, n)
  }

  /** `pick` is what the lookup found: an entry for the longest match, or that there is no match. */
  ghost predicate PickOk(s: State, domain: string, pick: Option<nat>) {
    match pick
    case None => NoneBefore(s, domain, |Candidates(domain)|)
    case Some(i) => LongestMatch(s, domain, i)
  }

  predicate Hit(s: State, q: Request, pick: Option<nat>) {
    pick.Some? && pick.value < |s.entries| && s.entries[pick.value].expire > q.now
  }

  /** An expired match is removed before the server is asked. */
  function Purge(s: State, pick: Option<nat>): State {
    if pick.Some? && pick.value < |s.entries| then s.(entries := Without(s.entries, pick.value)) else s
  }

  function Step(s: State, q: Request, pick: Option<nat>): State {
    if Hit(s, q, pick) then s else StoreAll(Purge(s, pick), Domains(q.domain, q.reply), q, 0)
  }

  /** On a miss the response is left as the caller set it up, all zero. */
  function Respond(s: State, q: Request, pick: Option<nat>): Response {
    if Hit(s, q, pick) then Response(s.entries[pick.value].category, s.entries[pick.value].application) else UNANSWERED
  }

  // ----- Runs

  datatype Call = Call(q: Request, pick: Option<nat>)

  function Run(calls: seq<Call>): State {
    if calls == [] then EMPTY else Step(Run(calls[..|calls| - 1]), calls[|calls| - 1].q, calls[|calls| - 1].pick)
  }

  ghost predicate Legal(calls: seq<Call>) {
    forall n :: 0 <= n < |calls| ==> PickOk(Run(calls[..n]), calls[n].q.domain, calls[n].pick)
  }

  /** Entry `e` was stored by call `c`. */
  ghost predicate StoredBy(e: Entry, c: Call) {
    e.domain in Domains(c.q.domain, c.q.reply) && e == EntryFor(e.domain, c.q.now, c.q.reply)
  }

  ghost predicate Stored(e: Entry, calls: seq<Call>) {
    exists j :: 0 <= j < |calls| && StoredBy(e, calls[j])
  }

  ghost predicate AllStored(entries: seq<Entry>, calls: seq<Call>) {
    forall i :: 0 <= i < |entries| ==> Stored(entries[i], calls)
  }

  lemma StoredGrows(e: Entry, calls: seq<Call>, c: Call)
    requires Stored(e, calls)
    ensures Stored(e, calls + [c])
  {
    var j :| 0 <= j < |calls| && StoredBy(e, calls[j]);
    assert StoredBy(e, (calls + [c])[j]);
  }

  lemma {:induction false} SurvivorsStored(entries: seq<Entry>, now: int, roll: nat -> nat, n: nat, calls: seq<Call>)
    requires AllStored(entries, calls)
    ensures AllStored(Survivors(entries, now, roll, n), calls)
  {
    hide Stored;
    if entries != [] {
      SurvivorsStored(entries[1..], now, roll, n + 1, calls);
    }
  }

  lemma {:induction false} SurvivorsShrink(entries: seq<Entry>, now: int, roll: nat -> nat, n: nat)
    ensures |Survivors(entries, now, roll, n)| <= |entries|
  {
    if entries != [] {
      SurvivorsShrink(entries[1..], now, roll, n + 1);
    }
  }

  /**
   A collection visits every entry once, removes exactly the expired and the unlucky ones, and leaves the
   others in order: `at` are the positions of those that stay.
   */
  lemma {:induction false} SurvivorsExact(entries: seq<Entry>, now: int, roll: nat -> nat, n: nat)
      returns (at: seq<nat>)
    ensures Picks(Survivors(entries, now, roll, n), entries, at)
    ensures forall i :: 0 <= i < |entries| ==> (i in at <==> entries[i].expire >= now && roll(n + i) != 0)
  {
    hide Picks, Extended;
    if entries == [] {
      at := NoPicks(entries);
    } else {
      var e, first := entries[0], !Doomed(entries[0], now, roll(n));
      var rest := SurvivorsExact(entries[1..], now, roll, n + 1);
      at := Extended(first, rest);
      assert [e] + entries[1..] == entries;
      ExtendedPicks(Survivors(entries[1..], now, roll, n + 1), e, entries[1..], rest, first);
      forall i | 0 <= i < |entries| ensures i in at <==> entries[i].expire >= now && roll(n + i) != 0 {
        ExtendedIn(first, rest, i);
      }
    }
  }

  lemma StoreStored(s: State, e: Entry, now: int, roll: nat -> nat, calls: seq<Call>)
    requires AllStored(s.entries, calls) && Stored(e, calls)
    ensures AllStored(Store(s, e, now, roll).entries, calls)
  {
    hide Stored, Survivors;
    SurvivorsStored(s.entries, now, roll, 0, calls);
  }

  lemma {:induction false} StoreAllStored(s: State, domains: seq<string>, q: Request, k: nat, calls: seq<Call>, c: Call)
    requires AllStored(s.entries, calls) && c in calls && c.q == q
    requires forall i :: 0 <= i < |domains| ==> domains[i] in Domains(q.domain, q.reply)
    ensures AllStored(StoreAll(s, domains, q, k).entries, calls)
    decreases |domains|
  {
    hide Store, AllStored, Domains, EntryFor;
    if domains != [] {
      var e := EntryFor(domains[0], q.now, q.reply);
      EntryStored(domains[0], q, calls, c);
      StoreStored(s, e, q.clock(k), q.roll(k), calls);
      StoreAllStored(Store(s, e, q.clock(k), q.roll(k)), domains[1..], q, k + 1, calls, c);
    }
  }

  lemma EntryStored(domain: string, q: Request, calls: seq<Call>, c: Call)
    requires domain in Domains(q.domain, q.reply) && c in calls && c.q == q
    ensures Stored(EntryFor(domain, q.now, q.reply), calls)
  {
    var j :| 0 <= j < |calls| && calls[j] == c;
    assert StoredBy(EntryFor(domain, q.now, q.reply), calls[j]);
  }

  /** Every cached entry was stored by an earlier call of the run. */
  lemma {:induction false} CachedWereStored(calls: seq<Call>)
    ensures AllStored(Run(calls).entries, calls)
  {
    hide StoreAll, Stored, PickOk, Domains;
    if calls != [] {
      var init, c := calls[..|calls| - 1], calls[|calls| - 1];
      assert init + [c] == calls;
      CachedWereStored(init);
      var s := Run(init);
      forall i | 0 <= i < |s.entries| ensures Stored(s.entries[i], calls) {
        StoredGrows(s.entries[i], init, c);
      }
      StoreAllStored(Purge(s, c.pick), Domains(c.q.domain, c.q.reply), c.q, 0, calls, c);
    }
  }

  /**
   Provenance of a hit, in every run: the answer is the one an earlier call stored, from a server reply
   or the failure default, less than its time to live ago, under the longest dot-suffix of the query
   that is cached at all.
   */
  lemma HitProvenance(calls: seq<Call>, n: nat)
    requires Legal(calls) && n < |calls| && Hit(Run(calls[..n]), calls[n].q, calls[n].pick)
    ensures var s, c := Run(calls[..n]), calls[n];
      exists j, t :: 0 <= j < n && t in Domains(calls[j].q.domain, calls[j].q.reply)
        && Respond(s, c.q, c.pick) == Answer(calls[j].q.reply)
        && c.q.now - calls[j].q.now < Ttl(calls[j].q.reply)
        && DotSuffix(t, c.q.domain)
        && (forall i :: 0 <= i < |s.entries| && DotSuffix(s.entries[i].domain, c.q.domain) ==>
            |s.entries[i].domain| <= |t|)
  {
    hide Run, Domains, Answer, Ttl, Candidates, DotSuffix;
    var s, c := Run(calls[..n]), calls[n];
    var e := s.entries[c.pick.value];
    CachedWereStored(calls[..n]);
    assert Stored(e, calls[..n]);
    var j :| 0 <= j < n && StoredBy(e, calls[..n][j]);
    assert PickOk(s, c.q.domain, c.pick);
    LongestIsLongest(s, c.q.domain, c.pick.value);
    assert e.domain in Domains(calls[j].q.domain, calls[j].q.reply);
  }

  /**
   A call gets no answer, and is judged as unknown whatever the server replies to it, unless an earlier
   call stored an answer under a dot-suffix of the domain.
   */
  lemma UnseenIsUnanswered(calls: seq<Call>, n: nat)
    requires Legal(calls) && n < |calls|
    requires forall j, t :: 0 <= j < n && t in Domains(calls[j].q.domain, calls[j].q.reply) ==>
      !DotSuffix(t, calls[n].q.domain)
    ensures Respond(Run(calls[..n]), calls[n].q, calls[n].pick) == UNANSWERED
  {
    hide Run, Domains, Answer, Ttl, DotSuffix, Legal;
    if Hit(Run(calls[..n]), calls[n].q, calls[n].pick) {
      HitProvenance(calls, n);
    }
  }

  lemma {:induction false} StoreAllSame(s: State, domains: seq<string>, q: Request, r: Request, k: nat)
    requires q.clock == r.clock && q.roll == r.roll
        && forall d :: EntryFor(d, q.now, q.reply) == EntryFor(d, r.now, r.reply)
    ensures StoreAll(s, domains, q, k) == StoreAll(s, domains, r, k)
    decreases |domains|
  {
    hide Store, EntryFor;
    if domains != [] {
      var e := EntryFor(domains[0], q.now, q.reply);
      assert e == EntryFor(domains[0], r.now, r.reply);
      StoreAllSame(Store(s, e, q.clock(k), q.roll(k)), domains[1..], q, r, k + 1);
    }
  }

  /** Without a category in the reply, the application in it changes nothing: not the call, not what it stores. */
  lemma ApplicationNeedsCategory(s: State, q: Request, pick: Option<nat>, application: Option<int>)
    requires q.reply.Reply? && q.reply.category == None
    ensures var r := q.(reply := q.reply.(application := application));
      Step(s, q, pick) == Step(s, r, pick) && Respond(s, q, pick) == Respond(s, r, pick)
  {
    var r := q.(reply := q.reply.(application := application));
    StoreAllSame(Purge(s, pick), Domains(q.domain, q.reply), q, r, 0);
  }

  lemma LongestIsLongest(s: State, domain: string, i: nat)
    requires LongestMatch(s, domain, i)
    ensures DotSuffix(s.entries[i].domain, domain)
    ensures forall j :: 0 <= j < |s.entries| && DotSuffix(s.entries[j].domain, domain) ==>
              |s.entries[j].domain| <= |s.entries[i].domain|
  {
    hide DotSuffix;
    var n :| 0 <= n < |Candidates(domain)| && s.entries[i].domain == Candidates(domain)[n] && NoneBefore(s, domain, n);
    CandidatesAreDotSuffixes(domain, s.entries[i].domain);
    forall j | 0 <= j < |s.entries| && DotSuffix(s.entries[j].domain, domain)
      ensures |s.entries[j].domain| <= |s.entries[i].domain|
    {
      var t := s.entries[j].domain;
      CandidatesAreDotSuffixes(domain, t);
      var m :| 0 <= m < |Candidates(domain)| && Candidates(domain)[m] == t;
      assert m >= n;
      if m > n {
        TailsShrink(domain, 0, n, m);
      }
    }
  }

  /** The cache never outgrows the arena. */
  lemma {:induction false} StoreAllBounded(s: State, domains: seq<string>, q: Request, k: nat)
    requires |s.entries| <= ARENA_SIZE
    ensures |StoreAll(s, domains, q, k).entries| <= ARENA_SIZE
    decreases |domains|
  {
    hide EntryFor, Survivors;
    if domains != [] {
      SurvivorsShrink(s.entries, q.clock(k), q.roll(k), 0);
      StoreAllBounded(Store(s, EntryFor(domains[0], q.now, q.reply), q.clock(k), q.roll(k)), domains[1..], q, k + 1);
    }
  }

  lemma {:induction false} RunBounded(calls: seq<Call>)
    ensures |Run(calls).entries| <= 65536
  {
    hide StoreAll, Domains;
    if calls != [] {
      var init, c := calls[..|calls| - 1], calls[|calls| - 1];
      RunBounded(init);
      StoreAllBounded(Purge(Run(init), c.pick), Domains(c.q.domain, c.q.reply), c.q, 0);
    }
  }

  // ----- An exhausted arena

  ghost predicate Full(s: State) {
    |s.entries| >= ARENA_SIZE
  }

  /** The lookup found a match that has expired. */
  ghost predicate ExpiredMatch(s: State, q: Request, pick: Option<nat>) {
    pick.Some? && pick.value < |s.entries| && s.entries[pick.value].expire <= q.now
  }

  lemma {:induction false} FullStoresNothing(s: State, domains: seq<string>, q: Request, k: nat)
    requires Full(s)
    ensures StoreAll(s, domains, q, k) == s
    decreases |domains|
  {
    if domains != [] {
      FullStoresNothing(s, domains[1..], q, k + 1);
    }
  }

  /** A collection that runs moves the time of the last one forward, and nothing moves it back. */
  lemma {:induction false} LastGcGrows(s: State, domains: seq<string>, q: Request, k: nat)
    ensures StoreAll(s, domains, q, k).lastGc >= s.lastGc
    decreases |domains|
  {
    hide Survivors, EntryFor;
    if domains != [] {
      LastGcGrows(Store(s, EntryFor(domains[0], q.now, q.reply), q.clock(k), q.roll(k)), domains[1..], q, k + 1);
    }
  }

  /**
   What a call does to a full cache.  Without an expired match it does nothing, and the collector, which
   runs inside insert, is not reached.  With one, a slot comes free: the first insert of the call collects
   if a collection is due, and if it is not due it fills the arena again, so that no later insert of the
   call gets to collect either.
   */
  lemma FullCacheStep(s: State, q: Request, pick: Option<nat>)
    requires |s.entries| == ARENA_SIZE && PickOk(s, q.domain, pick)
    ensures !ExpiredMatch(s, q, pick) ==> Step(s, q, pick) == s
    ensures Step(s, q, pick).lastGc != s.lastGc
       <==> ExpiredMatch(s, q, pick) && Domains(q.domain, q.reply) != [] && GcDue(s, q.clock(0))
  {
    hide Survivors, EntryFor, Domains, NoneBefore, Candidates;
    var domains := Domains(q.domain, q.reply);
    FullStoresNothing(s, domains, q, 0);
    if ExpiredMatch(s, q, pick) {
      PurgedStep(Purge(s, pick), domains, q);
    }
  }

  lemma PurgedStep(s: State, domains: seq<string>, q: Request)
    requires |s.entries| == ARENA_SIZE - 1
    ensures StoreAll(s, domains, q, 0).lastGc != s.lastGc <==> domains != [] && GcDue(s, q.clock(0))
  {
    hide Survivors, EntryFor;
    if domains != [] {
      var t := Store(s, EntryFor(domains[0], q.now, q.reply), q.clock(0), q.roll(0));
      if GcDue(s, q.clock(0)) {
        LastGcGrows(t, domains[1..], q, 1);
      } else {
        FullStoresNothing(t, domains[1..], q, 1);
      }
    }
  }

  /** Over a run: a cache that has become full stays as it is for ever, if no lookup finds an expired match. */
  lemma {:induction false} FullCacheIsStuck(before: seq<Call>, calls: seq<Call>)
    requires Legal(before + calls) && Full(Run(before))
    requires forall n :: 0 <= n < |calls| ==> !ExpiredMatch(Run(before), calls[n].q, calls[n].pick)
    ensures Run(before + calls) == Run(before)
  {
    hide Step, Full, ExpiredMatch, PickOk;
    if calls == [] {
      assert before + calls == before;
    } else {
      var init, c := calls[..|calls| - 1], calls[|calls| - 1];
      var all := before + calls;
      assert all[..|all| - 1] == before + init;
      LegalPrefix(all);
      FullCacheIsStuck(before, init);
      RunBounded(before);
      assert PickOk(Run(all[..|all| - 1]), c.q.domain, c.pick);
      StuckStep(Run(before), c.q, c.pick);
    }
  }

  lemma StuckStep(s: State, q: Request, pick: Option<nat>)
    requires Full(s) && |s.entries| <= ARENA_SIZE && PickOk(s, q.domain, pick) && !ExpiredMatch(s, q, pick)
    ensures Step(s, q, pick) == s
  {
    hide PickOk, ExpiredMatch, Step;
    FullCacheStep(s, q, pick);
  }

  lemma LegalPrefix(calls: seq<Call>)
    requires calls != [] && Legal(calls)
    ensures Legal(calls[..|calls| - 1])
  {
    hide PickOk, Run;
    var init := calls[..|calls| - 1];
    forall n | 0 <= n < |init| ensures PickOk(Run(init[..n]), init[n].q.domain, init[n].pick) {
      assert init[..n] == calls[..n];
    }
  }
}
