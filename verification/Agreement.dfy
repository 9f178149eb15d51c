/**
 The daemon's cache against the server it asks.  A hit answers for a whole subtree with what the server
 said about one domain; whether that is also what the server would say now depends on what Redis holds.
 */
module Agreement {
  import opened Bytes
  import opened Suffix
  import opened DomainSpec
  import opened Server

  /** Every call of the run was answered by the server from `redis`. */
  ghost predicate ServedBy(calls: seq<Call>, redis: Redis) {
    forall n :: 0 <= n < |calls| ==> calls[n].q.reply == ServerReply(redis, calls[n].q.domain)
  }

  /** If call `n` of this run is a hit, its answer is the server's. */
  ghost predicate AgreesOn(redis: Redis, calls: seq<Call>, n: nat) {
    Legal(calls) && ServedBy(calls, redis) && n < |calls| && Hit(Run(calls[..n]), calls[n].q, calls[n].pick)
    ==> Respond(Run(calls[..n]), calls[n].q, calls[n].pick) == Answer(ServerReply(redis, calls[n].q.domain))
  }

  /** The answer to a query for `y` is cached under `t`. */
  ghost predicate CachedUnder(redis: Redis, y: string, t: string) {
    t in Domains(y, ServerReply(redis, y))
  }

  /** Everything below what the answer for `y` is cached under has the same answer. */
  ghost predicate Coherent(redis: Redis) {
    forall y: string, t: string, x: string {:trigger CachedUnder(redis, y, t), DotSuffix(t, x)} ::
      CachedUnder(redis, y, t) && DotSuffix(t, x) ==> Answer(ServerReply(redis, x)) == Answer(ServerReply(redis, y))
  }

  lemma CoherentAgrees(redis: Redis, calls: seq<Call>, n: nat)
    requires Coherent(redis)
    ensures AgreesOn(redis, calls, n)
  {
    hide Run, Domains, Answer, Ttl, DotSuffix, ServerReply, Legal;
    if Legal(calls) && ServedBy(calls, redis) && n < |calls| && Hit(Run(calls[..n]), calls[n].q, calls[n].pick) {
      HitProvenance(calls, n);
      var s, c := Run(calls[..n]), calls[n];
      var j, t :| 0 <= j < n && t in Domains(calls[j].q.domain, calls[j].q.reply)
        && Respond(s, c.q, c.pick) == Answer(calls[j].q.reply) && DotSuffix(t, c.q.domain);
      assert CachedUnder(redis, calls[j].q.domain, t);
    }
  }

  // ----- A run that shows an incoherence

  /** A call at time 0, when no collection is due. */
  function Ask(redis: Redis, domain: string, pick: Option<nat>): Call {
    Call(Request(domain, 0, ServerReply(redis, domain), _ => 0, _ => _ => 1), pick)
  }

  function EntriesFor(domains: seq<string>, q: Request): (r: seq<Entry>)
    ensures |r| == |domains|
  {
    seq(|domains|, i requires 0 <= i < |domains| => EntryFor(domains[i], q.now, q.reply))
  }

  lemma {:induction false} AllStoredAtOnce(s: State, domains: seq<string>, redis: Redis, y: string, k: nat)
    requires s.lastGc == 0 && |s.entries| + |domains| <= ARENA_SIZE
    ensures StoreAll(s, domains, Ask(redis, y, None).q, k)
        == s.(entries := s.entries + EntriesFor(domains, Ask(redis, y, None).q))
    decreases |domains|
  {
    hide EntryFor, ServerReply;
    var q := Ask(redis, y, None).q;
    if domains != [] {
      var e := EntryFor(domains[0], q.now, q.reply);
      AllStoredAtOnce(s.(entries := s.entries + [e]), domains[1..], redis, y, k + 1);
      assert s.entries + EntriesFor(domains, q) == s.entries + [e] + EntriesFor(domains[1..], q);
    } else {
      assert s.entries + EntriesFor(domains, q) == s.entries;
    }
  }

  /** If anything cached is a dot-suffix of the domain, the lookup finds a longest one. */
  lemma MatchExists(s: State, domain: string, j: nat) returns (i: nat)
    requires j < |s.entries| && DotSuffix(s.entries[j].domain, domain)
    ensures LongestMatch(s, domain, i)
  {
    hide DotSuffix;
    var all := Candidates(domain);
    CandidatesAreDotSuffixes(domain, s.entries[j].domain);
    var last :| 0 <= last < |all| && all[last] == s.entries[j].domain;
    var n := 0;
    while !exists m :: 0 <= m < |s.entries| && s.entries[m].domain == all[n]
      invariant 0 <= n <= last && NoneBefore(s, domain, n)
      decreases last - n
    {
      assert n != last;
      n := n + 1;
    }
    i :| 0 <= i < |s.entries| && s.entries[i].domain == all[n];
  }

  lemma PositiveTtl(redis: Redis, domain: string)
    ensures Ttl(ServerReply(redis, domain)) > 0
  {
    var all := Candidates(domain);
    UnsignedTtl(redis, all);
  }

  lemma {:induction false} UnsignedTtl(redis: Redis, domains: seq<string>)
    ensures First(redis, domains).Some? ==> First(redis, domains).value.ttl >= 0
  {
    if domains != [] {
      UnsignedTtl(redis, domains[1..]);
    }
  }

  /** Ask for `y`, then for `x` below what that was cached under: the second call gets the answer for `y`. */
  lemma TwoCalls(redis: Redis, y: string, t: string, x: string) returns (calls: seq<Call>)
    requires CachedUnder(redis, y, t) && DotSuffix(t, x) && |Domains(y, ServerReply(redis, y))| <= ARENA_SIZE
    ensures Legal(calls) && ServedBy(calls, redis) && |calls| == 2 && calls[1].q.domain == x
    ensures Hit(Run(calls[..1]), calls[1].q, calls[1].pick)
    ensures Respond(Run(calls[..1]), calls[1].q, calls[1].pick) == Answer(ServerReply(redis, y))
  {
    hide DotSuffix, ServerReply, Domains, StoreAll, Ttl, Answer, PickOk;
    var first := Ask(redis, y, None);
    var ds := Domains(y, ServerReply(redis, y));
    var s := StoreAll(EMPTY, ds, first.q, 0);
    AllStoredAtOnce(EMPTY, ds, redis, y, 0);
    var j :| 0 <= j < |ds| && ds[j] == t;
    assert s.entries[j] == EntryFor(t, 0, first.q.reply);
    var i := MatchExists(s, x, j);
    calls := [first, Ask(redis, x, Some(i))];
    PositiveTtl(redis, y);
    assert s.entries[i] == EntryFor(ds[i], 0, first.q.reply);
    TwoCallsLegal(redis, y, x, i, s);
  }

  lemma TwoCallsLegal(redis: Redis, y: string, x: string, i: nat, s: State)
    requires s == StoreAll(EMPTY, Domains(y, ServerReply(redis, y)), Ask(redis, y, None).q, 0) && LongestMatch(s, x, i)
    ensures var calls := [Ask(redis, y, None), Ask(redis, x, Some(i))];
      Legal(calls) && Run(calls[..1]) == s
  {
    hide ServerReply, Domains, StoreAll, LongestMatch, Candidates;
    var calls := [Ask(redis, y, None), Ask(redis, x, Some(i))];
    assert calls[..0] == [] && calls[..1] == [calls[0]] && calls[..1][..0] == [];
    assert Run([]) == EMPTY;
    assert PickOk(EMPTY, y, None);
    assert Purge(EMPTY, None) == EMPTY;
    assert Run(calls[..1]) == Step(EMPTY, calls[0].q, None) == s;
  }

  /** No row lists more domains than the arena has room for. */
  ghost predicate ListsFit(redis: Redis) {
    forall d :: d in redis ==> |redis[d].cacheDomains| <= ARENA_SIZE
  }

  /**
   Hits agree with the server, in every run and whatever is asked, exactly if what Redis holds is coherent.
   */
  lemma AgreementIsCoherence(redis: Redis)
    requires ListsFit(redis)
    ensures (forall calls: seq<Call>, n: nat :: AgreesOn(redis, calls, n)) <==> Coherent(redis)
  {
    hide AgreesOn, Coherent;
    if Coherent(redis) {
      forall calls: seq<Call>, n: nat ensures AgreesOn(redis, calls, n) {
        CoherentAgrees(redis, calls, n);
      }
    }
    if forall calls: seq<Call>, n: nat :: AgreesOn(redis, calls, n) {
      AgreementNeedsCoherence(redis);
    }
  }

  lemma AgreementNeedsCoherence(redis: Redis)
    requires ListsFit(redis) && forall calls: seq<Call>, n: nat :: AgreesOn(redis, calls, n)
    ensures Coherent(redis)
  {
    hide DotSuffix, ServerReply, Answer, Run, Legal, ServedBy, CachedUnder;
    forall y: string, t: string, x: string | CachedUnder(redis, y, t) && DotSuffix(t, x)
      ensures Answer(ServerReply(redis, x)) == Answer(ServerReply(redis, y))
    {
      DomainsFit(redis, y);
      var calls := TwoCalls(redis, y, t, x);
      assert AgreesOn(redis, calls, 1);
    }
  }

  lemma DomainsFit(redis: Redis, y: string)
    requires ListsFit(redis)
    ensures |Domains(y, ServerReply(redis, y))| <= ARENA_SIZE
  {
    hide First;
    if y != "" && First(redis, Candidates(y)).Some? {
      FirstIsStored(redis, Candidates(y));
      NamedLength(Listed(First(redis, Candidates(y)).value.cacheDomains));
    }
  }

  lemma {:induction false} FirstIsStored(redis: Redis, domains: seq<string>)
    ensures First(redis, domains).Some? ==> exists d :: d in redis && First(redis, domains).value == redis[d]
  {
    if domains != [] {
      FirstIsStored(redis, domains[1..]);
    }
  }

  lemma {:induction false} NamedLength(ds: seq<Option<string>>)
    ensures |Named(ds)| <= |ds|
  {
    if ds != [] {
      NamedLength(ds[1..]);
    }
  }

  // ----- What breaks agreement

  /**
   A stored domain with a parent that has no stored suffix breaks agreement: the server's empty answer
   for the parent is cached and answers for the stored domain too.
   */
  lemma UncoveredParentBreaks(redis: Redis, u: string, y: string)
    requires y != "" && DotSuffix(y, u) && (forall d :: d in redis ==> !DotSuffix(d, y))
    requires Answer(ServerReply(redis, u)) != Response(0, 0)
    ensures !Coherent(redis)
  {
    hide DotSuffix, First;
    FirstIsLongest(redis, y);
    assert CachedUnder(redis, y, y);
  }

  /** Call `n` of this run asks for `x` and is a hit. */
  ghost predicate Serves(redis: Redis, calls: seq<Call>, n: nat, x: string) {
    && Legal(calls) && ServedBy(calls, redis) && n < |calls| && calls[n].q.domain == x
    && Hit(Run(calls[..n]), calls[n].q, calls[n].pick)
  }

  lemma ServedAt(calls: seq<Call>, redis: Redis, j: nat)
    requires ServedBy(calls, redis) && j < |calls|
    ensures calls[j].q.reply == ServerReply(redis, calls[j].q.domain)
  {
  }
}
