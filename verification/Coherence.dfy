/**
 What must be in Redis for the daemon's cache to be right, as a test over the stored rows, and which rows
 the daemon ever uses.
 */
module Coherence {
  import opened Bytes
  import opened Suffix
  import opened DomainSpec
  import DomainStore
  import opened Server
  import opened Agreement

  const ZERO := Response(0, 0)

  function RowAnswer(row: DomainStore.Row): Response {
    Response(row.category, row.application)
  }

  /** What the server answers for `x`. */
  function Says(redis: Redis, x: string): Response {
    Answer(ServerReply(redis, x))
  }

  /** The row unmarshals on the server. */
  predicate Readable(row: DomainStore.Row) {
    row.ttl >= 0
  }

  // ----- The test

  /** Whatever a row is cached under, and every stored domain below that, has the row's answer. */
  predicate ListsCoherent(redis: Redis) {
    forall d, t :: d in redis && Readable(redis[d]) && t in redis[d].cacheDomains ==>
      && Says(redis, t) == RowAnswer(redis[d])
      && forall u :: u in redis && t in Candidates(u) ==> Says(redis, u) == RowAnswer(redis[d])
  }

  /** Every parent of a stored domain that has an answer has one too. */
  predicate ParentsStored(redis: Redis) {
    forall u, y :: u in redis && Says(redis, u) != ZERO && y in Candidates(u) && y != "" ==>
      First(redis, Candidates(y)).Some?
  }

  /** No stored domain that has an answer ends in a dot. */
  predicate NoTrailingDot(redis: Redis) {
    forall u :: u in redis && u != "" && u[|u| - 1] == '.' ==> Says(redis, u) == ZERO
  }

  predicate RowsCoherent(redis: Redis) {
    ListsCoherent(redis) && ParentsStored(redis) && NoTrailingDot(redis)
  }

  // ----- Which row answers

  /** Of two dot-suffixes of a domain the shorter is one of the longer. */
  lemma SuffixesNest(a: string, b: string, x: string)
    requires DotSuffix(a, x) && DotSuffix(b, x) && |a| <= |b|
    ensures DotSuffix(a, b)
  {
    if b != x && a != x {
      var d :| 0 <= d < |x| && x[d] == '.' && a == x[d + 1..];
      var e :| 0 <= e < |x| && x[e] == '.' && b == x[e + 1..];
      if e < d {
        assert b[d - e - 1] == '.' && a == b[d - e - 1 + 1..];
      }
    }
  }

  /** A stored dot-suffix means a longest one. */
  lemma {:induction false} LongestExists(redis: Redis, x: string, u: string) returns (v: string)
    requires u in redis && DotSuffix(u, x)
    ensures LongestStored(redis, x, v)
  {
    hide DotSuffix;
    var all := Candidates(x);
    CandidatesAreDotSuffixes(x, u);
    var last :| 0 <= last < |all| && all[last] == u;
    var n := 0;
    while all[n] !in redis
      invariant 0 <= n <= last && forall m :: 0 <= m < n ==> all[m] !in redis
      decreases last - n
    {
      n := n + 1;
    }
    v := all[n];
    CandidatesAreDotSuffixes(x, v);
    forall w | w in redis && DotSuffix(w, x) ensures |w| <= |v| {
      CandidatesAreDotSuffixes(x, w);
      var m :| 0 <= m < |all| && all[m] == w;
      if n < m {
        TailsShrink(x, 0, n, m);
      }
    }
  }

  lemma SaysOfStored(redis: Redis, x: string, u: string)
    requires "" !in redis && LongestStored(redis, x, u)
    ensures x != "" && Says(redis, x) == if Readable(redis[u]) then RowAnswer(redis[u]) else ZERO
  {
    hide First, Candidates;
    FirstIsLongest(redis, x);
  }

  lemma SaysNothing(redis: Redis, x: string)
    requires forall d :: d in redis ==> !DotSuffix(d, x)
    ensures Says(redis, x) == ZERO && (x != "" ==> First(redis, Candidates(x)) == None)
  {
    hide First, Candidates;
    FirstIsLongest(redis, x);
  }

  /** What is below `t` has the answer of `t`, or of a stored domain below `t`. */
  lemma SaysBelow(redis: Redis, t: string, x: string)
    requires "" !in redis && DotSuffix(t, x)
    ensures Says(redis, x) == Says(redis, t)
         || exists u :: u in redis && DotSuffix(t, u) && Says(redis, x) == Says(redis, u)
  {
    hide DotSuffix, Says;
    if w :| w in redis && DotSuffix(w, x) {
      var u := LongestExists(redis, x, w);
      SaysOfStored(redis, x, u);
      SelfLongest(redis, u);
      SaysOfStored(redis, u, u);
      if |t| <= |u| {
        SuffixesNest(t, u, x);
      } else {
        SuffixesNest(u, t, x);
        forall v | v in redis && DotSuffix(v, t) ensures |v| <= |u| {
          SuffixOfSuffix(v, t, x);
        }
        SaysOfStored(redis, t, u);
      }
    } else {
      forall d | d in redis ensures !DotSuffix(d, t) {
        if DotSuffix(d, t) {
          SuffixOfSuffix(d, t, x);
        }
      }
      SaysNothing(redis, x);
      SaysNothing(redis, t);
    }
  }

  lemma SelfLongest(redis: Redis, u: string)
    requires u in redis
    ensures LongestStored(redis, u, u)
  {
  }

  // ----- What an answer is cached under

  lemma {:induction false} NamedListed(ds: seq<string>)
    ensures Named(Listed(ds)) == ds
  {
    if ds != [] {
      NamedListed(ds[1..]);
      assert Listed(ds)[1..] == Listed(ds[1..]);
      assert [ds[0]] + ds[1..] == ds;
    }
  }

  /** The row the server answers `y` from, and that the answer is cached under what that row lists. */
  lemma AnsweredFromRow(redis: Redis, y: string) returns (d: string)
    requires y != "" && First(redis, Candidates(y)).Some?
    ensures d in redis && Readable(redis[d]) && First(redis, Candidates(y)) == Some(redis[d])
    ensures Says(redis, y) == RowAnswer(redis[d]) && Domains(y, ServerReply(redis, y)) == redis[d].cacheDomains
  {
    hide First, Candidates;
    FirstIsStored(redis, Candidates(y));
    UnsignedTtl(redis, Candidates(y));
    d :| d in redis && First(redis, Candidates(y)).value == redis[d];
    NamedListed(redis[d].cacheDomains);
  }

  lemma AnsweredFromNothing(redis: Redis, y: string)
    requires y == "" || First(redis, Candidates(y)) == None
    ensures Says(redis, y) == ZERO && Domains(y, ServerReply(redis, y)) == [y]
  {
    hide First, Candidates;
  }

  /** A stored domain is answered from its own row. */
  lemma AnsweredFromOwnRow(redis: Redis, d: string)
    requires d in redis && d != "" && Readable(redis[d])
    ensures Says(redis, d) == RowAnswer(redis[d]) && Domains(d, ServerReply(redis, d)) == redis[d].cacheDomains
  {
    hide First, Candidates;
    SelfLongest(redis, d);
    FirstIsLongest(redis, d);
    NamedListed(redis[d].cacheDomains);
  }

  // ----- The test is exact

  lemma RowsSuffice(redis: Redis, y: string, t: string, x: string)
    requires "" !in redis && RowsCoherent(redis) && CachedUnder(redis, y, t) && DotSuffix(t, x)
    ensures Says(redis, x) == Says(redis, y)
  {
    hide Says, DotSuffix, First, Domains, ServerReply, Candidates;
    SaysBelow(redis, t, x);
    if y != "" && First(redis, Candidates(y)).Some? {
      var d := AnsweredFromRow(redis, y);
    } else {
      AnsweredFromNothing(redis, y);
      assert t == y;
    }
    if Says(redis, x) != Says(redis, t) {
      var u :| u in redis && DotSuffix(t, u) && Says(redis, x) == Says(redis, u);
      CandidatesAreDotSuffixes(u, t);
      if t == "" {
        EmptySuffix(u);
      }
    }
  }

  lemma EmptySuffix(u: string)
    requires u != ""
    ensures DotSuffix("", u) <==> u[|u| - 1] == '.'
  {
    if u[|u| - 1] == '.' {
      assert u[|u| - 1 + 1..] == "";
    }
  }

  lemma RowsNeeded(redis: Redis)
    requires "" !in redis && Coherent(redis)
    ensures RowsCoherent(redis)
  {
    hide Says, First, Domains, ServerReply, Candidates, DotSuffix;
    forall d, t | d in redis && Readable(redis[d]) && t in redis[d].cacheDomains
      ensures Says(redis, t) == RowAnswer(redis[d])
      ensures forall u :: u in redis && t in Candidates(u) ==> Says(redis, u) == RowAnswer(redis[d])
    {
      AnsweredFromOwnRow(redis, d);
      assert CachedUnder(redis, d, t);
      SuffixOfItself(t);
      Coherently(redis, d, t, t);
      forall u | u in redis && t in Candidates(u) ensures Says(redis, u) == RowAnswer(redis[d]) {
        CandidatesAreDotSuffixes(u, t);
        Coherently(redis, d, t, u);
      }
    }
    forall u, y | u in redis && Says(redis, u) != ZERO && y in Candidates(u) && y != ""
      ensures First(redis, Candidates(y)).Some?
    {
      CandidatesAreDotSuffixes(u, y);
      if First(redis, Candidates(y)) == None {
        AnsweredFromNothing(redis, y);
        Coherently(redis, y, y, u);
      }
    }
    forall u | u in redis && u != "" && u[|u| - 1] == '.' ensures Says(redis, u) == ZERO {
      EmptySuffix(u);
      AnsweredFromNothing(redis, "");
      Coherently(redis, "", "", u);
    }
  }

  lemma SuffixOfItself(t: string)
    ensures DotSuffix(t, t)
  {
  }

  lemma Coherently(redis: Redis, y: string, t: string, x: string)
    requires Coherent(redis) && t in Domains(y, ServerReply(redis, y)) && DotSuffix(t, x)
    ensures Says(redis, x) == Says(redis, y)
  {
    hide Domains, ServerReply, DotSuffix;
    assert CachedUnder(redis, y, t);
  }

  /** The test over the rows decides coherence. */
  lemma CoherentIffRows(redis: Redis)
    requires "" !in redis
    ensures Coherent(redis) <==> RowsCoherent(redis)
  {
    hide RowsCoherent, DotSuffix, ServerReply, CachedUnder, Says;
    if RowsCoherent(redis) {
      forall y: string, t: string, x: string | CachedUnder(redis, y, t) && DotSuffix(t, x)
        ensures Answer(ServerReply(redis, x)) == Answer(ServerReply(redis, y))
      {
        RowsSuffice(redis, y, t, x);
        SaysIs(redis, x);
        SaysIs(redis, y);
      }
    }
    if Coherent(redis) {
      RowsNeeded(redis);
    }
  }

  lemma SaysIs(redis: Redis, x: string)
    ensures Says(redis, x) == Answer(ServerReply(redis, x))
  {
  }

  /**
   Hits agree with the server, in every run and whatever is asked, exactly if the rows pass the test.
   */
  lemma AgreementIsTestable(redis: Redis)
    requires ListsFit(redis) && "" !in redis
    ensures (forall calls: seq<Call>, n: nat :: AgreesOn(redis, calls, n)) <==> RowsCoherent(redis)
  {
    hide AgreesOn, Coherent, RowsCoherent, ListsFit;
    AgreementIsCoherence(redis);
    CoherentIffRows(redis);
  }

  // ----- A store that fails it

  const ONE_ROW: Redis := map["a.b" := DomainStore.Row(300, 5, 0, ["a.b"])]

  /** One row, as `domain-add a.b --category 5 --cache-domains a.b` makes it: ask for b, then for a.b. */
  lemma OneRowDisagrees() returns (calls: seq<Call>)
    ensures Serves(ONE_ROW, calls, 1, "a.b")
    ensures Respond(Run(calls[..1]), calls[1].q, calls[1].pick) == ZERO
    ensures Says(ONE_ROW, "a.b") == Response(5, 0)
  {
    hide First, Candidates, Run, Legal, ServedBy, Hit, Domains, ServerReply, Respond;
    AnsweredFromOwnRow(ONE_ROW, "a.b");
    forall d | d in ONE_ROW ensures !DotSuffix(d, "b") {
    }
    SaysNothing(ONE_ROW, "b");
    AnsweredFromNothing(ONE_ROW, "b");
    assert "a.b"[1] == '.' && "a.b"[1 + 1..] == "b";
    assert CachedUnder(ONE_ROW, "b", "b");
    calls := TwoCalls(ONE_ROW, "b", "b", "a.b");
  }

  const ONE_LABEL: Redis := map["b" := DomainStore.Row(300, 5, 0, ["b"])]

  /** One that passes it: a single label, cached under itself. */
  lemma OneLabelAgrees()
    ensures RowsCoherent(ONE_LABEL)
  {
    hide First, Says, Candidates;
    AnsweredFromOwnRow(ONE_LABEL, "b");
    SelfLongest(ONE_LABEL, "b");
    FirstIsLongest(ONE_LABEL, "b");
    forall y | y in Candidates("b") ensures y == "b" {
      CandidatesAreDotSuffixes("b", y);
    }
  }

  // ----- Which rows are ever used

  /** Call `n` of this run asks for `x` and is answered `r` from the cache. */
  ghost predicate ServesAs(redis: Redis, calls: seq<Call>, n: nat, x: string, r: Response) {
    Serves(redis, calls, n, x) && Respond(Run(calls[..n]), calls[n].q, calls[n].pick) == r
  }

  /** Row `d` has the answer `r` and lists a dot-suffix of `x`. */
  ghost predicate RowServes(redis: Redis, d: string, x: string, r: Response) {
    && d in redis && Readable(redis[d]) && RowAnswer(redis[d]) == r
    && exists t :: t in redis[d].cacheDomains && DotSuffix(t, x)
  }

  lemma HitFromRow(redis: Redis, calls: seq<Call>, n: nat, x: string, r: Response) returns (d: string)
    requires ServesAs(redis, calls, n, x, r) && r != ZERO
    ensures RowServes(redis, d, x, r)
  {
    hide DotSuffix, ServerReply, Run, Legal, ServedBy, Domains, Ttl, First, Candidates, Respond, Answer, Says;
    HitProvenance(calls, n);
    var j, t :| 0 <= j < n && t in Domains(calls[j].q.domain, calls[j].q.reply)
      && r == Answer(calls[j].q.reply) && DotSuffix(t, x);
    ServedAt(calls, redis, j);
    var y := calls[j].q.domain;
    SaysIs(redis, y);
    if y == "" || First(redis, Candidates(y)) == None {
      AnsweredFromNothing(redis, y);
      assert false;
    }
    d := AnsweredFromRow(redis, y);
  }

  /**
   A domain is answered with `r`, something other than unknown, from the cache of some run if and only if
   some row has that answer and lists a suffix of the domain to be cached under.
   */
  lemma ServedIffListed(redis: Redis, x: string, r: Response)
    requires ListsFit(redis) && "" !in redis && r != ZERO
    ensures (exists calls: seq<Call>, n: nat :: ServesAs(redis, calls, n, x, r))
       <==> (exists d :: RowServes(redis, d, x, r))
  {
    hide ListsFit, DotSuffix, ServerReply, Answer, Run, Legal, ServedBy, Domains, Respond, Says;
    if calls: seq<Call>, n: nat :| ServesAs(redis, calls, n, x, r) {
      var d := HitFromRow(redis, calls, n, x, r);
    }
    if d :| RowServes(redis, d, x, r) {
      var t :| t in redis[d].cacheDomains && DotSuffix(t, x);
      AnsweredFromOwnRow(redis, d);
      SaysIs(redis, d);
      DomainsFit(redis, d);
      var calls := TwoCalls(redis, d, t, x);
      assert ServesAs(redis, calls, 1, x, r);
    }
  }

  /**
   In particular the cache ever answers anything other than unknown if and only if some row has such an
   answer and a list that is not empty.  Adding a domain without cache domains makes the list empty.
   */
  lemma ClassifiedIffListed(redis: Redis)
    requires ListsFit(redis) && "" !in redis
    ensures (exists calls: seq<Call>, n: nat, x: string, r: Response :: r != ZERO && ServesAs(redis, calls, n, x, r))
       <==> (exists d :: d in redis && Readable(redis[d]) && RowAnswer(redis[d]) != ZERO && redis[d].cacheDomains != [])
  {
    hide ListsFit, DotSuffix, ServesAs;
    if calls: seq<Call>, n: nat, x: string, r: Response :| r != ZERO && ServesAs(redis, calls, n, x, r) {
      var d := HitFromRow(redis, calls, n, x, r);
    }
    if d :| d in redis && Readable(redis[d]) && RowAnswer(redis[d]) != ZERO && redis[d].cacheDomains != [] {
      var t, r := redis[d].cacheDomains[0], RowAnswer(redis[d]);
      SuffixOfItself(t);
      assert RowServes(redis, d, t, r);
      ServedIffListed(redis, t, r);
    }
  }

  // ----- A full cache

  function Same(n: nat, d: string): (r: seq<string>)
    ensures |r| == n && forall i :: 0 <= i < n ==> r[i] == d
  {
    seq(n, _ => d)
  }

  /** One row that lists as many domains as the arena has slots. */
  function LongRow(n: nat): Redis {
    map["a" := DomainStore.Row(300, 5, 0, Same(n, "a"))]
  }

  lemma AskedOnce(n: nat)
    requires n <= ARENA_SIZE
    ensures var s, q := Run([Ask(LongRow(n), "a", None)]), Ask(LongRow(n), "a", None).q;
      s.entries == EntriesFor(Same(n, "a"), q) && s.lastGc == 0 && Ttl(q.reply) == 300
  {
    hide First, Candidates, StoreAll, EntryFor, Same;
    var redis := LongRow(n);
    var c := Ask(redis, "a", None);
    AnsweredFromOwnRow(redis, "a");
    SelfLongest(redis, "a");
    FirstIsLongest(redis, "a");
    assert [c][..0] == [] && Run([]) == EMPTY;
    assert Run([c]) == Step(EMPTY, c.q, None) == StoreAll(EMPTY, Same(n, "a"), c.q, 0);
    AllStoredAtOnce(EMPTY, Same(n, "a"), redis, "a", 0);
    assert [] + EntriesFor(Same(n, "a"), c.q) == EntriesFor(Same(n, "a"), c.q);
  }

  lemma OnlyB(x: string)
    requires x in Candidates("b")
    ensures x == "b"
  {
    CandidatesAreDotSuffixes("b", x);
  }

  /**
   A full cache is reached, and then a collection that is due is not run: one call fills the arena with
   entries that live 300 seconds; at time 1000, all of them expired and no collection made yet, a call for
   another domain leaves everything as it is.
   */
  lemma FullIsReached() returns (first: Call, second: Call)
    ensures Legal([first, second]) && ServedBy([first, second], LongRow(ARENA_SIZE))
    ensures Full(Run([first])) && GcDue(Run([first]), second.q.clock(0))
    ensures forall i :: 0 <= i < |Run([first]).entries| ==> Run([first]).entries[i].expire < second.q.now
    ensures Run([first, second]) == Run([first])
  {
    FullWhen(ARENA_SIZE);
    first, second := Ask(LongRow(ARENA_SIZE), "a", None), AskLater(LongRow(ARENA_SIZE), "b");
  }

  /** A call at time 1000. */
  function AskLater(redis: Redis, domain: string): Call {
    Call(Request(domain, 1000, ServerReply(redis, domain), _ => 1000, _ => _ => 1), None)
  }

  lemma FullWhen(n: nat)
    requires n == ARENA_SIZE
    ensures var first, second, redis := Ask(LongRow(n), "a", None), AskLater(LongRow(n), "b"), LongRow(n);
      && Legal([first, second]) && ServedBy([first, second], redis)
      && Full(Run([first])) && GcDue(Run([first]), second.q.clock(0))
      && (forall i :: 0 <= i < |Run([first]).entries| ==> Run([first]).entries[i].expire < second.q.now)
      && Run([first, second]) == Run([first])
  {
    hide ServerReply, Candidates, Same, Step, LongRow;
    var first, second := Ask(LongRow(n), "a", None), AskLater(LongRow(n), "b");
    var calls, s := [first, second], Run([first]);
    AskedOnce(n);
    assert calls[..0] == [] && calls[..1] == [first] && Run([]) == EMPTY;
    assert PickOk(EMPTY, "a", None);
    forall m, i | 0 <= m < |Candidates("b")| && 0 <= i < |s.entries| ensures s.entries[i].domain != Candidates("b")[m] {
      OnlyB(Candidates("b")[m]);
    }
    assert PickOk(s, "b", None);
    FullCacheStep(s, second.q, None);
    assert calls[..|calls| - 1] == [first];
    assert Run(calls) == Step(s, second.q, None);
  }
}
