/**
 manage.py: the domain table in Postgres and its copy in Redis, which the server answers from.  Each
 command is one atomic step.
 */
module DomainStore {
  import opened Ttl

  datatype Row = Row(ttl: int, category: int, application: int, cacheDomains: seq<string>)

  datatype Stores = Stores(pg: map<string, Row>, redis: map<string, Row>)

  const EMPTY := Stores(map[], map[])

  /**
   `known` says whether category and application exist and the numbers fit the columns; `counts` is how
   often each domain was queried in the past day, `clients` the number of clients.
   */
  datatype Command =
    | Add(domain: string, row: Row, known: bool)
    | Delete(domain: string)
    | UpdateTtls(counts: map<string, nat>, clients: nat)
    | Dump

  /** The constraints on the table domains: the key is new and not empty, ttl is positive, references resolve. */
  predicate Insertable(s: Stores, domain: string, row: Row, known: bool) {
    domain !in s.pg && domain != "" && row.ttl > 0 && known
  }

  function Count(counts: map<string, nat>, domain: string): nat {
    if domain in counts then counts[domain] else 0
  }

  function Grown(pg: map<string, Row>, counts: map<string, nat>, clients: nat): map<string, Row>
    requires clients > 0
  {
    map d | d in pg :: pg[d].(ttl := pg[d].ttl + Increase(Count(counts, d), clients))
  }

  /** One command; a refused insert raises before anything is written. */
  function Step(s: Stores, c: Command): Stores {
    match c
    case Add(domain, row, known) =>
      if Insertable(s, domain, row, known) then Stores(s.pg[domain := row], s.redis[domain := row]) else s
    case Delete(domain) => s.(pg := s.pg - {domain})
    case UpdateTtls(counts, clients) =>
      if clients == 0 then s
      else
        var pg := Grown(s.pg, counts, clients);
        Stores(pg, s.redis + map d | d in pg && Increase(Count(counts, d), clients) > 0 :: pg[d])
    case Dump => s.(redis := s.redis + s.pg)
  }

  function Run(s: Stores, cs: seq<Command>): Stores {
    if cs == [] then s else Step(Run(s, cs[..|cs| - 1]), cs[|cs| - 1])
  }

  // ----- The commands on the live stores

  /** Postgres and Redis. */
  class Database {
    var pg: map<string, Row>
    var redis: map<string, Row>

    constructor ()
      ensures Abs() == EMPTY
    {
      pg, redis := map[], map[];
    }

    ghost function Abs(): Stores
      reads this
    {
      Stores(pg, redis)
    }

    /** db_domain_add: the insert raises when a constraint fails, before Redis is touched. */
    method DomainAdd(domain: string, row: Row, known: bool) returns (ok: bool)
      modifies this
      ensures Abs() == Step(old(Abs()), Add(domain, row, known)) && ok == Insertable(old(Abs()), domain, row, known)
    {
      if domain in pg || domain == "" || row.ttl <= 0 || !known {
        return false;
      }
      pg := pg[domain := row];
      redis := redis[domain := row];
      return true;
    }

    /** db_domain_del. */
    method DomainDel(domain: string)
      modifies this
      ensures Abs() == Step(old(Abs()), Delete(domain))
    {
      pg := pg - {domain};
    }

    /** The result of a query for rows, in whatever order the database gives them. */
    ghost predicate Fetched(result: seq<string>, domains: set<string>) {
      (forall d :: d in result <==> d in domains) && forall i, j :: 0 <= i < j < |result| ==> result[i] != result[j]
    }

    /** The loop of ttls_update and db_dump_to_redis: set each of the fetched rows in Redis. */
    method SetRows(result: seq<string>)
      requires forall i :: 0 <= i < |result| ==> result[i] in pg
      modifies `redis
      ensures redis.Keys == old(redis).Keys + set d | d in result
      ensures forall d :: d in redis ==> redis[d] == if d in result then pg[d] else old(redis)[d]
    {
      for i := 0 to |result|
        invariant redis.Keys == old(redis).Keys + set d | d in result[..i]
        invariant forall d :: d in redis ==> redis[d] == if d in result[..i] then pg[d] else old(redis)[d]
      {
        assert result[..i + 1] == result[..i] + [result[i]];
        redis := redis[result[i] := pg[result[i]]];
      }
      assert result[..|result|] == result;
    }

    /** db_dump_to_redis. */
    method DumpToRedis(result: seq<string>)
      requires Fetched(result, pg.Keys)
      modifies `redis
      ensures Abs() == Step(old(Abs()), Dump)
    {
      SetRows(result);
      assert redis == old(redis) + pg;
    }

    /** Lines 47-70: raise the ttl of what was queried too often. */
    method RaiseTtls(results: seq<string>, counts: map<string, nat>, clients: nat) returns (updated: seq<string>)
      requires clients > 0 && Fetched(results, pg.Keys * counts.Keys)
      modifies `pg
      ensures pg == Grown(old(pg), counts, clients) && pg.Keys == old(pg).Keys
      ensures forall d :: d in updated <==> d in old(pg) && Increase(Count(counts, d), clients) > 0
    {
      updated := [];
      for i := 0 to |results|
        invariant pg.Keys == old(pg).Keys
        invariant forall d :: d in pg ==>
          pg[d] == if d in results[..i] then Grown(old(pg), counts, clients)[d] else old(pg)[d]
        invariant forall d :: d in updated <==> d in results[..i] && Increase(Count(counts, d), clients) > 0
      {
        var domain := results[i];
        assert domain in results;
        assert results[..i + 1] == results[..i] + [domain];
        var minutes := counts[domain] / (30 * clients);
        var inc := minutes * 60;
        if inc > 0 {
          pg := pg[domain := pg[domain].(ttl := pg[domain].ttl + inc)];
          updated := updated + [domain];
        }
      }
      assert results[..|results|] == results;
    }

    /** ttls_update, for the results of its first query in any order; without clients its division raises. */
    method TtlsUpdate(results: seq<string>, counts: map<string, nat>, clients: nat)
      requires Fetched(results, pg.Keys * counts.Keys)
      modifies this
      ensures Abs() == Step(old(Abs()), UpdateTtls(counts, clients))
    {
      hide Increase, Grown, Count;
      if clients == 0 {
        return;
      }
      var updated := RaiseTtls(results, counts, clients);
      SetRows(updated);
      ghost var raised := map d | d in pg && Increase(Count(counts, d), clients) > 0 :: pg[d];
      assert redis == old(redis) + raised;
    }
  }

  // ----- What every run keeps

  /** Every row is in Redis with the value it has in Postgres. */
  ghost predicate Covers(s: Stores) {
    forall d :: d in s.pg ==> d in s.redis && s.redis[d] == s.pg[d]
  }

  ghost predicate Positive(rows: map<string, Row>) {
    forall d :: d in rows ==> rows[d].ttl > 0
  }

  lemma StepCovers(s: Stores, c: Command)
    requires Covers(s) && Positive(s.pg)
    ensures Covers(Step(s, c)) && Positive(Step(s, c).pg)
  {
    hide Increase;
  }

  /** In every run from empty stores Redis covers Postgres, and every ttl is positive. */
  lemma {:induction false} RunCovers(cs: seq<Command>)
    ensures Covers(Run(EMPTY, cs)) && Positive(Run(EMPTY, cs).pg)
  {
    hide Step;
    if cs != [] {
      RunCovers(cs[..|cs| - 1]);
      StepCovers(Run(EMPTY, cs[..|cs| - 1]), cs[|cs| - 1]);
    }
  }

  // ----- What the stores hold, read off the commands

  /** The command adds `d` with what the table accepts of a new row. */
  predicate Adds(c: Command, d: string) {
    c.Add? && c.domain == d && d != "" && c.row.ttl > 0 && c.known
  }

  /** One of the commands from `i` to `j` adds `d`. */
  predicate AddedIn(cs: seq<Command>, i: nat, j: nat, d: string)
    requires i <= j <= |cs|
  {
    exists n :: i <= n < j && Adds(cs[n], d)
  }

  predicate DeletedIn(cs: seq<Command>, i: nat, j: nat, d: string)
    requires i <= j <= |cs|
  {
    exists n :: i <= n < j && cs[n] == Delete(d)
  }

  /** `d` is added by a command that no deletion of `d` follows. */
  predicate Standing(cs: seq<Command>, d: string) {
    exists n :: 0 <= n < |cs| && Adds(cs[n], d) && !DeletedIn(cs, n + 1, |cs|, d)
  }

  lemma StepKeys(s: Stores, c: Command, d: string)
    requires Covers(s)
    ensures d in Step(s, c).pg <==> Adds(c, d) || (d in s.pg && c != Delete(d))
    ensures d in Step(s, c).redis <==> Adds(c, d) || d in s.redis
  {
    hide Increase;
  }

  lemma AddedSnoc(cs: seq<Command>, d: string)
    requires cs != []
    ensures AddedIn(cs, 0, |cs|, d) <==> Adds(cs[|cs| - 1], d) || AddedIn(cs[..|cs| - 1], 0, |cs| - 1, d)
  {
    var init := cs[..|cs| - 1];
    if AddedIn(init, 0, |init|, d) {
      var n :| 0 <= n < |init| && Adds(init[n], d);
      assert Adds(cs[n], d);
    }
    if AddedIn(cs, 0, |cs|, d) && !Adds(cs[|cs| - 1], d) {
      var n :| 0 <= n < |cs| && Adds(cs[n], d);
      assert Adds(init[n], d);
    }
  }

  lemma StandingSnoc(cs: seq<Command>, d: string)
    requires cs != []
    ensures Standing(cs, d) <==> Adds(cs[|cs| - 1], d) || (Standing(cs[..|cs| - 1], d) && cs[|cs| - 1] != Delete(d))
  {
    var init, c := cs[..|cs| - 1], cs[|cs| - 1];
    if Standing(init, d) && c != Delete(d) {
      var n :| 0 <= n < |init| && Adds(init[n], d) && !DeletedIn(init, n + 1, |init|, d);
      forall m | n + 1 <= m < |cs| ensures cs[m] != Delete(d) {
        assert m < |init| ==> cs[m] == init[m];
      }
      assert Adds(cs[n], d) && !DeletedIn(cs, n + 1, |cs|, d);
    }
    if Standing(cs, d) && !Adds(c, d) {
      var n :| 0 <= n < |cs| && Adds(cs[n], d) && !DeletedIn(cs, n + 1, |cs|, d);
      forall m | n + 1 <= m < |init| ensures init[m] != Delete(d) {
        assert cs[m] == init[m];
      }
      assert Adds(init[n], d) && !DeletedIn(init, n + 1, |init|, d);
      assert c != Delete(d);
    }
    if Adds(c, d) {
      assert !DeletedIn(cs, |cs|, |cs|, d);
    }
  }

  /**
   Postgres holds exactly the domains that were added and not deleted since, Redis exactly those that were
   ever added: nothing is forgotten.
   */
  lemma {:induction false} RedisRemembers(cs: seq<Command>, d: string)
    ensures d in Run(EMPTY, cs).pg <==> Standing(cs, d)
    ensures d in Run(EMPTY, cs).redis <==> AddedIn(cs, 0, |cs|, d)
  {
    hide Step, Adds, Standing, AddedIn;
    if cs == [] {
      NothingAdded(d);
    } else {
      var init := cs[..|cs| - 1];
      RedisRemembers(init, d);
      RunCovers(init);
      StepKeys(Run(EMPTY, init), cs[|cs| - 1], d);
      AddedSnoc(cs, d);
      StandingSnoc(cs, d);
    }
  }

  lemma NothingAdded(d: string)
    ensures !Standing([], d) && !AddedIn([], 0, 0, d)
  {
  }

  /** Every deletion of a domain that was added before is made good by adding it again. */
  predicate DeletionsUndone(cs: seq<Command>) {
    forall i :: 0 <= i < |cs| && cs[i].Delete? && AddedIn(cs, 0, i, cs[i].domain)
      ==> AddedIn(cs, i + 1, |cs|, cs[i].domain)
  }

  lemma {:induction false} LastAdd(cs: seq<Command>, k: nat, d: string) returns (n: nat)
    requires k <= |cs| && AddedIn(cs, 0, k, d)
    ensures n < k && Adds(cs[n], d) && !AddedIn(cs, n + 1, k, d)
  {
    hide Adds;
    if Adds(cs[k - 1], d) {
      n := k - 1;
    } else {
      var m :| 0 <= m < k && Adds(cs[m], d);
      assert m < k - 1;
      n := LastAdd(cs, k - 1, d);
      assert !AddedIn(cs, n + 1, k, d);
    }
  }

  lemma UndoneStands(cs: seq<Command>, d: string)
    requires DeletionsUndone(cs) && AddedIn(cs, 0, |cs|, d)
    ensures Standing(cs, d)
  {
    hide Adds;
    var n := LastAdd(cs, |cs|, d);
    forall m | n + 1 <= m < |cs| ensures cs[m] != Delete(d) {
      assert AddedIn(cs, 0, m, d);
    }
    assert !DeletedIn(cs, n + 1, |cs|, d);
  }

  lemma StandsUndone(cs: seq<Command>, i: nat)
    requires i < |cs| && cs[i].Delete? && Standing(cs, cs[i].domain)
    ensures AddedIn(cs, i + 1, |cs|, cs[i].domain)
  {
    hide Adds;
    var d := cs[i].domain;
    var n :| 0 <= n < |cs| && Adds(cs[n], d) && !DeletedIn(cs, n + 1, |cs|, d);
    assert cs[i] == Delete(d);
    assert n != i by {
      AddsNotDelete(cs[i], d);
    }
    assert n > i;
  }

  lemma AddsNotDelete(c: Command, d: string)
    requires c.Delete?
    ensures !Adds(c, d)
  {
  }

  /** So the two stores are equal exactly when every deletion of a domain that was there is undone later. */
  lemma StoresEqual(cs: seq<Command>)
    ensures Run(EMPTY, cs).pg == Run(EMPTY, cs).redis <==> DeletionsUndone(cs)
  {
    hide Run, Standing, AddedIn;
    var s := Run(EMPTY, cs);
    RunCovers(cs);
    if DeletionsUndone(cs) {
      forall d | d in s.redis ensures d in s.pg {
        RedisRemembers(cs, d);
        UndoneStands(cs, d);
      }
      assert s.redis.Keys == s.pg.Keys;
    }
    if s.pg == s.redis {
      forall i | 0 <= i < |cs| && cs[i].Delete? && AddedIn(cs, 0, i, cs[i].domain)
        ensures AddedIn(cs, i + 1, |cs|, cs[i].domain)
      {
        AddedEarlier(cs, i, cs[i].domain);
        RedisRemembers(cs, cs[i].domain);
        StandsUndone(cs, i);
      }
    }
  }

  lemma AddedEarlier(cs: seq<Command>, i: nat, d: string)
    requires i <= |cs| && AddedIn(cs, 0, i, d)
    ensures AddedIn(cs, 0, |cs|, d)
  {
  }

  /** In particular without deletions. */
  lemma EqualWithoutDelete(cs: seq<Command>)
    requires forall i :: 0 <= i < |cs| ==> !cs[i].Delete?
    ensures Run(EMPTY, cs).pg == Run(EMPTY, cs).redis
  {
    StoresEqual(cs);
  }

  /** An input on which they differ: add a domain, delete it. */
  lemma DeletedDiffers(row: Row)
    requires row.ttl > 0
    ensures Run(EMPTY, [Add("a.b", row, true), Delete("a.b")]) == Stores(map[], map["a.b" := row])
  {
    var cs := [Add("a.b", row, true), Delete("a.b")];
    assert cs[..1] == [cs[0]] && cs[..1][..0] == [];
    assert Run(EMPTY, []) == EMPTY;
    assert Run(EMPTY, cs[..1]) == Stores(map["a.b" := row], map["a.b" := row]);
    assert Run(EMPTY, cs).pg == map[];
  }

  /** No row and no key of Redis is the empty string. */
  lemma NoEmptyKey(cs: seq<Command>)
    ensures "" !in Run(EMPTY, cs).redis
  {
    RedisRemembers(cs, "");
  }

  /** A deleted domain stays in Redis as it was: no command but adding it again touches it. */
  lemma {:induction false} DeletedStays(s: Stores, cs: seq<Command>, d: string)
    requires d !in s.pg && d in s.redis && forall i :: 0 <= i < |cs| ==> !(cs[i].Add? && cs[i].domain == d)
    ensures var t := Run(s, cs); d !in t.pg && d in t.redis && t.redis[d] == s.redis[d]
  {
    hide Increase;
    if cs != [] {
      DeletedStays(s, cs[..|cs| - 1], d);
    }
  }

  // ----- Bounded times to live

  ghost predicate Reasonable(rows: map<string, Row>) {
    forall d :: d in rows ==> 60 <= rows[d].ttl <= TTL_CAP
  }

  /** Added with a reasonable ttl, and queried at most once per ttl by each client. */
  ghost predicate PoliteStep(s: Stores, c: Command) {
    match c
    case Add(_, row, _) => 60 <= row.ttl <= TTL_CAP
    case UpdateTtls(counts, clients) => forall d :: d in s.pg && s.pg[d].ttl > 0 ==>
        Polite(Count(counts, d), clients, s.pg[d].ttl)
    case _ => true
  }

  ghost predicate PoliteRun(cs: seq<Command>) {
    forall i :: 0 <= i < |cs| ==> PoliteStep(Run(EMPTY, cs[..i]), cs[i])
  }

  lemma StepReasonable(s: Stores, c: Command)
    requires Reasonable(s.pg) && PoliteStep(s, c)
    ensures Reasonable(Step(s, c).pg)
  {
    hide Increase, Polite;
    if c.UpdateTtls? && c.clients > 0 {
      forall d | d in s.pg ensures s.pg[d].ttl + Increase(Count(c.counts, d), c.clients) <= TTL_CAP {
        StaysUnderCap(Count(c.counts, d), c.clients, s.pg[d].ttl);
      }
    }
  }

  /** In every such run no ttl in Postgres ever exceeds 2940 seconds. */
  lemma {:induction false} TtlsStayBounded(cs: seq<Command>)
    requires PoliteRun(cs)
    ensures Reasonable(Run(EMPTY, cs).pg)
  {
    hide Step, PoliteStep;
    if cs != [] {
      var init := cs[..|cs| - 1];
      forall i | 0 <= i < |init| ensures PoliteStep(Run(EMPTY, init[..i]), init[i]) {
        assert init[..i] == cs[..i];
      }
      TtlsStayBounded(init);
      StepReasonable(Run(EMPTY, init), cs[|cs| - 1]);
    }
  }
}
