/**
 What the commands of manage.py do to rows, written out, and what follows for the ttl of a row: the growth
 that Ttl speaks of is what the stores go through.
 */
module StoreLaws {
  import opened DomainStore
  import opened Ttl

  // ----- One command

  /** A domain that is new and well-formed goes into both stores; anything else changes nothing. */
  lemma AddWrites(s: Stores, domain: string, row: Row, known: bool)
    ensures var t := Step(s, Add(domain, row, known));
      if domain in s.pg || domain == "" || row.ttl <= 0 || !known then t == s
      else
        && t.pg.Keys == s.pg.Keys + {domain} && t.redis.Keys == s.redis.Keys + {domain}
        && t.pg[domain] == row && t.redis[domain] == row
        && (forall d :: d in s.pg ==> t.pg[d] == s.pg[d])
        && (forall d :: d in s.redis && d != domain ==> t.redis[d] == s.redis[d])
  {
  }

  lemma DeleteForgets(s: Stores, domain: string)
    ensures var t := Step(s, Delete(domain));
      && t.pg.Keys == s.pg.Keys - {domain} && t.redis == s.redis
      && forall d :: d in t.pg ==> t.pg[d] == s.pg[d]
  {
  }

  /**
   With at least one client every row gains a minute for every thirty queries per client, and Redis is given
   the rows that changed; without clients the division raises before anything is written.
   */
  lemma UpdateRaises(s: Stores, counts: map<string, nat>, clients: nat, d: string)
    requires d in s.pg
    ensures clients == 0 ==> Step(s, UpdateTtls(counts, clients)) == s
    ensures clients > 0 ==>
      var t, row, n := Step(s, UpdateTtls(counts, clients)), s.pg[d], if d in counts then counts[d] else 0;
      && t.pg.Keys == s.pg.Keys && t.redis.Keys >= s.redis.Keys
      && t.pg[d] == Row(row.ttl + 60 * (n / (30 * clients)), row.category, row.application, row.cacheDomains)
      && (if t.pg[d] != row then d in t.redis && t.redis[d] == t.pg[d]
          else (d in t.redis <==> d in s.redis) && (d in s.redis ==> t.redis[d] == s.redis[d]))
  {
  }

  /** Nothing of Redis that Postgres does not hold is touched. */
  lemma UpdateKeeps(s: Stores, counts: map<string, nat>, clients: nat, d: string)
    requires d in s.redis && d !in s.pg
    ensures d in Step(s, UpdateTtls(counts, clients)).redis
    ensures Step(s, UpdateTtls(counts, clients)).redis[d] == s.redis[d]
  {
  }

  /** Whatever the stores were: afterwards Redis has every row of Postgres, and what else it had. */
  lemma DumpCopies(s: Stores)
    ensures var t := Step(s, Dump);
      && t.pg == s.pg && t.redis.Keys == s.redis.Keys + s.pg.Keys
      && (forall d :: d in s.pg ==> t.redis[d] == s.pg[d])
      && (forall d :: d in s.redis && d !in s.pg ==> t.redis[d] == s.redis[d])
  {
  }

  // ----- The ttl of one row over a run

  /** What the ttl updates of a run say of `d`. */
  function Days(cs: seq<Command>, d: string): (days: seq<Day>)
    ensures forall i :: 0 <= i < |days| ==> days[i].clients > 0
  {
    if cs == [] then []
    else
      var c, days := cs[|cs| - 1], Days(cs[..|cs| - 1], d);
      if c.UpdateTtls? && c.clients > 0 then days + [Day(if d in c.counts then c.counts[d] else 0, c.clients)] else days
  }

  /**
   A row that is not deleted keeps its answer, and its ttl is what the updates make of it day by day, whatever
   else the run does.
   */
  lemma {:induction false} RowAfter(s: Stores, cs: seq<Command>, d: string)
    requires d in s.pg && s.pg[d].ttl >= 0 && forall i :: 0 <= i < |cs| ==> cs[i] != Delete(d)
    ensures d in Run(s, cs).pg
    ensures var row := s.pg[d];
      Run(s, cs).pg[d] == Row(After(row.ttl, Days(cs, d)), row.category, row.application, row.cacheDomains)
  {
    hide Increase, Step, After, Count;
    if cs == [] {
      assert After(s.pg[d].ttl, []) == s.pg[d].ttl by { AfterNone(s.pg[d].ttl); }
    } else {
      var init, c := cs[..|cs| - 1], cs[|cs| - 1];
      RowAfter(s, init, d);
      DayAfter(Run(s, init), c, d);
      if c.UpdateTtls? && c.clients > 0 {
        AfterSnoc(s.pg[d].ttl, Days(init, d), Day(Count(c.counts, d), c.clients));
        assert Days(cs, d) == Days(init, d) + [Day(Count(c.counts, d), c.clients)] by {
          assert Count(c.counts, d) == if d in c.counts then c.counts[d] else 0 by { CountIs(c.counts, d); }
        }
      }
    }
  }

  lemma CountIs(counts: map<string, nat>, d: string)
    ensures Count(counts, d) == if d in counts then counts[d] else 0
  {
  }

  lemma AfterNone(ttl: nat)
    ensures After(ttl, []) == ttl
  {
  }

  lemma AfterSnoc(ttl: nat, days: seq<Day>, day: Day)
    requires day.clients > 0 && forall i :: 0 <= i < |days| ==> days[i].clients > 0
    ensures After(ttl, days + [day]) == After(ttl, days) + Increase(day.count, day.clients)
  {
    hide Increase;
    assert (days + [day])[..|days|] == days;
  }

  lemma DayAfter(s: Stores, c: Command, d: string)
    requires d in s.pg && c != Delete(d)
    ensures d in Step(s, c).pg
    ensures Step(s, c).pg[d] == if c.UpdateTtls? && c.clients > 0
                                then s.pg[d].(ttl := s.pg[d].ttl + Increase(Count(c.counts, d), c.clients)) else s.pg[d]
  {
    hide Increase;
  }

  lemma {:induction false} RunSplit(s: Stores, cs: seq<Command>, ds: seq<Command>)
    ensures Run(s, cs + ds) == Run(Run(s, cs), ds)
  {
    hide Step;
    if ds == [] {
      assert cs + ds == cs;
    } else {
      assert (cs + ds)[..|cs + ds| - 1] == cs + ds[..|ds| - 1];
      RunSplit(s, cs, ds[..|ds| - 1]);
    }
  }

  /**
   A domain with the default ttl of 300 that is queried at most once per ttl by each client: whatever came
   before and whatever else happens, its ttl in Postgres grows on at most 44 days and never exceeds 2940.
   */
  lemma StoreConverges(before: seq<Command>, domain: string, row: Row, cs: seq<Command>)
    requires domain !in Run(EMPTY, before).pg && domain != "" && row.ttl == 300
    requires forall i :: 0 <= i < |cs| ==> cs[i] != Delete(domain)
    requires AllPolite(300, Days(cs, domain))
    ensures var rows := Run(EMPTY, before + [Add(domain, row, true)] + cs).pg;
      domain in rows && 300 <= rows[domain].ttl <= 2940 && rows[domain].(ttl := 300) == row
    ensures Growths(Days(cs, domain)) <= 44
  {
    hide Step, After, AllPolite, Growths, Days;
    var s, add := Run(EMPTY, before), Add(domain, row, true);
    assert (before + [add])[..|before|] == before;
    RunSplit(EMPTY, before + [add], cs);
    AddWrites(s, domain, row, true);
    RowAfter(Run(EMPTY, before + [add]), cs, domain);
    Converges(Days(cs, domain));
  }

  // ----- Inputs

  /** `n` days of thirty queries from one client. */
  function SlowDays(d: string, n: nat): (cs: seq<Command>)
    ensures |cs| == n && forall i :: 0 <= i < n ==> cs[i].UpdateTtls?
  {
    seq(n, _ => UpdateTtls(map[d := 30], 1))
  }

  lemma {:induction false} SlowDaysAre(d: string, n: nat)
    ensures Days(SlowDays(d, n), d) == seq(n, _ => Day(30, 1))
  {
    if n > 0 {
      SlowDaysAre(d, n - 1);
      assert SlowDays(d, n)[..n - 1] == SlowDays(d, n - 1);
    }
  }

  /** A minute a day from 300 to the cap, in both stores. */
  lemma SlowestInStore(domain: string, row: Row, n: nat)
    requires domain != "" && row.ttl == 300 && n <= 44
    ensures var s := Run(EMPTY, [Add(domain, row, true)] + SlowDays(domain, n));
      && domain in s.pg && domain in s.redis
      && s.pg[domain] == s.redis[domain] == row.(ttl := 300 + 60 * n)
  {
    hide Step, After, AllPolite, Growths, Days;
    var add, cs := Add(domain, row, true), SlowDays(domain, n);
    assert [] + [add] == [add] && [add][..0] == [];
    RunSplit(EMPTY, [add], cs);
    AddWrites(Run(EMPTY, []), domain, row, true);
    RowAfter(Run(EMPTY, [add]), cs, domain);
    SlowDaysAre(domain, n);
    SlowestGrowth(n);
    RunCovers([add] + cs);
  }

  /** The days that a comment in the code works out: 300, 840, 1020 and 1140 seconds. */
  lemma CommentedDays(row: Row)
    requires row.ttl == 300
    ensures var cs := [Add("a.b", row, true), UpdateTtls(map["a.b" := 288], 1), UpdateTtls(map["a.b" := 102], 1),
                       UpdateTtls(map["a.b" := 84], 1)];
      && Run(EMPTY, cs[..1]).pg == map["a.b" := row]
      && Run(EMPTY, cs[..2]).pg == map["a.b" := row.(ttl := 840)]
      && Run(EMPTY, cs[..3]).pg == map["a.b" := row.(ttl := 1020)]
      && Run(EMPTY, cs).pg == map["a.b" := row.(ttl := 1140)]
  {
    hide Step;
    var cs := [Add("a.b", row, true), UpdateTtls(map["a.b" := 288], 1), UpdateTtls(map["a.b" := 102], 1),
               UpdateTtls(map["a.b" := 84], 1)];
    assert Run(EMPTY, cs[..0]) == EMPTY && cs[..4] == cs;
    RunNext(EMPTY, cs, 0);
    RunNext(EMPTY, cs, 1);
    RunNext(EMPTY, cs, 2);
    RunNext(EMPTY, cs, 3);
    AddWrites(EMPTY, "a.b", row, true);
    SoloUpdate(Run(EMPTY, cs[..1]), "a.b", row, 288);
    SoloUpdate(Run(EMPTY, cs[..2]), "a.b", row.(ttl := 840), 102);
    SoloUpdate(Run(EMPTY, cs[..3]), "a.b", row.(ttl := 1020), 84);
  }

  lemma RunNext(s: Stores, cs: seq<Command>, k: nat)
    requires k < |cs|
    ensures Run(s, cs[..k + 1]) == Step(Run(s, cs[..k]), cs[k])
  {
    hide Step;
    assert cs[..k + 1][..k] == cs[..k];
  }

  lemma SoloUpdate(s: Stores, d: string, row: Row, n: nat)
    requires s.pg == map[d := row]
    ensures Step(s, UpdateTtls(map[d := n], 1)).pg == map[d := row.(ttl := row.ttl + 60 * (n / 30))]
  {
    hide Step;
    UpdateRaises(s, map[d := n], 1, d);
  }
}
