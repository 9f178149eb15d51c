/** The heuristic of manage.py that lets the time to live of a domain grow with how often it is queried. */
module Ttl {

  const SECONDS_PER_DAY := 86400
  const QUERIES_PER_DAY := 30

  /** Lines 61-62. */
  function Increase(count: nat, clients: nat): nat
    requires clients > 0
  {
    60 * (count / (QUERIES_PER_DAY * clients))
  }

  /** No client asks again before the answer has expired. */
  predicate Polite(count: nat, clients: nat, ttl: nat) {
    count * ttl <= clients * SECONDS_PER_DAY
  }

  /** Whatever the number of clients, growth is at most one minute for every `ttl` that fits in 2880 seconds. */
  lemma IncreaseBound(count: nat, clients: nat, ttl: nat)
    requires clients > 0 && ttl > 0 && Polite(count, clients, ttl)
    ensures Increase(count, clients) <= 60 * (2880 / ttl)
  {
    var m := count / (30 * clients);
    assert 30 * clients * m <= count;
    Scale(30 * clients * m, count, ttl);
    assert (30 * clients * m) * ttl == (30 * clients) * (m * ttl);
    assert clients * SECONDS_PER_DAY == (30 * clients) * 2880;
    Cancel(30 * clients, m * ttl, 2880);
    if m > 2880 / ttl {
      Scale(2880 / ttl + 1, m, ttl);
    }
  }

  lemma Scale(a: nat, b: nat, c: nat)
    requires a <= b
    ensures a * c <= b * c
  {
  }

  lemma Cancel(a: nat, b: nat, c: nat)
    requires a > 0 && a * b <= a * c
    ensures b <= c
  {
    if b > c {
      Scale(c + 1, b, a);
    }
  }

  const TTL_CAP := 2940

  /** A polite day never takes a ttl of a minute or more above the cap, and leaves one above 2880 alone. */
  lemma StaysUnderCap(count: nat, clients: nat, ttl: nat)
    requires clients > 0 && 60 <= ttl <= TTL_CAP && Polite(count, clients, ttl)
    ensures ttl + Increase(count, clients) <= TTL_CAP
    ensures ttl > 2880 ==> Increase(count, clients) == 0
  {
    hide Increase, Polite;
    IncreaseBound(count, clients, ttl);
    var m := 2880 / ttl;
    assert m * ttl <= 2880;
    UnderCap(m, ttl);
  }

  lemma UnderCap(m: nat, ttl: nat)
    requires m * ttl <= 2880 && 60 <= ttl <= TTL_CAP
    ensures ttl + 60 * m <= TTL_CAP && (ttl > 2880 ==> m == 0)
  {
    if m > 0 {
      Scale(60, ttl, m - 1);
      assert m * ttl == (m - 1) * ttl + ttl;
      Scale(1, m, ttl);
    }
  }

  // ----- Day after day

  datatype Day = Day(count: nat, clients: nat)

  function After(ttl: nat, days: seq<Day>): nat
    requires forall i :: 0 <= i < |days| ==> days[i].clients > 0
  {
    if days == [] then ttl
    else var t := After(ttl, days[..|days| - 1]); t + Increase(days[|days| - 1].count, days[|days| - 1].clients)
  }

  /** On every day, no client asks again before the answer it got that day expired. */
  predicate AllPolite(ttl: nat, days: seq<Day>)
    requires forall i :: 0 <= i < |days| ==> days[i].clients > 0
  {
    days == [] || (AllPolite(ttl, days[..|days| - 1])
                   && Polite(days[|days| - 1].count, days[|days| - 1].clients, After(ttl, days[..|days| - 1])))
  }

  /** The number of days on which the ttl grew. */
  function Growths(days: seq<Day>): nat
    requires forall i :: 0 <= i < |days| ==> days[i].clients > 0
  {
    if days == [] then 0
    else Growths(days[..|days| - 1]) + if Increase(days[|days| - 1].count, days[|days| - 1].clients) > 0 then 1 else 0
  }

  lemma {:induction false} GrowthsBounded(ttl: nat, days: seq<Day>)
    requires forall i :: 0 <= i < |days| ==> days[i].clients > 0
    requires 60 <= ttl <= TTL_CAP && AllPolite(ttl, days)
    ensures ttl + 60 * Growths(days) <= After(ttl, days) <= TTL_CAP
  {
    if days != [] {
      var init, last := days[..|days| - 1], days[|days| - 1];
      GrowthsBounded(ttl, init);
      StaysUnderCap(last.count, last.clients, After(ttl, init));
    }
  }

  /** Started at the default of 300, the ttl grows on at most 44 days, however many days pass. */
  lemma Converges(days: seq<Day>)
    requires forall i :: 0 <= i < |days| ==> days[i].clients > 0
    requires AllPolite(300, days)
    ensures Growths(days) <= 44 && 300 <= After(300, days) <= TTL_CAP
  {
    GrowthsBounded(300, days);
  }

  /** And 44 is reached: thirty queries a day from one client raise it by a minute each time. */
  lemma {:induction false} SlowestGrowth(n: nat)
    requires n <= 44
    ensures var days := seq(n, _ => Day(30, 1));
      AllPolite(300, days) && Growths(days) == n && After(300, days) == 300 + 60 * n
  {
    if n > 0 {
      SlowestGrowth(n - 1);
      var days := seq(n, _ => Day(30, 1));
      assert days[..n - 1] == seq(n - 1, _ => Day(30, 1));
      assert Increase(30, 1) == 60;
    }
  }
}
