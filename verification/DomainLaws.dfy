/**
 What the domain cache promises to those that ask it, in the numbers of domain_lookup.c: what was stored is
 answered until it expires, unless the collector throws it out at random.
 */
module DomainLaws {
  import opened Bytes
  import opened Suffix
  import opened DomainSpec
  import opened Kept

  // ----- Collections

  /** No collection is made within 300 seconds of the last one, and one that is made is made now. */
  lemma CollectionInterval(s: State, e: Entry, now: int, roll: nat -> nat)
    requires Store(s, e, now, roll).lastGc != s.lastGc
    ensures now > s.lastGc + 300 && Store(s, e, now, roll).lastGc == now
  {
    hide Survivors;
  }

  /** With room in the arena an insert appends the entry, after the collection if one is due. */
  lemma StoreAppends(s: State, e: Entry, now: int, roll: nat -> nat)
    requires |s.entries| < 65536
    ensures var t := Store(s, e, now, roll);
      if now > s.lastGc + 300 then t == State(Survivors(s.entries, now, roll, 0) + [e], now)
      else t == State(s.entries + [e], s.lastGc)
  {
    hide Survivors;
  }

  // ----- An entry that is spared stays

  /** During the call the entry has not expired, and rand never picks it. */
  ghost predicate Spares(q: Request, e: Entry) {
    q.now < e.expire && (forall k :: q.clock(k) <= e.expire) && forall k, m :: q.roll(k)(m) != 0
  }

  lemma SparedByCollect(s: State, e: Entry, now: int, roll: nat -> nat)
    requires e in s.entries && now <= e.expire && forall m :: roll(m) != 0
    ensures e in Collect(s, now, roll).entries
  {
    hide Survivors;
    var at := SurvivorsExact(s.entries, now, roll, 0);
    var i :| 0 <= i < |s.entries| && s.entries[i] == e;
    assert roll(0 + i) != 0 && i in at;
    var j :| 0 <= j < |at| && at[j] == i;
    assert Survivors(s.entries, now, roll, 0)[j] == e;
  }

  lemma {:induction false} SparedByStoreAll(s: State, domains: seq<string>, q: Request, k: nat, e: Entry)
    requires e in s.entries && Spares(q, e)
    ensures e in StoreAll(s, domains, q, k).entries
    decreases |domains|
  {
    hide Collect, EntryFor;
    if domains != [] {
      SparedByCollect(s, e, q.clock(k), q.roll(k));
      var t := Store(s, EntryFor(domains[0], q.now, q.reply), q.clock(k), q.roll(k));
      SparedByStoreAll(t, domains[1..], q, k + 1, e);
    }
  }

  lemma SparedByPurge(s: State, q: Request, pick: Option<nat>, e: Entry)
    requires e in s.entries && q.now < e.expire && !Hit(s, q, pick)
    ensures e in Purge(s, pick).entries
  {
    if pick.Some? && pick.value < |s.entries| {
      var i :| 0 <= i < |s.entries| && s.entries[i] == e;
      var r := Without(s.entries, pick.value);
      assert r[if i < pick.value then i else i - 1] == e;
    }
  }

  /** An expired match, and it alone, is removed before the reply is stored. */
  lemma MatchRemoved(s: State, q: Request, i: nat)
    requires i < |s.entries| && s.entries[i].expire <= q.now
    ensures Step(s, q, Some(i))
         == StoreAll(State(s.entries[..i] + s.entries[i + 1..], s.lastGc), Domains(q.domain, q.reply), q, 0)
  {
    hide StoreAll, Domains;
  }

  lemma SparedByStep(s: State, q: Request, pick: Option<nat>, e: Entry)
    requires e in s.entries && Spares(q, e)
    ensures e in Step(s, q, pick).entries
  {
    hide StoreAll, Purge, Domains;
    if !Hit(s, q, pick) {
      SparedByPurge(s, q, pick, e);
      SparedByStoreAll(Purge(s, pick), Domains(q.domain, q.reply), q, 0, e);
    }
  }

  /** An entry that has not expired and that rand does not pick survives every call of a run, collections or not. */
  lemma {:induction false} SparedByRun(before: seq<Call>, calls: seq<Call>, e: Entry)
    requires e in Run(before).entries && forall n :: 0 <= n < |calls| ==> Spares(calls[n].q, e)
    ensures e in Run(before + calls).entries
  {
    hide Step, Spares;
    if calls == [] {
      assert before + calls == before;
    } else {
      var init, c := calls[..|calls| - 1], calls[|calls| - 1];
      var all := before + calls;
      assert all[..|all| - 1] == before + init;
      SparedByRun(before, init, e);
      SparedByStep(Run(before + init), c.q, c.pick, e);
    }
  }

  // ----- And is answered from

  /** Nothing else cached is for a dot-suffix of the domain that is as long. */
  ghost predicate Governs(s: State, domain: string, e: Entry) {
    && e in s.entries && DotSuffix(e.domain, domain)
    && forall i :: 0 <= i < |s.entries| && DotSuffix(s.entries[i].domain, domain) ==>
         s.entries[i] == e || |s.entries[i].domain| < |e.domain|
  }

  lemma Governed(s: State, q: Request, pick: Option<nat>, e: Entry)
    requires Governs(s, q.domain, e) && PickOk(s, q.domain, pick)
    ensures pick.Some? && pick.value < |s.entries| && s.entries[pick.value] == e
  {
    hide DotSuffix, Candidates;
    var i :| 0 <= i < |s.entries| && s.entries[i] == e;
    if pick == None {
      CandidatesAreDotSuffixes(q.domain, e.domain);
      assert false;
    } else {
      LongestIsLongest(s, q.domain, pick.value);
    }
  }

  /** A query whose longest cached suffix is that of an entry that lives is answered with that entry. */
  lemma AnsweredFrom(s: State, q: Request, pick: Option<nat>, e: Entry)
    requires Governs(s, q.domain, e) && PickOk(s, q.domain, pick) && q.now < e.expire
    ensures Respond(s, q, pick) == Response(e.category, e.application) && Step(s, q, pick) == s
  {
    hide PickOk, StoreAll, Domains;
    Governed(s, q, pick, e);
  }

  /** So over a run: an entry that is spared is answered from for as long as it lives. */
  lemma StillServed(before: seq<Call>, calls: seq<Call>, e: Entry, q: Request, pick: Option<nat>)
    requires e in Run(before).entries && forall n :: 0 <= n < |calls| ==> Spares(calls[n].q, e)
    requires var s := Run(before + calls);
      PickOk(s, q.domain, pick) && q.now < e.expire && (e in s.entries ==> Governs(s, q.domain, e))
    ensures Respond(Run(before + calls), q, pick) == Response(e.category, e.application)
  {
    hide Run, Spares, Governs, PickOk, Respond, Step;
    SparedByRun(before, calls, e);
    AnsweredFrom(Run(before + calls), q, pick, e);
  }

  // ----- What a call stores

  /** The domain itself has no entry, there is room, and the call is no hit. */
  ghost predicate MissesFresh(s: State, q: Request, pick: Option<nat>) {
    && PickOk(s, q.domain, pick) && !Hit(s, q, pick) && |s.entries| < 65536
    && forall i :: 0 <= i < |s.entries| ==> s.entries[i].domain != q.domain
  }

  /** A reply that names no cache domains is stored under the domain asked for. */
  lemma StoredOnce(s: State, q: Request, pick: Option<nat>)
    requires MissesFresh(s, q, pick) && Domains(q.domain, q.reply) == [q.domain]
    ensures Governs(Step(s, q, pick), q.domain, EntryFor(q.domain, q.now, q.reply))
  {
    hide Survivors, EntryFor, PickOk, DotSuffix;
    var e, t := EntryFor(q.domain, q.now, q.reply), Purge(s, pick);
    assert StoreAll(t, [q.domain], q, 0) == Store(t, e, q.clock(0), q.roll(0)) by {
      assert [q.domain][1..] == [];
    }
    var u := Step(s, q, pick);
    assert u.entries[|u.entries| - 1] == e;
    OwnSuffix(q.domain);
    EntryIs(q.domain, q.now, q.reply);
    var at := SurvivorsExact(t.entries, q.clock(0), q.roll(0), 0);
    forall i | 0 <= i < |u.entries| && DotSuffix(u.entries[i].domain, q.domain)
      ensures u.entries[i] == e || |u.entries[i].domain| < |q.domain|
    {
      if i < |u.entries| - 1 {
        var x := u.entries[i];
        assert x in t.entries;
        assert x in s.entries;
        ShorterSuffix(x.domain, q.domain);
      }
    }
  }

  lemma OwnSuffix(d: string)
    ensures DotSuffix(d, d)
  {
  }

  lemma ShorterSuffix(a: string, b: string)
    requires DotSuffix(a, b) && a != b
    ensures |a| < |b|
  {
  }

  lemma EntryIs(domain: string, now: int, reply: Reply)
    ensures EntryFor(domain, now, reply).domain == domain
  {
  }

  /** The server's answer serves the domain until `ttl` seconds after the call that stored it. */
  lemma ReplyIsKept(s: State, q: Request, pick: Option<nat>, r: Request, again: Option<nat>,
                    category: int, application: int, ttl: int)
    requires MissesFresh(s, q, pick) && q.reply == Reply(Some(category), Some(application), Some(ttl), None)
    requires ttl != 0 && r.domain == q.domain && PickOk(Step(s, q, pick), r.domain, again)
    ensures r.now < q.now + ttl ==> Respond(Step(s, q, pick), r, again) == Response(category, application)
    ensures r.now >= q.now + ttl ==> Respond(Step(s, q, pick), r, again) == Response(0, 0)
  {
    hide Step, PickOk, MissesFresh;
    KeptUntil(s, q, pick, r, again, ttl);
  }

  lemma KeptUntil(s: State, q: Request, pick: Option<nat>, r: Request, again: Option<nat>, ttl: int)
    requires MissesFresh(s, q, pick) && Domains(q.domain, q.reply) == [q.domain] && Ttl(q.reply) == ttl
    requires r.domain == q.domain && PickOk(Step(s, q, pick), r.domain, again)
    ensures Respond(Step(s, q, pick), r, again) == if r.now < q.now + ttl then Answer(q.reply) else Response(0, 0)
  {
    hide Step, PickOk, MissesFresh, Governs, Domains, Answer, Ttl;
    var e := EntryFor(q.domain, q.now, q.reply);
    StoredOnce(s, q, pick);
    Governed(Step(s, q, pick), r, again, e);
  }

  /** What a reply lacks is kept as 0; without a category so is the application. */
  lemma MissingIsZero(s: State, q: Request, pick: Option<nat>, r: Request, again: Option<nat>,
                      category: Option<int>, application: Option<int>, ttl: int)
    requires MissesFresh(s, q, pick) && q.reply == Reply(category, application, Some(ttl), None) && ttl != 0
    requires r.domain == q.domain && PickOk(Step(s, q, pick), r.domain, again)
    ensures category.None? ==> Respond(Step(s, q, pick), r, again) == Response(0, 0)
    ensures category.Some? && application.None? && r.now < q.now + ttl ==>
      Respond(Step(s, q, pick), r, again) == Response(category.value, 0)
  {
    hide Step, PickOk, MissesFresh;
    KeptUntil(s, q, pick, r, again, ttl);
  }

  /** A ttl of zero in the reply, and a failed request, are kept for 60 seconds, the latter as unknown. */
  lemma ZeroTtlIsKept(s: State, q: Request, pick: Option<nat>, r: Request, again: Option<nat>,
                      category: int, application: int)
    requires MissesFresh(s, q, pick) && q.reply == Reply(Some(category), Some(application), Some(0), None)
    requires r.domain == q.domain && PickOk(Step(s, q, pick), r.domain, again)
    ensures Respond(Step(s, q, pick), r, again)
         == if r.now < q.now + 60 then Response(category, application) else Response(0, 0)
  {
    hide Step, PickOk, MissesFresh;
    KeptUntil(s, q, pick, r, again, 60);
  }

  lemma FailureIsKept(s: State, q: Request, pick: Option<nat>)
    requires MissesFresh(s, q, pick) && q.reply == Failure
    ensures Governs(Step(s, q, pick), q.domain, Entry(q.domain, 0, 0, q.now + 60))
  {
    hide Step, PickOk, MissesFresh, Governs;
    StoredOnce(s, q, pick);
  }

  /** A reply without a ttl expires at once. */
  lemma NoTtlIsNotKept(s: State, q: Request, pick: Option<nat>, r: Request, again: Option<nat>,
                       category: Option<int>, application: Option<int>)
    requires MissesFresh(s, q, pick) && q.reply == Reply(category, application, None, None)
    requires r.domain == q.domain && r.now >= q.now && PickOk(Step(s, q, pick), r.domain, again)
    ensures Respond(Step(s, q, pick), r, again) == Response(0, 0)
  {
    hide Step, PickOk, MissesFresh, Answer;
    KeptUntil(s, q, pick, r, again, 0);
  }

  /** The domains a server reply is stored under. */
  lemma {:induction false} StoredUnder(s: State, domains: seq<string>, q: Request, k: nat, d: string)
    requires d in domains && |s.entries| + |domains| <= 65536
    requires (forall n :: q.clock(n) <= q.now + Ttl(q.reply)) && forall n, m :: q.roll(n)(m) != 0
    ensures EntryFor(d, q.now, q.reply) in StoreAll(s, domains, q, k).entries
    decreases |domains|
  {
    hide Answer, Ttl, Survivors;
    var e := EntryFor(domains[0], q.now, q.reply);
    var t := Store(s, e, q.clock(k), q.roll(k));
    SurvivorsShrink(s.entries, q.clock(k), q.roll(k), 0);
    if d == domains[0] {
      assert t.entries[|t.entries| - 1] == e;
      KeptByStoreAll(t, domains[1..], q, k + 1, e);
    } else {
      assert d in domains[1..];
      StoredUnder(t, domains[1..], q, k + 1, d);
    }
  }

  lemma {:induction false} KeptByStoreAll(s: State, domains: seq<string>, q: Request, k: nat, e: Entry)
    requires e in s.entries && (forall n :: q.clock(n) <= e.expire) && forall n, m :: q.roll(n)(m) != 0
    ensures e in StoreAll(s, domains, q, k).entries
    decreases |domains|
  {
    hide Collect, EntryFor;
    if domains != [] {
      SparedByCollect(s, e, q.clock(k), q.roll(k));
      KeptByStoreAll(Store(s, EntryFor(domains[0], q.now, q.reply), q.clock(k), q.roll(k)), domains[1..], q, k + 1, e);
    }
  }

  /** With cache domains in the reply each of them gets an entry, category and application as replied. */
  lemma ListedAreStored(s: State, q: Request, pick: Option<nat>, category: int, application: int, ttl: int,
                        list: seq<Option<string>>, n: nat)
    requires !Hit(s, q, pick) && |s.entries| + |list| <= 65536 && n < |list| && list[n].Some? && ttl != 0
    requires q.reply == Reply(Some(category), Some(application), Some(ttl), Some(list))
    requires (forall k :: q.clock(k) <= q.now + ttl) && forall k, m :: q.roll(k)(m) != 0
    ensures Entry(list[n].value, application, category, q.now + ttl) in Step(s, q, pick).entries
  {
    hide StoreAll;
    NamedHas(list, n);
    StoredUnder(Purge(s, pick), Named(list), q, 0, list[n].value);
  }

  lemma {:induction false} NamedHas(list: seq<Option<string>>, n: nat)
    requires n < |list| && list[n].Some?
    ensures list[n].value in Named(list) && |Named(list)| <= |list|
  {
    if n > 0 {
      NamedHas(list[1..], n - 1);
    } else {
      NamedShort(list[1..]);
      assert Named(list)[0] == list[0].value;
    }
  }

  lemma {:induction false} NamedShort(list: seq<Option<string>>)
    ensures |Named(list)| <= |list|
  {
    if list != [] {
      NamedShort(list[1..]);
    }
  }
}
