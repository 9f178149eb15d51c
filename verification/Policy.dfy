/**
 The access decision: the user's configuration (config.c) and the server's classification of the domain
 (domain_lookup.c), combined by check.c.
 */
module Policy {
  import opened Bytes
  import opened Suffix
  import FlowSpec
  import DomainSpec
  import DomainCache
  import HashTable

  /** What the user blocks and allows. */
  datatype Rules = Rules(applications: set<int>, categories: set<int>, blacklist: set<string>, whitelist: set<string>)

  datatype BlockType = NotBlocked | Application | Category | Blacklist | Whitelist

  /** `domain` or a parent domain of it is listed. */
  ghost predicate Covered(list: set<string>, domain: string) {
    exists d :: d in list && DotSuffix(d, domain)
  }

  ghost predicate Blocked(rules: Rules, domain: string, r: DomainSpec.Response) {
    r.application in rules.applications || r.category in rules.categories || Covered(rules.blacklist, domain)
  }

  /** What check_access is for: drop what is blocked, unless it is whitelisted. */
  ghost function Verdict(rules: Rules, domain: string, r: DomainSpec.Response): FlowSpec.Verdict {
    if Blocked(rules, domain, r) && !Covered(rules.whitelist, domain) then FlowSpec.Drop else FlowSpec.Accept
  }

  /** The reason that is logged: of several that block, the first in the order application, category, blacklist. */
  ghost predicate Reason(rules: Rules, domain: string, r: DomainSpec.Response, b: BlockType) {
    match b
    case NotBlocked => !Blocked(rules, domain, r)
    case Whitelist => Blocked(rules, domain, r) && Covered(rules.whitelist, domain)
    case Application => r.application in rules.applications && !Covered(rules.whitelist, domain)
    case Category =>
      r.application !in rules.applications && r.category in rules.categories && !Covered(rules.whitelist, domain)
    case Blacklist =>
      && r.application !in rules.applications && r.category !in rules.categories
      && Covered(rules.blacklist, domain) && !Covered(rules.whitelist, domain)
  }

  type List = HashTable.Table<string, ()>

  ghost function Keys(t: List): set<string>
    reads t, t.Items
  {
    set x | x in t.Items :: x.key
  }

  /** config_domain_lookup. */
  method ListCovers(t: List, domain: string) returns (found: bool)
    requires t.Valid()
    ensures found == exists x :: x in t.Items && DotSuffix(x.key, domain)
    ensures found == Covered(Keys(t), domain)
  {
    hide HashTable.Table.Valid, DotFrom, TailsFrom, DotSuffix;
    var ptr := 0;
    ghost var n, all := 0, Candidates(domain);
    while true
      invariant 0 <= ptr <= |domain| && 0 <= n < |all| && all[n..] == TailsFrom(domain, ptr)
      invariant forall m :: 0 <= m < n ==> all[m] !in Keys(t)
      decreases |domain| - ptr
    {
      assert all[n] == all[n..][0] == domain[ptr..];
      var d := t.Find(domain[ptr..]);
      if d != null {
        CandidatesAreDotSuffixes(domain, all[n]);
        assert all[n] in Keys(t) && DotSuffix(all[n], domain);
        return true;
      }
      var dot := DotFrom(domain, ptr);
      TailsStep(domain, ptr);
      if dot == |domain| {
        NotCovered(Keys(t), domain);
        return false;
      }
      assert all[n + 1..] == all[n..][1..];
      ptr, n := dot + 1, n + 1;
    }
  }

  lemma NotCovered(list: set<string>, domain: string)
    requires forall m :: 0 <= m < |Candidates(domain)| ==> Candidates(domain)[m] !in list
    ensures !Covered(list, domain)
  {
    forall d | d in list ensures !DotSuffix(d, domain) {
      CandidatesAreDotSuffixes(domain, d);
    }
  }

  /** The loaded configuration. */
  class Config {
    const applications: array?<int>
    const categories: array?<int>
    const blacklist: List
    const whitelist: List

    constructor (applications: array?<int>, categories: array?<int>, blacklist: List, whitelist: List)
      ensures this.applications == applications && this.categories == categories
      ensures this.blacklist == blacklist && this.whitelist == whitelist
    {
      this.applications, this.categories, this.blacklist, this.whitelist := applications, categories, blacklist,
          whitelist;
    }

    ghost predicate Valid()
      reads blacklist, blacklist.buckets, blacklist.Items, whitelist, whitelist.buckets, whitelist.Items
    {
      blacklist.Valid() && whitelist.Valid()
    }

    ghost function Abs(): Rules
      reads applications, categories, blacklist, blacklist.Items, whitelist, whitelist.Items
    {
      Rules(if applications == null then {} else set i | 0 <= i < applications.Length :: applications[i],
            if categories == null then {} else set i | 0 <= i < categories.Length :: categories[i],
            Keys(blacklist), Keys(whitelist))
    }

    /** config_is_application_blocked. */
    method IsApplicationBlocked(application: int) returns (blocked: bool)
      ensures blocked ==
        (applications != null && exists i :: 0 <= i < applications.Length && applications[i] == application)
      ensures blocked == (application in Abs().applications)
    {
      blocked := Contains(applications, application);
    }

    /** config_is_category_blocked. */
    method IsCategoryBlocked(category: int) returns (blocked: bool)
      ensures blocked == (categories != null && exists i :: 0 <= i < categories.Length && categories[i] == category)
      ensures blocked == (category in Abs().categories)
    {
      blocked := Contains(categories, category);
    }

    /** config_is_domain_blacklisted. */
    method IsDomainBlacklisted(domain: string) returns (listed: bool)
      requires Valid()
      ensures listed == exists x :: x in blacklist.Items && DotSuffix(x.key, domain)
      ensures listed == Covered(Abs().blacklist, domain)
    {
      hide HashTable.Table.Valid, Covered;
      listed := ListCovers(blacklist, domain);
    }

    /** config_is_domain_whitelisted. */
    method IsDomainWhitelisted(domain: string) returns (listed: bool)
      requires Valid()
      ensures listed == exists x :: x in whitelist.Items && DotSuffix(x.key, domain)
      ensures listed == Covered(Abs().whitelist, domain)
    {
      hide HashTable.Table.Valid, Covered;
      listed := ListCovers(whitelist, domain);
    }

    /** The loop that the first two have. */
    static method Contains(a: array?<int>, x: int) returns (found: bool)
      ensures found == (a != null && exists i :: 0 <= i < a.Length && a[i] == x)
    {
      if a == null {
        return false;
      }
      for i := 0 to a.Length
        invariant forall j :: 0 <= j < i ==> a[j] != x
      {
        if x == a[i] {
          return true;
        }
      }
      return false;
    }
  }

  /** The part of `uwebfilterlog_t` that check_access fills in. */
  class Log {
    const domain: string
    var category: int
    var application: int
    var blocktype: BlockType
    var action: string

    constructor (domain: string)
      ensures this.domain == domain
    {
      this.domain, category, application, blocktype, action := domain, 0, 0, NotBlocked, "";
    }

    /** Lines 36-58: the decision, and the reason that ends up in the log record. */
    method Grounds(config: Config, r: DomainSpec.Response) returns (accessGranted: bool, reason: BlockType)
      requires config.Valid()
      ensures accessGranted == (Verdict(config.Abs(), domain, r) == FlowSpec.Accept)
          && Reason(config.Abs(), domain, r, reason)
    {
      hide Config.Valid, Config.Abs, Covered;
      var blocked := config.IsApplicationBlocked(r.application);
      accessGranted, reason := !blocked, Application;
      if accessGranted {
        blocked := config.IsCategoryBlocked(r.category);
        accessGranted, reason := !blocked, Category;
      }
      if accessGranted {
        blocked := config.IsDomainBlacklisted(domain);
        accessGranted, reason := !blocked, Blacklist;
      }
      if accessGranted {
        reason := NotBlocked;
      }
      if !accessGranted {
        accessGranted := config.IsDomainWhitelisted(domain);
        if accessGranted {
          reason := Whitelist;
        }
      }
    }

    /** Lines 33-66, once the domain has been looked up. */
    method Decide(config: Config, r: DomainSpec.Response) returns (verdict: FlowSpec.Verdict)
      requires config.Valid()
      modifies this
      ensures verdict == Verdict(old(config.Abs()), domain, r) && Reason(old(config.Abs()), domain, r, blocktype)
      ensures category == r.category && application == r.application
      ensures action == if verdict == FlowSpec.Accept then "allow" else "block"
    {
      hide Config.Valid, Config.Abs, Covered, Reason;
      var accessGranted, reason := Grounds(config, r);
      category, application, blocktype := r.category, r.application, reason;
      action := if accessGranted then "allow" else "block";
      verdict := if accessGranted then FlowSpec.Accept else FlowSpec.Drop;
    }

    /** check_access. */
    method CheckAccess(config: Config, cache: DomainCache.Cache, q: DomainSpec.Request)
        returns (verdict: FlowSpec.Verdict, ghost pick: Option<nat>)
      requires config.Valid() && cache.Valid() && q.domain == domain
      modifies this, cache, cache.arena`index, cache.arena.ptr, cache.table, cache.table.buckets, cache.arena.slots
      ensures cache.Valid() && DomainSpec.PickOk(old(cache.Abs()), domain, pick)
      ensures cache.Abs() == DomainSpec.Step(old(cache.Abs()), q, pick)
      ensures var r := DomainSpec.Respond(old(cache.Abs()), q, pick);
        && verdict == Verdict(old(config.Abs()), domain, r) && Reason(old(config.Abs()), domain, r, blocktype)
        && category == r.category && application == r.application
        && action == if verdict == FlowSpec.Accept then "allow" else "block"
    {
      hide HashTable.Table.Valid, DomainCache.Cache.Valid, Verdict, Reason, DomainSpec.PickOk, DomainSpec.Step,
          DomainSpec.Respond;
      var r;
      r, pick := cache.DomainLookup(q);
      verdict := Decide(config, r);
    }
  }

  // ----- What the decision guarantees

  /** Drop, written out: something blocks the domain or its classification, and no suffix of it is whitelisted. */
  lemma DropIff(rules: Rules, domain: string, r: DomainSpec.Response)
    ensures Verdict(rules, domain, r) == FlowSpec.Drop <==>
      && (r.application in rules.applications || r.category in rules.categories
          || exists d :: d in rules.blacklist && DotSuffix(d, domain))
      && forall d :: d in rules.whitelist ==> !DotSuffix(d, domain)
  {
    hide DotSuffix;
  }

  /** The reason, written out: what is whitelisted is logged as such only if something blocks it. */
  lemma ReasonOrder(rules: Rules, domain: string, r: DomainSpec.Response, b: BlockType)
    requires Reason(rules, domain, r, b)
    ensures
      var app, cat := r.application in rules.applications, r.category in rules.categories;
      var black := exists d :: d in rules.blacklist && DotSuffix(d, domain);
      var white := exists d :: d in rules.whitelist && DotSuffix(d, domain);
      b == if !app && !cat && !black then NotBlocked else if white then Whitelist else if app then Application
           else if cat then Category else Blacklist
  {
    hide DotSuffix;
  }

  /** Exactly one reason applies, and it says what the verdict was. */
  lemma ReasonIsUnique(rules: Rules, domain: string, r: DomainSpec.Response, b: BlockType, c: BlockType)
    requires Reason(rules, domain, r, b)
    ensures Reason(rules, domain, r, c) <==> b == c
    ensures Verdict(rules, domain, r) == FlowSpec.Accept <==> b == NotBlocked || b == Whitelist
  {
    hide Covered;
  }

  /** `x.d` is below `d`. */
  lemma BelowDot(x: string, d: string)
    ensures DotSuffix(d, x + "." + d)
  {
    var s := x + "." + d;
    assert s[|x|] == '.' && s[|x| + 1..] == d;
  }

  /** Listing a domain covers it and everything below it; being covered is inherited by everything below. */
  lemma CoveredBelow(list: set<string>, x: string, d: string)
    requires Covered(list, d)
    ensures Covered(list, x + "." + d)
  {
    var t :| t in list && DotSuffix(t, d);
    BelowDot(x, d);
    SuffixOfSuffix(t, d, x + "." + d);
  }

  /** Whitelisting `d` lets `d` and every `x.d` through, whatever else is blocked. */
  lemma WhitelistAccepts(rules: Rules, x: string, d: string, r: DomainSpec.Response)
    requires d in rules.whitelist
    ensures Verdict(rules, d, r) == Verdict(rules, x + "." + d, r) == FlowSpec.Accept
  {
    assert DotSuffix(d, d);
    assert Covered(rules.whitelist, d);
    CoveredBelow(rules.whitelist, x, d);
  }

  /** Blacklisting `d` drops every `x.d` that has no whitelisted suffix. */
  lemma BlacklistDrops(rules: Rules, x: string, d: string, r: DomainSpec.Response)
    requires d in rules.blacklist && !Covered(rules.whitelist, x + "." + d)
    ensures Verdict(rules, d, r) == Verdict(rules, x + "." + d, r) == FlowSpec.Drop
  {
    assert DotSuffix(d, d);
    assert Covered(rules.blacklist, d);
    CoveredBelow(rules.blacklist, x, d);
    if Covered(rules.whitelist, d) {
      CoveredBelow(rules.whitelist, x, d);
    }
  }

  ghost predicate Weaker(a: Rules, b: Rules) {
    a.applications <= b.applications && a.categories <= b.categories && a.blacklist <= b.blacklist
        && b.whitelist <= a.whitelist
  }

  /** Blocking more and whitelisting less never lets more through. */
  lemma StricterRules(a: Rules, b: Rules, domain: string, r: DomainSpec.Response)
    requires Weaker(a, b) && Verdict(b, domain, r) == FlowSpec.Accept
    ensures Verdict(a, domain, r) == FlowSpec.Accept
  {
    CoveredMonotone(a.blacklist, b.blacklist, domain);
    CoveredMonotone(b.whitelist, a.whitelist, domain);
  }

  lemma CoveredMonotone(a: set<string>, b: set<string>, domain: string)
    requires a <= b
    ensures Covered(a, domain) ==> Covered(b, domain)
  {
  }
}
