/** The server's answer to a query: the row that Redis holds for the longest stored suffix of the domain. */
module Server {
  import opened Bytes
  import opened Suffix
  import opened DomainStore
  import DomainSpec

  type Redis = map<string, Row>

  /** MGet: one value or nil for every key. */
  function MGet(redis: Redis, domains: seq<string>): (r: seq<Option<Row>>)
    ensures |r| == |domains|
  {
    seq(|domains|, i requires 0 <= i < |domains| => if domains[i] in redis then Some(redis[domains[i]]) else None)
  }

  /** json.Unmarshal into a DomainInfo, whose TTL is unsigned. */
  function Unmarshal(row: Row): Option<Row> {
    if row.ttl < 0 then None else Some(row)
  }

  /** The value of the first of `domains` that is stored. */
  function First(redis: Redis, domains: seq<string>): Option<Row> {
    if domains == [] then None
    else if domains[0] in redis then Unmarshal(redis[domains[0]])
    else First(redis, domains[1..])
  }

  /** GetDomainInfo: stop at the first answer that is not nil, even if it does not unmarshal. */
  method GetDomainInfo(redis: Redis, reachable: bool, domains: seq<string>) returns (info: Option<Row>)
    ensures info == if reachable then First(redis, domains) else None
  {
    var strings := if reachable then MGet(redis, domains) else [];
    for i := 0 to |strings|
      invariant reachable ==> First(redis, domains) == First(redis, domains[i..])
    {
      if strings[i].Some? {
        return Unmarshal(strings[i].value);
      }
      assert domains[i..][1..] == domains[i + 1..];
    }
    return None;
  }

  /** QueryPOST as the daemon reads its answer: an empty domain is refused, and nil stands for all zero. */
  function ServerReply(redis: Redis, domain: string): DomainSpec.Reply {
    if domain == "" then DomainSpec.Failure
    else match First(redis, Candidates(domain))
      case None => DomainSpec.Reply(Some(0), Some(0), Some(0), None)
      case Some(row) => DomainSpec.Reply(Some(row.category), Some(row.application), Some(row.ttl),
          Some(Listed(row.cacheDomains)))
  }

  function Listed(ds: seq<string>): (r: seq<Option<string>>)
    ensures |r| == |ds|
  {
    seq(|ds|, i requires 0 <= i < |ds| => Some(ds[i]))
  }

  /** QueryPOST without the hit count. */
  method Query(redis: Redis, domain: string) returns (reply: DomainSpec.Reply)
    ensures reply == ServerReply(redis, domain)
  {
    if domain == "" {
      return DomainSpec.Failure;
    }
    var all := GetAllSubdomains(domain);
    var info := GetDomainInfo(redis, true, all);
    if info.Some? {
      var row := info.value;
      return DomainSpec.Reply(Some(row.category), Some(row.application), Some(row.ttl), Some(Listed(row.cacheDomains)));
    }
    return DomainSpec.Reply(Some(0), Some(0), Some(0), None);
  }

  /** `t` is the longest stored dot-suffix of `domain`. */
  ghost predicate LongestStored(redis: Redis, domain: string, t: string) {
    && t in redis && DotSuffix(t, domain)
    && forall u :: u in redis && DotSuffix(u, domain) ==> |u| <= |t|
  }

  lemma {:induction false} FirstAt(redis: Redis, domains: seq<string>, n: nat)
    requires n < |domains| && domains[n] in redis && forall m :: 0 <= m < n ==> domains[m] !in redis
    ensures First(redis, domains) == Unmarshal(redis[domains[n]])
  {
    if n > 0 {
      FirstAt(redis, domains[1..], n - 1);
    }
  }

  lemma {:induction false} FirstNone(redis: Redis, domains: seq<string>)
    requires forall m :: 0 <= m < |domains| ==> domains[m] !in redis
    ensures First(redis, domains) == None
  {
    if domains != [] {
      FirstNone(redis, domains[1..]);
    }
  }

  /** The server answers from the longest stored suffix, and with nothing if no suffix is stored. */
  lemma FirstIsLongest(redis: Redis, domain: string)
    ensures forall t :: LongestStored(redis, domain, t) ==> First(redis, Candidates(domain)) == Unmarshal(redis[t])
    ensures (forall t :: t in redis ==> !DotSuffix(t, domain)) ==> First(redis, Candidates(domain)) == None
  {
    hide First, DotSuffix;
    var all := Candidates(domain);
    forall t | LongestStored(redis, domain, t) ensures First(redis, all) == Unmarshal(redis[t]) {
      CandidatesAreDotSuffixes(domain, t);
      var n :| 0 <= n < |all| && all[n] == t;
      forall m | 0 <= m < n ensures all[m] !in redis {
        CandidatesAreDotSuffixes(domain, all[m]);
        TailsShrink(domain, 0, m, n);
      }
      FirstAt(redis, all, n);
    }
    if forall t :: t in redis ==> !DotSuffix(t, domain) {
      forall m | 0 <= m < |all| ensures all[m] !in redis {
        CandidatesAreDotSuffixes(domain, all[m]);
      }
      FirstNone(redis, all);
    }
  }

  /**
   The reply: what the row of the longest stored suffix says, and the domains it lists.  A row whose ttl is
   negative does not unmarshal, and is answered like a domain of which no suffix is stored.
   */
  lemma ReplyIsRow(redis: Redis, domain: string, t: string)
    requires domain != "" && LongestStored(redis, domain, t)
    ensures var row, reply := redis[t], ServerReply(redis, domain);
      if row.ttl < 0 then reply == DomainSpec.Reply(Some(0), Some(0), Some(0), None)
      else
        && reply.Reply? && reply.category == Some(row.category) && reply.application == Some(row.application)
        && reply.ttl == Some(row.ttl) && reply.cacheDomains.Some?
        && var listed := reply.cacheDomains.value;
        && |listed| == |row.cacheDomains| && forall i :: 0 <= i < |listed| ==> listed[i] == Some(row.cacheDomains[i])
  {
    hide First, LongestStored;
    FirstIsLongest(redis, domain);
  }

  /** No suffix stored, and no domain at all. */
  lemma ReplyWithoutRow(redis: Redis, domain: string)
    requires forall t :: t in redis ==> !DotSuffix(t, domain)
    ensures domain != "" ==> ServerReply(redis, domain) == DomainSpec.Reply(Some(0), Some(0), Some(0), None)
    ensures ServerReply(redis, "") == DomainSpec.Failure
  {
    hide First, DotSuffix;
    FirstIsLongest(redis, domain);
  }
}
