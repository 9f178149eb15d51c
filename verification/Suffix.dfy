/**
 The candidates a domain is looked up under: the domain itself, then what follows its first dot, its
 second dot, and so on.  The walks of config.c and domain_lookup.c and GetAllSubdomains of the server
 must enumerate the same ones.
 */
module Suffix {

  /** Position of the first dot at or after `i`, or the length. */
  function DotFrom(s: string, i: nat): (r: nat)
    requires i <= |s|
    ensures i <= r <= |s| && (r < |s| ==> s[r] == '.') && forall j :: i <= j < r ==> s[j] != '.'
    decreases |s| - i
  {
    if i == |s| || s[i] == '.' then i else DotFrom(s, i + 1)
  }

  /** The tails of `s` from position `i` on: `s[i..]`, then every tail that follows a later dot. */
  function TailsFrom(s: string, i: nat): (r: seq<string>)
    requires i <= |s|
    ensures r != [] && r[0] == s[i..]
    decreases |s| - i
  {
    var d := DotFrom(s, i);
    [s[i..]] + if d == |s| then [] else TailsFrom(s, d + 1)
  }

  function Candidates(s: string): seq<string> {
    TailsFrom(s, 0)
  }

  /** `t` is `s` itself or what follows one of its dots. */
  ghost predicate DotSuffix(t: string, s: string) {
    t == s || exists d :: 0 <= d < |s| && s[d] == '.' && t == s[d + 1..]
  }

  lemma TailsStep(s: string, i: nat)
    requires i <= |s|
    ensures var d := DotFrom(s, i);
            TailsFrom(s, i) == [s[i..]] + if d == |s| then [] else TailsFrom(s, d + 1)
  {
    hide DotFrom;
  }

  lemma {:induction false} TailsAreSuffixes(s: string, i: nat, n: nat)
    requires i <= |s| && n < |TailsFrom(s, i)|
    ensures |TailsFrom(s, i)[n]| <= |s| - i
    ensures n == 0 || exists d :: i <= d < |s| && s[d] == '.' && TailsFrom(s, i)[n] == s[d + 1..]
    decreases |s| - i
  {
    hide DotFrom, TailsFrom;
    TailsStep(s, i);
    var d := DotFrom(s, i);
    if n > 0 {
      TailsAreSuffixes(s, d + 1, n - 1);
      var t := TailsFrom(s, i)[n];
      assert t == TailsFrom(s, d + 1)[n - 1];
      if n == 1 {
        assert t == s[d + 1..];
      } else {
        var e :| d + 1 <= e < |s| && s[e] == '.' && t == s[e + 1..];
      }
    }
  }

  lemma {:induction false} SuffixesAreTails(s: string, i: nat, d: nat)
    requires i <= d < |s| && s[d] == '.'
    ensures s[d + 1..] in TailsFrom(s, i)
    decreases |s| - i
  {
    hide DotFrom, TailsFrom;
    TailsStep(s, i);
    var e := DotFrom(s, i);
    if e < d {
      SuffixesAreTails(s, e + 1, d);
    } else {
      assert TailsFrom(s, e + 1)[0] == s[d + 1..];
    }
  }

  /** The candidates of a domain are exactly its dot-suffixes. */
  lemma CandidatesAreDotSuffixes(s: string, t: string)
    ensures t in Candidates(s) <==> DotSuffix(t, s)
  {
    if t in Candidates(s) {
      var n :| 0 <= n < |Candidates(s)| && Candidates(s)[n] == t;
      TailsAreSuffixes(s, 0, n);
      assert s[0..] == s;
    }
    if DotSuffix(t, s) {
      if t == s {
        assert s[0..] == s;
      } else {
        var d :| 0 <= d < |s| && s[d] == '.' && t == s[d + 1..];
        SuffixesAreTails(s, 0, d);
      }
    }
  }

  /** They come longest first. */
  lemma {:induction false} TailsShrink(s: string, i: nat, m: nat, n: nat)
    requires i <= |s| && m < n < |TailsFrom(s, i)|
    ensures |TailsFrom(s, i)[m]| > |TailsFrom(s, i)[n]|
    decreases |s| - i
  {
    hide DotFrom, TailsFrom;
    TailsStep(s, i);
    var d := DotFrom(s, i);
    if m > 0 {
      TailsShrink(s, d + 1, m - 1, n - 1);
    } else {
      TailsAreSuffixes(s, d + 1, n - 1);
    }
  }

  /** Every dot-suffix of a candidate is a candidate. */
  lemma SuffixOfSuffix(a: string, b: string, c: string)
    requires DotSuffix(a, b) && DotSuffix(b, c)
    ensures DotSuffix(a, c)
  {
    if a != b && b != c {
      var d :| 0 <= d < |b| && b[d] == '.' && a == b[d + 1..];
      var e :| 0 <= e < |c| && c[e] == '.' && b == c[e + 1..];
      assert c[e + 1 + d] == '.' && a == c[e + 1 + d + 1..];
    }
  }

  // ----- GetAllSubdomains

  /** strings.Split(s[i..], "."). */
  function SplitFrom(s: string, i: nat): (r: seq<string>)
    requires i <= |s|
    ensures r != []
    decreases |s| - i
  {
    var d := DotFrom(s, i);
    [s[i..d]] + if d == |s| then [] else SplitFrom(s, d + 1)
  }

  /** strings.Join(parts, "."). */
  function Join(parts: seq<string>): string {
    if parts == [] then "" else if |parts| == 1 then parts[0] else parts[0] + "." + Join(parts[1..])
  }

  lemma SplitStep(s: string, i: nat)
    requires i <= |s|
    ensures var d := DotFrom(s, i);
            SplitFrom(s, i) == [s[i..d]] + if d == |s| then [] else SplitFrom(s, d + 1)
  {
    hide DotFrom;
  }

  lemma JoinCons(x: string, parts: seq<string>)
    ensures Join([x] + parts) == if parts == [] then x else x + "." + Join(parts)
  {
    assert ([x] + parts)[1..] == parts;
  }

  /** Joining what Split cut gives the string back. */
  lemma {:induction false} JoinSplit(s: string, i: nat)
    requires i <= |s|
    ensures Join(SplitFrom(s, i)) == s[i..]
    decreases |s| - i
  {
    hide DotFrom, SplitFrom, Join;
    SplitStep(s, i);
    var d := DotFrom(s, i);
    if d < |s| {
      JoinSplit(s, d + 1);
      JoinCons(s[i..d], SplitFrom(s, d + 1));
      assert s[i..] == s[i..d] + "." + s[d + 1..];
    } else {
      JoinCons(s[i..d], []);
      assert s[i..d] == s[i..];
      assert [s[i..d]] + [] == [s[i..d]];
    }
  }

  lemma {:induction false} SplitTails(s: string, i: nat, n: nat)
    requires i <= |s|
    ensures |SplitFrom(s, i)| == |TailsFrom(s, i)|
    ensures n < |SplitFrom(s, i)| ==> Join(SplitFrom(s, i)[n..]) == TailsFrom(s, i)[n]
    decreases |s| - i
  {
    hide DotFrom, SplitFrom, TailsFrom, Join;
    SplitStep(s, i);
    TailsStep(s, i);
    var d := DotFrom(s, i);
    if n == 0 {
      JoinSplit(s, i);
      assert SplitFrom(s, i)[0..] == SplitFrom(s, i);
    }
    if d < |s| {
      SplitTails(s, d + 1, if n > 0 then n - 1 else 0);
      if 0 < n < |SplitFrom(s, i)| {
        assert SplitFrom(s, i)[n..] == SplitFrom(s, d + 1)[n - 1..];
      }
    }
  }

  /** GetAllSubdomains: fill a slice of the same length with the joined tails. */
  method GetAllSubdomains(domain: string) returns (all: seq<string>)
    ensures all == Candidates(domain)
  {
    hide DotFrom, SplitFrom, TailsFrom, Join;
    var subdomains := SplitFrom(domain, 0);
    var slice := new string[|subdomains|](_ => "");
    SplitTails(domain, 0, 0);
    for i := 0 to |subdomains|
      invariant slice[..i] == Candidates(domain)[..i]
    {
      SplitTails(domain, 0, i);
      slice[i] := Join(subdomains[i..]);
      assert slice[..i + 1] == slice[..i] + [slice[i]];
    }
    assert slice[..] == slice[..|subdomains|];
    all := slice[..];
  }
}
