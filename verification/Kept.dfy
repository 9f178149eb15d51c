/** What it means that some elements of a sequence were removed and the others kept in order. */
module Kept {

  /** `s` without its element `i`. */
  function Without<T>(s: seq<T>, i: nat): (r: seq<T>)
    requires i < |s|
    ensures |r| == |s| - 1
  {
    s[..i] + s[i + 1..]
  }

  lemma WithoutMiddle<T>(kept: seq<T>, all: seq<T>, k: nat)
    requires k < |all|
    ensures Without(kept + all[k..], |kept|) == kept + all[k + 1..]
  {
  }

  /** Positions in strictly increasing order. */
  ghost predicate Increasing(at: seq<nat>) {
    forall i, j :: 0 <= i < j < |at| ==> at[i] < at[j]
  }

  /** `r` is what `s` has at the positions `at`, in order. */
  ghost predicate Picks<T>(r: seq<T>, s: seq<T>, at: seq<nat>) {
    Increasing(at) && |at| == |r| && forall j :: 0 <= j < |at| ==> at[j] < |s| && r[j] == s[at[j]]
  }

  ghost function Shifted(rest: seq<nat>): (r: seq<nat>)
    ensures |r| == |rest|
  {
    seq(|rest|, j requires 0 <= j < |rest| => rest[j] + 1)
  }

  ghost function Extended(first: bool, rest: seq<nat>): seq<nat> {
    (if first then [0] else []) + Shifted(rest)
  }

  lemma ExtendedIn(first: bool, rest: seq<nat>, i: nat)
    ensures i in Extended(first, rest) <==> if i == 0 then first else i - 1 in rest
  {
    var at, k := Extended(first, rest), if first then 1 else 0;
    if i > 0 && i - 1 in rest {
      var j :| 0 <= j < |rest| && rest[j] == i - 1;
      assert at[k + j] == i;
    }
    if i == 0 && first {
      assert at[0] == 0;
    }
  }

  lemma ExtendedPicks<T>(r: seq<T>, x: T, s: seq<T>, rest: seq<nat>, first: bool)
    requires Picks(r, s, rest)
    ensures Picks((if first then [x] else []) + r, [x] + s, Extended(first, rest))
  {
  }

  lemma NoPicks<T>(s: seq<T>) returns (at: seq<nat>)
    ensures Picks([], s, at) && at == []
  {
    at := [];
  }
}
