/**
 * The two ways the nodes search a list of distances for "the closest" entry:
 * a full scan that keeps the first strict minimum, and an early-exit walk
 * that stops as soon as the distance no longer strictly decreases.
 */
module Scans {

  /** `r` is the smallest index attaining the minimum of `ds`. */
  ghost predicate IsFirstMinimum(ds: seq<real>, r: int)
  {
    && 0 <= r < |ds|
    && (forall j :: 0 <= j < |ds| ==> ds[r] <= ds[j])
    && (forall j :: 0 <= j < r ==> ds[r] < ds[j])
  }

  /**
   * `m` is the last index of the strictly decreasing run that starts at
   * index 0: the walk stops there because the list ends or the next
   * distance is not smaller.
   */
  ghost predicate IsDescentEnd(ds: seq<real>, m: int)
  {
    && 0 <= m < |ds|
    && (forall j :: 0 < j <= m ==> ds[j] < ds[j - 1])
    && (m + 1 == |ds| || ds[m] <= ds[m + 1])
  }

  /** The distances read in the order of a walk that starts at `p` and wraps around. */
  function Rotate(ds: seq<real>, p: int): seq<real>
    requires |ds| > 0
  {
    seq(|ds|, k requires 0 <= k < |ds| => ds[(p + k) % |ds|])
  }

  /** The first minimum of `ds`, scanning every entry from index 0. */
  function FirstMinimum(ds: seq<real>): (r: nat)
    requires |ds| > 0
    ensures IsFirstMinimum(ds, r)
  {
    FirstMinimumFrom(ds, 0, 1)
  }

  /** Continues a full scan at index `i`, the best so far being `best`. */
  function FirstMinimumFrom(ds: seq<real>, best: nat, i: nat): (r: nat)
    requires best < i <= |ds|
    requires forall j :: 0 <= j < i ==> ds[best] <= ds[j]
    requires forall j :: 0 <= j < best ==> ds[best] < ds[j]
    ensures IsFirstMinimum(ds, r)
    decreases |ds| - i
  {
    if i == |ds| then best
    else if ds[i] < ds[best] then FirstMinimumFrom(ds, i, i + 1)
    else FirstMinimumFrom(ds, best, i + 1)
  }

  /** Where an early-exit walk over `ds` from index 0 stops. */
  function DescentEnd(ds: seq<real>): (m: nat)
    requires |ds| > 0
    ensures IsDescentEnd(ds, m)
  {
    DescentEndFrom(ds, 0)
  }

  /** Continues an early-exit walk that has strictly descended up to index `m`. */
  function DescentEndFrom(ds: seq<real>, m: nat): (r: nat)
    requires m < |ds|
    requires forall j :: 0 < j <= m ==> ds[j] < ds[j - 1]
    ensures IsDescentEnd(ds, r) && m <= r
    decreases |ds| - m
  {
    if m + 1 == |ds| || ds[m] <= ds[m + 1] then m
    else DescentEndFrom(ds, m + 1)
  }

  /** The full-scan characterisation leaves no choice. */
  lemma FirstMinimumUnique(ds: seq<real>, r: int, r': int)
    requires IsFirstMinimum(ds, r) && IsFirstMinimum(ds, r')
    ensures r == r'
  {
    assert ds[r] == ds[r'];
  }

  /** The early-exit characterisation leaves no choice either. */
  lemma DescentEndUnique(ds: seq<real>, m: int, m': int)
    requires IsDescentEnd(ds, m) && IsDescentEnd(ds, m')
    ensures m == m'
  {
  }

  /**
   * The early-exit walk finds the first minimum exactly when the distances
   * strictly decrease up to the first minimum: the "approaching, then
   * receding" assumption under which the walk replaces a full scan.
   */
  lemma {:induction false} DescentEndIsFirstMinimum(ds: seq<real>, g: nat)
    requires IsFirstMinimum(ds, g)
    requires forall j :: 0 < j <= g ==> ds[j] < ds[j - 1]
    ensures DescentEnd(ds) == g
  {
    assert IsDescentEnd(ds, g);
    DescentEndUnique(ds, DescentEnd(ds), g);
  }

  /** A walk that stops at `m` has passed only larger distances. */
  lemma {:induction false} DescentEndBelowPrefix(ds: seq<real>, m: nat, j: nat)
    requires IsDescentEnd(ds, m) && j < m
    ensures ds[m] < ds[j]
    decreases m - j
  {
    if j + 1 < m {
      DescentEndBelowPrefix(ds, m, j + 1);
    }
  }
}
