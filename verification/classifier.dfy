/**
  The month classifier: the first entry of the stage table, in insertion
  order, whose inclusive range contains a month, or nothing.
 */
module Classifier {
  import opened Wrappers
  import opened LifeStages

  /** `k` is the first entry of `t` at or after position `i` that contains `m`. */
  ghost predicate IsFirstMatchFrom(t: seq<LifeStage>, m: int, i: nat, k: nat) {
    && i <= k < |t|
    && Contains(t[k], m)
    && forall j :: i <= j < k ==> !Contains(t[j], m)
  }

  /** No entry of `t` at or after position `i` contains `m`. */
  ghost predicate NoMatchFrom(t: seq<LifeStage>, m: int, i: nat) {
    forall j :: i <= j < |t| ==> !Contains(t[j], m)
  }

  /** The position of the first entry at or after `i` whose range contains `m`. */
  function FirstMatchFrom(t: seq<LifeStage>, m: int, i: nat): (r: Option<nat>)
    requires i <= |t|
    ensures r.Some? ==> IsFirstMatchFrom(t, m, i, r.value)
    ensures r.None? ==> NoMatchFrom(t, m, i)
    decreases |t| - i
  {
    if i == |t| then None
    else if Contains(t[i], m) then Some(i)
    else FirstMatchFrom(t, m, i + 1)
  }

  /** The position of the entry the page's lookup returns for month `m`. */
  function FirstMatch(t: seq<LifeStage>, m: int): Option<nat> {
    FirstMatchFrom(t, m, 0)
  }

  /**
    The stage the page's lookup returns for month `m`: an entry containing
    `m` with no earlier entry containing it, or nothing exactly when no entry
    contains `m`.
   */
  function Classify(t: seq<LifeStage>, m: int): (r: Option<LifeStage>)
    ensures r.None? <==> forall j :: 0 <= j < |t| ==> !Contains(t[j], m)
    ensures r.Some? ==> Contains(r.value, m)
    ensures r.Some? ==> exists k: nat :: IsFirstMatchFrom(t, m, 0, k) && r.value == t[k]
  {
    match FirstMatch(t, m)
    case None => None
    case Some(k) => Some(t[k])
  }

  /**
    The lookup returns position `k` exactly when entry `k` contains the
    month and no earlier entry does; it returns nothing exactly when no
    entry contains the month.
   */
  lemma FirstMatchCharacterization(t: seq<LifeStage>, m: int, k: nat)
    ensures FirstMatch(t, m) == Some(k) <==> IsFirstMatchFrom(t, m, 0, k)
    ensures FirstMatch(t, m).None? <==> NoMatchFrom(t, m, 0)
  {
  }

  /** An entry whose range is inverted (for example work, while the current date precedes the end of studies) is never returned. */
  lemma InvertedNeverMatches(t: seq<LifeStage>, m: int, k: nat)
    requires k < |t| && IsInverted(t[k])
    ensures FirstMatch(t, m) != Some(k)
  {
  }

  /** The lookup only reads the bounds of the entries: two tables with the same ranges classify every month alike. */
  lemma FirstMatchFromOnlyReadsBounds(t: seq<LifeStage>, u: seq<LifeStage>, m: int, i: nat)
    requires |t| == |u| && i <= |t|
    requires forall k :: 0 <= k < |t| ==> t[k].from == u[k].from && t[k].to == u[k].to
    ensures FirstMatchFrom(t, m, i) == FirstMatchFrom(u, m, i)
  {
  }

  /**
    The kids entry is pinned to `[0, 0]`, so no month from 1 on is ever
    classified as "time with kids", and the per-child intervals have no
    effect on which entry a month falls in.
   */
  lemma KidsOverlayInert(ms: Milestones, others: seq<Kid>, m: int)
    requires m >= 1
    ensures FirstMatch(BuildLifeStages(ms), m) != Some(KidsIx)
    ensures FirstMatch(BuildLifeStages(ms), m) == FirstMatch(BuildLifeStages(ms.(kids := others)), m)
  {
  }

  /** Month 1 is classified as childhood whenever childhood is non-empty. */
  lemma {:induction false} MonthOneIsChildhood(ms: Milestones)
    requires ms.childhoodMonths >= 1
    ensures Classify(BuildLifeStages(ms), 1) == Some(BuildLifeStages(ms)[ChildhoodIx])
  {
    assert FirstMatch(BuildLifeStages(ms), 1) == Some(ChildhoodIx);
  }

  /** Month 0, which the page never asks about, falls in the kids entry. */
  lemma MonthZeroIsKids(ms: Milestones)
    requires Ordered(ms)
    ensures FirstMatch(BuildLifeStages(ms), 0) == Some(KidsIx)
  {
  }

  /** While the current date does not lie after the end of studies, no month is classified as work. */
  lemma NoWorkBeforeStudiesEnd(ms: Milestones, m: int)
    requires ms.workMonths <= 0
    ensures FirstMatch(BuildLifeStages(ms), m) != Some(WorkIx)
  {
  }

  /**
    With the dates in chronological order, a month from 1 on is classified
    as primary stage `k` exactly when it lies in that stage's range, and as
    nothing exactly when it lies after the end of work.
   */
  lemma ClassifyOrderedTable(ms: Milestones, m: int, k: nat)
    requires Ordered(ms) && m >= 1 && k < KidsIx
    ensures FirstMatch(BuildLifeStages(ms), m) == Some(k) <==> Contains(BuildLifeStages(ms)[k], m)
    ensures FirstMatch(BuildLifeStages(ms), m).None? <==> m > BuildLifeStages(ms)[WorkIx].to
  {
  }
}
