/**
  The table of life stages: childhood, school, studies, work and the
  "time with kids" overlay, each an inclusive range of months counted from
  the subject's birth (month 1 is the first month of life).

  Every month difference the page obtains from the date library is an
  input here: the model does not compute calendar arithmetic.
 */
module LifeStages {

  /** One display colour per stage; the page uses a distinct colour per entry. */
  datatype Color = Teal | Sky | Amber | Rose | Lime

  /** A per-child interval of the kids overlay. */
  datatype KidSpan = KidSpan(name: string, from: int, to: int)

  /** One entry of the stage table: an inclusive range `[from, to]` of months. */
  datatype LifeStage = LifeStage(name: string, color: Color, from: int, to: int, kids: seq<KidSpan>)

  /**
    A dependent as the page sees it: the month difference between the
    subject's birth and the child's birth, and the month difference between
    the child's birth and the child's eighteenth birthday.
   */
  datatype Kid = Kid(name: string, bornAtMonth: int, monthsToAdulthood: int)

  /**
    The month differences the stage table is built from.
    - childhoodMonths: months from birth to birth plus the school-start age
    - schoolEndMonths: months from birth to the end of school
    - studiesMonths:   months from the end of school to the end of studies
    - workMonths:      months from the end of studies to the current date
    Each may be negative when the dates are out of order, as the date
    library's month difference is signed.
   */
  datatype Milestones = Milestones(
    childhoodMonths: int,
    schoolEndMonths: int,
    studiesMonths: int,
    workMonths: int,
    kids: seq<Kid>)

  /** Positions of the entries in the table, in the page's insertion order. */
  const ChildhoodIx: nat := 0
  const SchoolIx: nat := 1
  const StudiesIx: nat := 2
  const WorkIx: nat := 3
  const KidsIx: nat := 4

  /** The number of entries in the table. */
  const StageCount: nat := 5

  /** Month `m` lies in the inclusive range of stage `s`. */
  predicate Contains(s: LifeStage, m: int) {
    s.from <= m <= s.to
  }

  /** An inverted range contains no month at all. */
  predicate IsInverted(s: LifeStage) {
    s.to < s.from
  }

  /** The number of months the range covers when it is not inverted. */
  function Length(s: LifeStage): int {
    s.to - s.from + 1
  }

  /** The dates are in chronological order: every month difference is non-negative and school ends no earlier than childhood. */
  predicate Ordered(ms: Milestones) {
    && 0 <= ms.childhoodMonths <= ms.schoolEndMonths
    && 0 <= ms.studiesMonths
    && 0 <= ms.workMonths
  }

  /** The overlay interval of every child: from its birth month to its eighteenth birthday. */
  function KidSpans(kids: seq<Kid>): (r: seq<KidSpan>)
    ensures |r| == |kids|
    ensures forall i :: 0 <= i < |kids| ==>
      && r[i].name == kids[i].name
      && r[i].from == kids[i].bornAtMonth
      && r[i].to - r[i].from == kids[i].monthsToAdulthood
  {
    if |kids| == 0 then []
    else [KidSpan(kids[0].name, kids[0].bornAtMonth, kids[0].bornAtMonth + kids[0].monthsToAdulthood)]
         + KidSpans(kids[1..])
  }

  /**
    The stage table in insertion order. Each primary stage after the first
    begins one month after the previous one ends; studies and work end the
    given number of months after the previous stage ends; the kids entry is
    pinned to `[0, 0]` and only carries the per-child intervals.
   */
  function BuildLifeStages(ms: Milestones): (t: seq<LifeStage>)
    ensures |t| == StageCount
    ensures t[ChildhoodIx].from == 1
    ensures forall k :: ChildhoodIx <= k < WorkIx ==> t[k + 1].from == t[k].to + 1
    ensures t[ChildhoodIx].to == ms.childhoodMonths
    ensures t[SchoolIx].to == ms.schoolEndMonths
    ensures Length(t[StudiesIx]) == ms.studiesMonths
    ensures Length(t[WorkIx]) == ms.workMonths
    ensures t[KidsIx].from == 0 && t[KidsIx].to == 0
    ensures t[KidsIx].kids == KidSpans(ms.kids)
    ensures forall i, j :: 0 <= i < j < |t| ==> t[i].color != t[j].color
    ensures t[ChildhoodIx].name == "Childhood" && t[SchoolIx].name == "School"
    ensures t[StudiesIx].name == "Studies" && t[WorkIx].name == "Work"
    ensures t[KidsIx].name == "Time with kids"
    ensures t[ChildhoodIx].color == Teal && t[SchoolIx].color == Sky && t[StudiesIx].color == Amber
    ensures t[WorkIx].color == Rose && t[KidsIx].color == Lime
  {
    var childhoodTo := ms.childhoodMonths;
    var schoolTo := ms.schoolEndMonths;
    var studiesTo := schoolTo + ms.studiesMonths;
    var workTo := studiesTo + ms.workMonths;
    [ LifeStage("Childhood", Teal, 1, childhoodTo, []),
      LifeStage("School", Sky, childhoodTo + 1, schoolTo, []),
      LifeStage("Studies", Amber, schoolTo + 1, studiesTo, []),
      LifeStage("Work", Rose, studiesTo + 1, workTo, []),
      LifeStage("Time with kids", Lime, 0, 0, KidSpans(ms.kids)) ]
  }

  /**
    The first `n` entries form a contiguous timeline from month 1: each one
    starts right after its predecessor ends, and none is inverted by more
    than being empty.
   */
  ghost predicate Chained(t: seq<LifeStage>, n: nat)
    requires n <= |t|
  {
    && (n > 0 ==> t[0].from == 1)
    && (forall k :: 0 <= k < n - 1 ==> t[k + 1].from == t[k].to + 1)
    && (forall k :: 0 <= k < n ==> t[k].from - 1 <= t[k].to)
  }

  /** The last month covered by the first `n` entries of a chained table. */
  function ChainEnd(t: seq<LifeStage>, n: nat): int
    requires n <= |t|
  {
    if n == 0 then 0 else t[n - 1].to
  }

  /** In a chained table an earlier entry ends before a later one begins. */
  lemma {:induction false} ChainedOrdered(t: seq<LifeStage>, n: nat, i: nat, j: nat)
    requires n <= |t| && Chained(t, n)
    requires i < j < n
    ensures t[i].to < t[j].from
    decreases j - i
  {
    if j > i + 1 {
      ChainedOrdered(t, n, i, j - 1);
      assert t[j].from == t[j - 1].to + 1;
    }
  }

  /** No month lies in two distinct entries of a chained table. */
  lemma ChainedDisjoint(t: seq<LifeStage>, n: nat, m: int, i: nat, j: nat)
    requires n <= |t| && Chained(t, n)
    requires i < n && j < n
    requires Contains(t[i], m) && Contains(t[j], m)
    ensures i == j
  {
    if i < j {
      ChainedOrdered(t, n, i, j);
    } else if j < i {
      ChainedOrdered(t, n, j, i);
    }
  }

  /** The entries of a chained table together cover exactly the months `1..ChainEnd(t, n)`. */
  lemma {:induction false} ChainedCovers(t: seq<LifeStage>, n: nat, m: int)
    requires n <= |t| && Chained(t, n)
    ensures (1 <= m <= ChainEnd(t, n)) <==> (exists k :: 0 <= k < n && Contains(t[k], m))
  {
    if n > 0 {
      assert Chained(t, n - 1);
      ChainedCovers(t, n - 1, m);
      if n == 1 {
        assert ChainEnd(t, n - 1) == 0;
      } else {
        assert t[n - 1].from == ChainEnd(t, n - 1) + 1;
        ChainEndAtLeastStart(t, n - 1);
      }
      if exists k :: 0 <= k < n && Contains(t[k], m) {
        var k :| 0 <= k < n && Contains(t[k], m);
        if k < n - 1 {
          ChainedOrdered(t, n, k, n - 1);
        }
      }
    }
  }

  /** A chained prefix never ends before month 0. */
  lemma {:induction false} ChainEndAtLeastStart(t: seq<LifeStage>, n: nat)
    requires n <= |t| && Chained(t, n)
    ensures ChainEnd(t, n) >= 0
  {
    if n > 1 {
      assert Chained(t, n - 1);
      ChainEndAtLeastStart(t, n - 1);
    }
  }

  /**
    With the dates in chronological order the four primary stages form a
    contiguous timeline from month 1 to the end of work: every month in that
    range lies in exactly one of them, and no other month lies in any.
   */
  lemma PrimaryStagesPartition(ms: Milestones, m: int)
    requires Ordered(ms)
    ensures Chained(BuildLifeStages(ms), KidsIx)
    ensures (1 <= m <= BuildLifeStages(ms)[WorkIx].to)
        <==> (exists k :: 0 <= k < KidsIx && Contains(BuildLifeStages(ms)[k], m))
    ensures forall i, j ::
      (0 <= i < KidsIx && 0 <= j < KidsIx && Contains(BuildLifeStages(ms)[i], m) && Contains(BuildLifeStages(ms)[j], m))
      ==> i == j
  {
  }
}
