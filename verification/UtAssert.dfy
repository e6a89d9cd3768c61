/** The counters of UT assert (ut_assert/src/utassert.c). */
module UtAssert {
  import opened Common

  // UtAssert_CaseType_t
  const FAILURE: nat := 2
  const TSF: nat := 3
  const TTF: nat := 4
  const PASS: nat := 11
  const CASE_MAX: nat := 14

  /** One UtAssert (which fails with the type set as context) or UtAssertEx (which names its type). */
  datatype Check = Check(expression: bool, caseType: Option<nat>)

  // The type under which a check is counted.
  function Counted(c: Check, context: nat): nat {
    if c.expression then PASS else if c.caseType.Some? then c.caseType.value else context
  }

  function CountedAll(cs: seq<Check>, context: nat): seq<nat> {
    if cs == [] then [] else [Counted(cs[0], context)] + CountedAll(cs[1..], context)
  }

  // A failed check counts under the type it names, or else under the context it is performed in; one that
  // does not fail counts as passed.
  predicate CountsAs(c: Check, context: nat, t: nat) {
    || (c.expression && t == 11)
    || (!c.expression && c.caseType == Some(t))
    || (!c.expression && c.caseType.None? && t == context)
  }

  lemma CountedIs(c: Check, context: nat, t: nat)
    ensures Counted(c, context) == t <==> CountsAs(c, context, t)
  {
  }

  lemma CountedNext(before: seq<nat>, cs: seq<Check>, context: nat)
    requires cs != []
    ensures before + CountedAll(cs, context) == before + [Counted(cs[0], context)] + CountedAll(cs[1..], context)
  {
  }

  // How many checks were counted under type t.
  function Tally(history: seq<nat>, t: nat): nat {
    if history == [] then 0 else Tally(history[..|history| - 1], t) + (if history[|history| - 1] == t then 1 else 0)
  }

  // How many checks were counted under any of the types below t.
  function TallyBelow(history: seq<nat>, t: nat): nat {
    if t == 0 then 0 else TallyBelow(history, t - 1) + Tally(history, t - 1)
  }

  lemma {:induction false} TallyAppend(a: seq<nat>, b: seq<nat>, t: nat)
    ensures Tally(a + b, t) == Tally(a, t) + Tally(b, t)
    decreases |b|
  {
    if b == [] {
      assert a + b == a;
    } else {
      assert (a + b)[..|a + b| - 1] == a + b[..|b| - 1];
      TallyAppend(a, b[..|b| - 1], t);
    }
  }

  lemma TallySnoc(history: seq<nat>, x: nat, t: nat)
    ensures Tally(history + [x], t) == Tally(history, t) + (if x == t then 1 else 0)
  {
    assert (history + [x])[..|history + [x]| - 1] == history;
  }

  lemma CountUp(history: seq<nat>, x: nat, t: nat)
    ensures Tally(history + [x], t) % TWO_32
         == if x == t then (Tally(history, t) % TWO_32 + 1) % TWO_32 else Tally(history, t) % TWO_32
  {
    TallySnoc(history, x, t);
  }

  lemma {:induction false} TallyPositive(history: seq<nat>, t: nat)
    ensures Tally(history, t) > 0 <==> t in history
    ensures Tally(history, t) <= |history|
    decreases |history|
  {
    if history != [] {
      TallyPositive(history[..|history| - 1], t);
    }
  }

  // Checks of valid types are all counted: the counts per type add up to the number of checks.
  lemma {:induction false} TallySums(history: seq<nat>)
    requires forall i :: 0 <= i < |history| ==> history[i] < CASE_MAX
    ensures TallyBelow(history, CASE_MAX) == |history|
    decreases |history|
  {
    if history == [] {
      TallyNone(CASE_MAX);
    } else {
      TallySums(history[..|history| - 1]);
      TallyOneMore(history, CASE_MAX);
    }
  }

  lemma {:induction false} TallyNone(t: nat)
    ensures TallyBelow([], t) == 0
  {
    if t > 0 {
      TallyNone(t - 1);
    }
  }

  lemma {:induction false} TallyOneMore(history: seq<nat>, t: nat)
    requires history != []
    ensures TallyBelow(history, t)
         == TallyBelow(history[..|history| - 1], t) + (if history[|history| - 1] < t then 1 else 0)
  {
    if t > 0 {
      TallyOneMore(history, t - 1);
    }
  }

  // The sum of the first t counters.
  function SumTo(cases: seq<nat>, t: nat): nat
    requires t <= |cases|
  {
    if t == 0 then 0 else SumTo(cases, t - 1) + cases[t - 1]
  }

  lemma {:induction false} SumIsTally(cases: seq<nat>, history: seq<nat>, t: nat)
    requires t <= |cases| && |history| < TWO_32
    requires forall k :: 0 <= k < |cases| ==> cases[k] == Tally(history, k) % TWO_32
    ensures SumTo(cases, t) == TallyBelow(history, t)
    decreases t
  {
    if t > 0 {
      SumIsTally(cases, history, t - 1);
      TallyPositive(history, t - 1);
    }
  }

  // How many of the checks count under type t.
  function HowMany(cs: seq<Check>, context: nat, t: nat): nat {
    if cs == [] then 0 else (if CountsAs(cs[0], context, t) then 1 else 0) + HowMany(cs[1..], context, t)
  }

  lemma {:induction false} TallyCounted(cs: seq<Check>, context: nat, t: nat)
    ensures Tally(CountedAll(cs, context), t) == HowMany(cs, context, t) && |CountedAll(cs, context)| == |cs|
    decreases cs
  {
    if cs != [] {
      hide Counted, CountsAs;
      CountedIs(cs[0], context, t);
      TallyAppend([Counted(cs[0], context)], CountedAll(cs[1..], context), t);
      TallySnoc([], Counted(cs[0], context), t);
      assert [] + [Counted(cs[0], context)] == [Counted(cs[0], context)];
      TallyCounted(cs[1..], context, t);
    }
  }

  lemma {:induction false} InCounted(cs: seq<Check>, context: nat, t: nat)
    ensures t in CountedAll(cs, context) <==> exists i :: 0 <= i < |cs| && CountsAs(cs[i], context, t)
    decreases cs
  {
    if cs != [] {
      hide Counted, CountsAs;
      CountedIs(cs[0], context, t);
      InCounted(cs[1..], context, t);
      assert forall i :: 0 < i < |cs| ==> cs[i] == cs[1..][i - 1];
      assert forall i :: 0 <= i < |cs[1..]| ==> cs[1..][i] == cs[i + 1];
    }
  }

  lemma ModSum(a: nat, b: nat)
    ensures (a % TWO_32 + b % TWO_32) % TWO_32 == (a + b) % TWO_32
  {
  }

  class Counters {
    // UT_SegmentCounters and UT_TotalCounters
    var segmentCases: array<nat>
    var segmentTotal: nat
    var totalCases: array<nat>
    var totalTotal: nat
    var totalSegments: nat
    var context: nat

    // The checks of the current segment, and those of the segments that were ended.
    ghost var pending: seq<nat>
    ghost var ended: seq<nat>

    ghost predicate Valid()
      reads this, segmentCases, totalCases
    {
      && segmentCases != totalCases && segmentCases.Length == CASE_MAX && totalCases.Length == CASE_MAX
      && segmentTotal == |pending| % TWO_32 && totalTotal == |ended| % TWO_32
      && (forall t :: 0 <= t < CASE_MAX ==> segmentCases[t] == Tally(pending, t) % TWO_32)
      && (forall t :: 0 <= t < CASE_MAX ==> totalCases[t] == Tally(ended, t) % TWO_32)
    }

    constructor ()
      ensures Valid() && fresh(segmentCases) && fresh(totalCases) && pending == [] && ended == [] && context == FAILURE
    {
      segmentCases := new nat[CASE_MAX](_ => 0);
      totalCases := new nat[CASE_MAX](_ => 0);
      segmentTotal, totalTotal, totalSegments := 0, 0, 0;
      context := FAILURE;
      pending, ended := [], [];
    }

    method SetContext(caseType: nat)
      requires Valid()
      modifies this`context
      ensures Valid() && context == caseType
    {
      context := caseType;
    }

    // memset(&UT_SegmentCounters, 0, ...)
    method ClearSegment()
      requires Valid()
      modifies this`segmentTotal, this`pending, segmentCases
      ensures Valid() && pending == []
    {
      forall t | 0 <= t < CASE_MAX {
        segmentCases[t] := 0;
      }
      segmentTotal := 0;
      pending := [];
    }

    method BeginTest()
      requires Valid()
      modifies this`segmentTotal, this`pending, segmentCases
      ensures Valid() && pending == []
    {
      ClearSegment();
    }

    // UtAssertEx; UtAssert passes the context as the type.
    method AssertEx(check: Check)
      requires Valid()
      modifies this`segmentTotal, this`pending, segmentCases
      ensures Valid() && pending == old(pending) + [Counted(check, context)]
    {
      var caseType := if check.caseType.Some? then check.caseType.value else context;
      segmentTotal := (segmentTotal + 1) % TWO_32;
      if check.expression {
        caseType := PASS;
      }
      if caseType < CASE_MAX {
        segmentCases[caseType] := (segmentCases[caseType] + 1) % TWO_32;
      }
      hide Tally;
      forall t | 0 <= t < CASE_MAX ensures segmentCases[t] == Tally(pending + [caseType], t) % TWO_32 {
        CountUp(pending, caseType, t);
      }
      ModSum(|pending|, 1);
      pending := pending + [caseType];
    }

    // The loop of UtAssert_EndTest.
    method AddTotals()
      requires segmentCases != totalCases && segmentCases.Length == CASE_MAX && totalCases.Length == CASE_MAX
      modifies totalCases
      ensures forall i :: 0 <= i < CASE_MAX ==> totalCases[i] == (old(totalCases[i]) + segmentCases[i]) % TWO_32
    {
      var t := 0;
      while t < CASE_MAX
        invariant 0 <= t <= CASE_MAX
        invariant forall i :: 0 <= i < t ==> totalCases[i] == (old(totalCases[i]) + segmentCases[i]) % TWO_32
        invariant forall i :: t <= i < CASE_MAX ==> totalCases[i] == old(totalCases[i])
      {
        totalCases[t] := (totalCases[t] + segmentCases[t]) % TWO_32;
        t := t + 1;
      }
    }

    /** The totals take over the segment, unless its number of checks is zero (in 32 bits). */
    method EndTest()
      requires Valid()
      modifies this`segmentTotal, this`pending, segmentCases
      modifies this`totalTotal, this`totalSegments, this`ended, totalCases
      ensures Valid() && pending == []
      ensures ended == if |old(pending)| % TWO_32 > 0 then old(ended) + old(pending) else old(ended)
    {
      if segmentTotal > 0 {
        totalSegments := (totalSegments + 1) % TWO_32;
        totalTotal := (totalTotal + segmentTotal) % TWO_32;
        ModSum(|ended|, |pending|);
        AddTotals();
        forall i | 0 <= i < CASE_MAX ensures totalCases[i] == Tally(ended + pending, i) % TWO_32 {
          TallyAppend(ended, pending, i);
          ModSum(Tally(ended, i), Tally(pending, i));
        }
        ended := ended + pending;
      }
      ClearSegment();
    }

    // A test function performs its checks.
    method Perform(checks: seq<Check>)
      requires Valid()
      modifies this`segmentTotal, this`pending, segmentCases
      ensures Valid() && pending == old(pending) + CountedAll(checks, context)
    {
      hide Tally, Counted;
      var i := 0;
      while i < |checks|
        invariant 0 <= i <= |checks| && Valid()
        invariant old(pending) + CountedAll(checks, context) == pending + CountedAll(checks[i..], context)
      {
        ghost var before := pending;
        AssertEx(checks[i]);
        CountedNext(before, checks[i..], context);
        assert checks[i..][1..] == checks[i + 1..];
        i := i + 1;
      }
    }

    /** The counters of the types add up to the number of checks, over all segments that were ended. */
    lemma TotalsAddUp()
      requires Valid() && |ended| < TWO_32 && forall i :: 0 <= i < |ended| ==> ended[i] < CASE_MAX
      ensures SumTo(totalCases[..], CASE_MAX) == totalTotal == |ended|
    {
      hide Tally, TallyBelow, SumTo;
      SumIsTally(totalCases[..], ended, CASE_MAX);
      TallySums(ended);
    }

    // The exit code of UT_BSP_EndTest: OS_ERROR or OS_SUCCESS.
    method EndTestRun() returns (error: bool)
      requires Valid()
      ensures |ended| < TWO_32 ==> (error <==> FAILURE in ended || TSF in ended || TTF in ended)
    {
      error := totalCases[FAILURE] > 0 || totalCases[TSF] > 0 || totalCases[TTF] > 0;
      TallyPositive(ended, FAILURE);
      TallyPositive(ended, TSF);
      TallyPositive(ended, TTF);
    }
  }
}
