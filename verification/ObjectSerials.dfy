/**
 The serial numbers of the object table: allocation goes on after the last number issued, so that an ID
 whose object was deleted is not taken for another object soon.
 */
module ObjectSerials {
  import opened Common
  import opened ObjectIdMap

  // The value that the search issues, after k records in use.
  lemma {:induction false} SerialValue(records: seq<Record>, serial: nat, tries: nat, k: nat)
    requires 0 < |records| <= INDEX_MASK && serial < INDEX_MASK && k < tries
    requires forall n :: serial < n <= serial + k ==> !FreeAt(records, n)
    requires FreeAt(records, serial + k + 1)
    ensures NextFree(records, serial, tries).Some?
    ensures var found := NextFree(records, serial, tries).value;
            if serial + k + 1 < INDEX_MASK then found == serial + k + 1 else found + |records| <= serial + k + 1
    decreases k
  {
    var max := |records|;
    if k > 0 {
      assert !FreeAt(records, serial + 1);
      var next := NextSerial(serial, max);
      forall n | next < n <= next + (k - 1) ensures !FreeAt(records, n) {
        NextSerialCongruent(serial, n - next, max);
        assert !FreeAt(records, serial + 1 + (n - next));
      }
      NextSerialCongruent(serial, k, max);
      SerialValue(records, next, tries - 1, k - 1);
    }
    RestartLow(INDEX_MASK, max);
  }

  lemma RestartLow(mask: nat, max: nat)
    requires 0 < max <= mask
    ensures mask % max + max <= mask
  {
    var q := mask / max;
    assert mask == q * max + mask % max;
    assert q == 0 ==> mask < max;
    assert q >= 1 ==> q * max >= max;
  }

  // All records that the numbers up to the end of the range map to are in use.
  ghost predicate RangeUsedUp(s: State)
    requires 0 < |s.records|
  {
    forall n :: s.lastIssued < n < INDEX_MASK ==> !FreeAt(s.records, n)
  }

  // The step issues a new number.
  predicate Issues(s: State, e: Event)
    requires Enabled(s, e)
  {
    && 0 < |s.records| && e.Allocate?
    && (e.wanted.Some? ==> FirstNamed(s.records, e.wanted.value, 0) == |s.records|)
    && NextFree(s.records, s.lastIssued, |s.records|).Some?
  }

  ghost predicate SizesOk(s: State) {
    0 < |s.records| <= INDEX_MASK && s.lastIssued < INDEX_MASK
  }

  lemma StepSizes(s: State, e: Event)
    requires SizesOk(s) && Enabled(s, e)
    ensures SizesOk(Step(s, e)) && |Step(s, e).records| == |s.records| && |Step(s, e).agents| == |s.agents|
    ensures !Issues(s, e) ==> Step(s, e).lastIssued == s.lastIssued
    ensures Issues(s, e) ==> Some(Step(s, e).lastIssued) == NextFree(s.records, s.lastIssued, |s.records|)
  {
    NextFreeComplete(s.records, s.lastIssued);
    hide NextFree, FirstNamed;
  }

  /** A number that is issued is greater than the one before if and only if the range is not used up. */
  lemma IncreasesExactly(s: State, e: Event)
    requires SizesOk(s) && Enabled(s, e) && Issues(s, e)
    ensures Step(s, e).lastIssued > s.lastIssued <==> !RangeUsedUp(s)
  {
    StepSizes(s, e);
    var max := |s.records|;
    var k := NextFreeSearch(s.records, s.lastIssued, max);
    hide Step, NextFree, Issues;
    var next := s.lastIssued + k + 1;
    assert FreeAt(s.records, next);
    SerialValue(s.records, s.lastIssued, max, k);
    assert next < INDEX_MASK ==> !RangeUsedUp(s);
    if next >= INDEX_MASK {
      assert forall n :: s.lastIssued < n < INDEX_MASK ==> !FreeAt(s.records, n);
    }
  }

  // The numbers that a run issues.
  function Serials(s: State, es: seq<Event>): seq<nat>
    requires 0 < |s.records| && ValidRun(s, es)
    decreases es
  {
    if es == [] then [] else
    (if Issues(s, es[0]) then [Step(s, es[0]).lastIssued] else []) + Serials(Step(s, es[0]), es[1..])
  }

  // Numbering starts over somewhere in the run.
  ghost predicate StartsOver(s: State, es: seq<Event>)
    requires 0 < |s.records| && ValidRun(s, es)
    decreases es
  {
    es != [] && ((Issues(s, es[0]) && RangeUsedUp(s)) || StartsOver(Step(s, es[0]), es[1..]))
  }

  predicate Increasing(last: nat, serials: seq<nat>)
    decreases serials
  {
    serials == [] || (last < serials[0] && Increasing(serials[0], serials[1..]))
  }

  /** The numbers issued by a run are strictly increasing if and only if numbering does not start over. */
  lemma {:induction false} SerialsIncreaseExactly(s: State, es: seq<Event>)
    requires SizesOk(s) && ValidRun(s, es)
    ensures Increasing(s.lastIssued, Serials(s, es)) <==> !StartsOver(s, es)
    decreases es
  {
    hide Step, Enabled, Issues, RangeUsedUp;
    if es != [] {
      StepSizes(s, es[0]);
      var rest := Serials(Step(s, es[0]), es[1..]);
      SerialsIncreaseExactly(Step(s, es[0]), es[1..]);
      if Issues(s, es[0]) {
        IncreasesExactly(s, es[0]);
        assert ([Step(s, es[0]).lastIssued] + rest)[1..] == rest;
      } else {
        assert [] + rest == rest;
      }
    }
  }

  // ---------------------------------------------------------------------------------
  // Stale IDs
  // ---------------------------------------------------------------------------------

  predicate ClaimsId(l: Local, serial: nat) {
    && (((l.Trying? || l.Sleeping?) && l.claimed) || (l.Holding? && l.tok.mode.Exclusive?))
    && l.tok.serial == serial
  }

  // The ID is on a record, or on the token of a transaction that will put it back there.
  ghost predicate InUse(s: State, serial: nat) {
    || (exists i :: 0 <= i < |s.records| && s.records[i].activeId == Live(serial))
    || (exists t :: 0 <= t < |s.agents| && ClaimsId(s.agents[t], serial))
  }

  lemma NotInUse(s: State, s': State, t: nat, k: nat, serial: nat)
    requires !InUse(s, serial) && t < |s.agents| && k < |s.records|
    requires |s'.records| == |s.records| && |s'.agents| == |s.agents|
    requires forall i :: 0 <= i < |s.records| && i != k ==> s'.records[i] == s.records[i]
    requires forall u :: 0 <= u < |s.agents| && u != t ==> s'.agents[u] == s.agents[u]
    requires s'.records[k].activeId == Live(serial) ==> s.records[k].activeId == Live(serial)
    requires ClaimsId(s'.agents[t], serial) ==>
               ClaimsId(s.agents[t], serial) || s.records[k].activeId == Live(serial)
    ensures !InUse(s', serial)
  {
  }

  lemma StaleAttempt(s: State, t: nat, serial: nat)
    requires Inv(s) && Enabled(s, Attempt(t)) && !InUse(s, serial)
    ensures !InUse(AttemptStep(s, t), serial)
  {
    var l, k := s.agents[t], s.agents[t].tok.idx;
    assert TokenOk(l, s.records);
    assert s.records[k].activeId != Live(serial) && !ClaimsId(l, serial);
    var s' := AttemptStep(s, t);
    assert s'.records[k].activeId != Live(serial);
    NotInUse(s, s', t, k, serial);
  }

  lemma StaleFinish(s: State, t: nat, final: Final, serial: nat)
    requires Inv(s) && Enabled(s, Finish(t, final)) && !InUse(s, serial)
    ensures !InUse(FinishStep(s, t, final), serial)
  {
    var l, k := s.agents[t], s.agents[t].tok.idx;
    assert s.records[k].activeId != Live(serial) && !ClaimsId(l, serial);
    NotInUse(s, FinishStep(s, t, final), t, k, serial);
  }

  // Only an allocation that issues the number brings it into use.
  lemma StaleStep(s: State, e: Event, serial: nat)
    requires Inv(s) && Enabled(s, e) && !InUse(s, serial)
    requires Issues(s, e) ==> Step(s, e).lastIssued != serial
    ensures !InUse(Step(s, e), serial)
  {
    if e.Attempt? {
      hide InUse;
      StaleAttempt(s, e.t, serial);
    } else if e.Finish? {
      hide InUse;
      StaleFinish(s, e.t, e.final, serial);
    } else {
      hide NextFree, FirstNamed;
      assert s.records[0].activeId != Live(serial) && !ClaimsId(s.agents[e.t], serial);
      var k := if e.SetName? then s.agents[e.t].tok.idx
               else if Issues(s, e) then Step(s, e).lastIssued % |s.records| else 0;
      assert s.records[k].activeId != Live(serial);
      NotInUse(s, Step(s, e), e.t, k, serial);
    }
  }

  /** A stale ID stays stale: a number that was issued and is no longer in use does not come into use
      again, in any run in which numbering does not start over. */
  lemma {:induction false} StaleIdStays(s: State, es: seq<Event>, serial: nat)
    requires Inv(s) && SizesOk(s) && ValidRun(s, es) && !StartsOver(s, es)
    requires serial <= s.lastIssued && !InUse(s, serial)
    ensures !InUse(Run(s, es), serial)
    decreases es
  {
    hide Inv, Step, Enabled, Issues, RangeUsedUp, InUse;
    if es != [] {
      StepInv(s, es[0]);
      StepSizes(s, es[0]);
      if Issues(s, es[0]) {
        IncreasesExactly(s, es[0]);
      }
      StaleStep(s, es[0], serial);
      StaleIdStays(Step(s, es[0]), es[1..], serial);
    }
  }

  // Hence nobody gets a token for it: whoever holds a token, its ID is in use.
  lemma TokensAreInUse(s: State, t: nat)
    requires Reachable(s) && t < |s.agents| && s.agents[t].Holding? && !s.agents[t].tok.mode.ReservedMode?
    ensures InUse(s, s.agents[t].tok.serial)
  {
    HeldObjectStays(s, t);
    var tok := s.agents[t].tok;
    if s.records[tok.idx].activeId == Reserved {
      var u :| 0 <= u < |s.agents| && Claim(StakeOf(s.agents[u], tok.idx))
               && StakeOf(s.agents[u], tok.idx).serial == tok.serial;
      assert ClaimsId(s.agents[u], tok.serial);
    }
  }
}
