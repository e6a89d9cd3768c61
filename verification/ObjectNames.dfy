/**
 The names in the object table.  OS_ERR_NAME_TAKEN is documented for a name that is in use; the name is
 checked when the record is allocated and entered by OS_OBJECT_INIT, after the table lock was released.
 */
module ObjectNames {
  import opened Common
  import opened ObjectIdMap
  import opened ObjectLife

  predicate Creating(l: Local, name: string) {
    (l.Allocating? || l.Holding?) && l.tok.wanted == Some(name)
  }

  ghost predicate NamesUnique(s: State) {
    forall i, j, name ::
      (0 <= i < |s.records| && 0 <= j < |s.records| && Named(s.records[i], name) && Named(s.records[j], name)) ==>
        i == j
  }

  /** No name is on two records, on a record and on an unfinished creation of another record, or
      on two unfinished creations. */
  ghost predicate NamesClean(s: State) {
    && NamesUnique(s)
    && (forall t, j, name ::
          (0 <= t < |s.agents| && 0 <= j < |s.records| && Creating(s.agents[t], name) && Named(s.records[j], name)) ==>
            j == s.agents[t].tok.idx)
    && (forall t, u, name ::
          (0 <= t < |s.agents| && 0 <= u < |s.agents| && Creating(s.agents[t], name) && Creating(s.agents[u], name)) ==>
            t == u)
  }

  // The name check of this allocation passes and a record is free, while an unfinished creation
  // already wants the name.
  predicate RacesForName(s: State, e: Event)
    requires Enabled(s, e)
  {
    && 0 < |s.records| && e.Allocate? && e.wanted.Some?
    && FirstNamed(s.records, e.wanted.value, 0) == |s.records|
    && NextFree(s.records, s.lastIssued, |s.records|).Some?
    && exists u :: 0 <= u < |s.agents| && Creating(s.agents[u], e.wanted.value)
  }

  // A step that puts no name anywhere.
  lemma NamesShrink(s: State, s': State)
    requires NamesClean(s) && |s.agents| == |s'.agents| && |s.records| == |s'.records|
    requires forall i :: 0 <= i < |s.records| ==>
               forall name :: Named(s'.records[i], name) ==> Named(s.records[i], name)
    requires forall t :: 0 <= t < |s.agents| ==>
               forall name :: Creating(s'.agents[t], name) ==>
                 Creating(s.agents[t], name) && s.agents[t].tok == s'.agents[t].tok
    ensures NamesClean(s')
  {
  }

  // A creation begins: names stay clean unless another creation wants the same one.
  lemma NamesWithNew(s: State, s': State, t: nat, tok: Token)
    requires NamesClean(s) && t < |s.agents| && s.agents[t].Idle? && s'.agents == s.agents[t := Allocating(tok)]
    requires |s'.records| == |s.records|
    requires forall i :: 0 <= i < |s.records| ==> s'.records[i] == s.records[i] || s'.records[i].name.None?
    requires tok.wanted.Some? ==> forall i :: 0 <= i < |s.records| ==> !Named(s.records[i], tok.wanted.value)
    ensures NamesClean(s') <==>
              !(tok.wanted.Some? && exists u :: 0 <= u < |s.agents| && Creating(s.agents[u], tok.wanted.value))
  {
    assert forall i, name :: 0 <= i < |s.records| && Named(s'.records[i], name) ==> Named(s.records[i], name);
    assert NamesUnique(s');
    assert forall u :: 0 <= u < |s.agents| && u != t ==> s'.agents[u] == s.agents[u];
    if tok.wanted.Some? && exists u :: 0 <= u < |s.agents| && Creating(s.agents[u], tok.wanted.value) {
      var u :| 0 <= u < |s.agents| && Creating(s.agents[u], tok.wanted.value);
      assert Creating(s'.agents[u], tok.wanted.value) && Creating(s'.agents[t], tok.wanted.value);
    }
  }

  lemma NamesOnAllocate(s: State, e: Event)
    requires Inv(s) && Enabled(s, e) && NamesClean(s) && e.Allocate?
    ensures NamesClean(Step(s, e)) <==> !RacesForName(s, e)
  {
    var f := NextFree(s.records, s.lastIssued, |s.records|);
    if f.Some? && (e.wanted.Some? ==> FirstNamed(s.records, e.wanted.value, 0) == |s.records|) {
      hide NextFree, Inv, NamesClean, Creating;
      var tok := Token(Exclusive, f.value % |s.records|, f.value, e.wanted);
      NamesWithNew(s, Step(s, e), e.t, tok);
    }
  }

  lemma NamesOnSetName(s: State, e: Event)
    requires Inv(s) && Enabled(s, e) && NamesClean(s) && e.SetName?
    ensures NamesClean(Step(s, e))
  {
    var s' := Step(s, e);
    var k := s.agents[e.t].tok.idx;
    var n := s.agents[e.t].tok.wanted.value;
    assert Creating(s.agents[e.t], n);
    assert forall i :: 0 <= i < |s.records| && i != k ==> s'.records[i] == s.records[i] && !Named(s.records[i], n);
    assert s'.agents == s.agents;
  }

  /** OS_ERR_NAME_TAKEN is reported for names on the table only; a name still on its way there is
      missed.  A step keeps names clean exactly when it does not race for a name. */
  lemma NamesCleanExactly(s: State, e: Event)
    requires Inv(s) && Enabled(s, e) && NamesClean(s)
    ensures NamesClean(Step(s, e)) <==> !RacesForName(s, e)
  {
    if e.Allocate? {
      NamesOnAllocate(s, e);
    } else if e.SetName? {
      NamesOnSetName(s, e);
    } else {
      NamesOnOthers(s, e);
    }
  }

  lemma NamesOnOthers(s: State, e: Event)
    requires Inv(s) && Enabled(s, e) && NamesClean(s) && !e.Allocate? && !e.SetName?
    ensures NamesClean(Step(s, e))
  {
    hide NextFree, NamesClean;
    assert TokenOk(s.agents[e.t], s.records);
    if e.Finish? || e.Attempt? {
      var k := s.agents[e.t].tok.idx;
      assert RecordInv(|s.records|, s.records[k], s.agents, k);
      assert Agrees(s.records[k].activeId, StakeOf(s.agents[e.t], k));
    }
    hide Inv;
    NamesShrink(s, Step(s, e));
  }

  predicate RunRaces(s: State, es: seq<Event>)
    requires 0 < |s.records| && ValidRun(s, es)
    decreases es
  {
    es != [] && (RacesForName(s, es[0]) || RunRaces(Step(s, es[0]), es[1..]))
  }

  // A run in which no two creations of one name overlap never has a name twice in the table.
  lemma {:induction false} RunNamesUnique(s: State, es: seq<Event>)
    requires Inv(s) && NamesClean(s) && ValidRun(s, es) && !RunRaces(s, es)
    ensures NamesClean(Run(s, es)) && NamesUnique(Run(s, es))
    decreases es
  {
    if es != [] {
      StepInv(s, es[0]);
      NamesCleanExactly(s, es[0]);
      RunNamesUnique(Step(s, es[0]), es[1..]);
    }
  }

  // ---------------------------------------------------------------------------------
  // When the table can get a name twice
  // ---------------------------------------------------------------------------------

  // An unfinished creation of the name holds a record that is neither free nor about to be allocated.
  lemma Rival(s: State, e: Event) returns (u: nat)
    requires Inv(s) && Enabled(s, e) && RacesForName(s, e)
    ensures u < |s.agents| && u != e.t && s.agents[u].Holding? && s.agents[u].tok.wanted == e.wanted
    ensures s.agents[u].tok.idx < |s.records| && s.records[s.agents[u].tok.idx].activeId == Reserved
  {
    u :| 0 <= u < |s.agents| && Creating(s.agents[u], e.wanted.value);
    assert OwnsTable(s.agents[u]) <==> s.lock == Some(u);
    assert TokenOk(s.agents[u], s.records);
    var m := s.agents[u].tok.idx;
    assert RecordInv(|s.records|, s.records[m], s.agents, m);
    assert Agrees(s.records[m].activeId, StakeOf(s.agents[u], m));
  }

  // Both creations enter the name, each in its own record.
  lemma BothNamed(s: State, t: nat, u: nat)
    requires 0 < |s.records| && t < |s.agents| && u < |s.agents|
    requires s.agents[t].Holding? && s.agents[u].Holding?
    requires var k, m := s.agents[t].tok.idx, s.agents[u].tok.idx;
             && k < |s.records| && m < |s.records| && k != m
             && !s.records[k].activeId.Undefined? && !s.records[m].activeId.Undefined?
    requires s.agents[t].tok.wanted.Some? && s.agents[u].tok.wanted == s.agents[t].tok.wanted
    ensures Enabled(s, SetName(t)) && Enabled(Step(s, SetName(t)), SetName(u))
    ensures !NamesUnique(Step(Step(s, SetName(t)), SetName(u)))
  {
    var k, m, name := s.agents[t].tok.idx, s.agents[u].tok.idx, s.agents[t].tok.wanted.value;
    var s3 := Put(s, t, s.agents[t], k, s.records[k].(name := Some(name)), s.lock);
    assert Step(s, SetName(t)) == s3 && s3.agents == s.agents;
    var s4 := Step(s3, SetName(u));
    assert Named(s4.records[k], name) && Named(s4.records[m], name);
  }

  lemma RunThree(s: State, e: Event, f: Event, g: Event)
    requires 0 < |s.records| && Enabled(s, e) && Enabled(Step(s, e), f) && Enabled(Step(Step(s, e), f), g)
    ensures ValidRun(s, [e, f, g]) && Run(s, [e, f, g]) == Step(Step(Step(s, e), f), g)
  {
    hide Step, Enabled;
    StepSize(s, e);
    StepSize(Step(s, e), f);
    StepSize(Step(Step(s, e), f), g);
    var last := Step(Step(s, e), f);
    assert [g][1..] == [] && ValidRun(Step(last, g), []) && Run(last, [g]) == Step(last, g);
    RunTwo(s, e, f, [g]);
    assert [e, f] + [g] == [e, f, g];
  }

  // A race is enough: the two creations go on, and the name is in the table twice.
  lemma RaceDuplicates(s: State, e: Event) returns (u: nat)
    requires Inv(s) && Enabled(s, e) && RacesForName(s, e)
    ensures u < |s.agents| && u != e.t
    ensures var es := [Attempt(e.t), SetName(e.t), SetName(u)];
            0 < |Step(s, e).records| && ValidRun(Step(s, e), es) && !NamesUnique(Run(Step(s, e), es))
  {
    u := Rival(s, e);
    var tok := Allocated(s, e.t, e.wanted);
    hide Inv, RacesForName, NamesUnique;
    var s1 := Step(s, e);
    var s2 := Step(s1, Attempt(e.t));
    hide Step, Enabled;
    assert s2.agents[u] == s.agents[u] && s2.agents[e.t] == Holding(tok);
    assert s2.records[s.agents[u].tok.idx] == s.records[s.agents[u].tok.idx];
    BothNamed(s2, e.t, u);
    RunThree(s1, Attempt(e.t), SetName(e.t), SetName(u));
  }

  // The creations in flight can go on, without any new one, until a name is in the table twice.
  ghost predicate Duplicable(s: State)
    requires 0 < |s.records|
  {
    exists es: seq<Event> :: (forall e :: e in es ==> !e.Allocate?) && ValidRun(s, es) && !NamesUnique(Run(s, es))
  }

  lemma {:induction false} NoRaceWithoutAllocate(s: State, es: seq<Event>)
    requires 0 < |s.records| && ValidRun(s, es) && forall e :: e in es ==> !e.Allocate?
    ensures !RunRaces(s, es)
    decreases es
  {
    hide Step;
    if es != [] {
      assert es[0] in es;
      StepSize(s, es[0]);
      NoRaceWithoutAllocate(Step(s, es[0]), es[1..]);
    }
  }

  lemma StepSize(s: State, e: Event)
    requires 0 < |s.records| && Enabled(s, e)
    ensures |Step(s, e).records| == |s.records|
  {
  }

  lemma CleanIsSafe(s: State)
    requires Inv(s) && NamesClean(s)
    ensures !Duplicable(s)
  {
    forall es: seq<Event> | (forall e :: e in es ==> !e.Allocate?) && ValidRun(s, es) ensures NamesUnique(Run(s, es)) {
      NoRaceWithoutAllocate(s, es);
      RunNamesUnique(s, es);
    }
  }

  /** The exact condition for one step: while names are distinct, a step lets the creations in flight put
      a name into the table twice if and only if it races for a name. */
  lemma DuplicableExactly(s: State, e: Event)
    requires Inv(s) && NamesClean(s) && Enabled(s, e)
    ensures 0 < |Step(s, e).records| && (Duplicable(Step(s, e)) <==> RacesForName(s, e))
  {
    StepInv(s, e);
    if RacesForName(s, e) {
      var u := RaceDuplicates(s, e);
      hide Inv, RacesForName, NamesUnique, Step, Enabled, ValidRun, Run;
      var es := [Attempt(e.t), SetName(e.t), SetName(u)];
      assert ValidRun(Step(s, e), es) && !NamesUnique(Run(Step(s, e), es));
    } else {
      NamesCleanExactly(s, e);
      hide Step, Enabled;
      CleanIsSafe(Step(s, e));
    }
  }

  // Some state on the way of the run is one from which a name can get into the table twice.
  ghost predicate PassesDuplicable(s: State, es: seq<Event>)
    requires 0 < |s.records| && ValidRun(s, es)
    decreases es
  {
    Duplicable(s) || (es != [] && PassesDuplicable(Step(s, es[0]), es[1..]))
  }

  /** The exact condition for whole runs: a run never comes to a state from which the creations in flight
      can put a name into the table twice, if and only if none of its steps races for a name. */
  lemma {:induction false} RunDuplicableExactly(s: State, es: seq<Event>)
    requires Inv(s) && NamesClean(s) && ValidRun(s, es)
    ensures PassesDuplicable(s, es) <==> RunRaces(s, es)
    decreases es
  {
    hide Step, Enabled, Inv, NamesClean, RacesForName, Duplicable;
    CleanIsSafe(s);
    InvSize(s);
    if es != [] {
      StepInv(s, es[0]);
      DuplicableExactly(s, es[0]);
      NamesCleanExactly(s, es[0]);
      if !RacesForName(s, es[0]) {
        RunDuplicableExactly(Step(s, es[0]), es[1..]);
      }
    }
  }

  // The table starts with all names distinct, so this covers every run of an initialised table.
  lemma InitClean(max: nat, agents: nat)
    requires 0 < max
    ensures Inv(Init(max, agents)) && NamesClean(Init(max, agents))
  {
    InitInv(max, agents);
  }

  // Two overlapping creations of the queue "q": after the allocations, and after the names are set.
  const FIRST := Token(Exclusive, 1, 1, Some("q"))
  const SECOND := Token(Exclusive, 0, 2, Some("q"))

  const ONE_ALLOCATED := State([Record(Undefined, 0, None), Record(Reserved, 1, None)], 1, None, [Holding(FIRST), Idle])
  const BOTH_ALLOCATED :=
    State([Record(Reserved, 1, None), Record(Reserved, 1, None)], 2, None, [Holding(FIRST), Holding(SECOND)])
  const BOTH_NAMED :=
    State([Record(Reserved, 1, Some("q")), Record(Reserved, 1, Some("q"))], 2, None, [Holding(FIRST), Holding(SECOND)])
  const BOTH_CREATED := State([Record(Live(2), 0, Some("q")), Record(Live(1), 0, Some("q"))], 2, None, [Idle, Idle])

  lemma AllocateOne()
    ensures Enabled(Init(2, 2), Allocate(0, Some("q"))) && Enabled(Step(Init(2, 2), Allocate(0, Some("q"))), Attempt(0))
    ensures Step(Step(Init(2, 2), Allocate(0, Some("q"))), Attempt(0)) == ONE_ALLOCATED
  {
    var s := Step(Init(2, 2), Allocate(0, Some("q")));
    assert s == State([Record(Undefined, 0, None), Record(Live(1), 0, None)], 1, Some(0), [Allocating(FIRST), Idle]);
  }

  lemma AllocateBoth()
    ensures Enabled(ONE_ALLOCATED, Allocate(1, Some("q")))
    ensures Enabled(Step(ONE_ALLOCATED, Allocate(1, Some("q"))), Attempt(1))
    ensures Step(Step(ONE_ALLOCATED, Allocate(1, Some("q"))), Attempt(1)) == BOTH_ALLOCATED
  {
    var s := Step(ONE_ALLOCATED, Allocate(1, Some("q")));
    var agents := [Holding(FIRST), Allocating(SECOND)];
    assert s == State([Record(Live(2), 0, None), Record(Reserved, 1, None)], 2, Some(1), agents);
  }

  lemma NameBoth()
    ensures Enabled(BOTH_ALLOCATED, SetName(0)) && Enabled(Step(BOTH_ALLOCATED, SetName(0)), SetName(1))
    ensures Step(Step(BOTH_ALLOCATED, SetName(0)), SetName(1)) == BOTH_NAMED
  {
  }

  lemma FinishBoth()
    ensures Enabled(BOTH_NAMED, Finish(0, Restore)) && Enabled(Step(BOTH_NAMED, Finish(0, Restore)), Finish(1, Restore))
    ensures Step(Step(BOTH_NAMED, Finish(0, Restore)), Finish(1, Restore)) == BOTH_CREATED
  {
  }

  // Both creations succeed, and the name is in the table twice.
  lemma DuplicateName()
    ensures var es := [Allocate(0, Some("q")), Attempt(0), Allocate(1, Some("q")), Attempt(1),
                       SetName(0), SetName(1), Finish(0, Restore), Finish(1, Restore)];
            ValidRun(Init(2, 2), es) && Run(Init(2, 2), es) == BOTH_CREATED && !NamesUnique(BOTH_CREATED)
  {
    hide Step, Enabled;
    var last := [Finish(0, Restore), Finish(1, Restore)];
    var named := [SetName(0), SetName(1)] + last;
    var second := [Allocate(1, Some("q")), Attempt(1)] + named;
    FinishBoth();
    RunTwo(BOTH_NAMED, Finish(0, Restore), Finish(1, Restore), []);
    assert last + [] == last;
    NameBoth();
    RunTwo(BOTH_ALLOCATED, SetName(0), SetName(1), last);
    AllocateBoth();
    RunTwo(ONE_ALLOCATED, Allocate(1, Some("q")), Attempt(1), named);
    AllocateOne();
    RunTwo(Init(2, 2), Allocate(0, Some("q")), Attempt(0), second);
    assert [Allocate(0, Some("q")), Attempt(0)] + second
        == [Allocate(0, Some("q")), Attempt(0), Allocate(1, Some("q")), Attempt(1),
            SetName(0), SetName(1), Finish(0, Restore), Finish(1, Restore)];
    assert Named(BOTH_CREATED.records[0], "q") && Named(BOTH_CREATED.records[1], "q");
  }
}
