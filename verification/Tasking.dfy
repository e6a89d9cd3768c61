/**
 The tasking example (src/examples/tasking-example/tasking-example.c): two tasks put their IDs into a
 queue, two at a time, under a mutex; a third task reads the queue.  Steps of the tasks interleave freely.
 */
module Tasking {
  import opened Common

  // MSGQ_DEPTH
  const MSGQ_DEPTH: nat := 50

  datatype Task = Task1 | Task2

  // Where task_1 or task_2 stands in its loop: before which of its statements.
  datatype Place = AtTake | AtWrite1 | AtPut1 | AtWrite2 | AtPut2 | AtGive

  /** `puts` and `gets` are all messages that were ever put into and taken out of the queue. */
  datatype State = State(place1: Place, place2: Place, owner: Option<Task>, x: nat,
                         queue: seq<nat>, puts: seq<nat>, gets: seq<nat>)

  // Calls to the system either succeed or fail with an error status; the tasks go on in both cases.
  datatype Event = Take(t: Task, ok: bool) | Write(t: Task) | Put(t: Task, ok: bool) | Give(t: Task) | Get

  function PlaceOf(s: State, t: Task): Place {
    if t.Task1? then s.place1 else s.place2
  }

  function At(s: State, t: Task, p: Place): State {
    if t.Task1? then s.(place1 := p) else s.(place2 := p)
  }

  // A take that succeeds has waited for the mutex; a full queue refuses a message.
  predicate Enabled(s: State, e: Event) {
    match e
    case Take(t, ok) => PlaceOf(s, t).AtTake? && (ok ==> s.owner.None?)
    case Write(t) => PlaceOf(s, t).AtWrite1? || PlaceOf(s, t).AtWrite2?
    case Put(t, ok) => (PlaceOf(s, t).AtPut1? || PlaceOf(s, t).AtPut2?) && (ok ==> |s.queue| < MSGQ_DEPTH)
    case Give(t) => PlaceOf(s, t).AtGive?
    case Get => s.queue != []
  }

  function Step(s: State, e: Event, id: Task -> nat): State
    requires Enabled(s, e)
  {
    match e
    case Take(t, ok) => At(s, t, AtWrite1).(owner := if ok then Some(t) else s.owner)
    case Write(t) => At(s, t, if PlaceOf(s, t).AtWrite1? then AtPut1 else AtPut2).(x := id(t))
    case Put(t, ok) =>
      var s' := At(s, t, if PlaceOf(s, t).AtPut1? then AtWrite2 else AtGive);
      if ok then s'.(queue := s.queue + [s.x], puts := s.puts + [s.x]) else s'
    case Give(t) => At(s, t, AtTake).(owner := if s.owner == Some(t) then None else s.owner)
    case Get => s.(queue := s.queue[1..], gets := s.gets + [s.queue[0]])
  }

  const START := State(AtTake, AtTake, None, 0, [], [], [])

  ghost predicate Valid(es: seq<Event>, id: Task -> nat)
    decreases es, 0
  {
    es == [] || (Valid(es[..|es| - 1], id) && Enabled(End(es[..|es| - 1], id), es[|es| - 1]))
  }

  ghost function End(es: seq<Event>, id: Task -> nat): State
    requires Valid(es, id)
    decreases es, 1
  {
    if es == [] then START else Step(End(es[..|es| - 1], id), es[|es| - 1], id)
  }

  // ---------------------------------------------------------------------------------
  // Critical sections of a run
  // ---------------------------------------------------------------------------------

  // A critical section: who entered it, and how many messages were put since.
  datatype Section = Section(holder: Task, count: nat)

  function Sections(es: seq<Event>): seq<Section>
    decreases es
  {
    if es == [] then [] else SectionsAfter(Sections(es[..|es| - 1]), es[|es| - 1])
  }

  function SectionsAfter(before: seq<Section>, e: Event): seq<Section> {
    if e.Take? then before + [Section(e.t, 0)]
    else if e.Put? && e.ok && before != [] then
      before[|before| - 1 := before[|before| - 1].(count := before[|before| - 1].count + 1)]
    else before
  }

  function Copies(n: nat, v: nat): seq<nat> {
    seq(n, _ => v)
  }

  // The messages of sections that put nothing but their holder's ID.
  function Expand(ss: seq<Section>, id: Task -> nat): seq<nat> {
    if ss == [] then [] else Expand(ss[..|ss| - 1], id) + Copies(ss[|ss| - 1].count, id(ss[|ss| - 1].holder))
  }

  // How many puts of its section a task has behind it, at most.
  function PutsBefore(p: Place): nat {
    match p
    case AtTake => 0 case AtWrite1 => 0 case AtPut1 => 0
    case AtWrite2 => 1 case AtPut2 => 1
    case AtGive => 2
  }

  predicate Inside(s: State, t: Task) {
    !PlaceOf(s, t).AtTake?
  }

  // Only the owner of the mutex is inside, and what it wrote last is still in the shared variable.
  predicate Exclusive(s: State, id: Task -> nat) {
    && (forall t :: Inside(s, t) <==> s.owner == Some(t))
    && (forall t :: PlaceOf(s, t).AtPut1? || PlaceOf(s, t).AtPut2? ==> s.x == id(t))
  }

  predicate Inv(s: State, ss: seq<Section>, id: Task -> nat) {
    && Exclusive(s, id)
    && s.puts == Expand(ss, id) && s.gets + s.queue == s.puts && |s.queue| <= MSGQ_DEPTH
    && (forall i :: 0 <= i < |ss| ==> ss[i].count <= 2)
    && (s.owner.Some? ==> ss != [] && ss[|ss| - 1].holder == s.owner.value
                          && ss[|ss| - 1].count <= PutsBefore(PlaceOf(s, s.owner.value)))
  }

  predicate AllTaken(es: seq<Event>) {
    forall i :: 0 <= i < |es| && es[i].Take? ==> es[i].ok
  }

  predicate AllPut(es: seq<Event>) {
    forall i :: 0 <= i < |es| && es[i].Put? ==> es[i].ok
  }

  lemma {:induction false} ExpandOne(ss: seq<Section>, x: Section, id: Task -> nat)
    ensures Expand(ss + [x], id) == Expand(ss, id) + Copies(x.count, id(x.holder))
  {
    assert (ss + [x])[..|ss + [x]| - 1] == ss;
  }

  // One more message in the last section.
  lemma ExpandMore(ss: seq<Section>, id: Task -> nat)
    requires ss != []
    ensures var last := ss[|ss| - 1];
            Expand(ss[|ss| - 1 := last.(count := last.count + 1)], id) == Expand(ss, id) + [id(last.holder)]
  {
    var last := ss[|ss| - 1];
    var ss' := ss[|ss| - 1 := last.(count := last.count + 1)];
    assert ss'[..|ss| - 1] == ss[..|ss| - 1];
    assert Copies(last.count + 1, id(last.holder)) == Copies(last.count, id(last.holder)) + [id(last.holder)];
  }

  lemma InvStep(s: State, ss: seq<Section>, e: Event, id: Task -> nat)
    requires Inv(s, ss, id) && Enabled(s, e) && (e.Take? ==> e.ok)
    ensures Inv(Step(s, e, id), SectionsAfter(ss, e), id)
  {
    hide Exclusive, Expand;
    if e.Get? {
      assert s.gets + s.queue == s.gets + [s.queue[0]] + s.queue[1..];
      assert Exclusive(Step(s, e, id), id) by { ExclusiveGet(s, id); }
    } else {
      ExclusiveStep(s, e, id);
      if e.Take? {
        ExpandOne(ss, Section(e.t, 0), id);
      } else if e.Put? && e.ok {
        ExclusiveValue(s, e.t, id);
        ExpandMore(ss, id);
        assert s.gets + (s.queue + [s.x]) == s.gets + s.queue + [s.x];
      }
    }
  }

  lemma ExclusiveGet(s: State, id: Task -> nat)
    requires Exclusive(s, id) && s.queue != []
    ensures Exclusive(Step(s, Get, id), id)
  {
    forall t ensures Inside(Step(s, Get, id), t) <==> s.owner == Some(t) {
      assert Inside(s, t) <==> s.owner == Some(t);
    }
  }

  lemma ExclusiveValue(s: State, t: Task, id: Task -> nat)
    requires Exclusive(s, id) && (PlaceOf(s, t).AtPut1? || PlaceOf(s, t).AtPut2?)
    ensures s.x == id(t)
  {
  }

  lemma {:induction false} RunInv(es: seq<Event>, id: Task -> nat)
    requires Valid(es, id) && AllTaken(es)
    ensures Inv(End(es, id), Sections(es), id)
    decreases es
  {
    hide Inv, Step, SectionsAfter;
    if es == [] {
      StartInv(id);
    } else {
      RunInv(es[..|es| - 1], id);
      InvStep(End(es[..|es| - 1], id), Sections(es[..|es| - 1]), es[|es| - 1], id);
    }
  }

  lemma StartInv(id: Task -> nat)
    ensures Inv(START, [], id)
  {
  }

  lemma ExclusiveStep(s: State, e: Event, id: Task -> nat)
    requires Exclusive(s, id) && Enabled(s, e) && !e.Get? && (e.Take? ==> e.ok)
    ensures Exclusive(Step(s, e, id), id)
    ensures !e.Take? ==> s.owner == Some(e.t)
  {
    var s' := Step(s, e, id);
    assert Inside(s, e.t) || e.Take?;
    forall t ensures Inside(s', t) <==> s'.owner == Some(t) {
      assert Inside(s, t) <==> s.owner == Some(t);
    }
    forall t | PlaceOf(s', t).AtPut1? || PlaceOf(s', t).AtPut2? ensures s'.x == id(t) {
      assert Inside(s', t);
    }
  }

  /** In every interleaving in which the mutex is never refused: the messages put into the queue are, one
      critical section after the other, at most two copies of the ID of the holder; what the
      third task has received, followed by what is in the queue, is what was put; and the tasks are never
      inside together. */
  lemma BlocksOfOneTask(es: seq<Event>, id: Task -> nat)
    requires Valid(es, id) && AllTaken(es)
    ensures var s := End(es, id);
            && s.puts == Expand(Sections(es), id) && s.gets + s.queue == s.puts
            && (forall i :: 0 <= i < |Sections(es)| ==> Sections(es)[i].count <= 2)
            && !(Inside(s, Task1) && Inside(s, Task2))
  {
    RunInv(es, id);
    var s := End(es, id);
    assert Inside(s, Task1) <==> s.owner == Some(Task1);
  }

  // ---------------------------------------------------------------------------------
  // Pairs
  // ---------------------------------------------------------------------------------

  predicate Pairs(msgs: seq<nat>) {
    |msgs| % 2 == 0 && forall i :: 0 <= i < |msgs| / 2 ==> msgs[2 * i] == msgs[2 * i + 1]
  }

  lemma PairsAppend(a: seq<nat>, v: nat)
    requires Pairs(a)
    ensures Pairs(a + [v, v])
  {
  }

  lemma {:induction false} ExpandPairs(ss: seq<Section>, id: Task -> nat)
    requires forall i :: 0 <= i < |ss| ==> ss[i].count == 2
    ensures Pairs(Expand(ss, id))
    decreases |ss|
  {
    if ss != [] {
      var last := ss[|ss| - 1];
      ExpandPairs(ss[..|ss| - 1], id);
      assert Copies(last.count, id(last.holder)) == [id(last.holder), id(last.holder)];
      PairsAppend(Expand(ss[..|ss| - 1], id), id(last.holder));
    }
  }

  // With no put refused, every section but the open one has put both its messages.
  predicate Full(s: State, ss: seq<Section>) {
    && (forall i :: 0 <= i < |ss| - 1 ==> ss[i].count == 2)
    && (ss != [] ==> ss[|ss| - 1].count == if s.owner.Some? then PutsBefore(PlaceOf(s, s.owner.value)) else 2)
  }

  lemma FullStep(s: State, ss: seq<Section>, e: Event, id: Task -> nat)
    requires Full(s, ss) && Inv(s, ss, id) && Enabled(s, e) && (e.Take? || e.Put? ==> e.ok)
    ensures Full(Step(s, e, id), SectionsAfter(ss, e))
  {
    hide Exclusive, Expand;
    if !e.Get? {
      ExclusiveStep(s, e, id);
    }
  }

  lemma {:induction false} RunFull(es: seq<Event>, id: Task -> nat)
    requires Valid(es, id) && AllTaken(es) && AllPut(es)
    ensures Full(End(es, id), Sections(es))
    decreases es
  {
    hide Inv, Step, SectionsAfter, Full;
    if es == [] {
      StartFull();
    } else {
      RunFull(es[..|es| - 1], id);
      RunInv(es[..|es| - 1], id);
      FullStep(End(es[..|es| - 1], id), Sections(es[..|es| - 1]), es[|es| - 1], id);
    }
  }

  lemma StartFull()
    ensures Full(START, [])
  {
  }

  /** If no put is refused either, the history is a sequence of equal pairs whenever the mutex is free. */
  lemma EqualPairs(es: seq<Event>, id: Task -> nat)
    requires Valid(es, id) && AllTaken(es) && AllPut(es) && End(es, id).owner.None?
    ensures Pairs(End(es, id).puts)
  {
    RunInv(es, id);
    RunFull(es, id);
    ExpandPairs(Sections(es), id);
  }

  lemma RunOne(es: seq<Event>, e: Event, id: Task -> nat)
    requires Valid(es, id) && Enabled(End(es, id), e)
    ensures Valid(es + [e], id) && End(es + [e], id) == Step(End(es, id), e, id)
  {
    assert (es + [e])[..|es + [e]| - 1] == es;
  }

  // The condition is needed: a task whose take fails goes on without the mutex, and task 1, which has the
  // mutex, puts the other task's ID.
  lemma RefusedTakeMixes(id: Task -> nat)
    ensures var es := [Take(Task1, true), Write(Task1), Take(Task2, false), Write(Task2), Put(Task1, true)];
            && Valid(es, id)
            && End(es, id).owner == Some(Task1) && End(es, id).puts == [id(Task2)]
  {
    var a, b, c, d, e := Take(Task1, true), Write(Task1), Take(Task2, false), Write(Task2), Put(Task1, true);
    RunOne([], a, id);
    assert [] + [a] == [a];
    RunOne([a], b, id);
    assert [a] + [b] == [a, b];
    RunOne([a, b], c, id);
    assert [a, b] + [c] == [a, b, c];
    RunOne([a, b, c], d, id);
    assert [a, b, c] + [d] == [a, b, c, d];
    RunOne([a, b, c, d], e, id);
    assert [a, b, c, d] + [e] == [a, b, c, d, e];
  }

  // ---------------------------------------------------------------------------------
  // When IDs can get mixed up
  // ---------------------------------------------------------------------------------

  ghost predicate ValidFrom(s: State, es: seq<Event>, id: Task -> nat)
    decreases es
  {
    es == [] || (Enabled(s, es[0]) && ValidFrom(Step(s, es[0], id), es[1..], id))
  }

  ghost function RunFrom(s: State, es: seq<Event>, id: Task -> nat): State
    requires ValidFrom(s, es, id)
    decreases es
  {
    if es == [] then s else RunFrom(Step(s, es[0], id), es[1..], id)
  }

  // The owner of the mutex is about to put an ID that is not its own.
  predicate PutsOther(s: State, t: Task, id: Task -> nat) {
    Enabled(s, Put(t, true)) && s.owner == Some(t) && s.x != id(t)
  }

  // Steps in which no take is refused lead to that.
  ghost predicate Mixable(s: State, id: Task -> nat) {
    exists es: seq<Event>, t: Task :: AllTaken(es) && ValidFrom(s, es, id) && PutsOther(RunFrom(s, es, id), t, id)
  }

  lemma {:induction false} ExclusiveRun(s: State, es: seq<Event>, id: Task -> nat)
    requires Exclusive(s, id) && AllTaken(es) && ValidFrom(s, es, id)
    ensures Exclusive(RunFrom(s, es, id), id)
    decreases es
  {
    hide Exclusive, Step;
    if es != [] {
      if es[0].Get? {
        ExclusiveGet(s, id);
      } else {
        ExclusiveStep(s, es[0], id);
      }
      ExclusiveRun(Step(s, es[0], id), es[1..], id);
    }
  }

  lemma ExclusiveIsSafe(s: State, id: Task -> nat)
    requires Exclusive(s, id)
    ensures !Mixable(s, id)
  {
    forall es: seq<Event>, t: Task | AllTaken(es) && ValidFrom(s, es, id)
      ensures !PutsOther(RunFrom(s, es, id), t, id)
    {
      ExclusiveRun(s, es, id);
      var s' := RunFrom(s, es, id);
      if PlaceOf(s', t).AtPut1? || PlaceOf(s', t).AtPut2? {
        ExclusiveValue(s', t, id);
      }
    }
  }

  // A step that is not a refused take, on the way to a mix-up.
  lemma MixableBefore(s: State, e: Event, id: Task -> nat)
    requires Enabled(s, e) && (e.Take? ==> e.ok) && Mixable(Step(s, e, id), id)
    ensures Mixable(s, id)
  {
    hide Step;
    var es: seq<Event>, t: Task :|
      AllTaken(es) && ValidFrom(Step(s, e, id), es, id) && PutsOther(RunFrom(Step(s, e, id), es, id), t, id);
    var all := [e] + es;
    assert all[1..] == es;
    assert AllTaken(all);
    assert ValidFrom(s, all, id) && RunFrom(s, all, id) == RunFrom(Step(s, e, id), es, id);
  }

  function Other(t: Task): Task {
    if t.Task1? then Task2 else Task1
  }

  // The owner has written its ID, and then the other one, which has no mutex, writes its own.
  lemma MixedByWrite(s: State, t: Task, id: Task -> nat)
    requires id(Task1) != id(Task2) && s.owner == Some(Other(t)) && PlaceOf(s, t).AtWrite1? && |s.queue| < MSGQ_DEPTH
    requires PlaceOf(s, Other(t)).AtPut1? || PlaceOf(s, Other(t)).AtPut2?
    ensures Mixable(s, id)
  {
    var s' := Step(s, Write(t), id);
    assert PutsOther(s', Other(t), id);
    assert ValidFrom(s', [], id) && RunFrom(s', [], id) == s' && AllTaken([]);
    MixableBefore(s, Write(t), id);
  }

  // From wherever the owner stands, it gets to a put.
  lemma MixedInside(s: State, t: Task, id: Task -> nat)
    requires id(Task1) != id(Task2) && s.owner == Some(Other(t)) && PlaceOf(s, t).AtWrite1? && |s.queue| < MSGQ_DEPTH
    requires !PlaceOf(s, Other(t)).AtTake? && !PlaceOf(s, Other(t)).AtGive?
    ensures Mixable(s, id)
  {
    hide Mixable;
    var u := Other(t);
    if PlaceOf(s, u).AtWrite1? || PlaceOf(s, u).AtWrite2? {
      MixedByWrite(Step(s, Write(u), id), t, id);
      MixableBefore(s, Write(u), id);
    } else {
      MixedByWrite(s, t, id);
    }
  }

  lemma MixedOutside(s: State, t: Task, id: Task -> nat)
    requires id(Task1) != id(Task2) && s.owner.None? && PlaceOf(s, t).AtWrite1? && |s.queue| < MSGQ_DEPTH
    requires PlaceOf(s, Other(t)).AtTake?
    ensures Mixable(s, id)
  {
    hide Mixable;
    var u := Other(t);
    MixedInside(Step(s, Take(u, true), id), t, id);
    MixableBefore(s, Take(u, true), id);
  }

  // Room in the queue is made by the third task.
  lemma MixedWithRoom(s: State, t: Task, id: Task -> nat)
    requires id(Task1) != id(Task2) && PlaceOf(s, t).AtWrite1? && |s.queue| < MSGQ_DEPTH
    requires s.owner == if PlaceOf(s, Other(t)).AtTake? then None else Some(Other(t))
    ensures Mixable(s, id)
  {
    hide Mixable;
    var u := Other(t);
    if PlaceOf(s, u).AtTake? {
      MixedOutside(s, t, id);
    } else if PlaceOf(s, u).AtGive? {
      MixedOutside(Step(s, Give(u), id), t, id);
      MixableBefore(s, Give(u), id);
    } else {
      MixedInside(s, t, id);
    }
  }

  lemma RefusedTakeMixable(s: State, t: Task, id: Task -> nat)
    requires Exclusive(s, id) && |s.queue| <= MSGQ_DEPTH && id(Task1) != id(Task2) && Enabled(s, Take(t, false))
    ensures Mixable(Step(s, Take(t, false), id), id)
  {
    var u, s' := Other(t), Step(s, Take(t, false), id);
    assert Inside(s, u) <==> s.owner == Some(u);
    assert Inside(s, t) <==> s.owner == Some(t);
    hide Mixable;
    if |s'.queue| == MSGQ_DEPTH {
      MixedWithRoom(Step(s', Get, id), t, id);
      MixableBefore(s', Get, id);
    } else {
      MixedWithRoom(s', t, id);
    }
  }

  /** The exact condition for one step: while all is well and the IDs differ, a step lets the owner of the
      mutex come to put the other ID if and only if it is a refused take. */
  lemma MixableExactly(s: State, ss: seq<Section>, e: Event, id: Task -> nat)
    requires Inv(s, ss, id) && Enabled(s, e) && id(Task1) != id(Task2)
    ensures Mixable(Step(s, e, id), id) <==> e.Take? && !e.ok
  {
    hide Mixable, Step;
    if e.Take? && !e.ok {
      RefusedTakeMixable(s, e.t, id);
    } else {
      InvStep(s, ss, e, id);
      ExclusiveIsSafe(Step(s, e, id), id);
    }
  }

  /** And for whole runs: a run comes to a state from which the IDs can get mixed up if and only if some
      take is refused in it. */
  lemma {:induction false} RunMixableExactly(es: seq<Event>, id: Task -> nat)
    requires Valid(es, id) && id(Task1) != id(Task2)
    ensures PassesMixable(es, id) <==> !AllTaken(es)
    decreases es
  {
    hide Mixable, Step, Inv;
    if es == [] {
      StartInv(id);
      InvIsSafe(START, [], id);
    } else {
      var prev, e := es[..|es| - 1], es[|es| - 1];
      RunMixableExactly(prev, id);
      assert AllTaken(es) <==> AllTaken(prev) && (e.Take? ==> e.ok) by { assert es == prev + [e]; }
      if AllTaken(prev) {
        RunInv(prev, id);
        MixableExactly(End(prev, id), Sections(prev), e, id);
      }
    }
  }

  ghost predicate PassesMixable(es: seq<Event>, id: Task -> nat)
    requires Valid(es, id)
    decreases es
  {
    Mixable(End(es, id), id) || (es != [] && PassesMixable(es[..|es| - 1], id))
  }

  lemma InvIsSafe(s: State, ss: seq<Section>, id: Task -> nat)
    requires Inv(s, ss, id)
    ensures !Mixable(s, id)
  {
    hide Mixable;
    ExclusiveIsSafe(s, id);
  }
}
