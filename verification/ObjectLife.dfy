/**
 What the operations on the object table do for their caller: who gets which object, when a lookup succeeds,
 and what creation and deletion leave behind.  All of it is stated for any state with the invariant, so for
 every state that a run can reach.
 */
module ObjectLife {
  import opened Common
  import opened ObjectIdMap
  import opened ObjectSerials

  // ---------------------------------------------------------------------------------
  // Tokens are for what was asked
  // ---------------------------------------------------------------------------------

  // The event starts a transaction of agent t.
  predicate Starts(e: Event, t: nat) {
    e.t == t && (e.GetById? || e.GetBySearch? || e.Allocate?)
  }

  // The last start of agent t in a run.
  function LastStart(before: Option<Event>, es: seq<Event>, t: nat): Option<Event>
    decreases es
  {
    if es == [] then before else LastStart(if Starts(es[0], t) then Some(es[0]) else before, es[1..], t)
  }

  // The token is one for this start.
  predicate Asked(tok: Token, start: Event) {
    match start
    case GetById(_, mode, serial) => tok.mode == mode && tok.serial == serial && tok.wanted.None?
    case GetBySearch(_, mode, _) => tok.mode == mode && tok.wanted.None?
    case Allocate(_, wanted) => tok.mode.Exclusive? && tok.wanted == wanted
    case _ => false
  }

  predicate Originates(l: Local, start: Option<Event>) {
    l.Trying? || l.Sleeping? || l.Holding? || l.Allocating? || l.Relocking? ==> start.Some? && Asked(l.tok, start.value)
  }

  lemma OriginStep(s: State, e: Event, t: nat, start: Option<Event>)
    requires 0 < |s.records| && Enabled(s, e) && t < |s.agents| && Originates(s.agents[t], start)
    ensures |Step(s, e).agents| == |s.agents| && |Step(s, e).records| == |s.records|
    ensures Originates(Step(s, e).agents[t], if Starts(e, t) then Some(e) else start)
  {
    hide NextFree, FirstNamed;
  }

  /** In every run, whatever others do meanwhile: a transaction has a token of the mode, and for the ID, that
      its last start asked for; a creation has one for the name it wants. */
  lemma {:induction false} TokenAsAsked(s: State, es: seq<Event>, t: nat, start: Option<Event>)
    requires 0 < |s.records| && ValidRun(s, es) && t < |s.agents| && Originates(s.agents[t], start)
    ensures t < |Run(s, es).agents| && Originates(Run(s, es).agents[t], LastStart(start, es, t))
    decreases es
  {
    hide Step, Enabled, Originates;
    if es != [] {
      OriginStep(s, es[0], t, start);
      TokenAsAsked(Step(s, es[0]), es[1..], t, if Starts(es[0], t) then Some(es[0]) else start);
    }
  }

  // How often agent t tried since its last start.
  function Tries(before: nat, es: seq<Event>, t: nat): nat
    decreases es
  {
    if es == [] then before
    else Tries(if Starts(es[0], t) then 0 else if es[0] == Attempt(t) then before + 1 else before, es[1..], t)
  }

  predicate Tried(l: Local, tries: nat) {
    l.Trying? || l.Sleeping? ==> l.attempts == tries
  }

  lemma TriesStep(s: State, e: Event, t: nat, tries: nat)
    requires 0 < |s.records| && Enabled(s, e) && t < |s.agents| && Tried(s.agents[t], tries)
    requires s.agents[t].Allocating? ==> tries == 0
    ensures var l', n := Step(s, e).agents[t], if Starts(e, t) then 0 else if e == Attempt(t) then tries + 1 else tries;
            Tried(l', n) && (l'.Allocating? ==> n == 0)
  {
    hide NextFree, FirstNamed;
  }

  /** A transaction tries five times at most: while it is still at it, it has tried less often. */
  lemma {:induction false} TriesBounded(s: State, es: seq<Event>, t: nat, tries: nat)
    requires Inv(s) && ValidRun(s, es) && t < |s.agents| && Tried(s.agents[t], tries)
    requires s.agents[t].Allocating? ==> tries == 0
    ensures t < |Run(s, es).agents|
    ensures var l := Run(s, es).agents[t]; l.Trying? || l.Sleeping? ==> l.attempts == Tries(tries, es, t) < 5
    decreases es
  {
    hide Step, Enabled;
    if es == [] {
      assert TokenOk(s.agents[t], s.records);
    } else {
      StepInv(s, es[0]);
      OthersStay(s, es[0]);
      TriesStep(s, es[0], t, tries);
      var n := if Starts(es[0], t) then 0 else if es[0] == Attempt(t) then tries + 1 else tries;
      hide Inv;
      TriesBounded(Step(s, es[0]), es[1..], t, n);
    }
  }

  // ---------------------------------------------------------------------------------
  // Looking up by ID
  // ---------------------------------------------------------------------------------

  // What a transaction of this mode finds in the record it is for.
  predicate Available(r: Record, mode: Mode, serial: nat, claimed: bool) {
    match mode
    case Global => r.activeId == Live(serial)
    case Refcount => r.activeId == Live(serial)
    case Exclusive => (r.activeId == Live(serial) || claimed) && r.refcount == 0
    case ReservedMode => r.activeId == Reserved
  }

  // It has to wait: the object is being created or deleted, or an exclusive transaction finds it in use.
  predicate Occupied(r: Record, mode: Mode, serial: nat, claimed: bool) {
    match mode
    case Global => r.activeId == Reserved
    case Refcount => r.activeId == Reserved
    case Exclusive =>
      || (r.activeId == Reserved && !claimed)
      || ((r.activeId == Live(serial) || claimed) && r.refcount != 0)
    case ReservedMode => false
  }

  /** One attempt gets the object if and only if it is available, and is then one of its users; it waits if
      and only if the object is occupied, four times at most; otherwise it ends and leaves the record alone. */
  lemma AttemptExactly(s: State, t: nat)
    requires Inv(s) && t < |s.agents| && s.agents[t].Trying?
    ensures Enabled(s, Attempt(t))
    ensures var l, s' := s.agents[t], Step(s, Attempt(t));
            var tok, r, r' := l.tok, s.records[l.tok.idx], s'.records[l.tok.idx];
            && (s'.agents[t].Holding? <==> Available(r, tok.mode, tok.serial, l.claimed))
            && (s'.agents[t].Sleeping? <==> Occupied(r, tok.mode, tok.serial, l.claimed) && l.attempts + 1 < 5)
            && (s'.agents[t].Holding? ==> s'.agents[t] == Holding(tok))
            && (s'.agents[t].Sleeping? ==> s'.agents[t].tok == tok && s'.agents[t].search == l.search && s'.lock.None?)
            && (s'.agents[t].Holding? ==>
                  r' == r.(activeId := if tok.mode.Exclusive? then Reserved else r.activeId,
                           refcount := r.refcount + 1))
            && (!s'.agents[t].Holding? && !s'.agents[t].Sleeping? ==>
                  r' == if l.claimed then r.(activeId := Live(tok.serial)) else r)
            && s'.records == s.records[l.tok.idx := r']
  {
    var l := s.agents[t];
    assert TokenOk(l, s.records);
    assert RecordInv(|s.records|, s.records[l.tok.idx], s.agents, l.tok.idx);
    assert Agrees(s.records[l.tok.idx].activeId, StakeOf(l, l.tok.idx));
  }

  /** A lookup by ID, all of OS_ObjectIdGetById when there is no need to wait: it gets the token for the ID if
      and only if the record of that ID is available; if it is not and there is nothing to wait for, the table
      is as it was. */
  lemma LookupExactly(s: State, t: nat, mode: Mode, serial: nat)
    requires Inv(s) && t < |s.agents| && s.agents[t].Idle? && s.lock.None?
    ensures Enabled(s, GetById(t, mode, serial)) && Enabled(Step(s, GetById(t, mode, serial)), Attempt(t))
    ensures var s', k := Step(Step(s, GetById(t, mode, serial)), Attempt(t)), serial % |s.records|;
            && (s'.agents[t].Holding? <==> Available(s.records[k], mode, serial, false))
            && (s'.agents[t].Holding? ==> s'.agents[t] == Holding(Token(mode, k, serial, None)))
            && (s' == s <==>
                  !Available(s.records[k], mode, serial, false) && !Occupied(s.records[k], mode, serial, false))
  {
    var e := GetById(t, mode, serial);
    StepInv(s, e);
    var s1 := Step(s, e);
    assert s1.agents[t].Trying?;
    AttemptExactly(s1, t);
    var k, s' := serial % |s.records|, Step(s1, Attempt(t));
    assert s1.records == s.records && s1.lastIssued == s.lastIssued;
    if !s'.agents[t].Holding? && !s'.agents[t].Sleeping? {
      assert s'.records == s.records[k := s.records[k]] == s.records;
      assert s'.agents == s.agents[t := Trying(s1.agents[t].tok, 0, false, false)][t := Idle] == s.agents;
    }
  }

  // ---------------------------------------------------------------------------------
  // Looking up by name
  // ---------------------------------------------------------------------------------

  /** A search locks the first record that carries the name, if its object is not being created or deleted, and
      gets it if it is available; if no record carries the name, the table is as it was. */
  lemma SearchExactly(s: State, t: nat, mode: Mode, name: string, i: nat)
    requires Inv(s) && t < |s.agents| && s.agents[t].Idle? && s.lock.None? && i <= |s.records|
    requires forall j :: 0 <= j < i ==> !Named(s.records[j], name)
    requires i < |s.records| ==> Named(s.records[i], name)
    ensures Enabled(s, GetBySearch(t, mode, name))
    ensures var s1 := Step(s, GetBySearch(t, mode, name));
            && (i == |s.records| ==> s1 == s)
            && (i < |s.records| && s.records[i].activeId.Live? ==>
                  var serial := s.records[i].activeId.serial;
                  && Inv(s1) && s1.agents[t].Trying? && s1.agents[t].tok == Token(mode, i, serial, None)
                  && (Step(s1, Attempt(t)).agents[t].Holding? <==> Available(s.records[i], mode, serial, false)))
  {
    var e := GetBySearch(t, mode, name);
    assert FirstNamed(s.records, name, 0) == i;
    if i < |s.records| && s.records[i].activeId.Live? {
      StepInv(s, e);
      AttemptExactly(Step(s, e), t);
    }
  }

  // ---------------------------------------------------------------------------------
  // Finishing
  // ---------------------------------------------------------------------------------

  /** The end of a transaction: one user less; a deletion frees the record, a creation and a transaction that
      keeps the object leave it with its ID; name and other records stay, and the lock is free. */
  lemma FinishExactly(s: State, t: nat, final: Final)
    requires Inv(s) && Enabled(s, Finish(t, final))
    ensures var s', tok := Step(s, Finish(t, final)), s.agents[t].tok;
            var r, r' := s.records[tok.idx], s'.records[tok.idx];
            && (final.Drop? ==> r'.activeId == Undefined)
            && (final.Restore? || (final.Keep? && tok.mode.Exclusive?) ==> r'.activeId == Live(tok.serial))
            && (final.Keep? && !tok.mode.Exclusive? ==> r'.activeId == r.activeId)
            && r'.refcount + 1 == r.refcount && r'.name == r.name
            && (tok.mode.Exclusive? ==> r'.refcount == 0)
            && s'.records == s.records[tok.idx := r'] && s'.agents == s.agents[t := Idle] && s'.lock.None?
  {
    var tok := s.agents[t].tok;
    assert TokenOk(s.agents[t], s.records);
    assert RecordInv(|s.records|, s.records[tok.idx], s.agents, tok.idx);
    assert t in Users(s.agents, tok.idx);
    assert Users(s.agents, tok.idx) != {};
    if tok.mode.Exclusive? {
      OnlyUser(s, t);
    }
  }

  // While the table is not locked, an exclusive user is the only one.
  lemma OnlyUser(s: State, t: nat)
    requires Inv(s) && t < |s.agents| && s.agents[t].Holding? && s.agents[t].tok.mode.Exclusive? && s.lock.None?
    ensures s.agents[t].tok.idx < |s.records| && s.records[s.agents[t].tok.idx].refcount == 1
  {
    var k := s.agents[t].tok.idx;
    assert TokenOk(s.agents[t], s.records);
    assert RecordInv(|s.records|, s.records[k], s.agents, k);
    forall u | u in Users(s.agents, k) ensures u == t {
      if u != t {
        assert Compatible(StakeOf(s.agents[t], k), StakeOf(s.agents[u], k));
        OnlySharers(s, t, u, k);
      }
    }
    assert t in Users(s.agents, k);
    assert Users(s.agents, k) == {t};
  }

  /** A deletion takes the ID out of use and leaves a free record for the next creation. */
  lemma DeleteFrees(s: State, t: nat)
    requires Inv(s) && Enabled(s, Finish(t, Drop))
    ensures var s', tok := Step(s, Finish(t, Drop)), s.agents[t].tok;
            && !InUse(s', tok.serial)
            && NextFree(s'.records, s'.lastIssued, |s'.records|).Some?
  {
    var s', tok := Step(s, Finish(t, Drop)), s.agents[t].tok;
    var k := tok.idx;
    FinishExactly(s, t, Drop);
    StepInv(s, Finish(t, Drop));
    assert TokenOk(s.agents[t], s.records);
    assert s'.records[k].activeId.Undefined?;
    NextFreeComplete(s'.records, s'.lastIssued);
    hide NextFree;
    forall i | 0 <= i < |s'.records| ensures s'.records[i].activeId != Live(tok.serial) {
      assert RecordInv(|s'.records|, s'.records[i], s'.agents, i);
    }
    forall u | 0 <= u < |s'.agents| ensures !ClaimsId(s'.agents[u], tok.serial) {
      assert TokenOk(s'.agents[u], s'.records);
      assert RecordInv(|s'.records|, s'.records[k], s'.agents, k);
      assert Agrees(s'.records[k].activeId, StakeOf(s'.agents[u], k));
    }
  }

  // ---------------------------------------------------------------------------------
  // The life of an object
  // ---------------------------------------------------------------------------------

  /** A creation is refused, and the table left as it was, if and only if the name is in the table or no
      record is free. */
  lemma AllocateExactly(s: State, t: nat, wanted: Option<string>)
    requires Inv(s) && Enabled(s, Allocate(t, wanted))
    ensures Step(s, Allocate(t, wanted)) == s <==>
              || (wanted.Some? && exists i :: 0 <= i < |s.records| && Named(s.records[i], wanted.value))
              || forall i :: 0 <= i < |s.records| ==> !s.records[i].activeId.Undefined?
  {
    NextFreeComplete(s.records, s.lastIssued);
    hide NextFree;
    var s' := Step(s, Allocate(t, wanted));
    if Issues(s, Allocate(t, wanted)) {
      assert s'.agents[t].Allocating?;
    }
  }

  // The allocation and the conversion that follows it.
  lemma Allocated(s: State, t: nat, wanted: Option<string>) returns (tok: Token)
    requires Inv(s) && Enabled(s, Allocate(t, wanted)) && Issues(s, Allocate(t, wanted))
    ensures tok.mode.Exclusive? && tok.wanted == wanted && tok.idx < |s.records| && tok.idx == tok.serial % |s.records|
    ensures s.records[tok.idx].activeId.Undefined?
    ensures var s1 := Step(s, Allocate(t, wanted));
            && 0 < |s1.records| && Enabled(s1, Attempt(t))
            && Step(s1, Attempt(t))
               == Put(s, t, Holding(tok), tok.idx, Record(Reserved, 1, None), None).(lastIssued := tok.serial)
  {
    NextFreeComplete(s.records, s.lastIssued);
    hide NextFree, FirstNamed;
    var f := NextFree(s.records, s.lastIssued, |s.records|).value;
    tok := Token(Exclusive, f % |s.records|, f, wanted);
    var s1 := Put(s, t, Allocating(tok), tok.idx, Record(Live(f), 0, None), Some(t)).(lastIssued := f);
    assert Step(s, Allocate(t, wanted)) == s1;
    var s2 := Put(s, t, Holding(tok), tok.idx, Record(Reserved, 1, None), None).(lastIssued := f);
    assert AttemptStep(s1, t).records == s2.records && AttemptStep(s1, t).agents == s2.agents;
  }

  // Entering the name and finishing a creation.
  lemma NamedAndFinished(s: State, t: nat, tok: Token)
    requires Inv(s) && t < |s.agents| && s.agents[t] == Holding(tok) && tok.mode.Exclusive? && tok.wanted.Some?
    requires s.lock.None? && tok.idx < |s.records| && s.records[tok.idx] == Record(Reserved, 1, None)
    ensures Enabled(s, SetName(t)) && Enabled(Step(s, SetName(t)), Finish(t, Restore))
    ensures var s' := Step(Step(s, SetName(t)), Finish(t, Restore));
            && Inv(s') && s'.records == s.records[tok.idx := Record(Live(tok.serial), 0, tok.wanted)]
            && s'.agents == s.agents[t := Idle] && s'.lock.None? && s'.lastIssued == s.lastIssued
  {
    var s1 := Put(s, t, Holding(tok), tok.idx, Record(Reserved, 1, tok.wanted), None);
    assert Step(s, SetName(t)) == s1;
    StepInv(s, SetName(t));
    hide Inv;
    FinishExactly(s1, t, Restore);
    StepInv(s1, Finish(t, Restore));
  }

  /** A creation without disturbance: a record that was free has the new ID and the name, nobody uses it, and
      nothing else changed. */
  lemma CreateExactly(s: State, t: nat, name: string) returns (k: nat, serial: nat, s': State)
    requires Inv(s) && Enabled(s, Allocate(t, Some(name))) && Issues(s, Allocate(t, Some(name)))
    ensures k < |s.records| && s.records[k].activeId.Undefined? && serial % |s.records| == k
    ensures var es := [Allocate(t, Some(name)), Attempt(t), SetName(t), Finish(t, Restore)];
            ValidRun(s, es) && s' == Run(s, es)
    ensures Inv(s') && s'.records == s.records[k := Record(Live(serial), 0, Some(name))]
    ensures s'.agents == s.agents && s'.lock.None? && s'.lastIssued == serial
  {
    var a, b, c, d := Allocate(t, Some(name)), Attempt(t), SetName(t), Finish(t, Restore);
    var tok := Allocated(s, t, Some(name));
    k, serial := tok.idx, tok.serial;
    assert s.agents[t].Idle?;
    StepInv(s, a);
    StepInv(Step(s, a), b);
    hide Step, Enabled, Inv, Issues;
    var s2 := Step(Step(s, a), b);
    NamedAndFinished(s2, t, tok);
    s' := Step(Step(s2, c), d);
    assert s'.agents == s.agents[t := Holding(tok)][t := Idle] == s.agents;
    assert s'.records == s.records[k := Record(Reserved, 1, None)][k := Record(Live(serial), 0, Some(name))];
    InvSize(s');
    InvSize(s2);
    assert ValidRun(s', []) && Run(s', []) == s';
    RunTwo(s2, c, d, []);
    assert [c, d] + [] == [c, d];
    InvSize(s);
    RunTwo(s, a, b, [c, d]);
    assert [a, b] + [c, d] == [a, b, c, d];
  }

  lemma InvSize(s: State)
    requires Inv(s)
    ensures 0 < |s.records|
  {
  }

  // The state after a lookup that gets its object, exclusively.
  lemma Claimed(s: State, t: nat, serial: nat)
    requires Inv(s) && s.lock.None? && t < |s.agents| && s.agents[t].Idle?
    requires var r := s.records[serial % |s.records|]; r.activeId == Live(serial) && r.refcount == 0
    ensures var k := serial % |s.records|;
            var s1 := Step(s, GetById(t, Exclusive, serial));
            var s2 := Put(s, t, Holding(Token(Exclusive, k, serial, None)), k,
                          s.records[k].(activeId := Reserved, refcount := 1), None);
            && Enabled(s, GetById(t, Exclusive, serial)) && Enabled(s1, Attempt(t))
            && Step(s1, Attempt(t)) == s2 && Inv(s2)
  {
    var k, s1 := serial % |s.records|, Step(s, GetById(t, Exclusive, serial));
    var tok := Token(Exclusive, k, serial, None);
    assert s1 == Move(s, t, Trying(tok, 0, false, false), Some(t));
    var s2 := Step(s1, Attempt(t));
    StepInv(s, GetById(t, Exclusive, serial));
    StepInv(s1, Attempt(t));
    hide Inv;
    assert s2.agents == s.agents[t := Holding(tok)];
  }

  /** An object that nobody uses is deleted by the three steps of a deletion, and nothing else changes. */
  lemma DeleteExactly(s: State, t: nat, serial: nat) returns (s': State)
    requires Inv(s) && s.lock.None? && t < |s.agents| && s.agents[t].Idle?
    requires var r := s.records[serial % |s.records|]; r.activeId == Live(serial) && r.refcount == 0
    ensures var es := [GetById(t, Exclusive, serial), Attempt(t), Finish(t, Drop)];
            0 < |s.records| && ValidRun(s, es) && s' == Run(s, es)
    ensures var k := serial % |s.records|; s'.records == s.records[k := s.records[k].(activeId := Undefined)]
    ensures Inv(s') && s'.agents == s.agents && s'.lock.None? && s'.lastIssued == s.lastIssued
  {
    var a, b, c := GetById(t, Exclusive, serial), Attempt(t), Finish(t, Drop);
    InvSize(s);
    Claimed(s, t, serial);
    hide Inv;
    var k := serial % |s.records|;
    var s2 := Step(Step(s, a), b);
    FinishExactly(s2, t, Drop);
    StepInv(s2, c);
    s' := Step(s2, c);
    assert s'.lastIssued == s.lastIssued;
    hide Step, Enabled;
    InvSize(s');
    assert s'.agents == s.agents;
    assert [c][1..] == [] && ValidRun(s2, [c]) && Run(s2, [c]) == s';
    RunTwo(s, a, b, [c]);
    assert [a, b] + [c] == [a, b, c];
  }

  /** The whole life: a created object is found by its ID by everybody; after its deletion nobody finds it, and
      the record can be used for another creation. */
  lemma CreatedThenDeleted(s: State, t: nat, u: nat, name: string, mode: Mode)
    returns (serial: nat, created: State, deleted: State)
    requires Inv(s) && Enabled(s, Allocate(t, Some(name))) && Issues(s, Allocate(t, Some(name)))
    requires u < |s.agents| && s.agents[u].Idle? && !mode.ReservedMode?
    ensures var es := [Allocate(t, Some(name)), Attempt(t), SetName(t), Finish(t, Restore)];
            ValidRun(s, es) && created == Run(s, es)
    ensures 0 < |created.records| && Enabled(created, GetById(u, mode, serial))
    ensures Step(Step(created, GetById(u, mode, serial)), Attempt(u)).agents[u].Holding?
    ensures var es := [GetById(t, Exclusive, serial), Attempt(t), Finish(t, Drop)];
            ValidRun(created, es) && deleted == Run(created, es)
    ensures 0 < |deleted.records| && Enabled(deleted, GetById(u, mode, serial))
    ensures Step(Step(deleted, GetById(u, mode, serial)), Attempt(u)) == deleted
    ensures NextFree(deleted.records, deleted.lastIssued, |deleted.records|).Some?
  {
    assert s.agents[t].Idle?;
    var k;
    k, serial, created := CreateExactly(s, t, name);
    deleted := DeleteExactly(created, t, serial);
    hide Step, Enabled, Inv, Issues, ValidRun, Run;
    LookupExactly(created, u, mode, serial);
    LookupExactly(deleted, u, mode, serial);
    assert deleted.records[k].activeId.Undefined?;
    InvSize(deleted);
    NextFreeComplete(deleted.records, deleted.lastIssued);
  }
}
