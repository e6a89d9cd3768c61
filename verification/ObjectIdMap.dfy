/**
 The object table of one OSAL object type (src/os/shared/src/osapi-idmap.c) as an
 interleaving of transactions.

 Each transaction is one token in flight.  A step is what one transaction does while it
 holds the table lock without letting go of it, so every shared write happens in a step
 of the lock's owner; the steps of different transactions interleave freely.
 */
module ObjectIdMap {
  import opened Common
  import opened Arithmetic

  // OS_OBJECT_INDEX_MASK
  const INDEX_MASK: nat := 0xFFFF

  // The number of loop iterations after which OS_ObjectIdConvertToken gives up.
  const MAX_ATTEMPTS: nat := 5

  // OS_OBJECT_ID_UNDEFINED, OS_OBJECT_ID_RESERVED, and the valid IDs of this object type.
  datatype Id = Undefined | Reserved | Live(serial: nat)

  // OS_lock_mode_t without OS_LOCK_MODE_NONE, which takes no lock and writes nothing.
  datatype Mode = Global | Refcount | Exclusive | ReservedMode

  datatype Record = Record(activeId: Id, refcount: nat, name: Option<string>)

  // `wanted` is the name of the object that the transaction is creating, if any.
  datatype Token = Token(mode: Mode, idx: nat, serial: nat, wanted: Option<string>)

  /** Where a transaction stands.
      - Allocating: OS_ObjectIdAllocateNew has picked a record and still owns the lock.
      - Trying: at the head of the loop of OS_ObjectIdConvertToken, owning the lock.
      - Sleeping: inside OS_WaitForStateChange, which let go of the lock.
      - Holding: OS_SUCCESS was returned and the token was not released yet.
      - Relocking: a creation that failed inside OS_ObjectIdAllocateNew is being undone by
        OS_ObjectIdFinalizeNew, which locks the table - a table that was not unlocked.
      - Stranded: the transaction came to an end, and the lock was never given back.
      `claimed` says that this transaction wrote OS_OBJECT_ID_RESERVED into the record,
      `search` that the token comes from OS_ObjectIdGetBySearch. */
  datatype Local =
    | Idle
    | Allocating(tok: Token)
    | Trying(tok: Token, attempts: nat, claimed: bool, search: bool)
    | Sleeping(tok: Token, attempts: nat, claimed: bool, search: bool)
    | Holding(tok: Token)
    | Relocking(tok: Token)
    | Stranded

  datatype State = State(records: seq<Record>, lastIssued: nat, lock: Option<nat>, agents: seq<Local>)

  datatype Final = Keep | Drop | Restore

  datatype Event =
    | GetById(t: nat, mode: Mode, serial: nat)
    | GetBySearch(t: nat, mode: Mode, name: string)
    | Allocate(t: nat, wanted: Option<string>)
    | Veto(t: nat)
    | Relock(t: nat)
    | Attempt(t: nat)
    | Wake(t: nat)
    | SetName(t: nat)
    | Finish(t: nat, final: Final)

  // ---------------------------------------------------------------------------------
  // OS_ObjectIdFindNextFree and OS_ObjectIdFindNextMatch
  // ---------------------------------------------------------------------------------

  // One turn of the allocation loop: the next serial number and the record it maps to.
  function NextSerial(serial: nat, max: nat): nat
    requires 0 < max
  {
    if serial + 1 >= INDEX_MASK then (serial + 1) % max else serial + 1
  }

  function NextFree(records: seq<Record>, serial: nat, tries: nat): Option<nat>
    requires 0 < |records|
    decreases tries
  {
    if tries == 0 then None
    else if FreeAt(records, serial + 1) then Some(NextSerial(serial, |records|))
    else NextFree(records, NextSerial(serial, |records|), tries - 1)
  }

  function FirstNamed(records: seq<Record>, name: string, from: nat): (i: nat)
    requires from <= |records|
    ensures from <= i <= |records|
    ensures i < |records| ==> Named(records[i], name)
    ensures forall j :: from <= j < i ==> !Named(records[j], name)
    decreases |records| - from
  {
    if from == |records| || Named(records[from], name) then from else FirstNamed(records, name, from + 1)
  }

  predicate Named(r: Record, name: string) {
    !r.activeId.Undefined? && r.name == Some(name)
  }

  predicate FreeAt(records: seq<Record>, n: nat)
    requires 0 < |records|
  {
    records[n % |records|].activeId.Undefined?
  }

  lemma NextSerialCongruent(serial: nat, j: nat, max: nat)
    requires 0 < max
    ensures (NextSerial(serial, max) + j) % max == (serial + 1 + j) % max
  {
    ModAdd(serial + 1, j, max);
  }

  /** The allocation loop stops at the first free record after the last one issued, in circular
      order, across the point where the serial number starts over. */
  lemma {:induction false} NextFreeSearch(records: seq<Record>, serial: nat, tries: nat) returns (k: nat)
    requires 0 < |records|
    ensures k <= tries
    ensures forall n :: serial < n <= serial + k ==> !FreeAt(records, n)
    ensures match NextFree(records, serial, tries)
            case None => k == tries
            case Some(found) =>
              && k < tries
              && found % |records| == (serial + k + 1) % |records|
              && FreeAt(records, found)
              && (found < INDEX_MASK || found < |records|)
    decreases tries
  {
    var max := |records|;
    k := 0;
    if tries > 0 {
      NextSerialCongruent(serial, 0, max);
      if !FreeAt(records, serial + 1) {
        var next := NextSerial(serial, max);
        var k' := NextFreeSearch(records, next, tries - 1);
        k := k' + 1;
        forall n | serial < n <= serial + k ensures !FreeAt(records, n) {
          if n > serial + 1 {
            NextSerialCongruent(serial, n - serial - 1, max);
            assert !FreeAt(records, next + (n - serial - 1));
          }
        }
        NextSerialCongruent(serial, k' + 1, max);
      }
    }
  }

  // Counting up from n, every index comes round within max numbers.
  lemma ReachedAfter(n: nat, max: nat, i: nat) returns (j: nat)
    requires i < max
    ensures j < max && (n + j) % max == i
  {
    var base := n % max;
    j := if base <= i then i - base else i - base + max;
    ModAdd(n, j, max);
    DivModUnique(base + j, max, if base <= i then 0 else 1, i);
  }

  // With as many tries as records, the search fails exactly when no record is free.
  lemma NextFreeComplete(records: seq<Record>, serial: nat)
    requires 0 < |records|
    ensures var f := NextFree(records, serial, |records|);
            && (f.Some? <==> exists i :: 0 <= i < |records| && records[i].activeId.Undefined?)
            && (f.Some? ==> FreeAt(records, f.value)
                            && (f.value < INDEX_MASK || f.value < |records|))
  {
    var max := |records|;
    var k := NextFreeSearch(records, serial, max);
    hide NextFree;
    if NextFree(records, serial, max).None? {
      forall i | 0 <= i < max ensures !records[i].activeId.Undefined? {
        var j := ReachedAfter(serial + 1, max, i);
        assert !FreeAt(records, serial + 1 + j);
      }
    }
  }

  // A table without records stands for an object type that this build does not support.
  method FindNextFree(records: seq<Record>, lastIssued: nat) returns (result: Option<nat>, implemented: bool)
    ensures implemented <==> records != []
    ensures result == if records == [] then None else NextFree(records, lastIssued, |records|)
  {
    implemented := |records| != 0;
    var serial: nat := lastIssued;
    var i := 0;
    result := None;
    while i < |records|
      invariant 0 <= i <= |records|
      invariant result.None?
      invariant records != [] ==>
                  NextFree(records, lastIssued, |records|) == NextFree(records, serial, |records| - i)
    {
      serial := serial + 1;
      var local := serial % |records|;
      if serial >= INDEX_MASK {
        serial := local;
      }
      if records[local].activeId.Undefined? {
        result := Some(serial);
        return;
      }
      i := i + 1;
    }
  }

  // ---------------------------------------------------------------------------------
  // Steps
  // ---------------------------------------------------------------------------------

  datatype Verdict = Success | Contended | Invalid

  // What one loop iteration of OS_ObjectIdConvertToken finds.
  function Judge(r: Record, tok: Token, claimed: bool): Verdict {
    var expected := if tok.mode.ReservedMode? || claimed then Reserved else Live(tok.serial);
    if r.activeId == expected then
      if tok.mode.Exclusive? && r.refcount != 0 then Contended else Success
    else if r.activeId != Reserved then Invalid
    else Contended
  }

  // An Exclusive transaction that finds its ID overwrites it.
  predicate ClaimsNow(r: Record, tok: Token, claimed: bool) {
    tok.mode.Exclusive? && (claimed || r.activeId == Live(tok.serial))
  }

  function Put(s: State, t: nat, l: Local, i: nat, r: Record, lock: Option<nat>): State
    requires t < |s.agents| && i < |s.records|
  {
    s.(agents := s.agents[t := l], records := s.records[i := r], lock := lock)
  }

  function Move(s: State, t: nat, l: Local, lock: Option<nat>): State
    requires t < |s.agents|
  {
    s.(agents := s.agents[t := l], lock := lock)
  }

  predicate ReleasesTable(mode: Mode) {
    mode.Refcount? || mode.Exclusive?
  }

  predicate Enabled(s: State, e: Event) {
    && e.t < |s.agents|
    && var l := s.agents[e.t];
    match e
    case GetById(_, _, _) => l.Idle? && s.lock.None?
    case GetBySearch(_, _, _) => l.Idle? && s.lock.None?
    case Allocate(_, _) => l.Idle? && s.lock.None?
    case Veto(_) => l.Allocating?
    case Relock(_) => l.Relocking? && l.tok.idx < |s.records| && s.lock.None?
    case Attempt(_) => (l.Trying? || l.Allocating?) && l.tok.idx < |s.records|
    case Wake(_) => l.Sleeping? && s.lock.None?
    case SetName(_) => l.Holding? && l.tok.wanted.Some? && l.tok.idx < |s.records|
    case Finish(_, final) =>
      && l.Holding? && l.tok.idx < |s.records|
      && (final.Keep? || l.tok.mode.Exclusive?)
      && (ReleasesTable(l.tok.mode) ==> s.lock.None?)
  }

  function Step(s: State, e: Event): State
    requires 0 < |s.records| && Enabled(s, e)
  {
    var t := e.t;
    var l := s.agents[t];
    match e
    case GetById(_, mode, serial) =>
      Move(s, t, Trying(Token(mode, serial % |s.records|, serial, None), 0, false, false), Some(t))
    case GetBySearch(_, mode, name) =>
      var i := FirstNamed(s.records, name, 0);
      if i == |s.records| then s
      else if s.records[i].activeId.Live? then
        Move(s, t, Trying(Token(mode, i, s.records[i].activeId.serial, None), 0, false, true), Some(t))
      else Move(s, t, Stranded, Some(t))
    case Allocate(_, name) =>
      if name.Some? && FirstNamed(s.records, name.value, 0) < |s.records| then s
      else (match NextFree(s.records, s.lastIssued, |s.records|)
            case None => s
            case Some(serial) =>
              var i := serial % |s.records|;
              Put(s, t, Allocating(Token(Exclusive, i, serial, name)), i, Record(Live(serial), 0, None), Some(t))
              .(lastIssued := serial))
    case Veto(_) => Move(s, t, Relocking(l.tok), s.lock)
    case Relock(_) => RelockStep(s, t)
    case Attempt(_) => AttemptStep(s, t)
    case Wake(_) => Move(s, t, Trying(l.tok, l.attempts, l.claimed, l.search), Some(t))
    case SetName(_) =>
      Put(s, t, l, l.tok.idx, s.records[l.tok.idx].(name := l.tok.wanted), s.lock)
    case Finish(_, final) => FinishStep(s, t, final)
  }

  function AttemptStep(s: State, t: nat): State
    requires t < |s.agents| && (s.agents[t].Trying? || s.agents[t].Allocating?)
    requires s.agents[t].tok.idx < |s.records|
  {
    var l := s.agents[t];
    var i, r := l.tok.idx, s.records[l.tok.idx];
    var attempts := if l.Trying? then l.attempts else 0;
    var was := l.Trying? && l.claimed;
    var claimed := ClaimsNow(r, l.tok, was);
    var marked := if claimed then r.(activeId := Reserved) else r;
    var restored := if claimed then r.(activeId := Live(l.tok.serial)) else r;
    // OS_ObjectIdGetById cancels the transaction when the conversion failed; the other callers do not.
    var failed := if l.Trying? && !l.search then Put(s, t, Idle, i, restored, None)
                  else Put(s, t, if l.Trying? then Stranded else Relocking(l.tok), i, restored, s.lock);
    match Judge(r, l.tok, was)
    case Success =>
      Put(s, t, Holding(l.tok), i, marked.(refcount := r.refcount + 1),
          if ReleasesTable(l.tok.mode) then None else s.lock)
    case Invalid => failed
    case Contended =>
      if attempts + 1 >= MAX_ATTEMPTS then failed
      else Put(s, t, Sleeping(l.tok, attempts + 1, claimed, l.Trying? && l.search), i, marked, None)
  }

  // OS_ObjectIdFinalizeNew of a failed creation: OS_ObjectIdTransactionFinish has got the lock.
  function RelockStep(s: State, t: nat): State
    requires t < |s.agents| && s.agents[t].Relocking? && s.agents[t].tok.idx < |s.records|
  {
    var r := s.records[s.agents[t].tok.idx];
    var count := if r.refcount > 0 then r.refcount - 1 else 0;
    Put(s, t, Idle, s.agents[t].tok.idx, r.(activeId := Undefined, refcount := count), None)
  }

  // OS_ObjectIdTransactionFinish, with the ID that OS_ObjectIdFinalizeNew, OS_ObjectIdFinalizeDelete
  // or OS_ObjectIdRelease asks for.
  function FinishStep(s: State, t: nat, final: Final): State
    requires t < |s.agents| && s.agents[t].Holding? && s.agents[t].tok.idx < |s.records|
  {
    var tok := s.agents[t].tok;
    var r := s.records[tok.idx];
    var id := match final
      case Drop => Undefined
      case Restore => Live(tok.serial)
      case Keep => if tok.mode.Exclusive? then Live(tok.serial) else r.activeId;
    Put(s, t, Idle, tok.idx, r.(activeId := id, refcount := if r.refcount > 0 then r.refcount - 1 else 0), None)
  }

  predicate ValidRun(s: State, es: seq<Event>)
    requires 0 < |s.records|
    decreases es
  {
    es != [] ==> Enabled(s, es[0]) && ValidRun(Step(s, es[0]), es[1..])
  }

  function Run(s: State, es: seq<Event>): State
    requires 0 < |s.records| && ValidRun(s, es)
    decreases es
  {
    if es == [] then s else Run(Step(s, es[0]), es[1..])
  }

  // OS_ObjectIdInit
  function Init(max: nat, agents: nat): State {
    State(seq(max, _ => Record(Undefined, 0, None)), 0, None, seq(agents, _ => Idle))
  }

  // ---------------------------------------------------------------------------------
  // The invariant
  // ---------------------------------------------------------------------------------

  // The transaction keeps the table lock and does not get any further.
  predicate Stuck(l: Local) {
    l.Stranded? || l.Relocking?
  }

  predicate OwnsTable(l: Local) {
    l.Trying? || l.Allocating? || Stuck(l) || (l.Holding? && !ReleasesTable(l.tok.mode))
  }

  /** What a transaction has to do with record i: it wrote RESERVED there and still waits for
      the users to leave, or it is one of the users. */
  datatype Stake = NoStake | Waits(serial: nat) | Uses(mode: Mode, serial: nat)

  function StakeOf(l: Local, i: nat): Stake {
    if (l.Trying? || l.Sleeping?) && l.claimed && l.tok.idx == i then Waits(l.tok.serial)
    else if l.Holding? && l.tok.idx == i then Uses(l.tok.mode, l.tok.serial)
    else NoStake
  }

  predicate Claim(k: Stake) {
    k.Waits? || (k.Uses? && k.mode.Exclusive?)
  }

  // Two transactions that may have these stakes in one record at the same time.
  predicate Compatible(k: Stake, m: Stake) {
    && !(Claim(k) && Claim(m))
    && (k.Uses? && k.mode.Exclusive? && m.Uses? ==> m.mode.ReservedMode?)
    && (Claim(k) && m.Uses? && !m.mode.ReservedMode? ==> k.serial == m.serial)
  }

  // A stake that agrees with the ID found in the record.
  predicate Agrees(id: Id, k: Stake) {
    && (Claim(k) ==> id == Reserved)
    && (k.Uses? ==> !id.Undefined? && (id.Live? ==> id.serial == k.serial))
  }

  ghost function Users(agents: seq<Local>, i: nat): set<nat> {
    set t | 0 <= t < |agents| && StakeOf(agents[t], i).Uses?
  }

  ghost predicate RecordInv(max: nat, r: Record, agents: seq<Local>, i: nat)
    requires 0 < max
  {
    && r.refcount == |Users(agents, i)|
    && (r.activeId.Live? ==> r.activeId.serial % max == i)
    && (forall t :: 0 <= t < |agents| ==> Agrees(r.activeId, StakeOf(agents[t], i)))
    && (forall t, u :: 0 <= t < |agents| && 0 <= u < |agents| && t != u ==>
          Compatible(StakeOf(agents[t], i), StakeOf(agents[u], i)))
    && (r.activeId.Reserved? ==> exists t :: 0 <= t < |agents| && Claim(StakeOf(agents[t], i)))
  }

  predicate TokenOk(l: Local, records: seq<Record>)
    requires 0 < |records|
  {
    && (l.Trying? || l.Sleeping? || l.Holding? || l.Allocating? ==> l.tok.idx == l.tok.serial % |records|)
    && (l.Trying? || l.Sleeping? ==>
          l.attempts < MAX_ATTEMPTS && l.tok.wanted.None? && (l.claimed ==> l.tok.mode.Exclusive?))
    && (l.Trying? && l.search && !l.claimed ==> records[l.tok.idx].activeId == Live(l.tok.serial))
    && (l.Sleeping? && l.search ==> l.claimed)
    && (l.Holding? && l.tok.wanted.Some? ==> l.tok.mode.Exclusive?)
    && (l.Allocating? ==>
          && l.tok.mode.Exclusive?
          && records[l.tok.idx].activeId == Live(l.tok.serial) && records[l.tok.idx].refcount == 0)
  }

  ghost predicate LockInv(s: State) {
    && (s.lock.Some? ==> s.lock.value < |s.agents|)
    && forall t :: 0 <= t < |s.agents| ==> (OwnsTable(s.agents[t]) <==> s.lock == Some(t))
  }

  ghost predicate Inv(s: State) {
    && 0 < |s.records|
    && LockInv(s)
    && (forall t :: 0 <= t < |s.agents| ==> TokenOk(s.agents[t], s.records))
    && (forall i :: 0 <= i < |s.records| ==> RecordInv(|s.records|, s.records[i], s.agents, i))
  }

  lemma InitInv(max: nat, agents: nat)
    requires 0 < max
    ensures Inv(Init(max, agents))
  {
    var s := Init(max, agents);
    forall i | 0 <= i < max ensures RecordInv(max, s.records[i], s.agents, i) {
      assert Users(s.agents, i) == {};
    }
  }

  // ---------------------------------------------------------------------------------
  // Every step keeps the invariant
  // ---------------------------------------------------------------------------------

  lemma UsersUpdate(agents: seq<Local>, t: nat, l: Local, i: nat)
    requires t < |agents|
    ensures |Users(agents[t := l], i)| == |Users(agents, i)| + (if StakeOf(l, i).Uses? then 1 else 0)
                                                             - (if StakeOf(agents[t], i).Uses? then 1 else 0)
  {
    hide StakeOf;
    var rest := Users(agents, i) - {t};
    assert Users(agents, i) == if StakeOf(agents[t], i).Uses? then rest + {t} else rest;
    assert Users(agents[t := l], i) == if StakeOf(l, i).Uses? then rest + {t} else rest;
  }

  // A record whose ID and count stay, while the moving transaction's stake in it stays too.
  lemma FrameRecord(max: nat, r: Record, r': Record, agents: seq<Local>, t: nat, l: Local, i: nat)
    requires 0 < max && t < |agents| && RecordInv(max, r, agents, i)
    requires r'.activeId == r.activeId && r'.refcount == r.refcount
    requires StakeOf(l, i) == StakeOf(agents[t], i)
    ensures RecordInv(max, r', agents[t := l], i)
  {
    UsersUpdate(agents, t, l, i);
    var agents' := agents[t := l];
    assert forall u :: 0 <= u < |agents| ==> StakeOf(agents'[u], i) == StakeOf(agents[u], i);
    if r.activeId.Reserved? {
      var u :| 0 <= u < |agents| && Claim(StakeOf(agents[u], i));
      assert Claim(StakeOf(agents'[u], i));
    }
  }

  // The moving transaction's stake in the record changes along with the record.
  lemma ChangeRecord(max: nat, r: Record, r': Record, agents: seq<Local>, t: nat, l: Local, i: nat)
    requires 0 < max && t < |agents| && RecordInv(max, r, agents, i)
    requires r'.refcount == r.refcount + (if StakeOf(l, i).Uses? then 1 else 0)
                                       - (if StakeOf(agents[t], i).Uses? then 1 else 0)
    requires r'.activeId.Live? ==> r'.activeId.serial % max == i
    requires Agrees(r'.activeId, StakeOf(l, i))
    requires r'.activeId.Reserved? ==> Claim(StakeOf(l, i)) || (r.activeId.Reserved? && !Claim(StakeOf(agents[t], i)))
    requires forall u :: 0 <= u < |agents| && u != t ==>
               && Agrees(r'.activeId, StakeOf(agents[u], i))
               && Compatible(StakeOf(l, i), StakeOf(agents[u], i))
               && Compatible(StakeOf(agents[u], i), StakeOf(l, i))
    ensures RecordInv(max, r', agents[t := l], i)
  {
    UsersUpdate(agents, t, l, i);
    var agents' := agents[t := l];
    assert forall u :: 0 <= u < |agents| && u != t ==> agents'[u] == agents[u];
    if r'.activeId.Reserved? {
      if Claim(StakeOf(l, i)) {
        assert Claim(StakeOf(agents'[t], i));
      } else {
        var u :| 0 <= u < |agents| && Claim(StakeOf(agents[u], i));
        assert Claim(StakeOf(agents'[u], i));
      }
    }
  }

  // Gluing: a step of transaction t that touches record k only.
  lemma PutInv(s: State, t: nat, l: Local, k: nat, r: Record, lock: Option<nat>)
    requires Inv(s) && t < |s.agents| && k < |s.records|
    requires || OwnsTable(s.agents[t]) || s.lock.None?
             || (r.activeId == s.records[k].activeId && r.refcount == s.records[k].refcount)
    requires lock == (if OwnsTable(l) then Some(t) else if OwnsTable(s.agents[t]) then None else s.lock)
    requires OwnsTable(l) ==> OwnsTable(s.agents[t]) || s.lock.None?
    requires TokenOk(l, s.records[k := r])
    requires RecordInv(|s.records|, r, s.agents[t := l], k)
    requires forall i :: 0 <= i < |s.records| && i != k ==> StakeOf(l, i) == StakeOf(s.agents[t], i)
    ensures Inv(Put(s, t, l, k, r, lock))
  {
    var s' := Put(s, t, l, k, r, lock);
    forall i | 0 <= i < |s.records| ensures RecordInv(|s'.records|, s'.records[i], s'.agents, i) {
      if i != k {
        FrameRecord(|s.records|, s.records[i], s.records[i], s.agents, t, l, i);
      }
    }
    forall u | 0 <= u < |s.agents| ensures TokenOk(s'.agents[u], s'.records) {
      assert TokenOk(s.agents[u], s.records);
    }
  }

  // A step that touches no record and leaves the moving transaction's stakes alone.
  lemma MoveInv(s: State, t: nat, l: Local, lock: Option<nat>)
    requires Inv(s) && t < |s.agents|
    requires lock == (if OwnsTable(l) then Some(t) else if OwnsTable(s.agents[t]) then None else s.lock)
    requires OwnsTable(l) ==> OwnsTable(s.agents[t]) || s.lock.None?
    requires TokenOk(l, s.records)
    requires forall i :: 0 <= i < |s.records| ==> StakeOf(l, i) == StakeOf(s.agents[t], i)
    ensures Inv(Move(s, t, l, lock))
  {
    FrameRecord(|s.records|, s.records[0], s.records[0], s.agents, t, l, 0);
    PutInv(s, t, l, 0, s.records[0], lock);
    assert s.records[0 := s.records[0]] == s.records;
  }

  lemma AllocateInv(s: State, e: Event)
    requires Inv(s) && Enabled(s, e) && e.Allocate?
    ensures Inv(Step(s, e))
  {
    var f := NextFree(s.records, s.lastIssued, |s.records|);
    if Step(s, e) != s && f.Some? {
      NextFreeComplete(s.records, s.lastIssued);
      var k := f.value % |s.records|;
      var l, r := Allocating(Token(Exclusive, k, f.value, e.wanted)), Record(Live(f.value), 0, None);
      assert RecordInv(|s.records|, s.records[k], s.agents, k);
      NobodyUses(|s.records|, s.records[k], s.agents, k);
      ChangeRecord(|s.records|, s.records[k], r, s.agents, e.t, l, k);
      PutInv(s, e.t, l, k, r, Some(e.t));
    }
  }

  // A free record has no users and no claimants.
  lemma NobodyUses(max: nat, r: Record, agents: seq<Local>, i: nat)
    requires 0 < max && RecordInv(max, r, agents, i) && r.activeId.Undefined?
    ensures r.refcount == 0
    ensures forall t :: 0 <= t < |agents| ==> StakeOf(agents[t], i) == NoStake
  {
    assert forall t :: 0 <= t < |agents| ==> Agrees(r.activeId, StakeOf(agents[t], i));
    assert Users(agents, i) == {};
  }

  // Nobody but the owner of the table lock can be a Global or ReservedMode user.
  lemma OnlySharers(s: State, t: nat, u: nat, i: nat)
    requires Inv(s) && t < |s.agents| && u < |s.agents| && t != u
    requires OwnsTable(s.agents[t]) || s.lock.None?
    requires StakeOf(s.agents[u], i).Uses?
    ensures !StakeOf(s.agents[u], i).mode.ReservedMode?
  {
  }

  // The other users of the record, and those that wait for it, can bear what the attempt does.
  lemma AttemptOthers(s: State, t: nat, u: nat)
    requires Inv(s) && t < |s.agents| && (s.agents[t].Trying? || s.agents[t].Allocating?)
    requires u < |s.agents| && u != t && s.agents[t].tok.idx < |s.records|
    ensures var k, s' := s.agents[t].tok.idx, AttemptStep(s, t);
            && Agrees(s'.records[k].activeId, StakeOf(s.agents[u], k))
            && Compatible(StakeOf(s'.agents[t], k), StakeOf(s.agents[u], k))
            && Compatible(StakeOf(s.agents[u], k), StakeOf(s'.agents[t], k))
  {
    var l, k := s.agents[t], s.agents[t].tok.idx;
    var r, other := s.records[k], StakeOf(s.agents[u], k);
    assert TokenOk(l, s.records);
    assert RecordInv(|s.records|, r, s.agents, k);
    assert Agrees(r.activeId, other) && Compatible(StakeOf(l, k), other) && Compatible(other, StakeOf(l, k));
    if other.Uses? {
      OnlySharers(s, t, u, k);
      assert u in Users(s.agents, k);
      assert r.refcount != 0 by { assert Users(s.agents, k) != {}; }
    }
  }

  lemma AttemptInv(s: State, t: nat)
    requires Inv(s) && t < |s.agents| && (s.agents[t].Trying? || s.agents[t].Allocating?)
    ensures s.agents[t].tok.idx < |s.records|
    ensures Inv(AttemptStep(s, t))
  {
    var l := s.agents[t];
    assert TokenOk(l, s.records);
    var k, max := l.tok.idx, |s.records|;
    var r := s.records[k];
    var s' := AttemptStep(s, t);
    var l', r' := s'.agents[t], s'.records[k];
    assert RecordInv(max, r, s.agents, k);
    forall u | 0 <= u < |s.agents| && u != t
      ensures Agrees(r'.activeId, StakeOf(s.agents[u], k))
      ensures Compatible(StakeOf(l', k), StakeOf(s.agents[u], k))
      ensures Compatible(StakeOf(s.agents[u], k), StakeOf(l', k))
    {
      AttemptOthers(s, t, u);
    }
    hide Compatible;
    ChangeRecord(max, r, r', s.agents, t, l', k);
    PutInv(s, t, l', k, r', s'.lock);
  }

  lemma FinishInv(s: State, t: nat, final: Final)
    requires Inv(s) && Enabled(s, Finish(t, final))
    ensures Inv(FinishStep(s, t, final))
  {
    var l := s.agents[t];
    assert TokenOk(l, s.records);
    var k, max := l.tok.idx, |s.records|;
    var s' := FinishStep(s, t, final);
    var r, r' := s.records[k], s'.records[k];
    assert RecordInv(max, r, s.agents, k);
    assert t in Users(s.agents, k);
    forall u | 0 <= u < |s.agents| && u != t
      ensures Agrees(r'.activeId, StakeOf(s.agents[u], k))
    {
      assert Agrees(r.activeId, StakeOf(s.agents[u], k));
      assert Compatible(StakeOf(l, k), StakeOf(s.agents[u], k));
      if StakeOf(s.agents[u], k).Uses? {
        OnlySharers(s, t, u, k);
      }
    }
    ChangeRecord(max, r, r', s.agents, t, Idle, k);
    PutInv(s, t, Idle, k, r', None);
  }

  /** An event handler that refuses a new object: the transaction waits for the lock that it owns itself, and
      its only step is never enabled. */
  lemma RelockNever(s: State, t: nat)
    requires Inv(s) && t < |s.agents| && s.agents[t].Relocking?
    ensures s.lock == Some(t) && !Enabled(s, Relock(t))
  {
    assert OwnsTable(s.agents[t]);
  }

  lemma StepInv(s: State, e: Event)
    requires Inv(s) && Enabled(s, e)
    ensures Inv(Step(s, e))
  {
    var t := e.t;
    var l := s.agents[t];
    assert TokenOk(l, s.records);
    match e
    case GetById(_, mode, serial) =>
      MoveInv(s, t, Trying(Token(mode, serial % |s.records|, serial, None), 0, false, false), Some(t));
    case GetBySearch(_, mode, name) =>
      var i := FirstNamed(s.records, name, 0);
      if i < |s.records| {
        assert RecordInv(|s.records|, s.records[i], s.agents, i);
        MoveInv(s, t, Step(s, e).agents[t], Some(t));
      }
    case Allocate(_, _) => AllocateInv(s, e);
    case Veto(_) => MoveInv(s, t, Relocking(l.tok), s.lock);
    case Relock(_) => RelockNever(s, t); assert false;
    case Attempt(_) => AttemptInv(s, t);
    case Wake(_) => MoveInv(s, t, Trying(l.tok, l.attempts, l.claimed, l.search), Some(t));
    case SetName(_) =>
      var k := l.tok.idx;
      var r' := s.records[k].(name := l.tok.wanted);
      FrameRecord(|s.records|, s.records[k], r', s.agents, t, l, k);
      PutInv(s, t, l, k, r', s.lock);
    case Finish(_, final) => FinishInv(s, t, final);
  }

  lemma {:induction false} RunInv(s: State, es: seq<Event>)
    requires Inv(s) && ValidRun(s, es)
    ensures Inv(Run(s, es))
    decreases es
  {
    if es != [] {
      StepInv(s, es[0]);
      RunInv(Step(s, es[0]), es[1..]);
    }
  }

  // ---------------------------------------------------------------------------------
  // What holds in every reachable state
  // ---------------------------------------------------------------------------------

  ghost predicate Reachable(s: State) {
    exists max: nat, agents: nat, es: seq<Event> ::
      0 < max && ValidRun(Init(max, agents), es) && s == Run(Init(max, agents), es)
  }

  lemma ReachableInv(s: State)
    requires Reachable(s)
    ensures Inv(s)
  {
    var max: nat, agents: nat, es: seq<Event> :|
      0 < max && ValidRun(Init(max, agents), es) && s == Run(Init(max, agents), es);
    InitInv(max, agents);
    RunInv(Init(max, agents), es);
  }

  /** While a create or delete holds a record, nobody else uses that record - except a
      transaction let in by OS_LOCK_MODE_RESERVED, which owns the table lock meanwhile -
      and no other transaction waits to take it over. */
  lemma ExclusiveIsAlone(s: State, t: nat, u: nat)
    requires Reachable(s) && t < |s.agents| && u < |s.agents| && t != u
    requires s.agents[t].Holding? && s.agents[t].tok.mode.Exclusive?
    ensures s.agents[t].tok.idx < |s.records|
    ensures s.records[s.agents[t].tok.idx].activeId == Reserved
    ensures StakeOf(s.agents[u], s.agents[t].tok.idx) != NoStake ==>
              s.agents[u].Holding? && s.agents[u].tok.mode.ReservedMode? && s.lock == Some(u)
  {
    ReachableInv(s);
    assert TokenOk(s.agents[t], s.records);
    var k := s.agents[t].tok.idx;
    assert RecordInv(|s.records|, s.records[k], s.agents, k);
    assert Agrees(s.records[k].activeId, StakeOf(s.agents[t], k));
    assert Compatible(StakeOf(s.agents[t], k), StakeOf(s.agents[u], k));
  }

  /** An object in use is never freed nor replaced: as long as a transaction holds a token other
      than a ReservedMode one, the record carries the token's ID, or RESERVED put there by a
      transaction with the same ID. */
  lemma HeldObjectStays(s: State, t: nat)
    requires Reachable(s) && t < |s.agents| && s.agents[t].Holding? && !s.agents[t].tok.mode.ReservedMode?
    ensures var tok := s.agents[t].tok;
            && tok.idx < |s.records|
            && s.records[tok.idx].refcount >= 1
            && (|| s.records[tok.idx].activeId == Live(tok.serial)
                || (&& s.records[tok.idx].activeId == Reserved
                    && exists u :: 0 <= u < |s.agents| && Claim(StakeOf(s.agents[u], tok.idx))
                                   && StakeOf(s.agents[u], tok.idx).serial == tok.serial))
  {
    ReachableInv(s);
    var tok := s.agents[t].tok;
    assert TokenOk(s.agents[t], s.records);
    var r := s.records[tok.idx];
    assert RecordInv(|s.records|, r, s.agents, tok.idx);
    assert Agrees(r.activeId, StakeOf(s.agents[t], tok.idx));
    assert t in Users(s.agents, tok.idx);
    if r.activeId.Reserved? {
      var u :| 0 <= u < |s.agents| && Claim(StakeOf(s.agents[u], tok.idx));
      assert u != t ==> Compatible(StakeOf(s.agents[u], tok.idx), StakeOf(s.agents[t], tok.idx));
    }
  }

  lemma {:induction false} SmallNumbers(numbers: set<nat>, n: nat)
    requires forall x :: x in numbers ==> x < n
    ensures |numbers| <= n
    decreases n
  {
    if n > 0 {
      SmallNumbers(numbers - {n - 1}, n - 1);
      assert n - 1 in numbers ==> numbers == (numbers - {n - 1}) + {n - 1};
      assert n - 1 !in numbers ==> numbers == numbers - {n - 1};
    } else {
      assert numbers == {};
    }
  }

  /** The reference count is the number of tokens out on the record, so the 16-bit field
      cannot wrap while fewer than 2^16 transactions are in flight. */
  lemma RefcountExact(s: State, i: nat)
    requires Reachable(s) && i < |s.records|
    ensures s.records[i].refcount == |Users(s.agents, i)| <= |s.agents|
  {
    ReachableInv(s);
    assert RecordInv(|s.records|, s.records[i], s.agents, i);
    SmallNumbers(Users(s.agents, i), |s.agents|);
  }

  // No two records carry the same ID, and an ID leads back to its record.
  lemma IdsUnique(s: State, i: nat, j: nat)
    requires Reachable(s) && i < |s.records| && j < |s.records| && s.records[i].activeId.Live?
    ensures s.records[i].activeId.serial % |s.records| == i
    ensures s.records[i].activeId == s.records[j].activeId ==> i == j
  {
    ReachableInv(s);
    assert RecordInv(|s.records|, s.records[i], s.agents, i);
    assert RecordInv(|s.records|, s.records[j], s.agents, j);
  }

  // The conversion inside OS_ObjectIdAllocateNew cannot fail and never has to wait.
  lemma AllocationConverts(s: State, t: nat)
    requires Reachable(s) && t < |s.agents| && s.agents[t].Allocating?
    ensures Enabled(s, Attempt(t))
    ensures 0 < |s.records| && Step(s, Attempt(t)).agents[t] == Holding(s.agents[t].tok)
    ensures Step(s, Attempt(t)).lock.None?
  {
    ReachableInv(s);
    assert TokenOk(s.agents[t], s.records);
  }

  // A delete that gives up has left the record the way it found it.
  lemma FailedClaimRestores(s: State, t: nat)
    requires Reachable(s) && t < |s.agents| && s.agents[t].Trying? && s.agents[t].claimed
    requires Enabled(s, Attempt(t)) && 0 < |s.records| && !Step(s, Attempt(t)).agents[t].Holding?
    requires !Step(s, Attempt(t)).agents[t].Sleeping?
    ensures var tok := s.agents[t].tok;
            Step(s, Attempt(t)).records[tok.idx] == s.records[tok.idx].(activeId := Live(tok.serial))
    ensures forall u :: 0 <= u < |s.agents| ==> !Claim(StakeOf(Step(s, Attempt(t)).agents[u], s.agents[t].tok.idx))
  {
    ReachableInv(s);
    assert TokenOk(s.agents[t], s.records);
    StepInv(s, Attempt(t));
    var s', k := Step(s, Attempt(t)), s.agents[t].tok.idx;
    assert RecordInv(|s'.records|, s'.records[k], s'.agents, k);
    forall u | 0 <= u < |s.agents| ensures !Claim(StakeOf(s'.agents[u], k)) {
      assert Agrees(s'.records[k].activeId, StakeOf(s'.agents[u], k));
    }
  }

  // ---------------------------------------------------------------------------------
  // Two promises the code does not keep
  // ---------------------------------------------------------------------------------

  // A table lock that is kept by a stuck transaction is never given back, and nobody gets or
  // finishes a transaction that needs it any more.
  lemma StuckStep(s: State, t: nat, e: Event)
    requires Inv(s) && t < |s.agents| && Stuck(s.agents[t]) && Enabled(s, e)
    ensures e.SetName?
    ensures Step(s, e).agents == s.agents && Step(s, e).lock == s.lock
  {
    assert s.lock == Some(t);
  }

  lemma {:induction false} StuckForever(s: State, t: nat, es: seq<Event>)
    requires Inv(s) && t < |s.agents| && Stuck(s.agents[t]) && ValidRun(s, es)
    ensures Run(s, es).agents == s.agents && Run(s, es).lock == Some(t)
    ensures forall e :: e in es ==> e.SetName?
    decreases es
  {
    if es != [] {
      StuckStep(s, t, es[0]);
      StepInv(s, es[0]);
      StuckForever(Step(s, es[0]), t, es[1..]);
    }
  }

  /** The steps that lose the lock: a search that comes upon a record under creation or
      deletion, an exclusive search whose object is still in use at the last attempt, a search in
      OS_LOCK_MODE_RESERVED for an object that is not reserved, and an event handler that refuses
      a new object. */
  predicate Loses(s: State, e: Event)
    requires Enabled(s, e)
  {
    match e
    case GetBySearch(_, _, name) =>
      var i := FirstNamed(s.records, name, 0);
      i < |s.records| && s.records[i].activeId == Reserved
    case Veto(_) => true
    case Attempt(t) =>
      var l := s.agents[t];
      && l.Trying? && l.search
      && (|| l.tok.mode.ReservedMode?
          || (l.tok.mode.Exclusive? && l.attempts + 1 == MAX_ATTEMPTS && s.records[l.tok.idx].refcount != 0))
    case _ => false
  }

  lemma StepStrands(s: State, e: Event)
    requires Inv(s) && Enabled(s, e) && !Stuck(s.agents[e.t])
    ensures Stuck(Step(s, e).agents[e.t]) <==> Loses(s, e)
  {
    assert TokenOk(s.agents[e.t], s.records);
    if e.Attempt? {
      var k := s.agents[e.t].tok.idx;
      assert RecordInv(|s.records|, s.records[k], s.agents, k);
      assert Agrees(s.records[k].activeId, StakeOf(s.agents[e.t], k));
    }
  }

  lemma OthersStay(s: State, e: Event)
    requires 0 < |s.records| && Enabled(s, e)
    ensures |Step(s, e).agents| == |s.agents|
    ensures forall u :: 0 <= u < |s.agents| && u != e.t ==> Step(s, e).agents[u] == s.agents[u]
  {
  }

  predicate RunLoses(s: State, es: seq<Event>)
    requires 0 < |s.records| && ValidRun(s, es)
    decreases es
  {
    es != [] && (Loses(s, es[0]) || RunLoses(Step(s, es[0]), es[1..]))
  }

  predicate TableLost(s: State) {
    exists t :: 0 <= t < |s.agents| && Stuck(s.agents[t])
  }

  /** The lock is released on every path of every run, failures included, exactly when the run
      holds none of those steps. */
  lemma {:induction false} LockLostExactly(s: State, es: seq<Event>)
    requires Inv(s) && ValidRun(s, es) && !TableLost(s)
    ensures TableLost(Run(s, es)) <==> RunLoses(s, es)
    decreases es
  {
    assert 0 < |s.records|;
    hide Inv, Step, Loses;
    if es != [] {
      var s' := Step(s, es[0]);
      StepInv(s, es[0]);
      StepStrands(s, es[0]);
      OthersStay(s, es[0]);
      if Loses(s, es[0]) {
        assert Stuck(s'.agents[es[0].t]);
        StuckForever(s', es[0].t, es[1..]);
        assert Stuck(Run(s', es[1..]).agents[es[0].t]);
      } else {
        LockLostExactly(s', es[1..]);
      }
    }
  }

  // What the owner of the table lock does next.
  function OwnStep(l: Local, t: nat): Event {
    if l.Holding? then Finish(t, Keep) else Attempt(t)
  }

  lemma OwnStepFrees(s: State, t: nat)
    requires Inv(s) && s.lock == Some(t) && t < |s.agents| && !Stuck(s.agents[t])
    ensures Enabled(s, OwnStep(s.agents[t], t))
    ensures var e := OwnStep(s.agents[t], t);
            var s' := Step(s, e);
            || Loses(s, e) || s'.lock.None?
            || (s.agents[t].Trying? && t < |s'.agents| && s'.agents[t].Holding? && s'.lock == Some(t))
  {
    assert OwnsTable(s.agents[t]) && TokenOk(s.agents[t], s.records);
    if s.agents[t].Allocating? || s.agents[t].Trying? {
      StepStrands(s, Attempt(t));
    }
  }

  /** The other half: unless its owner is stuck, a lock that is held is given back.  One or two further
      steps of the owner alone, which nothing can prevent, give it back or are among those that lose it. */
  lemma OwnerFreesLock(s: State, t: nat) returns (es: seq<Event>)
    requires Reachable(s) && s.lock == Some(t) && t < |s.agents| && !Stuck(s.agents[t])
    ensures 1 <= |es| <= 2 && forall e :: e in es ==> e == Attempt(t) || e == Finish(t, Keep)
    ensures 0 < |s.records| && ValidRun(s, es) && (RunLoses(s, es) || Run(s, es).lock.None?)
  {
    ReachableInv(s);
    OwnStepFrees(s, t);
    var e := OwnStep(s.agents[t], t);
    var s' := Step(s, e);
    StepInv(s, e);
    es := [e];
    hide Inv, Step, Enabled, Loses;
    assert es[1..] == [];
    if !Loses(s, e) && s'.lock.Some? {
      OwnStepFrees(s', t);
      var f := Finish(t, Keep);
      es := [e, f];
      assert es == [e, f] + [] && es[1..] == [f] && [f][1..] == [];
      StepInv(s', f);
      RunTwo(s, e, f, []);
      assert RunLoses(s', [f]) <==> Loses(s', f);
    }
  }

  // Looking up by name an object that is being created: the table stays locked for good.
  lemma SearchDuringCreation()
    ensures var s := Init(1, 2);
            var es := [Allocate(0, Some("q")), Attempt(0), SetName(0), GetBySearch(1, Global, "q")];
            ValidRun(s, es) && Run(s, es).agents[1].Stranded? && Run(s, es).lock == Some(1)
  {
    var tok := Token(Exclusive, 0, 1, Some("q"));
    var s0 := Init(1, 2);
    var s1 := State([Record(Live(1), 0, None)], 1, Some(0), [Allocating(tok), Idle]);
    var s2 := State([Record(Reserved, 1, None)], 1, None, [Holding(tok), Idle]);
    var s3 := State([Record(Reserved, 1, Some("q"))], 1, None, [Holding(tok), Idle]);
    var e := GetBySearch(1, Global, "q");
    assert Step(s0, Allocate(0, Some("q"))) == s1;
    assert Step(s1, Attempt(0)) == s2;
    assert Step(s2, SetName(0)) == s3;
    assert Named(s3.records[0], "q");
    RunTwo(s2, SetName(0), e, []);
    assert [SetName(0), e] + [] == [SetName(0), e];
    RunTwo(s0, Allocate(0, Some("q")), Attempt(0), [SetName(0), e]);
  }

  // An event handler refuses an allocation: the table stays locked for good.
  lemma RefusalLocks()
    ensures var s := Init(1, 2);
            var es := [Allocate(0, None), Veto(0)];
            ValidRun(s, es) && Run(s, es).agents[0].Relocking? && Run(s, es).lock == Some(0)
  {
    var s0, tok := Init(1, 2), Token(Exclusive, 0, 1, None);
    var s1 := State([Record(Live(1), 0, None)], 1, Some(0), [Allocating(tok), Idle]);
    assert Step(s0, Allocate(0, None)) == s1;
    RunTwo(s0, Allocate(0, None), Veto(0), []);
    assert [Allocate(0, None), Veto(0)] + [] == [Allocate(0, None), Veto(0)];
  }

  lemma RunTwo(s: State, e: Event, f: Event, es: seq<Event>)
    requires 0 < |s.records| && Enabled(s, e) && Enabled(Step(s, e), f) && ValidRun(Step(Step(s, e), f), es)
    ensures ValidRun(s, [e, f] + es) && Run(s, [e, f] + es) == Run(Step(Step(s, e), f), es)
  {
    assert ([e, f] + es)[1..] == [f] + es;
    assert ([f] + es)[1..] == es;
  }
}
