/** The schedule of deferred return codes. */
module StubSchedule {
  import opened Common
  import opened StubTable
  import opened StubChains
  import opened StubEffects
  import opened StubExecute
  import opened StubRuns
  import opened StubOrder

  // Deferred codes as UT_SetDeferredRetcode makes them: counters are positive.
  predicate Pending(def: seq<Data>) {
    forall j :: 0 <= j < |def| ==> def[j].Rvc? && def[j].counter > 0
  }

  // The sum of the first j counters.
  function Total(def: seq<Data>, j: nat): nat
    requires Pending(def) && j <= |def|
    decreases j
  {
    if j == 0 then 0 else def[0].counter + Total(def[1..], j - 1)
  }

  // Code j falls on call number c.
  predicate FallsOn(def: seq<Data>, j: nat, c: nat)
    requires Pending(def) && j < |def|
  {
    c == Total(def, j + 1)
  }

  // What call number c returns from the deferred codes, if anything.
  function Due(def: seq<Data>, c: nat): Option<int>
    decreases |def|
  {
    if def == [] || c < CounterOf(def[0]) then None
    else if c == CounterOf(def[0]) then Some(ValueOf(def[0]))
    else if CounterOf(def[0]) <= 0 then None
    else Due(def[1..], c - CounterOf(def[0]))
  }

  /** Code r_j is due with call n_1 + ... + n_j and with no other call. */
  lemma {:induction false} DueExact(def: seq<Data>, c: nat, j: nat)
    requires Pending(def) && j < |def|
    ensures c == Total(def, j + 1) ==> Due(def, c) == Some(def[j].value)
    decreases j
  {
    if j > 0 {
      if c == Total(def, j + 1) {
        TotalPositive(def[1..], j);
        DueExact(def[1..], c - def[0].counter, j - 1);
        assert def[1..][j - 1] == def[j];
      }
    }
  }

  lemma {:induction false} TotalPositive(def: seq<Data>, j: nat)
    requires Pending(def) && 0 < j <= |def|
    ensures Total(def, j) > 0
  {
    assert Total(def[1..], j - 1) >= 0;
  }

  lemma {:induction false} DueOnlyThen(def: seq<Data>, c: nat) returns (j: nat)
    requires Pending(def) && Due(def, c).Some?
    ensures j < |def| && c == Total(def, j + 1) && Due(def, c) == Some(def[j].value)
    decreases |def|
  {
    if c == def[0].counter {
      j := 0;
    } else {
      var k := DueOnlyThen(def[1..], c - def[0].counter);
      j := k + 1;
      assert def[1..][k] == def[j];
    }
  }

  lemma DueNext(def: seq<Data>, c: nat)
    requires Pending(def) && c >= 1
    ensures Pending(DeferredAfter(def)) && Due(DeferredAfter(def), c) == Due(def, c + 1)
  {
    if def != [] && !Fires(def) {
      assert CountedDown(def)[1..] == def[1..];
    }
  }

  lemma PickedIsDue(def: seq<Data>, con: seq<Data>)
    requires Pending(def)
    ensures Picked(def, con) == match Due(def, 1)
      case Some(v) => Some(v)
      case None => if con == [] then None else Some(ValueOf(con[0]))
  {
  }

  // The operation does not reconfigure the stub's return codes.
  predicate Undisturbing(op: Op, key: nat) {
    && !Covers(op, key)
    && (op.key == key ==>
          !op.SetRetval? && !op.SetDeferredRc? && !op.ClearDeferredRc? && !op.ClearConstant? && !op.SetFunc?)
  }

  function Executions(ops: seq<Op>, key: nat): nat
    decreases ops
  {
    if ops == [] then 0
    else Executions(ops[..|ops| - 1], key) + (if ops[|ops| - 1].Call? && ops[|ops| - 1].key == key then 1 else 0)
  }

  // The configuration after n more calls.
  ghost predicate Later(s: Slots, s': Slots, key: nat, n: nat) {
    && Pending(Chain(s', key, Deferred))
    && (forall c: nat :: c >= 1 ==> Due(Chain(s', key, Deferred), c) == Due(Chain(s, key, Deferred), c + n))
    && Chain(s', key, Hook) == Chain(s, key, Hook)
    && (Chain(s', key, Constant) == [] <==> Chain(s, key, Constant) == [])
    && (Chain(s, key, Constant) != [] ==> ValueOf(Chain(s', key, Constant)[0]) == ValueOf(Chain(s, key, Constant)[0]))
  }

  lemma LaterCall(s: Slots, s': Slots, op: Op, key: nat, n: nat)
    requires Zeroed(s') && Single(s') && Later(s, s', key, n)
    requires op.Call? && op.key == key && Step(s', op).Done?
    ensures Later(s, Step(s', op).s, key, n + 1)
  {
    hide Chain, Zeroed, Single, Execute, Filled, Staged, Picked, CounterAfter, StatusOf, DeferredAfter, Due, Pending;
    ExecuteEffect(s', key, op.defaultRc, op.script);
    var def := Chain(s', key, Deferred);
    DueNext(def, 1);
    forall c: nat | c >= 1
      ensures Due(DeferredAfter(def), c) == Due(Chain(s, key, Deferred), c + (n + 1))
    {
      DueNext(def, c);
      assert Due(def, c + 1) == Due(Chain(s, key, Deferred), (c + 1) + n);
    }
  }

  lemma LaterOther(s: Slots, s': Slots, op: Op, key: nat, n: nat)
    requires Zeroed(s') && Single(s') && Later(s, s', key, n)
    requires Undisturbing(op, key) && !(op.Call? && op.key == key) && Step(s', op).Done?
    ensures Later(s, Step(s', op).s, key, n)
  {
    hide Chain, Zeroed, Single;
    if op.Reset? {
      ResetEffect(s', op.key, key, Deferred);
      ResetEffect(s', op.key, key, Constant);
      ResetEffect(s', op.key, key, Hook);
    } else {
      hide Step;
      StepTouches(s', op);
    }
  }

  lemma {:induction false} LaterRun(s: Slots, ops: seq<Op>, key: nat)
    requires Zeroed(s) && Single(s) && Completes(s, ops) && Pending(Chain(s, key, Deferred))
    requires forall i :: 0 <= i < |ops| ==> Undisturbing(ops[i], key)
    ensures Later(s, End(s, ops), key, Executions(ops, key))
    decreases ops
  {
    hide Step, Chain, Zeroed, Single, Undisturbing;
    if ops != [] {
      var prev, op := ops[..|ops| - 1], ops[|ops| - 1];
      LaterRun(s, prev, key);
      RunKeeps(s, prev);
      if op.Call? && op.key == key {
        LaterCall(s, End(s, prev), op, key, Executions(prev, key));
      } else {
        LaterOther(s, End(s, prev), op, key, Executions(prev, key));
      }
    }
  }

  /** A stub without a hook, called in the middle of any operations that do not reconfigure it: its
      (n+1)-th execution returns the deferred code that is due with call n+1; failing that, the constant
      value; failing that, the default. */
  lemma DeferredSchedule(s: Slots, ops: seq<Op>, key: nat, defaultRc: int, script: Script)
    requires Zeroed(s) && Single(s) && Completes(s, ops)
    requires Pending(Chain(s, key, Deferred)) && Chain(s, key, Hook) == []
    requires forall i :: 0 <= i < |ops| ==> Undisturbing(ops[i], key)
    requires Execute(End(s, ops), key, defaultRc, script).Returned?
    ensures Execute(End(s, ops), key, defaultRc, script).status
         == match Due(Chain(s, key, Deferred), Executions(ops, key) + 1)
            case Some(v) => Int32(v)
            case None => if Chain(s, key, Constant) != [] then Int32(ValueOf(Chain(s, key, Constant)[0])) else defaultRc
  {
    hide Step, Chain, Zeroed, Single, Execute, Int32, Undisturbing;
    LaterRun(s, ops, key);
    RunKeeps(s, ops);
    var s' := End(s, ops);
    ExecuteEffect(s', key, defaultRc, script);
    PickedIsDue(Chain(s', key, Deferred), Chain(s', key, Constant));
  }

  lemma {:induction false} AddedPending(ops: seq<Op>, key: nat)
    ensures Pending(Added(ops, key, Deferred))
    decreases ops
  {
    hide Encode, Decode, Stored;
    if ops != [] {
      AddedPending(ops[..|ops| - 1], key);
    }
  }

  // A key without deferred codes has no gap to mind.
  lemma EmptyNoGap(s: Slots, key: nat)
    requires Chain(s, key, Deferred) == []
    ensures NoGap(s, key, Deferred)
  {
    FindIffChain(s, key, Deferred);
    hide Chain;
  }

  lemma PendingJoin(a: seq<Data>, b: seq<Data>)
    requires Pending(a) && Pending(b)
    ensures Pending(a + b)
  {
  }

  /** The whole schedule: codes (n1, r1), ..., (nk, rk) are what was pending, followed by what is added in the
      middle of any operations that clear nothing.  Then the stub's call number c returns rj exactly when
      c = n1 + ... + nj, and otherwise the constant value or the default.  The table may hold anything else;
      for a key without deferred codes the condition on gaps holds (EmptyNoGap). */
  lemma CodesAsAdded(s0: Slots, adds: seq<Op>, ops: seq<Op>, key: nat, defaultRc: int, script: Script)
    requires Zeroed(s0) && Single(s0) && Pending(Chain(s0, key, Deferred)) && NoGap(s0, key, Deferred)
    requires Completes(s0, adds) && Adding(s0, adds, key, Deferred)
    requires Chain(End(s0, adds), key, Hook) == [] && Completes(End(s0, adds), ops)
    requires forall i :: 0 <= i < |ops| ==> Undisturbing(ops[i], key)
    requires Execute(End(End(s0, adds), ops), key, defaultRc, script).Returned?
    ensures Pending(Chain(s0, key, Deferred) + Added(adds, key, Deferred))
    ensures var s, c := End(s0, adds), Executions(ops, key) + 1;
            var def := Chain(s0, key, Deferred) + Added(adds, key, Deferred);
            var status := Execute(End(s, ops), key, defaultRc, script).status;
            && (forall j :: 0 <= j < |def| && FallsOn(def, j, c) ==> status == Int32(def[j].value))
            && ((forall j :: 0 <= j < |def| ==> !FallsOn(def, j, c)) ==>
                  status == if Chain(s, key, Constant) == [] then defaultRc
                            else Int32(ValueOf(Chain(s, key, Constant)[0])))
  {
    hide Step, Chain, Zeroed, Single, Execute, Int32, Undisturbing, NoGap, Adding, Due, Added, Total;
    var s, c := End(s0, adds), Executions(ops, key) + 1;
    var def := Chain(s0, key, Deferred) + Added(adds, key, Deferred);
    RunKeeps(s0, adds);
    AddedInOrder(s0, adds, key, Deferred);
    AddedPending(adds, key);
    PendingJoin(Chain(s0, key, Deferred), Added(adds, key, Deferred));
    DeferredSchedule(s, ops, key, defaultRc, script);
    forall j | 0 <= j < |def| && FallsOn(def, j, c) ensures Due(def, c) == Some(def[j].value) {
      DueExact(def, c, j);
    }
    if Due(def, c).Some? {
      var j := DueOnlyThen(def, c);
      assert FallsOn(def, j, c);
    }
  }
}
