/** Whole runs of stub table operations. */
module StubRuns {
  import opened Common
  import opened StubTable
  import opened StubChains
  import opened StubEffects
  import opened StubExecute

  datatype Op =
    | Reset(key: nat)
    | Once(key: nat)
    | SetRetval(key: nat, bytes: seq<Byte>, counter: int)
    | SetDeferredRc(key: nat, count: int, value: int)
    | ClearDeferredRc(key: nat)
    | ClearConstant(key: nat)
    | SetFunc(key: nat, handler: bool, func: nat)
    | AddContext(key: nat, arg: nat)
    | AddReturn(key: nat, size: nat, typeName: string)
    | StageReturn(key: nat, bytes: seq<Byte>)
    | Supply(key: nat, bytes: seq<Byte>)
    | Read(key: nat, max: nat)
    | Call(key: nat, defaultRc: int, script: Script)

  function FuncKind(handler: bool): Kind {
    if handler then Handler else Hook
  }

  function Step(s: Slots, op: Op): Outcome {
    match op
    case Reset(key) => Done(ResetState(s, key))
    case Once(key) => CallOnceOp(s, key)
    case SetRetval(key, bytes, counter) => Configure(s, key, bytes, counter)
    case SetDeferredRc(key, count, value) => SetDeferred(s, key, count, value)
    case ClearDeferredRc(key) => Done(ClearDeferred(s, key))
    case ClearConstant(key) => Done(Cleared(s, key, Constant))
    case SetFunc(key, handler, func) => SetCallback(s, key, FuncKind(handler), func)
    case AddContext(key, arg) => RegisterContext(s, key, arg)
    case AddReturn(key, size, typeName) => RegisterReturn(s, key, size, typeName)
    case StageReturn(key, bytes) => CopyToReturn(s, key, bytes)
    case Supply(key, bytes) => SetData(s, key, bytes)
    case Read(key, max) => Done(CopyToLocal(s, key, max).1)
    case Call(key, rc, script) =>
      (match Execute(s, key, rc, script)
       case CallAborted => Abort
       case Returned(s', _) => Done(s'))
  }

  lemma StepIs(s: Slots, op: Op)
    ensures op.Reset? ==> Step(s, op) == Done(ResetState(s, op.key))
    ensures op.Once? ==> Step(s, op) == CallOnceOp(s, op.key)
    ensures op.Supply? ==> Step(s, op) == SetData(s, op.key, op.bytes)
    ensures op.Read? ==> Step(s, op) == Done(CopyToLocal(s, op.key, op.max).1)
  {
    hide ResetState, CallOnceOp, SetData, CopyToLocal;
  }

  // A run that was not aborted.
  predicate Completes(s: Slots, ops: seq<Op>)
    decreases ops, 0
  {
    ops == [] || (var prev := ops[..|ops| - 1]; Completes(s, prev) && Step(End(s, prev), ops[|ops| - 1]).Done?)
  }

  function End(s: Slots, ops: seq<Op>): Slots
    requires Completes(s, ops)
    decreases ops, 1
  {
    if ops == [] then s else Step(End(s, ops[..|ops| - 1]), ops[|ops| - 1]).s
  }

  const ALL_UNUSED: Slots := seq(SLOTS, _ => EMPTY)

  // ---------------------------------------------------------------------------------
  // Operations on many entries
  // ---------------------------------------------------------------------------------

  lemma {:induction false} RangeSame(s: Slots, s': Slots, key: nat, kind: Kind, lo: nat, hi: nat)
    requires lo <= hi <= SLOTS
    requires forall i :: 0 <= i < SLOTS ==> Here(s'[i], key, kind) == Here(s[i], key, kind)
    ensures Range(s', key, kind, lo, hi) == Range(s, key, kind, lo, hi)
    decreases hi - lo
  {
    hide Here;
    if lo < hi {
      RangeSame(s, s', key, kind, lo + 1, hi);
    }
  }

  lemma ResetEffect(s: Slots, key: nat, k: nat, kind: Kind)
    requires !kind.Unused?
    ensures Chain(ResetState(s, key), k, kind) == if key == 0 || k == key then [] else Chain(s, k, kind)
  {
    var s' := ResetState(s, key);
    if key == 0 || k == key {
      RangeEmpty(s', k, kind, 0, |s'|);
    } else {
      RangeSame(s, s', k, kind, 0, |s|);
    }
  }

  lemma ResetZeroed(s: Slots, key: nat)
    requires Zeroed(s)
    ensures Zeroed(ResetState(s, key))
  {
  }

  // UT_ClearDeferredRetcode removes every deferred code of its key and nothing else.
  lemma ClearDeferredEffect(s: Slots, key: nat)
    requires Zeroed(s)
    ensures Zeroed(ClearDeferred(s, key))
    ensures Chain(ClearDeferred(s, key), key, Deferred) == []
    ensures OthersKept(s, ClearDeferred(s, key), key, Deferred)
  {
    var s' := ClearDeferred(s, key);
    RangeEmpty(s', key, Deferred, 0, |s'|);
    forall k: nat, kd: Kind | (k != key || kd != Deferred) && !kd.Unused?
      ensures Chain(s', k, kd) == Chain(s, k, kd)
    {
      RangeSame(s, s', k, kd, 0, |s|);
    }
  }

  lemma RunsIff(s: Slots, key: nat)
    ensures Runs(s, key) <==> key != 0 && Chain(s, key, CallOnce) == []
  {
    FindIffChain(s, key, CallOnce);
    hide Chain;
  }

  lemma OnceEffect(s: Slots, key: nat)
    requires Zeroed(s) && |Chain(s, key, CallOnce)| <= 1 && CallOnceOp(s, key).Done?
    ensures var s' := CallOnceOp(s, key).s;
            && Zeroed(s') && OthersKept(s, s', key, CallOnce)
            && Chain(s', key, CallOnce) == if Runs(s, key) then [Zero] else Chain(s, key, CallOnce)
  {
    RunsIff(s, key);
    if Runs(s, key) {
      var i, e := FirstUnused(s, 0), Entry(CallOnce, key, Zero);
      var before, after := InsertChain(s, i, key, CallOnce, Zero);
      WriteOthers(s, i, e, key, CallOnce);
      ZeroedWrite(s, i, e);
      assert before == [] && after == [] by { hide Chain; assert |before + after| == 0; }
    }
  }

  // ---------------------------------------------------------------------------------
  // Every operation keeps the table's invariant and stays within its own chains
  // ---------------------------------------------------------------------------------

  function KindsOf(op: Op): set<Kind> {
    match op
    case Reset(_) => {}
    case Once(_) => {CallOnce}
    case SetRetval(_, _, counter) => if counter > 0 then {Deferred} else {Constant}
    case SetDeferredRc(_, _, _) => {Deferred}
    case ClearDeferredRc(_) => {Deferred}
    case ClearConstant(_) => {Constant}
    case SetFunc(_, handler, _) => {FuncKind(handler)}
    case AddContext(_, _) => {Context}
    case AddReturn(_, _, _) => {ReturnBuffer}
    case StageReturn(_, _) => {ReturnBuffer}
    case Supply(_, _) => {DataBuffer}
    case Read(_, _) => {DataBuffer}
    case Call(_, _, _) => {Context, Deferred, Constant, Counter, ReturnBuffer}
  }

  lemma TouchesOne(s: Slots, s': Slots, key: nat, kind: Kind)
    requires OthersKept(s, s', key, kind)
    ensures Touches(s, s', key, {kind})
  {
    hide Chain;
  }

  lemma NothingTouched(s: Slots, key: nat, kinds: set<Kind>)
    ensures Touches(s, s, key, kinds)
  {
    hide Chain;
  }

  lemma StepTouches(s: Slots, op: Op)
    requires Zeroed(s) && Single(s) && Step(s, op).Done? && !op.Reset?
    ensures Zeroed(Step(s, op).s) && Single(Step(s, op).s)
    ensures Touches(s, Step(s, op).s, op.key, KindsOf(op))
  {
    hide Chain, Find, Zeroed, Single;
    hide Configure, SetCallback, Cleared, RegisterContext, RegisterReturn, CopyToReturn, SetData, CopyToLocal, Execute;
    var key, s' := op.key, Step(s, op).s;
    SingleAt(s, key);
    NothingTouched(s, key, KindsOf(op));
    match op {
    case Once(_) => OnceEffect(s, key); TouchesOne(s, s', key, CallOnce);
    case SetRetval(_, bytes, counter) =>
      if counter > 0 {
        DeferredEffect(s, key, bytes, counter);
        TouchesOne(s, s', key, Deferred);
      } else {
        ConstantEffect(s, key, bytes, counter);
        TouchesOne(s, s', key, Constant);
      }
    case SetDeferredRc(_, count, value) =>
      if count > 0 {
        DeferredEffect(s, key, Encode(value, 8), count);
        TouchesOne(s, s', key, Deferred);
      }
    case ClearDeferredRc(_) => ClearDeferredEffect(s, key); TouchesOne(s, s', key, Deferred);
    case ClearConstant(_) =>
      ClearSingle(s, key, Constant);
      ZeroedCleared(s, key, Constant);
      TouchesOne(s, s', key, Constant);
    case SetFunc(_, handler, func) =>
      SetCallbackEffect(s, key, FuncKind(handler), func);
      TouchesOne(s, s', key, FuncKind(handler));
    case AddContext(_, arg) => RegisterContextEffect(s, key, arg); TouchesOne(s, s', key, Context);
    case AddReturn(_, size, typeName) =>
      if size > 0 {
        RegisterReturnEffect(s, key, size, typeName);
        TouchesOne(s, s', key, ReturnBuffer);
      } else {
        assert s' == s by { ReturnOfNothing(s, key, typeName); }
      }
    case StageReturn(_, bytes) => CopyToReturnEffect(s, key, bytes); TouchesOne(s, s', key, ReturnBuffer);
    case Supply(_, bytes) =>
      if bytes != [] {
        SetDataEffect(s, key, bytes);
        TouchesOne(s, s', key, DataBuffer);
      } else {
        assert s' == s by { SupplyOfNothing(s, key); }
      }
    case Read(_, max) => CopyToLocalEffect(s, key, max); TouchesOne(s, s', key, DataBuffer);
    case Call(_, rc, script) => ExecuteEffect(s, key, rc, script);
    }
    SingleAfter(s, s', key, KindsOf(op));
  }

  lemma ReturnOfNothing(s: Slots, key: nat, typeName: string)
    ensures RegisterReturn(s, key, 0, typeName) == Done(s)
  {
  }

  lemma SupplyOfNothing(s: Slots, key: nat)
    ensures SetData(s, key, []) == Done(s)
  {
  }

  lemma StepKeeps(s: Slots, op: Op)
    requires Zeroed(s) && Single(s) && Step(s, op).Done?
    ensures Zeroed(Step(s, op).s) && Single(Step(s, op).s)
  {
    if op.Reset? {
      ResetZeroed(s, op.key);
      forall k: nat, kd: Kind | SingleKind(kd) ensures |Chain(ResetState(s, op.key), k, kd)| <= 1 {
        ResetEffect(s, op.key, k, kd);
      }
    } else {
      StepTouches(s, op);
    }
  }

  lemma {:induction false} RunKeeps(s: Slots, ops: seq<Op>)
    requires Zeroed(s) && Single(s) && Completes(s, ops)
    ensures Zeroed(End(s, ops)) && Single(End(s, ops))
    decreases ops
  {
    hide Step, Zeroed, Single;
    if ops != [] {
      RunKeeps(s, ops[..|ops| - 1]);
      StepKeeps(End(s, ops[..|ops| - 1]), ops[|ops| - 1]);
    }
  }

  lemma StartKeeps()
    ensures Zeroed(ALL_UNUSED) && Single(ALL_UNUSED)
  {
    forall k: nat, kd: Kind | SingleKind(kd) ensures |Chain(ALL_UNUSED, k, kd)| <= 1 {
      RangeEmpty(ALL_UNUSED, k, kd, 0, |ALL_UNUSED|);
    }
  }

  lemma StartEmpty(key: nat, kind: Kind)
    requires !kind.Unused?
    ensures Chain(ALL_UNUSED, key, kind) == []
  {
    RangeEmpty(ALL_UNUSED, key, kind, 0, |ALL_UNUSED|);
  }

  // In every state that a run can reach, a key has at most one entry of a single kind, anywhere in the table.
  lemma AtMostOneEntry(ops: seq<Op>, key: nat, kind: Kind, i: nat, j: nat)
    requires Completes(ALL_UNUSED, ops) && SingleKind(kind) && i < SLOTS && j < SLOTS
    requires Matches(End(ALL_UNUSED, ops)[i], key, kind) && Matches(End(ALL_UNUSED, ops)[j], key, kind)
    ensures i == j
  {
    hide Step;
    StartKeeps();
    RunKeeps(ALL_UNUSED, ops);
    var s := End(ALL_UNUSED, ops);
    assert i != j ==> DistOf(key, i) != DistOf(key, j);
    if DistOf(key, i) < DistOf(key, j) {
      TwoEntries(s, key, kind, i, j);
    } else if DistOf(key, j) < DistOf(key, i) {
      TwoEntries(s, key, kind, j, i);
    }
  }

  // ---------------------------------------------------------------------------------
  // Counting calls
  // ---------------------------------------------------------------------------------

  predicate Covers(op: Op, key: nat) {
    op.Reset? && (op.key == 0 || op.key == key)
  }

  // How often the stub was executed since the last reset that covers it.
  function Calls(ops: seq<Op>, key: nat): nat
    decreases ops
  {
    if ops == [] then 0
    else
      var op, n := ops[|ops| - 1], Calls(ops[..|ops| - 1], key);
      if Covers(op, key) then 0 else if op.Call? && op.key == key then n + 1 else n
  }

  function CountIn(c: seq<Data>): nat {
    if c == [] then 0 else CountOf(c[0])
  }

  lemma CountIsHead(s: Slots, key: nat)
    ensures Count(s, key) == CountIn(Chain(s, key, Counter))
  {
    if Find(s, key, Counter).Some? {
      FindSome(s, key, Counter);
    } else {
      FindNone(s, key, Counter);
    }
  }

  lemma CountStep(s: Slots, op: Op, key: nat)
    requires Zeroed(s) && Single(s) && Step(s, op).Done?
    ensures CountIn(Chain(Step(s, op).s, key, Counter))
         == if Covers(op, key) then 0
            else if op.Call? && op.key == key then (CountIn(Chain(s, key, Counter)) + 1) % TWO_32
            else CountIn(Chain(s, key, Counter))
  {
    hide Chain, Zeroed, Single, Execute;
    if op.Reset? {
      ResetEffect(s, op.key, key, Counter);
    } else if op.Call? && op.key == key {
      ExecuteEffect(s, key, op.defaultRc, op.script);
    } else {
      StepTouches(s, op);
      assert Counter !in KindsOf(op) || op.key != key;
    }
  }

  /** UT_GetStubCount returns the number of executions since the last reset covering the key, in its
      32 bits, whatever else was done to the table. */
  lemma {:induction false} CountExact(ops: seq<Op>, key: nat)
    requires Completes(ALL_UNUSED, ops)
    ensures Count(End(ALL_UNUSED, ops), key) == Calls(ops, key) % TWO_32
    decreases ops
  {
    hide Step, Chain, Zeroed, Single;
    CountIsHead(End(ALL_UNUSED, ops), key);
    StartKeeps();
    if ops == [] {
      StartEmpty(key, Counter);
    } else {
      var prev, op := ops[..|ops| - 1], ops[|ops| - 1];
      RunKeeps(ALL_UNUSED, prev);
      CountExact(prev, key);
      CountIsHead(End(ALL_UNUSED, prev), key);
      CountStep(End(ALL_UNUSED, prev), op, key);
    }
  }

  // ---------------------------------------------------------------------------------
  // Once-only functions
  // ---------------------------------------------------------------------------------

  // UT_Stub_CallOnce was called for this function since the last reset that covers it.
  predicate Registered(ops: seq<Op>, key: nat)
    decreases ops
  {
    && ops != []
    && var op, before := ops[|ops| - 1], Registered(ops[..|ops| - 1], key);
    !Covers(op, key) && (before || (op.Once? && op.key == key))
  }

  lemma OnceStep(s: Slots, op: Op, key: nat)
    requires Zeroed(s) && Single(s) && Step(s, op).Done? && key != 0
    ensures Runs(Step(s, op).s, key) <==> Covers(op, key) || (Runs(s, key) && !(op.Once? && op.key == key))
  {
    hide Step, Chain, Zeroed, Single, Runs, CallOnceOp, ResetState;
    StepIs(s, op);
    RunsIff(s, key);
    RunsIff(Step(s, op).s, key);
    if op.Reset? {
      ResetEffect(s, op.key, key, CallOnce);
    } else if op.Once? && op.key == key {
      SingleAt(s, key);
      OnceEffect(s, key);
    } else {
      StepTouches(s, op);
      assert CallOnce !in KindsOf(op) || op.key != key;
    }
  }

  /** At any point of any run, UT_Stub_CallOnce calls its function exactly when it was not called for
      it since the last reset covering it: once per reset, however often it is asked. */
  lemma {:induction false} OnceExact(ops: seq<Op>, key: nat)
    requires Completes(ALL_UNUSED, ops) && key != 0
    ensures Runs(End(ALL_UNUSED, ops), key) <==> !Registered(ops, key)
    decreases ops
  {
    hide Step, Runs, Zeroed, Single;
    StartKeeps();
    if ops == [] {
      RunsIff(ALL_UNUSED, key);
      StartEmpty(key, CallOnce);
    } else {
      var prev, op := ops[..|ops| - 1], ops[|ops| - 1];
      RunKeeps(ALL_UNUSED, prev);
      OnceExact(prev, key);
      OnceStep(End(ALL_UNUSED, prev), op, key);
    }
  }

  // ---------------------------------------------------------------------------------
  // What an operation leaves in its own chain
  // ---------------------------------------------------------------------------------

  // The first entry of a key in an empty table: key modulo 199.
  lemma FirstSlot(key: nat)
    ensures Find(ALL_UNUSED, key, Unused) == Some(key % 199)
  {
    assert SlotAt(key, 0) == key % 199;
    assert First(ALL_UNUSED, key, Unused, 0, |ALL_UNUSED|) == 0;
  }

  lemma StepLeaves(s: Slots, op: Op)
    requires Zeroed(s) && Single(s) && Step(s, op).Done?
    ensures var s', key := Step(s, op).s, op.key;
            match op
            case Once(_) => key != 0 ==> |Chain(s', key, CallOnce)| == 1
            case SetRetval(_, bytes, counter) =>
              && (counter > 0 ==> |Chain(s', key, Deferred)| == |Chain(s, key, Deferred)| + 1)
              && (counter <= 0 ==> |Chain(s', key, Constant)| == 1)
              && (counter <= 0 && IntegerSize(|bytes|) ==> Chain(s', key, Constant) == [Rvc(counter, Decode(bytes))])
            case ClearDeferredRc(_) => Chain(s', key, Deferred) == []
            case ClearConstant(_) => Chain(s', key, Constant) == []
            case SetFunc(_, true, func) => Chain(s', key, Handler) == if func == 0 then [] else [Cb(func)]
            case SetFunc(_, false, func) => Chain(s', key, Hook) == if func == 0 then [] else [Cb(func)]
            case Call(_, _, _) => Chain(s', key, Context) == [] && |Chain(s', key, Counter)| == 1
            case _ => true
  {
    hide Chain, Find, Zeroed, Single;
    hide Configure, SetCallback, Cleared, RegisterContext, RegisterReturn, CopyToReturn, SetData, CopyToLocal, Execute;
    hide Decode, CallOnceOp, Runs, ClearDeferred, ResetState, SetDeferred;
    var key := op.key;
    SingleAt(s, key);
    match op
    case Once(_) =>
      if key != 0 {
        OnceEffect(s, key);
        RunsIff(s, key);
      }
    case SetRetval(_, bytes, counter) =>
      if counter > 0 {
        DeferredEffect(s, key, bytes, counter);
      } else {
        ConstantEffect(s, key, bytes, counter);
      }
    case ClearDeferredRc(_) => ClearDeferredEffect(s, key);
    case ClearConstant(_) => ClearSingle(s, key, Constant);
    case SetFunc(_, handler, func) => SetCallbackEffect(s, key, FuncKind(handler), func);
    case Call(_, rc, script) => ExecuteEffect(s, key, rc, script);
    case _ =>
  }

  /** A hook decides what the stub returns, and a handler does not: as long as a hook is set, every call
      returns the hook's code. */
  lemma HookDecides(s: Slots, key: nat, func: nat, defaultRc: int, script: Script)
    requires Zeroed(s) && Single(s) && func != 0 && Step(s, SetFunc(key, false, func)).Done?
    requires Execute(Step(s, SetFunc(key, false, func)).s, key, defaultRc, script).Returned?
    ensures Execute(Step(s, SetFunc(key, false, func)).s, key, defaultRc, script).status == script.hookReply
  {
    hide Chain, Find, Zeroed, Single, Execute, Step;
    StepLeaves(s, SetFunc(key, false, func));
    StepKeeps(s, SetFunc(key, false, func));
    ExecuteEffect(Step(s, SetFunc(key, false, func)).s, key, defaultRc, script);
  }

  lemma HandlerDoesNotDecide(s: Slots, key: nat, func: nat, defaultRc: int, script: Script)
    requires Zeroed(s) && Single(s) && Step(s, SetFunc(key, true, func)).Done? && Chain(s, key, Hook) == []
    requires Chain(s, key, Deferred) == [] && Chain(s, key, Constant) == []
    requires Execute(Step(s, SetFunc(key, true, func)).s, key, defaultRc, script).Returned?
    ensures Execute(Step(s, SetFunc(key, true, func)).s, key, defaultRc, script).status == defaultRc
  {
    hide Chain, Find, Zeroed, Single, Execute, Step;
    StepTouches(s, SetFunc(key, true, func));
    ExecuteEffect(Step(s, SetFunc(key, true, func)).s, key, defaultRc, script);
  }
}
