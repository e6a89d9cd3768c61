/**
 When an operation of the stub table aborts the test: exactly when there is no room for a new entry, or a
 staged return value has the wrong size.  Every other operation completes.
 */
module StubAborts {
  import opened Common
  import opened StubTable
  import opened StubChains
  import opened StubEffects
  import opened StubExecute
  import opened StubRuns
  import opened StubReturn

  // Some slot is unused.
  ghost predicate Room(s: Slots) {
    exists i :: 0 <= i < SLOTS && s[i].kind.Unused?
  }

  // A lookup for an unused slot succeeds if there is one, whatever the key.
  lemma RoomIs(s: Slots, key: nat)
    requires Zeroed(s)
    ensures Find(s, key, Unused).Some? <==> Room(s)
  {
    if Room(s) {
      var i :| 0 <= i < SLOTS && s[i].kind.Unused?;
      assert Matches(s[i], key, Unused);
    }
  }

  lemma TargetIs(s: Slots, key: nat, kind: Kind)
    requires Zeroed(s)
    ensures Target(s, key, kind).Some? <==> Chain(s, key, kind) != [] || Room(s)
  {
    hide Find, Chain, Zeroed, Room;
    FindIffChain(s, key, kind);
    RoomIs(s, key);
  }

  // ---------------------------------------------------------------------------------
  // The configuring operations
  // ---------------------------------------------------------------------------------

  lemma ConfigureAborts(s: Slots, key: nat, bytes: seq<Byte>, counter: int)
    requires Zeroed(s)
    ensures Configure(s, key, bytes, counter).Abort? <==> !Room(s) && (counter > 0 || Chain(s, key, Constant) == [])
  {
    hide Find, Chain, Zeroed, Room, Target, Stored;
    RoomIs(s, key);
    TargetIs(s, key, Constant);
  }

  lemma SetDeferredAborts(s: Slots, key: nat, count: int, value: int)
    requires Zeroed(s)
    ensures SetDeferred(s, key, count, value).Abort? <==> !Room(s) && count > 0
  {
    hide Find, Chain, Zeroed, Room, Configure, Encode;
    if count > 0 {
      ConfigureAborts(s, key, Encode(value, 8), count);
    }
  }

  lemma SetCallbackAborts(s: Slots, key: nat, kind: Kind, func: nat)
    requires Zeroed(s)
    ensures SetCallback(s, key, kind, func).Abort? <==> !Room(s) && func != 0 && Chain(s, key, kind) == []
  {
    hide Find, Chain, Zeroed, Room, Target, Cleared;
    TargetIs(s, key, kind);
  }

  lemma RegisterContextAborts(s: Slots, key: nat, arg: nat)
    requires Zeroed(s)
    ensures RegisterContext(s, key, arg).Abort? <==> !Room(s) && Chain(s, key, Context) == []
  {
    hide Find, Chain, Zeroed, Room, Target;
    TargetIs(s, key, Context);
  }

  // A return buffer of another size makes room for the new one.
  lemma RegisterReturnAborts(s: Slots, key: nat, size: nat, typeName: string)
    requires Zeroed(s)
    ensures RegisterReturn(s, key, size, typeName).Abort? <==>
              !Room(s) && size > 0 && Chain(s, key, ReturnBuffer) == []
  {
    hide Find, Chain, Zeroed, Room, Zeros;
    FindIffChain(s, key, ReturnBuffer);
    RoomIs(s, key);
    if size > 0 && Find(s, key, ReturnBuffer).Some? {
      var i := Find(s, key, ReturnBuffer).value;
      ZeroedWrite(s, i, EMPTY);
      RoomAt(s[i := EMPTY], i);
      RoomIs(s[i := EMPTY], key);
    }
  }

  lemma RoomAt(s: Slots, i: nat)
    requires i < SLOTS && s[i].kind.Unused?
    ensures Room(s)
  {
  }

  lemma SetDataAborts(s: Slots, key: nat, bytes: seq<Byte>)
    requires Zeroed(s)
    ensures SetData(s, key, bytes).Abort? <==> !Room(s) && bytes != []
  {
    hide Find, Zeroed, Room;
    RoomIs(s, key);
  }

  lemma CallOnceAborts(s: Slots, key: nat)
    ensures CallOnceOp(s, key).Abort? <==> !Room(s) && key != 0 && Chain(s, key, CallOnce) == []
  {
    RunsIff(s, key);
    hide Chain, Runs;
  }

  lemma CopyToReturnAborts(s: Slots, key: nat, bytes: seq<Byte>)
    ensures CopyToReturn(s, key, bytes).Abort? <==> !SizeOk(Chain(s, key, ReturnBuffer), Some(bytes))
  {
    FindIffChain(s, key, ReturnBuffer);
    if Find(s, key, ReturnBuffer).Some? {
      FindSome(s, key, ReturnBuffer);
    }
    hide Find, Chain;
  }

  // ---------------------------------------------------------------------------------
  // Execution
  // ---------------------------------------------------------------------------------

  // The unused slots are those of before and those that were cleared.
  lemma PickKeepsRoom(s: Slots, key: nat)
    ensures Room(PickRetval(s, key).1) <==> Room(s)
  {
    hide Find;
    var s' := PickRetval(s, key).1;
    forall i | 0 <= i < SLOTS ensures s'[i].kind.Unused? <==> s[i].kind.Unused? {
    }
  }

  lemma ClearedRoom(s: Slots, key: nat, kind: Kind)
    requires !kind.Unused?
    ensures Room(Cleared(s, key, kind)) <==> Room(s) || Chain(s, key, kind) != []
  {
    FindIffChain(s, key, kind);
    hide Find, Chain;
    if Find(s, key, kind).Some? {
      assert Cleared(s, key, kind)[Find(s, key, kind).value].kind.Unused?;
    }
  }

  /** An execution aborts exactly when there is no slot for the stub's counter, or its handler stages a value
      of another size than the return buffer. */
  lemma ExecuteAborts(s: Slots, key: nat, defaultRc: int, script: Script)
    requires Zeroed(s) && Single(s)
    ensures Execute(s, key, defaultRc, script).CallAborted? <==>
              || (Chain(s, key, Counter) == [] && Chain(s, key, Context) == [] && !Room(s))
              || (Chain(s, key, Handler) != [] && !SizeOk(Chain(s, key, ReturnBuffer), script.staged))
  {
    hide Chain, Find, Single, Zeroed, Cleared, PickRetval, Room, SizeOk, CountCall, FillReturn, DropUsed, CopyToReturn;
    hide Picked, Int32, ConstantAfter, CounterAfter, CountedDown, Fires;
    CounterAborts(s, key);
    ExecuteFront(s, key, defaultRc);
    var picked := PickRetval(Cleared(s, key, Context), key);
    var status := StatusOf(Chain(s, key, Deferred), Chain(s, key, Constant), defaultRc);
    CountAborts(picked.1, key, status);
    if CountCall(picked.1, key, status).Done? {
      var s3 := CountCall(picked.1, key, status).s;
      FindIffChain(s3, key, Handler);
      StageAborts(s3, key, Find(s3, key, Handler).Some?, script.staged);
    }
  }

  // There is room for the counter when it is looked for.
  lemma CounterAborts(s: Slots, key: nat)
    requires Zeroed(s)
    ensures var s2 := PickRetval(Cleared(s, key, Context), key).1;
            && Zeroed(s2)
            && (Target(s2, key, Counter).None? <==>
                  Chain(s, key, Counter) == [] && Chain(s, key, Context) == [] && !Room(s))
  {
    hide Chain, Find, Zeroed, Cleared, PickRetval, Room, Target;
    var s1 := Cleared(s, key, Context);
    ClearSingle(s, key, Context);
    ZeroedCleared(s, key, Context);
    ClearedRoom(s, key, Context);
    PickRetvalEffect(s1, key);
    PickKeepsRoom(s1, key);
    var s2 := PickRetval(s1, key).1;
    TargetIs(s2, key, Counter);
    assert Chain(s2, key, Counter) == Chain(s1, key, Counter) == Chain(s, key, Counter);
  }

  lemma CountAborts(s: Slots, key: nat, status: int)
    ensures CountCall(s, key, status).Abort? <==> Target(s, key, Counter).None?
  {
    hide Find;
  }

  lemma StageAborts(s: Slots, key: nat, handled: bool, staged: Option<seq<Byte>>)
    ensures Stage(s, key, handled, staged).Abort? <==> handled && !SizeOk(Chain(s, key, ReturnBuffer), staged)
  {
    hide Chain, CopyToReturn;
    if staged.Some? {
      CopyToReturnAborts(s, key, staged.value);
    }
  }

  // ---------------------------------------------------------------------------------
  // Whole runs
  // ---------------------------------------------------------------------------------

  // What the test can look at before an operation: is there room, and does the size fit?
  ghost predicate Blocked(s: Slots, op: Op) {
    match op
    case Reset(_) => false
    case Once(key) => !Room(s) && key != 0 && Chain(s, key, CallOnce) == []
    case SetRetval(key, _, counter) => !Room(s) && (counter > 0 || Chain(s, key, Constant) == [])
    case SetDeferredRc(_, count, _) => !Room(s) && count > 0
    case ClearDeferredRc(_) => false
    case ClearConstant(_) => false
    case SetFunc(key, handler, func) => !Room(s) && func != 0 && Chain(s, key, FuncKind(handler)) == []
    case AddContext(key, _) => !Room(s) && Chain(s, key, Context) == []
    case AddReturn(key, size, _) => !Room(s) && size > 0 && Chain(s, key, ReturnBuffer) == []
    case StageReturn(key, bytes) => !SizeOk(Chain(s, key, ReturnBuffer), Some(bytes))
    case Supply(_, bytes) => !Room(s) && bytes != []
    case Read(_, _) => false
    case Call(key, _, script) =>
      || (Chain(s, key, Counter) == [] && Chain(s, key, Context) == [] && !Room(s))
      || (Chain(s, key, Handler) != [] && !SizeOk(Chain(s, key, ReturnBuffer), script.staged))
  }

  /** Every operation aborts exactly when it is blocked. */
  lemma AbortsExactly(s: Slots, op: Op)
    requires Zeroed(s) && Single(s)
    ensures Step(s, op).Abort? <==> Blocked(s, op)
  {
    hide Chain, Find, Zeroed, Single, Room, SizeOk, Execute, Configure, SetDeferred, SetCallback, RegisterContext;
    hide RegisterReturn, SetData, CallOnceOp, CopyToReturn, ResetState, ClearDeferred, Cleared, CopyToLocal;
    match op
    case Reset(_) =>
    case Once(key) => CallOnceAborts(s, key);
    case SetRetval(key, bytes, counter) => ConfigureAborts(s, key, bytes, counter);
    case SetDeferredRc(key, count, value) => SetDeferredAborts(s, key, count, value);
    case ClearDeferredRc(_) =>
    case ClearConstant(_) =>
    case SetFunc(key, handler, func) => SetCallbackAborts(s, key, FuncKind(handler), func);
    case AddContext(key, arg) => RegisterContextAborts(s, key, arg);
    case AddReturn(key, size, typeName) => RegisterReturnAborts(s, key, size, typeName);
    case StageReturn(key, bytes) => CopyToReturnAborts(s, key, bytes);
    case Supply(key, bytes) => SetDataAborts(s, key, bytes);
    case Read(_, _) =>
    case Call(key, rc, script) => ExecuteAborts(s, key, rc, script);
  }

  // None of the operations of the run is blocked when its turn comes.
  ghost predicate Unblocked(s: Slots, ops: seq<Op>)
    requires Completes(s, ops)
    decreases ops
  {
    ops == [] || (var prev := ops[..|ops| - 1]; Unblocked(s, prev) && !Blocked(End(s, prev), ops[|ops| - 1]))
  }

  /** A run can be continued with an operation exactly when that is not blocked; so a run completes exactly
      when none of its operations is. */
  lemma {:induction false} CompletesExactly(s: Slots, ops: seq<Op>, op: Op)
    requires Zeroed(s) && Single(s) && Completes(s, ops)
    ensures Unblocked(s, ops)
    ensures Completes(s, ops + [op]) <==> !Blocked(End(s, ops), op)
    decreases ops
  {
    hide Step, Blocked, Zeroed, Single;
    RunKeeps(s, ops);
    AbortsExactly(End(s, ops), op);
    assert (ops + [op])[..|ops + [op]| - 1] == ops;
    if ops != [] {
      var prev, last := ops[..|ops| - 1], ops[|ops| - 1];
      assert prev + [last] == ops;
      CompletesExactly(s, prev, last);
    }
  }

  // ---------------------------------------------------------------------------------
  // Room for a number of operations
  // ---------------------------------------------------------------------------------

  ghost function Free(s: Slots): set<int> {
    set i | 0 <= i < SLOTS && s[i].kind.Unused?
  }

  lemma FreeWrite(s: Slots, i: nat, e: Entry)
    requires i < SLOTS
    ensures |Free(s[i := e])| >= |Free(s)| - 1
    ensures !s[i].kind.Unused? ==> |Free(s[i := e])| >= |Free(s)|
    ensures s[i].kind.Unused? && !e.kind.Unused? ==> |Free(s[i := e])| == |Free(s)| - 1
  {
    var s', rest := s[i := e], Free(s) - {i};
    assert Free(s) == if s[i].kind.Unused? then rest + {i} else rest;
    assert Free(s') == if e.kind.Unused? then rest + {i} else rest;
  }

  lemma {:induction false} SubsetSize(a: set<int>, b: set<int>)
    requires a <= b
    ensures |a| <= |b|
    decreases |a|
  {
    if a != {} {
      assert (forall y :: y !in a) ==> a == {};
      var x :| x in a;
      SubsetSize(a - {x}, b - {x});
    }
  }

  lemma RoomIsFree(s: Slots)
    ensures Room(s) <==> |Free(s)| > 0
  {
    if Room(s) {
      var i :| 0 <= i < SLOTS && s[i].kind.Unused?;
      assert i in Free(s);
    } else {
      assert Free(s) == {};
    }
  }

  lemma FreeReset(s: Slots, key: nat)
    ensures |Free(ResetState(s, key))| >= |Free(s)| && |Free(ClearDeferred(s, key))| >= |Free(s)|
  {
    SubsetSize(Free(s), Free(ResetState(s, key)));
    SubsetSize(Free(s), Free(ClearDeferred(s, key)));
  }

  lemma FreeCleared(s: Slots, key: nat, kind: Kind)
    ensures kind.Unused? || |Free(Cleared(s, key, kind))| >= |Free(s)|
  {
    hide Find, Free;
    if Find(s, key, kind).Some? {
      FreeWrite(s, Find(s, key, kind).value, EMPTY);
    }
  }

  lemma FreePick(s: Slots, key: nat)
    ensures |Free(PickRetval(s, key).1)| >= |Free(s)|
  {
    hide Find;
    var s' := PickRetval(s, key).1;
    forall i | 0 <= i < SLOTS ensures s'[i].kind.Unused? <==> s[i].kind.Unused? {
    }
    SubsetSize(Free(s), Free(s'));
  }

  lemma FreeCount(s: Slots, key: nat, status: int)
    requires CountCall(s, key, status).Done?
    ensures |Free(CountCall(s, key, status).s)| >= |Free(s)| - 1
  {
    hide Find, Free;
    var slot := Target(s, key, Counter);
    FreeWrite(s, slot.value, CountCall(s, key, status).s[slot.value]);
  }

  lemma FreeReturn(s: Slots, key: nat, handled: bool, staged: Option<seq<Byte>>, hooked: bool, status: int,
                   value: Option<int>)
    requires Stage(s, key, handled, staged).Done?
    ensures |Free(FillReturn(Stage(s, key, handled, staged).s, key, hooked, status, value))| >= |Free(s)|
  {
    hide Find, ReturnBytes;
    var s4 := Stage(s, key, handled, staged).s;
    var s5 := FillReturn(s4, key, hooked, status, value);
    assert forall i :: 0 <= i < SLOTS && s[i].kind.Unused? ==> s4[i].kind.Unused?;
    assert forall i :: 0 <= i < SLOTS && s4[i].kind.Unused? ==> s5[i].kind.Unused?;
    SubsetSize(Free(s), Free(s5));
  }

  lemma FreeDrop(s: Slots, slot: Option<nat>)
    requires slot.Some? ==> slot.value < SLOTS
    ensures |Free(DropUsed(s, slot))| >= |Free(s)|
  {
    hide Free;
    if slot.Some? && s[slot.value].kind.Deferred? {
      FreeWrite(s, slot.value, EMPTY);
    }
  }

  lemma FreeExecute(s: Slots, key: nat, defaultRc: int, script: Script)
    requires Execute(s, key, defaultRc, script).Returned?
    ensures |Free(Execute(s, key, defaultRc, script).s)| >= |Free(s)| - 1
  {
    hide Free, Find, Cleared, PickRetval, CountCall, Stage, FillReturn, DropUsed, Int32;
    var s1 := Cleared(s, key, Context);
    FreeCleared(s, key, Context);
    var picked := PickRetval(s1, key);
    FreePick(s1, key);
    var value := if picked.0.Some? then Some(ValueOf(picked.1[picked.0.value].data)) else None;
    var status := if value.Some? then Int32(value.value) else defaultRc;
    var s3 := CountCall(picked.1, key, status).s;
    FreeCount(picked.1, key, status);
    var hooked, handled := Find(s3, key, Hook).Some?, Find(s3, key, Handler).Some?;
    var final := if hooked then script.hookReply else status;
    FreeReturn(s3, key, handled, script.staged, hooked, final, value);
    FreeDrop(FillReturn(Stage(s3, key, handled, script.staged).s, key, hooked, final, value), picked.0);
  }

  lemma FreeRegister(s: Slots, key: nat, size: nat, typeName: string)
    requires RegisterReturn(s, key, size, typeName).Done?
    ensures |Free(RegisterReturn(s, key, size, typeName).s)| >= |Free(s)| - 1
  {
    hide Find, Free, Zeros;
    var s' := RegisterReturn(s, key, size, typeName).s;
    if size > 0 {
      match Find(s, key, ReturnBuffer)
      case None => FreeWrite(s, Find(s, key, Unused).value, s'[Find(s, key, Unused).value]);
      case Some(i) =>
        if s[i].data.Buff? && |s[i].data.bytes| == size {
          FreeWrite(s, i, s'[i]);
        } else {
          FreeWrite(s, i, EMPTY);
          var s1 := s[i := EMPTY];
          FreeWrite(s1, Find(s1, key, Unused).value, s'[Find(s1, key, Unused).value]);
        }
    }
  }

  // One operation takes at most one unused slot.
  lemma FreeStep(s: Slots, op: Op)
    requires Step(s, op).Done?
    ensures |Free(Step(s, op).s)| >= |Free(s)| - 1
  {
    hide Find, Free, Execute, RegisterReturn, ResetState, ClearDeferred, Cleared, Stored, Encode, Taken, Left;
    var s' := Step(s, op).s;
    match op
    case Reset(key) => FreeReset(s, key);
    case Once(key) =>
      if Runs(s, key) {
        FreeWrite(s, FirstUnused(s, 0), s'[FirstUnused(s, 0)]);
      }
    case SetRetval(key, bytes, counter) =>
      var slot := if counter > 0 then Find(s, key, Unused) else Target(s, key, Constant);
      FreeWrite(s, slot.value, s'[slot.value]);
    case SetDeferredRc(key, count, value) =>
      if count > 0 {
        FreeWrite(s, Find(s, key, Unused).value, s'[Find(s, key, Unused).value]);
      }
    case ClearDeferredRc(key) => FreeReset(s, key);
    case ClearConstant(key) => FreeCleared(s, key, Constant);
    case SetFunc(key, handler, func) =>
      if func == 0 {
        FreeCleared(s, key, FuncKind(handler));
      } else {
        var slot := Target(s, key, FuncKind(handler));
        FreeWrite(s, slot.value, s'[slot.value]);
      }
    case AddContext(key, arg) => FreeWrite(s, Target(s, key, Context).value, s'[Target(s, key, Context).value]);
    case AddReturn(key, size, typeName) => FreeRegister(s, key, size, typeName);
    case StageReturn(key, bytes) =>
      if Find(s, key, ReturnBuffer).Some? {
        FreeWrite(s, Find(s, key, ReturnBuffer).value, s'[Find(s, key, ReturnBuffer).value]);
      }
    case Supply(key, bytes) =>
      if bytes != [] {
        FreeWrite(s, Find(s, key, Unused).value, s'[Find(s, key, Unused).value]);
      }
    case Read(key, max) =>
      if Find(s, key, DataBuffer).Some? {
        FreeWrite(s, Find(s, key, DataBuffer).value, s'[Find(s, key, DataBuffer).value]);
      }
    case Call(key, rc, script) => FreeExecute(s, key, rc, script);
  }

  predicate StagesNothing(op: Op) {
    !op.StageReturn? && (op.Call? ==> op.script.staged.None?)
  }

  /** As many operations as there are unused slots never abort, if no return value is staged: the first 200
      operations on an empty table always complete. */
  lemma {:induction false} RoomForRun(s: Slots, ops: seq<Op>)
    requires Zeroed(s) && Single(s) && |ops| <= |Free(s)|
    requires forall i :: 0 <= i < |ops| ==> StagesNothing(ops[i])
    ensures Completes(s, ops) && |Free(End(s, ops))| >= |Free(s)| - |ops|
    decreases ops
  {
    hide Step, Free, Zeroed, Single;
    if ops != [] {
      var prev, op := ops[..|ops| - 1], ops[|ops| - 1];
      RoomForRun(s, prev);
      var t := End(s, prev);
      RunKeeps(s, prev);
      RoomIsFree(t);
      AbortsExactly(t, op);
      assert StagesNothing(op);
      hide Chain, Room;
      assert !Blocked(t, op);
      FreeStep(t, op);
    }
  }

  lemma AllFree()
    ensures |Free(ALL_UNUSED)| == SLOTS
  {
    FreeBelow(SLOTS);
  }

  lemma {:induction false} FreeBelow(n: nat)
    requires n <= SLOTS
    ensures |set i | 0 <= i < n && ALL_UNUSED[i].kind.Unused?| == n
    decreases n
  {
    if n > 0 {
      FreeBelow(n - 1);
      var below := set i | 0 <= i < n - 1 && ALL_UNUSED[i].kind.Unused?;
      assert (set i | 0 <= i < n && ALL_UNUSED[i].kind.Unused?) == below + {n - 1};
    }
  }

  // ---------------------------------------------------------------------------------
  // Calls of generated stubs
  // ---------------------------------------------------------------------------------

  // A default handler is installed in an unused slot.
  lemma InstallEffect(s: Slots, key: nat, func: nat)
    requires Zeroed(s) && Single(s) && Chain(s, key, Handler) == [] && func != 0 && Room(s)
    ensures var s' := Step(s, SetFunc(key, true, func));
            && s' == SetCallback(s, key, Handler, func) && s'.Done? && Zeroed(s'.s) && Single(s'.s)
            && |Free(s'.s)| == |Free(s)| - 1 && Chain(s'.s, key, Handler) == [Cb(func)]
            && OthersKept(s, s'.s, key, Handler)
  {
    hide Chain, Find, Zeroed, Single, Room;
    SetCallbackAborts(s, key, Handler, func);
    SetCallbackEffect(s, key, Handler, func);
    StepKeeps(s, SetFunc(key, true, func));
    FindIffChain(s, key, Handler);
    var i := Find(s, key, Unused).value;
    FreeWrite(s, i, Entry(Handler, key, Cb(func)));
  }

  /** With a default handler: the same, with one slot more for the handler if there is none yet. */
  lemma ExecuteBasicAborts(s: Slots, key: nat, defaultHandler: nat, script: Script)
    requires Zeroed(s) && Single(s)
    ensures var installs := Chain(s, key, Handler) == [] && defaultHandler != 0;
            var counts := Chain(s, key, Counter) == [] && Chain(s, key, Context) == [];
            ExecuteBasic(s, key, defaultHandler, script).CallAborted? <==>
              || |Free(s)| < (if installs then 1 else 0) + (if counts then 1 else 0)
              || ((Chain(s, key, Handler) != [] || defaultHandler != 0)
                  && !SizeOk(Chain(s, key, ReturnBuffer), script.staged))
  {
    hide Chain, Find, Zeroed, Single, Room, Free, Execute, SetCallback, SizeOk;
    FindIffChain(s, key, Handler);
    RoomIsFree(s);
    if Chain(s, key, Handler) == [] && defaultHandler != 0 {
      SetCallbackAborts(s, key, Handler, defaultHandler);
      if Room(s) {
        InstallEffect(s, key, defaultHandler);
        var s' := SetCallback(s, key, Handler, defaultHandler).s;
        RoomIsFree(s');
        ExecuteAborts(s', key, 0, script);
      }
    } else {
      ExecuteAborts(s, key, 0, script);
    }
  }

  // Further arguments go to the context entry that is there.
  lemma {:induction false} ArgumentsFit(s: Slots, key: nat, args: seq<nat>)
    requires Zeroed(s) && Single(s) && (Chain(s, key, Context) != [] || Room(s))
    ensures RegisterAll(s, key, args).Done?
    ensures |Free(RegisterAll(s, key, args).s)| >= |Free(s)| - if Chain(s, key, Context) == [] then 1 else 0
    decreases args
  {
    hide Chain, Find, Zeroed, Single, Room, Free, RegisterContext;
    if args != [] {
      RegisterContextAborts(s, key, args[0]);
      ContextEntered(s, key, args[0]);
      ArgumentsFit(RegisterContext(s, key, args[0]).s, key, args[1..]);
    }
  }

  lemma ContextEntered(s: Slots, key: nat, arg: nat)
    requires Zeroed(s) && Single(s) && RegisterContext(s, key, arg).Done?
    ensures var s' := RegisterContext(s, key, arg).s;
            && Zeroed(s') && Single(s') && Chain(s', key, Context) != []
            && |Free(s')| >= |Free(s)| - if Chain(s, key, Context) == [] then 1 else 0
  {
    hide Chain, Find, Zeroed, Single, Free;
    StepKeeps(s, AddContext(key, arg));
    SingleAt(s, key);
    RegisterContextEffect(s, key, arg);
    FindIffChain(s, key, Context);
    var i, s' := Target(s, key, Context).value, RegisterContext(s, key, arg).s;
    FreeWrite(s, i, s'[i]);
  }

  /** A generated stub comes back from every call, given four unused slots - for return buffer, arguments,
      handler and counter - exactly if a value that its handler stages has the size of the return type. */
  lemma StubComesBack(s: Slots, key: nat, size: nat, typeName: string, args: seq<nat>, defaultHandler: nat,
                      script: Script)
    requires Zeroed(s) && Single(s) && size > 0 && |Free(s)| >= 4
    ensures StubCall(s, key, size, typeName, args, defaultHandler, script).Returned? <==>
              (Handled(s, key, defaultHandler) && script.staged.Some? ==> |script.staged.value| == size)
  {
    hide Chain, Find, Zeroed, Single, Room, Free, RegisterReturn, ExecuteBasic, RegisterAll;
    RoomIsFree(s);
    RegisterReturnAborts(s, key, size, typeName);
    FreeRegister(s, key, size, typeName);
    var s1 := RegisterReturn(s, key, size, typeName).s;
    SingleAt(s, key);
    RegisterReturnEffect(s, key, size, typeName);
    StepKeeps(s, AddReturn(key, size, typeName));
    RoomIsFree(s1);
    ArgumentsFit(s1, key, args);
    var s2, previous := RegisteredReturn(s, key, size, typeName, args);
    FindIffChain(s, key, Handler);
    assert Chain(s2, key, Handler) == Chain(s, key, Handler);
    ExecuteBasicAborts(s2, key, defaultHandler, script);
  }
}
