/**
 Deferred return codes over whole runs: adding, using and clearing them in any order.  Every code is used
 once, and the codes are used in the order of adding under an exact condition.
 */
module StubDeferred {
  import opened Common
  import opened StubTable
  import opened StubChains
  import opened StubEffects
  import opened StubExecute
  import opened StubRuns
  import opened StubOrder
  import opened StubIntegers

  function Values(c: seq<Data>): (v: seq<int>)
    ensures |v| == |c| && forall j :: 0 <= j < |c| ==> v[j] == ValueOf(c[j])
  {
    seq(|c|, j requires 0 <= j < |c| => ValueOf(c[j]))
  }

  // The operation removes all deferred codes of the key.
  predicate Clears(op: Op, key: nat) {
    Covers(op, key) || (op.ClearDeferredRc? && op.key == key)
  }

  // The call uses a deferred code.
  ghost predicate Uses(s: Slots, op: Op, key: nat) {
    op.Call? && op.key == key && Fires(Chain(s, key, Deferred))
  }

  // The codes added since the last clear; those there at the start count as added.
  ghost function Codes(s: Slots, ops: seq<Op>, key: nat): seq<int>
    decreases ops
  {
    if ops == [] then Values(Chain(s, key, Deferred)) else
    var op := ops[|ops| - 1];
    if Clears(op, key) then [] else Codes(s, ops[..|ops| - 1], key) + Values(Adds(op, key, Deferred))
  }

  // The codes used since then.
  ghost function Used(s: Slots, ops: seq<Op>, key: nat): seq<int>
    requires Completes(s, ops)
    decreases ops
  {
    if ops == [] then [] else
    var prev, op := ops[..|ops| - 1], ops[|ops| - 1];
    var t := End(s, prev);
    if Clears(op, key) then []
    else if Uses(t, op, key) then Used(s, prev, key) + [ValueOf(Chain(t, key, Deferred)[0])]
    else Used(s, prev, key)
  }

  // Which of the codes are pending, in the order in which they will be used.
  ghost function Tags(s: Slots, ops: seq<Op>, key: nat): seq<nat>
    requires Completes(s, ops)
    decreases ops
  {
    if ops == [] then seq(|Chain(s, key, Deferred)|, j => j) else
    var prev, op := ops[..|ops| - 1], ops[|ops| - 1];
    var t, tags := End(s, prev), Tags(s, prev, key);
    if Clears(op, key) then []
    else if Adds(op, key, Deferred) != [] then NewTag(tags, Place(t, key, Deferred), |Codes(s, prev, key)|)
    else if Uses(t, op, key) then Tail(tags)
    else tags
  }

  ghost function NewTag(tags: seq<nat>, p: nat, n: nat): seq<nat> {
    if p <= |tags| then Inserted(tags, p, n) else tags
  }

  function Tail(tags: seq<nat>): seq<nat> {
    if tags == [] then [] else tags[1..]
  }

  // Since the last clear, every code is added when no unused slot precedes a pending code.
  ghost predicate AddedLast(s: Slots, ops: seq<Op>, key: nat)
    requires Completes(s, ops)
    decreases ops
  {
    ops == [] ||
    (var prev, op := ops[..|ops| - 1], ops[|ops| - 1];
     || Clears(op, key)
     || (AddedLast(s, prev, key) && (Adds(op, key, Deferred) != [] ==> NoGap(End(s, prev), key, Deferred))))
  }

  // ---------------------------------------------------------------------------------
  // What one operation does to the pending codes
  // ---------------------------------------------------------------------------------

  lemma ClearedStep(t: Slots, op: Op, key: nat)
    requires Zeroed(t) && Clears(op, key)
    ensures Step(t, op).Done? && Chain(Step(t, op).s, key, Deferred) == []
  {
    hide Chain, Zeroed, ResetState, ClearDeferred;
    if op.Reset? {
      ResetEffect(t, op.key, key, Deferred);
    } else {
      ClearDeferredEffect(t, key);
    }
  }

  lemma AddingStep(t: Slots, op: Op, key: nat)
    requires Zeroed(t) && Step(t, op).Done? && Adds(op, key, Deferred) != []
    ensures |Adds(op, key, Deferred)| == 1 && Place(t, key, Deferred) <= |Chain(t, key, Deferred)|
    ensures Chain(Step(t, op).s, key, Deferred)
         == Inserted(Chain(t, key, Deferred), Place(t, key, Deferred), Adds(op, key, Deferred)[0])
  {
    hide Chain, Zeroed, Place, Configure, Inserted, Stored;
    if op.SetRetval? {
      DeferredEffect(t, key, op.bytes, op.counter);
    } else {
      DeferredEffect(t, key, Encode(op.value, 8), op.count);
      assert Stored(Zero, Encode(op.value, 8)) == Decode(Encode(op.value, 8)) by { StoredWhole(op.value); }
    }
  }

  lemma StoredWhole(v: int)
    ensures Stored(Zero, Encode(v, 8)) == Decode(Encode(v, 8))
  {
    hide Encode, Decode;
  }

  lemma CallStep(t: Slots, op: Op, key: nat)
    requires Zeroed(t) && Single(t) && Step(t, op).Done? && op.Call? && op.key == key
    ensures Chain(Step(t, op).s, key, Deferred) == DeferredAfter(Chain(t, key, Deferred))
  {
    hide Chain, Zeroed, Single, Execute, DeferredAfter;
    ExecuteEffect(t, key, op.defaultRc, op.script);
  }

  lemma OtherStep(t: Slots, op: Op, key: nat)
    requires Zeroed(t) && Single(t) && Step(t, op).Done? && !Clears(op, key) && Adds(op, key, Deferred) == []
    requires op.key == key ==> !op.Call?
    ensures Chain(Step(t, op).s, key, Deferred) == Chain(t, key, Deferred)
  {
    hide Step, Chain, Zeroed, Single, ResetState;
    if op.Reset? {
      StepIs(t, op);
      ResetEffect(t, op.key, key, Deferred);
    } else if op.SetDeferredRc? && op.key == key {
      NothingDeferred(t, op);
    } else {
      StepTouches(t, op);
      assert op.key != key || Deferred !in KindsOf(op);
    }
  }

  lemma NothingDeferred(t: Slots, op: Op)
    requires op.SetDeferredRc? && op.count <= 0
    ensures Step(t, op) == Done(t)
  {
  }

  // ---------------------------------------------------------------------------------
  // Every code is used once
  // ---------------------------------------------------------------------------------

  // The pending codes are those that their tags name.
  ghost predicate Named(c: seq<Data>, tags: seq<nat>, codes: seq<int>) {
    && |tags| == |c|
    && forall j :: 0 <= j < |c| ==> tags[j] < |codes| && codes[tags[j]] == ValueOf(c[j])
  }

  ghost predicate Accounted(s: Slots, ops: seq<Op>, key: nat)
    requires Completes(s, ops)
  {
    var c, codes := Chain(End(s, ops), key, Deferred), Codes(s, ops, key);
    Named(c, Tags(s, ops, key), codes) && Agree(Used(s, ops, key), Values(c), codes, AddedLast(s, ops, key))
  }

  lemma NamedAdd(c: seq<Data>, tags: seq<nat>, codes: seq<int>, p: nat, d: Data)
    requires Named(c, tags, codes) && p <= |c|
    ensures Named(Inserted(c, p, d), NewTag(tags, p, |codes|), codes + [ValueOf(d)])
  {
    hide Inserted, ValueOf;
    InsertedAt(c, p, d);
    InsertedAt<nat>(tags, p, |codes|);
  }

  lemma ValuesInserted(c: seq<Data>, p: nat, d: Data)
    requires p <= |c|
    ensures multiset(Values(Inserted(c, p, d))) == multiset(Values(c)) + multiset{ValueOf(d)}
    ensures p == |c| ==> Values(Inserted(c, p, d)) == Values(c) + [ValueOf(d)]
  {
    hide ValueOf;
    var v := Values(c);
    assert Values(Inserted(c, p, d)) == v[..p] + [ValueOf(d)] + v[p..];
    assert v == v[..p] + v[p..];
  }

  lemma AccountAdd(t: Slots, op: Op, key: nat, tags: seq<nat>, codes: seq<int>, used: seq<int>, inOrder: bool)
    requires Zeroed(t) && Step(t, op).Done? && Adds(op, key, Deferred) != []
    requires Named(Chain(t, key, Deferred), tags, codes) && Agree(used, Values(Chain(t, key, Deferred)), codes, inOrder)
    ensures var c', codes' := Chain(Step(t, op).s, key, Deferred), codes + Values(Adds(op, key, Deferred));
            && Named(c', NewTag(tags, Place(t, key, Deferred), |codes|), codes')
            && Agree(used, Values(c'), codes', inOrder && NoGap(t, key, Deferred))
  {
    hide Chain, Zeroed, Step, Place, NoGap, Adds, Inserted, Named, Agree, Values, NewTag;
    AddingStep(t, op, key);
    var c, p, d := Chain(t, key, Deferred), Place(t, key, Deferred), Adds(op, key, Deferred)[0];
    assert Values(Adds(op, key, Deferred)) == [ValueOf(d)];
    NamedAdd(c, tags, codes, p, d);
    ValuesInserted(c, p, d);
    AddedLastExactly(t, key, Deferred);
    AgreeAdd(used, Values(c), Values(Inserted(c, p, d)), codes, ValueOf(d), inOrder, NoGap(t, key, Deferred));
  }

  lemma AccountCall(c: seq<Data>, tags: seq<nat>, codes: seq<int>, used: seq<int>, inOrder: bool)
    requires Named(c, tags, codes) && Agree(used, Values(c), codes, inOrder)
    ensures Fires(c) ==>
              && Named(DeferredAfter(c), Tail(tags), codes)
              && Agree(used + [ValueOf(c[0])], Values(DeferredAfter(c)), codes, inOrder)
    ensures !Fires(c) ==> Named(DeferredAfter(c), tags, codes) && Agree(used, Values(DeferredAfter(c)), codes, inOrder)
  {
    hide Agree;
    if Fires(c) {
      assert Values(c) == [ValueOf(c[0])] + Values(c[1..]);
      AgreeTake(used, ValueOf(c[0]), Values(c[1..]), codes, inOrder);
    } else {
      assert Values(DeferredAfter(c)) == Values(c);
    }
  }

  lemma AccountStep(s: Slots, ops: seq<Op>, key: nat)
    requires Zeroed(s) && Single(s) && Completes(s, ops) && ops != [] && !Clears(ops[|ops| - 1], key)
    requires Accounted(s, ops[..|ops| - 1], key)
    ensures Accounted(s, ops, key)
  {
    hide Chain, Zeroed, Single, Step, Place, NoGap, Clears, Adds, Named, Agree, Values;
    hide DeferredAfter, Fires, NewTag, Tail;
    var prev, op := ops[..|ops| - 1], ops[|ops| - 1];
    RunKeeps(s, prev);
    var t := End(s, prev);
    var tags, codes := Tags(s, prev, key), Codes(s, prev, key);
    var used, inOrder := Used(s, prev, key), AddedLast(s, prev, key);
    if Adds(op, key, Deferred) != [] {
      AddsIs(op, key);
      AccountAdd(t, op, key, tags, codes, used, inOrder);
    } else {
      assert codes + Values([]) == codes by { assert |Values([])| == 0; }
      if op.Call? && op.key == key {
        CallStep(t, op, key);
        AccountCall(Chain(t, key, Deferred), tags, codes, used, inOrder);
      } else {
        OtherStep(t, op, key);
      }
    }
  }

  lemma AddsIs(op: Op, key: nat)
    requires Adds(op, key, Deferred) != []
    ensures !op.Call?
  {
  }

  lemma AccountStart(c: seq<Data>)
    ensures Named(c, seq(|c|, j => j), Values(c)) && Agree([], Values(c), Values(c), true)
  {
    assert [] + Values(c) == Values(c);
  }

  /** In every run from any table in order, with codes added, used and cleared as it comes: each code added since
      the last clear was used exactly once or is pending; and in the order of adding, if no unused slot ever
      precedes a pending code when one is added. */
  lemma {:induction false} UsedAsAdded(s: Slots, ops: seq<Op>, key: nat)
    requires Zeroed(s) && Single(s) && Completes(s, ops)
    ensures Accounted(s, ops, key)
    decreases ops
  {
    hide Chain, Zeroed, Single, Step, Clears, Named, Agree, Values;
    if ops == [] {
      AccountStart(Chain(s, key, Deferred));
    } else if Clears(ops[|ops| - 1], key) {
      RunKeeps(s, ops[..|ops| - 1]);
      ClearedStep(End(s, ops[..|ops| - 1]), ops[|ops| - 1], key);
      AccountStart([]);
      assert Values([]) == [] by { assert |Values([])| == 0; }
      assert seq(0, j => j) == [];
    } else {
      UsedAsAdded(s, ops[..|ops| - 1], key);
      AccountStep(s, ops, key);
    }
  }

  // A call that uses a code returns it, if there is no hook.
  lemma UsedIsReturned(s: Slots, key: nat, defaultRc: int, script: Script)
    requires Zeroed(s) && Single(s) && Execute(s, key, defaultRc, script).Returned?
    requires Chain(s, key, Hook) == [] && Fires(Chain(s, key, Deferred))
    ensures Execute(s, key, defaultRc, script).status == Int32(ValueOf(Chain(s, key, Deferred)[0]))
  {
    hide Chain, Zeroed, Single, Execute, Int32;
    ExecuteEffect(s, key, defaultRc, script);
  }

  // ---------------------------------------------------------------------------------
  // When they are used in the order of adding
  // ---------------------------------------------------------------------------------

  // After every operation since the last clear, the pending codes will be used in the order of adding.
  ghost predicate UsedInOrder(s: Slots, ops: seq<Op>, key: nat)
    requires Completes(s, ops)
    decreases ops
  {
    && Ascending(Tags(s, ops, key))
    && (ops == [] || Clears(ops[|ops| - 1], key) || UsedInOrder(s, ops[..|ops| - 1], key))
  }

  lemma TagsAdd(t: Slots, key: nat, tags: seq<nat>, codes: seq<int>)
    requires Named(Chain(t, key, Deferred), tags, codes) && Ascending(tags)
    ensures Ascending(NewTag(tags, Place(t, key, Deferred), |codes|)) <==> NoGap(t, key, Deferred)
  {
    hide Chain, NoGap, Place, Inserted, Ascending;
    AddedLastExactly(t, key, Deferred);
    AscendingExactly(tags, Place(t, key, Deferred), |codes|);
  }

  lemma TagsStep(s: Slots, ops: seq<Op>, key: nat)
    requires Completes(s, ops) && ops != [] && !Clears(ops[|ops| - 1], key)
    requires Accounted(s, ops[..|ops| - 1], key) && Ascending(Tags(s, ops[..|ops| - 1], key))
    ensures Ascending(Tags(s, ops, key)) <==>
              (Adds(ops[|ops| - 1], key, Deferred) != [] ==> NoGap(End(s, ops[..|ops| - 1]), key, Deferred))
  {
    hide Chain, NoGap, Place, Step, Clears, Adds, Named, Agree, Values, Fires, Ascending, NewTag, Tail;
    var prev, op := ops[..|ops| - 1], ops[|ops| - 1];
    var tags := Tags(s, prev, key);
    if Adds(op, key, Deferred) != [] {
      TagsAdd(End(s, prev), key, tags, Codes(s, prev, key));
    } else {
      TailAscends(tags);
    }
  }

  lemma TailAscends(tags: seq<nat>)
    requires Ascending(tags)
    ensures Ascending(Tail(tags))
  {
  }

  lemma StartAscends(n: nat)
    ensures Ascending(seq(n, j => j))
  {
  }

  /** The exact condition: the codes are used in the order of adding if and only if each of them is added when
      no unused slot precedes a pending one. */
  lemma {:induction false} OrderExactly(s: Slots, ops: seq<Op>, key: nat)
    requires Zeroed(s) && Single(s) && Completes(s, ops)
    ensures UsedInOrder(s, ops, key) <==> AddedLast(s, ops, key)
    decreases ops
  {
    hide Step, Chain, Clears, Zeroed, Single, Ascending, NoGap, Adds, Accounted, NewTag, Tail, Fires;
    if ops == [] {
      StartAscends(|Chain(s, key, Deferred)|);
    } else if Clears(ops[|ops| - 1], key) {
      assert Ascending([]) by { StartAscends(0); assert seq(0, j => j) == []; }
    } else {
      var prev := ops[..|ops| - 1];
      OrderExactly(s, prev, key);
      UsedAsAdded(s, prev, key);
      if UsedInOrder(s, prev, key) {
        TagsStep(s, ops, key);
      }
    }
  }

  // ---------------------------------------------------------------------------------
  // The documented order does not hold without the condition
  // ---------------------------------------------------------------------------------

  // A stub without hook, and a handler that stages nothing.
  const PLAIN := Script(0, None)

  function Defer(v: int): Op {
    SetDeferredRc(1, 1, v)
  }

  const CALL := Call(1, 0, PLAIN)

  // Key 1 has its home at slot 1.
  function CodeAt(s: Slots, i: nat, v: int): Slots
    requires i < SLOTS
  {
    s[i := Entry(Deferred, 1, Rvc(1, v))]
  }

  lemma CodeKept(v: int)
    requires 0 <= v < 100
    ensures Stored(Zero, Encode(v, 8)) == v == Int32(v)
  {
    hide Encode, Decode, Int32;
    StoredWhole(v);
    Int64RoundTrip(v);
    Int32RoundTrip(v);
  }

  lemma DeferFirst(s: Slots, v: int)
    requires s[1] == EMPTY && 0 <= v < 100
    ensures Step(s, Defer(v)) == Done(CodeAt(s, 1, v))
  {
    hide Encode, Decode, Stored;
    CodeKept(v);
    assert SlotAt(1, 0) == 1;
    assert First(s, 1, Unused, 0, |s|) == 0;
  }

  lemma DeferSecond(s: Slots, v: int)
    requires !s[1].kind.Unused? && s[2] == EMPTY && 0 <= v < 100
    ensures Step(s, Defer(v)) == Done(CodeAt(s, 2, v))
  {
    hide Encode, Decode, Stored;
    CodeKept(v);
    assert SlotAt(1, 0) == 1 && SlotAt(1, 1) == 2;
    assert First(s, 1, Unused, 0, |s|) == 1;
  }

  // The code in the home slot is the first of its chain.
  lemma HomeIsHead(s: Slots)
    requires Matches(s[1], 1, Deferred)
    ensures Find(s, 1, Deferred) == Some(1) && Chain(s, 1, Deferred) != [] && Chain(s, 1, Deferred)[0] == s[1].data
  {
    assert SlotAt(1, 0) == 1;
    assert First(s, 1, Deferred, 0, |s|) == 0;
    FindSome(s, 1, Deferred);
  }

  // The table when a call looks for its counter.
  function Picking(s: Slots): (Option<nat>, Slots) {
    PickRetval(Cleared(s, 1, Context), 1)
  }

  lemma RoomByCounter(s: Slots)
    requires Zeroed(s) && Single(s) && Chain(s, 1, Counter) != []
    ensures Target(Picking(s).1, 1, Counter).Some?
  {
    hide Chain, Find, Zeroed, Single, Cleared, PickRetval;
    ClearSingle(s, 1, Context);
    ZeroedCleared(s, 1, Context);
    PickRetvalEffect(Cleared(s, 1, Context), 1);
    FindIffChain(Picking(s).1, 1, Counter);
  }

  lemma RoomByUnused(s: Slots, i: nat)
    requires i < SLOTS && s[i] == EMPTY
    ensures Target(Picking(s).1, 1, Counter).Some?
  {
    hide Find;
    assert Cleared(s, 1, Context)[i] == EMPTY;
    assert Picking(s).1[i] == EMPTY;
    assert Matches(Picking(s).1[i], 1, Unused);
  }

  // How such a call ends, when the code in slot 1 was picked.
  lemma ReturnedIs(s: Slots, s2: Slots, v: int)
    requires Picking(s) == (Some(1), s2) && ValueOf(s2[1].data) == v && CountCall(s2, 1, Int32(v)).Done?
    ensures Execute(s, 1, 0, PLAIN).Returned?
    ensures var s3 := CountCall(s2, 1, Int32(v)).s;
            var hooked := Find(s3, 1, Hook).Some?;
            var final := if hooked then 0 else Int32(v);
            Execute(s, 1, 0, PLAIN).s == DropUsed(FillReturn(s3, 1, hooked, final, Some(v)), Some(1))
  {
    hide Find, PickRetval, Cleared, CountCall, FillReturn, Int32, ValueOf;
  }

  lemma PicksHome(s: Slots, v: int)
    requires s[1] == Entry(Deferred, 1, Rvc(1, v))
    ensures Picking(s).0 == Some(1) && Picking(s).1[1] == Entry(Deferred, 1, Rvc(0, v))
  {
    var s1 := Cleared(s, 1, Context);
    ClearedHome(s);
    HomeIsHead(s1);
    hide Find, Chain, Cleared;
  }

  lemma ClearedHome(s: Slots)
    requires s[1].kind.Deferred?
    ensures Cleared(s, 1, Context)[1] == s[1]
  {
    hide Find;
  }

  // A code in the home slot that is used leaves the slot unused.
  lemma HomeFreed(s: Slots, v: int)
    requires s[1] == Entry(Deferred, 1, Rvc(1, v)) && Target(Picking(s).1, 1, Counter).Some?
    ensures Execute(s, 1, 0, PLAIN).Returned? && Execute(s, 1, 0, PLAIN).s[1] == EMPTY
  {
    hide Execute, Picking, Find, FillReturn, Int32;
    PicksHome(s, v);
    var s2, status := Picking(s).1, Int32(v);
    var s3 := CountCall(s2, 1, status).s;
    ReturnedIs(s, s2, v);
    CountSlots(s2, 1, status);
    SlotKept(s2, s3, 1, 1, {Counter});
    hide CountCall, Target;
    var hooked := Find(s3, 1, Hook).Some?;
    var final := if hooked then 0 else status;
    StageNothing(s3, false);
    ReturnSlots(s3, 1, false, None, hooked, final, Some(v));
    SlotKept(s3, FillReturn(s3, 1, hooked, final, Some(v)), 1, 1, {ReturnBuffer});
  }

  lemma StageNothing(s: Slots, handled: bool)
    ensures Stage(s, 1, handled, None) == Done(s)
  {
  }

  // What a call does when a code is due in the home slot.
  lemma CallUsesHome(s: Slots, v: int)
    requires Zeroed(s) && Single(s) && s[1] == Entry(Deferred, 1, Rvc(1, v)) && Chain(s, 1, Hook) == []
    requires Target(Picking(s).1, 1, Counter).Some?
    ensures var called := Execute(s, 1, 0, PLAIN);
            called.Returned? && called.status == Int32(v) && Step(s, CALL) == Done(called.s) && called.s[1] == EMPTY
    ensures Uses(s, CALL, 1) && ValueOf(Chain(s, 1, Deferred)[0]) == v
    ensures Zeroed(Step(s, CALL).s) && Single(Step(s, CALL).s)
    ensures Chain(Step(s, CALL).s, 1, Counter) != [] && Chain(Step(s, CALL).s, 1, Hook) == []
  {
    hide Chain, Find, Zeroed, Single, Execute, Int32, Picking, Target;
    HomeFreed(s, v);
    HomeIsHead(s);
    UsedIsReturned(s, 1, 0, PLAIN);
    CallLeaves(s);
  }

  lemma CallLeaves(s: Slots)
    requires Zeroed(s) && Single(s) && Execute(s, 1, 0, PLAIN).Returned? && Chain(s, 1, Hook) == []
    ensures Step(s, CALL) == Done(Execute(s, 1, 0, PLAIN).s)
    ensures Zeroed(Step(s, CALL).s) && Single(Step(s, CALL).s)
    ensures Chain(Step(s, CALL).s, 1, Counter) != [] && Chain(Step(s, CALL).s, 1, Hook) == []
  {
    hide Chain, Zeroed, Single, Execute, Int32;
    StepTouches(s, CALL);
    ExecuteEffect(s, 1, 0, PLAIN);
  }

  lemma DeferKeeps(s: Slots, v: int)
    requires Zeroed(s) && Single(s) && Step(s, Defer(v)).Done?
    ensures var s' := Step(s, Defer(v)).s;
            && Zeroed(s') && Single(s')
            && Chain(s', 1, Hook) == Chain(s, 1, Hook) && Chain(s', 1, Counter) == Chain(s, 1, Counter)
  {
    hide Chain, Zeroed, Single, Step;
    StepTouches(s, Defer(v));
  }

  lemma RunOne(ops: seq<Op>, op: Op)
    requires Completes(ALL_UNUSED, ops) && Step(End(ALL_UNUSED, ops), op).Done? && !Clears(op, 1)
    ensures var all, t := ops + [op], End(ALL_UNUSED, ops);
            && Completes(ALL_UNUSED, all) && End(ALL_UNUSED, all) == Step(t, op).s
            && Codes(ALL_UNUSED, all, 1) == Codes(ALL_UNUSED, ops, 1) + Values(Adds(op, 1, Deferred))
            && Used(ALL_UNUSED, all, 1)
               == Used(ALL_UNUSED, ops, 1) + if Uses(t, op, 1) then [ValueOf(Chain(t, 1, Deferred)[0])] else []
  {
    hide Step, Chain, Fires, Values, Adds;
    assert (ops + [op])[..|ops + [op]| - 1] == ops;
  }

  lemma NoCodes()
    ensures Codes(ALL_UNUSED, [], 1) == [] && Used(ALL_UNUSED, [], 1) == []
  {
    StartEmpty(1, Deferred);
    hide Chain;
  }

  lemma AddsCode(v: int)
    requires 0 <= v < 100
    ensures Values(Adds(Defer(v), 1, Deferred)) == [v] && Values(Adds(CALL, 1, Deferred)) == []
    ensures !Clears(Defer(v), 1) && !Clears(CALL, 1)
  {
    hide Encode, Decode;
    CodeKept(v);
    StoredWhole(v);
  }

  // The state of a run of these operations.
  ghost predicate Comes(s0: Slots, key: nat, ops: seq<Op>, s: Slots, codes: seq<int>, used: seq<int>) {
    && Completes(s0, ops) && End(s0, ops) == s
    && Codes(s0, ops, key) == codes && Used(s0, ops, key) == used
    && Zeroed(s) && Single(s) && Chain(s, key, Hook) == []
  }

  lemma ComesDefer(ops: seq<Op>, s: Slots, codes: seq<int>, used: seq<int>, v: int)
    requires Comes(ALL_UNUSED, 1, ops, s, codes, used) && 0 <= v < 100 && Step(s, Defer(v)).Done?
    ensures Comes(ALL_UNUSED, 1, ops + [Defer(v)], Step(s, Defer(v)).s, codes + [v], used)
  {
    hide Step, Chain, Zeroed, Single, Completes, End, Codes, Used, Adds, Values, Clears, Fires;
    AddsCode(v);
    DeferKeeps(s, v);
    RunOne(ops, Defer(v));
    assert used + [] == used;
  }

  lemma ComesCall(ops: seq<Op>, s: Slots, codes: seq<int>, used: seq<int>, v: int)
    requires Comes(ALL_UNUSED, 1, ops, s, codes, used) && s[1] == Entry(Deferred, 1, Rvc(1, v)) && 0 <= v < 100
    requires Target(Picking(s).1, 1, Counter).Some?
    ensures Execute(s, 1, 0, PLAIN).Returned? && Execute(s, 1, 0, PLAIN).status == v
    ensures Step(s, CALL).Done? && Step(s, CALL).s[1] == EMPTY && Chain(Step(s, CALL).s, 1, Counter) != []
    ensures Comes(ALL_UNUSED, 1, ops + [CALL], Step(s, CALL).s, codes, used + [v])
  {
    hide Step, Chain, Zeroed, Single, Completes, End, Codes, Used, Adds, Values, Clears, Uses;
    hide Execute, Int32, Picking, Target;
    AddsCode(v);
    CodeKept(v);
    CallUsesHome(s, v);
    RunOne(ops, CALL);
    assert codes + [] == codes;
  }

  lemma ComesFirst()
    ensures Comes(ALL_UNUSED, 1, [], ALL_UNUSED, [], [])
  {
    hide Chain, Zeroed, Single;
    NoCodes();
    StartKeeps();
    StartEmpty(1, Hook);
  }

  const A := Defer(10)
  const B := Defer(11)
  const D := Defer(12)

  lemma TwoCodes()
    ensures Comes(ALL_UNUSED, 1, [A, B], CodeAt(CodeAt(ALL_UNUSED, 1, 10), 2, 11), [10, 11], [])
  {
    hide Comes, Step;
    var s0 := ALL_UNUSED;
    ComesFirst();
    DeferFirst(s0, 10);
    ComesDefer([], s0, [], [], 10);
    var s1 := CodeAt(s0, 1, 10);
    assert [] + [A] == [A] && [] + [10] == [10];
    DeferSecond(s1, 11);
    ComesDefer([A], s1, [10], [], 11);
    assert [A] + [B] == [A, B] && [10] + [11] == [10, 11];
  }

  /** Two codes, one call, a third code, and another call: the calls return the first code and the third. */
  lemma ThirdBeforeSecond()
    ensures var ops := [A, B, CALL, D, CALL];
            Completes(ALL_UNUSED, ops)
            && Codes(ALL_UNUSED, ops, 1) == [10, 11, 12] && Used(ALL_UNUSED, ops, 1) == [10, 12]
    ensures Completes(ALL_UNUSED, [A, B]) && Execute(End(ALL_UNUSED, [A, B]), 1, 0, PLAIN).Returned?
    ensures Execute(End(ALL_UNUSED, [A, B]), 1, 0, PLAIN).status == 10
    ensures Completes(ALL_UNUSED, [A, B, CALL, D]) && Execute(End(ALL_UNUSED, [A, B, CALL, D]), 1, 0, PLAIN).Returned?
    ensures Execute(End(ALL_UNUSED, [A, B, CALL, D]), 1, 0, PLAIN).status == 12
  {
    hide Step, Chain, Execute, Zeroed, Single, Codes, Used, Completes, End, Picking, Target;
    TwoCodes();
    var s2 := CodeAt(CodeAt(ALL_UNUSED, 1, 10), 2, 11);
    RoomByUnused(s2, 5);
    ComesCall([A, B], s2, [10, 11], [], 10);
    var s3 := Step(s2, CALL).s;
    assert [A, B] + [CALL] == [A, B, CALL] && [] + [10] == [10];
    DeferFirst(s3, 12);
    DeferKeeps(s3, 12);
    ComesDefer([A, B, CALL], s3, [10, 11], [10], 12);
    var s4 := CodeAt(s3, 1, 12);
    assert [A, B, CALL] + [D] == [A, B, CALL, D] && [10, 11] + [12] == [10, 11, 12];
    RoomByCounter(s4);
    ComesCall([A, B, CALL, D], s4, [10, 11, 12], [10], 12);
    assert [A, B, CALL, D] + [CALL] == [A, B, CALL, D, CALL] && [10] + [12] == [10, 12];
  }
}
