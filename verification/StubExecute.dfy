/**
 One execution of a stub (UT_DefaultStubImplWithArgs) as a function of the chains of its key.
 */
module StubExecute {
  import opened Common
  import opened StubTable
  import opened StubChains
  import opened StubEffects

  // ---------------------------------------------------------------------------------
  // The simple form
  // ---------------------------------------------------------------------------------

  // The deferred code at the head of its chain is due with this call.
  predicate Fires(def: seq<Data>) {
    def != [] && CounterOf(def[0]) <= 1
  }

  function Picked(def: seq<Data>, con: seq<Data>): Option<int> {
    if Fires(def) then Some(ValueOf(def[0]))
    else if con != [] then Some(ValueOf(con[0]))
    else None
  }

  ghost function CountedDown(def: seq<Data>): seq<Data> {
    if def == [] then [] else NewHead(def, Rvc(CounterOf(def[0]) - 1, ValueOf(def[0])))
  }

  ghost function DeferredAfter(def: seq<Data>): seq<Data> {
    if Fires(def) then def[1..] else CountedDown(def)
  }

  ghost function ConstantAfter(def: seq<Data>, con: seq<Data>): seq<Data> {
    if Fires(def) || con == [] then con else NewHead(con, Rvc(CounterOf(con[0]) + 1, ValueOf(con[0])))
  }

  function StatusOf(def: seq<Data>, con: seq<Data>, defaultRc: int): int {
    match Picked(def, con)
    case Some(v) => Int32(v)
    case None => defaultRc
  }

  function CounterAfter(cnt: seq<Data>, status: int): seq<Data> {
    [Rc(((if cnt == [] then 0 else CountOf(cnt[0])) + 1) % TWO_32, status)]
  }

  function Staged(ret: seq<Data>, staged: Option<seq<Byte>>): seq<Data> {
    if staged.None? || ret == [] || !ret[0].Buff? then ret
    else [Buff(staged.value, |staged.value|, ret[0].typeName)]
  }

  function Filled(ret: seq<Data>, hooked: bool, status: int, value: Option<int>): seq<Data> {
    if ret == [] || !ret[0].Buff? || ret[0].pos != 0 then ret
    else [Buff(ReturnBytes(|ret[0].bytes|, hooked, status, value), |ret[0].bytes|, ret[0].typeName)]
  }

  // ---------------------------------------------------------------------------------
  // The phases
  // ---------------------------------------------------------------------------------

  lemma {:induction false} FirstReplaced(s: Slots, i: nat, e: Entry, key: nat, kind: Kind, d: nat)
    requires i < SLOTS && d <= |s| && Matches(s[i], key, kind) && Matches(e, key, kind)
    ensures First(s[i := e], key, kind, d, |s|) == First(s, key, kind, d, |s|)
    decreases |s| - d
  {
    if d < |s| {
      FirstReplaced(s, i, e, key, kind, d + 1);
    }
  }

  lemma FindReplaced(s: Slots, key: nat, kind: Kind, data: Data)
    requires !kind.Unused? && Find(s, key, kind).Some?
    ensures Find(s[Find(s, key, kind).value := Entry(kind, key, data)], key, kind) == Find(s, key, kind)
  {
    FirstReplaced(s, Find(s, key, kind).value, Entry(kind, key, data), key, kind, 0);
  }

  lemma PickConstantEffect(s: Slots, key: nat)
    requires Zeroed(s)
    ensures Zeroed(PickConstant(s, key).1)
    ensures OthersKept(s, PickConstant(s, key).1, key, Constant)
    ensures Chain(PickConstant(s, key).1, key, Constant) == ConstantAfter([], Chain(s, key, Constant))
    ensures PickConstant(s, key).0 == Find(PickConstant(s, key).1, key, Constant)
    ensures PickConstant(s, key).0.None? ==> Chain(s, key, Constant) == []
    ensures PickConstant(s, key).0.Some? ==>
              && Chain(s, key, Constant) != []
              && ValueOf(PickConstant(s, key).1[PickConstant(s, key).0.value].data)
                 == ValueOf(Chain(s, key, Constant)[0])
  {
    hide Chain, Find;
    if Find(s, key, Constant).None? {
      FindNone(s, key, Constant);
    } else {
      var i := Find(s, key, Constant).value;
      var d := Rvc(CounterOf(s[i].data) + 1, ValueOf(s[i].data));
      assert PickConstant(s, key) == (Some(i), s[i := Entry(Constant, key, d)]);
      ReplaceHead(s, key, Constant, d);
      FindReplaced(s, key, Constant, d);
      ZeroedWrite(s, i, Entry(Constant, key, d));
    }
  }

  // The slot that UT_Stub_FindRetvalConfig returns is the one found under its own kind.
  ghost predicate PickedSlot(s: Slots, key: nat, fires: bool, slot: Option<nat>) {
    && slot == Find(s, key, if fires then Deferred else Constant)
  }

  lemma PickRetvalEffect(s: Slots, key: nat)
    requires Zeroed(s)
    ensures Zeroed(PickRetval(s, key).1)
    ensures Touches(s, PickRetval(s, key).1, key, {Deferred, Constant})
    ensures Chain(PickRetval(s, key).1, key, Deferred) == CountedDown(Chain(s, key, Deferred))
    ensures Chain(PickRetval(s, key).1, key, Constant)
         == ConstantAfter(Chain(s, key, Deferred), Chain(s, key, Constant))
    ensures PickedSlot(PickRetval(s, key).1, key, Fires(Chain(s, key, Deferred)), PickRetval(s, key).0)
    ensures Fires(Chain(s, key, Deferred)) ==> PickRetval(s, key).0.Some?
    ensures Picked(Chain(s, key, Deferred), Chain(s, key, Constant))
         == match PickRetval(s, key).0
            case None => None
            case Some(i) => Some(ValueOf(PickRetval(s, key).1[i].data))
  {
    hide Chain, Find;
    if Find(s, key, Deferred).None? {
      FindNone(s, key, Deferred);
      PickConstantEffect(s, key);
    } else {
      var i := Find(s, key, Deferred).value;
      var d := Rvc(CounterOf(s[i].data) - 1, ValueOf(s[i].data));
      var s' := s[i := Entry(Deferred, key, d)];
      ReplaceHead(s, key, Deferred, d);
      FindReplaced(s, key, Deferred, d);
      ZeroedWrite(s, i, Entry(Deferred, key, d));
      assert Chain(s', key, Constant) == Chain(s, key, Constant);
      if d.counter > 0 {
        PickConstantEffect(s', key);
        assert Chain(PickConstant(s', key).1, key, Deferred) == Chain(s', key, Deferred);
      }
    }
  }

  // A write that only concerns one kind, different from the kind looked for.
  ghost predicate SameRetvals(s: Slots, s': Slots, key: nat) {
    forall kd :: kd in {Deferred, Constant} ==>
      && Find(s', key, kd) == Find(s, key, kd)
      && (Find(s, key, kd).Some? ==> s'[Find(s, key, kd).value] == s[Find(s, key, kd).value])
  }

  lemma WriteKeepsRetvals(s: Slots, i: nat, e: Entry, key: nat)
    requires i < SLOTS && !e.kind.Deferred? && !e.kind.Constant?
    requires !Matches(s[i], key, Deferred) && !Matches(s[i], key, Constant)
    ensures SameRetvals(s, s[i := e], key)
  {
    hide Find;
    FindStable(s, i, e, key, Deferred);
    FindStable(s, i, e, key, Constant);
  }

  lemma CountCallEffect(s: Slots, key: nat, status: int)
    requires Zeroed(s) && |Chain(s, key, Counter)| <= 1 && CountCall(s, key, status).Done?
    ensures var s' := CountCall(s, key, status).s;
            && Zeroed(s') && OthersKept(s, s', key, Counter) && SameRetvals(s, s', key)
            && Chain(s', key, Counter) == CounterAfter(Chain(s, key, Counter), status)
  {
    hide Chain, Find;
    var i := Target(s, key, Counter).value;
    var d := Rc((CountOf(s[i].data) + 1) % TWO_32, status);
    PutSingle(s, key, Counter, d);
    WriteKeepsRetvals(s, i, Entry(Counter, key, d), key);
    ZeroedWrite(s, i, Entry(Counter, key, d));
  }

  // A staged value has the size of the return buffer; any other size aborts the test.
  ghost predicate SizeOk(ret: seq<Data>, staged: Option<seq<Byte>>) {
    staged.Some? && ret != [] ==> ret[0].Buff? && |ret[0].bytes| == |staged.value|
  }

  lemma StageEffect(s: Slots, key: nat, handled: bool, staged: Option<seq<Byte>>)
    requires Zeroed(s) && |Chain(s, key, ReturnBuffer)| <= 1 && Stage(s, key, handled, staged).Done?
    ensures var s' := Stage(s, key, handled, staged).s;
            && Zeroed(s') && OthersKept(s, s', key, ReturnBuffer) && SameRetvals(s, s', key)
            && SizeOk(Chain(s, key, ReturnBuffer), if handled then staged else None)
            && Chain(s', key, ReturnBuffer) == Staged(Chain(s, key, ReturnBuffer), if handled then staged else None)
  {
    hide Chain, Find;
    if handled && staged.Some? {
      CopyToReturnEffect(s, key, staged.value);
      if Find(s, key, ReturnBuffer).Some? {
        var i := Find(s, key, ReturnBuffer).value;
        FindSome(s, key, ReturnBuffer);
        WriteKeepsRetvals(s, i, Entry(ReturnBuffer, key, Buff(staged.value, |staged.value|, s[i].data.typeName)), key);
      }
    }
  }

  lemma FillReturnEffect(s: Slots, key: nat, hooked: bool, status: int, value: Option<int>)
    requires Zeroed(s) && |Chain(s, key, ReturnBuffer)| <= 1
    ensures var s' := FillReturn(s, key, hooked, status, value);
            && Zeroed(s') && OthersKept(s, s', key, ReturnBuffer) && SameRetvals(s, s', key)
            && Chain(s', key, ReturnBuffer) == Filled(Chain(s, key, ReturnBuffer), hooked, status, value)
  {
    hide Chain, Find;
    if Find(s, key, ReturnBuffer).None? {
      FindNone(s, key, ReturnBuffer);
    } else {
      var i := Find(s, key, ReturnBuffer).value;
      FindSome(s, key, ReturnBuffer);
      var d := s[i].data;
      if d.Buff? && d.pos == 0 {
        var e := Entry(ReturnBuffer, key, Buff(ReturnBytes(|d.bytes|, hooked, status, value), |d.bytes|, d.typeName));
        ReplaceHead(s, key, ReturnBuffer, e.data);
        WriteKeepsRetvals(s, i, e, key);
        ZeroedWrite(s, i, e);
      }
    }
  }

  lemma DropUsedEffect(s: Slots, key: nat, fires: bool, slot: Option<nat>)
    requires Zeroed(s) && PickedSlot(s, key, fires, slot) && (fires ==> slot.Some?)
    ensures var s' := DropUsed(s, slot);
            && Zeroed(s') && OthersKept(s, s', key, Deferred)
            && (fires ==> Chain(s, key, Deferred) != [])
            && Chain(s', key, Deferred) == if fires then Chain(s, key, Deferred)[1..] else Chain(s, key, Deferred)
  {
    hide Chain, Find;
    if fires {
      ClearHead(s, key, Deferred);
      ZeroedWrite(s, slot.value, EMPTY);
    }
  }

  // ---------------------------------------------------------------------------------
  // The whole execution
  // ---------------------------------------------------------------------------------

  lemma FindIffChain(s: Slots, key: nat, kind: Kind)
    ensures Find(s, key, kind).Some? <==> Chain(s, key, kind) != []
  {
    if Find(s, key, kind).Some? {
      FindSome(s, key, kind);
    } else {
      FindNone(s, key, kind);
    }
  }

  // Up to the counting of the call.
  lemma ExecuteFront(s: Slots, key: nat, defaultRc: int)
    requires Zeroed(s) && Single(s)
    ensures var picked := PickRetval(Cleared(s, key, Context), key);
            var def, con := Chain(s, key, Deferred), Chain(s, key, Constant);
            var status := StatusOf(def, con, defaultRc);
            && Picked(def, con) == (match picked.0 case None => None case Some(i) => Some(ValueOf(picked.1[i].data)))
            && (Fires(def) ==> picked.0.Some?)
            && (CountCall(picked.1, key, status).Done? ==>
                  var s3 := CountCall(picked.1, key, status).s;
                  && Zeroed(s3) && Touches(s, s3, key, {Context, Deferred, Constant, Counter})
                  && Chain(s3, key, Context) == []
                  && Chain(s3, key, Deferred) == CountedDown(def)
                  && Chain(s3, key, Constant) == ConstantAfter(def, con)
                  && Chain(s3, key, Counter) == CounterAfter(Chain(s, key, Counter), status)
                  && PickedSlot(s3, key, Fires(def), picked.0))
  {
    hide Chain, Find, Single, Zeroed, Cleared, PickRetval, CountCall;
    hide Picked, Int32, ConstantAfter, CounterAfter, CountedDown;
    SingleAt(s, key);
    var s1 := Cleared(s, key, Context);
    ClearSingle(s, key, Context);
    ZeroedCleared(s, key, Context);
    PickRetvalEffect(s1, key);
    var status := StatusOf(Chain(s, key, Deferred), Chain(s, key, Constant), defaultRc);
    var s2 := PickRetval(s1, key).1;
    if CountCall(s2, key, status).Done? {
      CountCallEffect(s2, key, status);
    }
  }

  // From there on.
  lemma ExecuteBack(s: Slots, key: nat, fires: bool, slot: Option<nat>, hooked: bool, handled: bool,
                    staged: Option<seq<Byte>>, status: int, value: Option<int>)
    requires Zeroed(s) && |Chain(s, key, ReturnBuffer)| <= 1
    requires PickedSlot(s, key, fires, slot) && (fires ==> slot.Some?)
    requires Stage(s, key, handled, staged).Done?
    ensures var s' := DropUsed(FillReturn(Stage(s, key, handled, staged).s, key, hooked, status, value), slot);
            && Zeroed(s') && Touches(s, s', key, {Deferred, ReturnBuffer})
            && (fires ==> Chain(s, key, Deferred) != [])
            && Chain(s', key, Deferred) == (if fires then Chain(s, key, Deferred)[1..] else Chain(s, key, Deferred))
            && SizeOk(Chain(s, key, ReturnBuffer), if handled then staged else None)
            && Chain(s', key, ReturnBuffer)
               == Filled(Staged(Chain(s, key, ReturnBuffer), if handled then staged else None), hooked, status, value)
  {
    hide Chain, Find, Zeroed, Stage, FillReturn, DropUsed, Filled, SameRetvals;
    var s4 := Stage(s, key, handled, staged).s;
    StageEffect(s, key, handled, staged);
    var s5 := FillReturn(s4, key, hooked, status, value);
    FillReturnEffect(s4, key, hooked, status, value);
    RetvalsKept(s, s4, s5, key, fires, slot);
    DropUsedEffect(s5, key, fires, slot);
  }

  /** One execution, in terms of the chains of its key alone: nothing else in the table matters, and
      nothing else changes. */
  lemma ExecuteEffect(s: Slots, key: nat, defaultRc: int, script: Script)
    requires Zeroed(s) && Single(s) && Execute(s, key, defaultRc, script).Returned?
    ensures var s' := Execute(s, key, defaultRc, script).s;
            var def, con, cnt := Chain(s, key, Deferred), Chain(s, key, Constant), Chain(s, key, Counter);
            var hooked, handled := Chain(s, key, Hook) != [], Chain(s, key, Handler) != [];
            var status := StatusOf(def, con, defaultRc);
            var final := if hooked then script.hookReply else status;
            && Execute(s, key, defaultRc, script).status == final
            && Zeroed(s') && Touches(s, s', key, {Context, Deferred, Constant, Counter, ReturnBuffer})
            && Chain(s', key, Context) == []
            && Chain(s', key, Deferred) == DeferredAfter(def)
            && Chain(s', key, Constant) == ConstantAfter(def, con)
            && Chain(s', key, Counter) == CounterAfter(cnt, status)
            && SizeOk(Chain(s, key, ReturnBuffer), if handled then script.staged else None)
            && Chain(s', key, ReturnBuffer)
               == Filled(Staged(Chain(s, key, ReturnBuffer), if handled then script.staged else None),
                         hooked, final, Picked(def, con))
  {
    hide Chain, Find, Single, Zeroed, Cleared, PickRetval, CountCall, Stage, FillReturn, DropUsed;
    hide Picked, Int32, Filled, Staged, ConstantAfter, CounterAfter, PickedSlot, SizeOk;
    SingleAt(s, key);
    var def, con := Chain(s, key, Deferred), Chain(s, key, Constant);
    ExecuteFront(s, key, defaultRc);
    var picked, status := PickRetval(Cleared(s, key, Context), key), StatusOf(def, con, defaultRc);
    var s3 := CountCall(picked.1, key, status).s;
    FindIffChain(s3, key, Hook);
    FindIffChain(s3, key, Handler);
    var hooked, handled := Chain(s, key, Hook) != [], Chain(s, key, Handler) != [];
    ExecuteBack(s3, key, Fires(def), picked.0, hooked, handled, script.staged,
                if hooked then script.hookReply else status, Picked(def, con));
  }

  lemma RetvalsKept(s: Slots, s4: Slots, s5: Slots, key: nat, fires: bool, slot: Option<nat>)
    requires SameRetvals(s, s4, key) && SameRetvals(s4, s5, key)
    requires PickedSlot(s, key, fires, slot)
    ensures PickedSlot(s5, key, fires, slot)
  {
    hide Find;
  }

  lemma SingleAt(s: Slots, key: nat)
    requires Single(s)
    ensures forall kd :: SingleKind(kd) ==> |Chain(s, key, kd)| <= 1
  {
  }
}
