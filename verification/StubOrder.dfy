/** In which order entries of one key and kind are found: exactly when that is the order of adding. */
module StubOrder {
  import opened Common
  import opened StubTable
  import opened StubChains
  import opened StubEffects
  import opened StubRuns

  // ---------------------------------------------------------------------------------
  // Which slots an operation may write
  // ---------------------------------------------------------------------------------

  predicate Mine(e: Entry, key: nat, kinds: set<Kind>) {
    e.kind.Unused? || (e.key == key && e.kind in kinds)
  }

  ghost predicate SlotChange(s: Slots, s': Slots, key: nat, kinds: set<Kind>) {
    forall i :: 0 <= i < SLOTS ==> s'[i] == s[i] || (Mine(s[i], key, kinds) && Mine(s'[i], key, kinds))
  }

  lemma WriteSlots(s: Slots, i: nat, e: Entry, key: nat, kinds: set<Kind>)
    requires i < SLOTS && Mine(s[i], key, kinds) && Mine(e, key, kinds)
    ensures SlotChange(s, s[i := e], key, kinds)
  {
  }

  lemma SlotTrans(s: Slots, s1: Slots, s2: Slots, key: nat, kinds1: set<Kind>, kinds2: set<Kind>, kinds: set<Kind>)
    requires SlotChange(s, s1, key, kinds1) && SlotChange(s1, s2, key, kinds2)
    requires kinds1 <= kinds && kinds2 <= kinds
    ensures SlotChange(s, s2, key, kinds)
  {
    forall i | 0 <= i < SLOTS ensures s2[i] == s[i] || (Mine(s[i], key, kinds) && Mine(s2[i], key, kinds)) {
    }
  }

  lemma PickSlots(s: Slots, key: nat)
    ensures SlotChange(s, PickRetval(s, key).1, key, {Deferred, Constant})
    ensures PickRetval(s, key).0.Some? ==>
              var e := PickRetval(s, key).1[PickRetval(s, key).0.value];
              e.key == key && e.kind in {Deferred, Constant}
  {
    hide Find;
  }

  lemma ReturnSlots(s: Slots, key: nat, handled: bool, staged: Option<seq<Byte>>,
                    hooked: bool, status: int, value: Option<int>)
    requires Stage(s, key, handled, staged).Done?
    ensures SlotChange(s, FillReturn(Stage(s, key, handled, staged).s, key, hooked, status, value), key, {ReturnBuffer})
  {
    hide Find, ReturnBytes;
    var s4 := Stage(s, key, handled, staged).s;
    assert SlotChange(s, s4, key, {ReturnBuffer});
    var s5 := FillReturn(s4, key, hooked, status, value);
    assert SlotChange(s4, s5, key, {ReturnBuffer});
    SlotTrans(s, s4, s5, key, {ReturnBuffer}, {ReturnBuffer}, {ReturnBuffer});
  }

  lemma ExecuteSlots(s: Slots, op: Op)
    requires op.Call? && Step(s, op).Done?
    ensures SlotChange(s, Step(s, op).s, op.key, KindsOf(op))
  {
    hide Find, PickRetval, CountCall, FillReturn, Stage, SlotChange, Int32, Cleared;
    var key, kinds := op.key, KindsOf(op);
    var s1 := Cleared(s, key, Context);
    ClearedSlots(s, key, Context);
    var picked := PickRetval(s1, key);
    PickSlots(s1, key);
    SlotTrans(s, s1, picked.1, key, {Context}, {Deferred, Constant}, kinds);
    var value := if picked.0.Some? then Some(ValueOf(picked.1[picked.0.value].data)) else None;
    var status := if value.Some? then Int32(value.value) else op.defaultRc;
    var s3 := CountCall(picked.1, key, status).s;
    CountSlots(picked.1, key, status);
    SlotTrans(s, picked.1, s3, key, kinds, {Counter}, kinds);
    var hooked, handled := Find(s3, key, Hook).Some?, Find(s3, key, Handler).Some?;
    var final := if hooked then op.script.hookReply else status;
    var s5 := FillReturn(Stage(s3, key, handled, op.script.staged).s, key, hooked, final, value);
    ReturnSlots(s3, key, handled, op.script.staged, hooked, final, value);
    SlotTrans(s, s3, s5, key, kinds, {ReturnBuffer}, kinds);
    if picked.0.Some? {
      SlotKept(picked.1, s3, picked.0.value, key, {Counter});
      SlotKept(s3, s5, picked.0.value, key, {ReturnBuffer});
      if s5[picked.0.value].kind.Deferred? {
        WriteSlots(s5, picked.0.value, EMPTY, key, kinds);
        SlotTrans(s, s5, s5[picked.0.value := EMPTY], key, kinds, kinds, kinds);
      }
    }
  }

  lemma ClearedSlots(s: Slots, key: nat, kind: Kind)
    ensures SlotChange(s, Cleared(s, key, kind), key, {kind})
  {
    hide Find;
  }

  lemma CountSlots(s: Slots, key: nat, status: int)
    requires CountCall(s, key, status).Done?
    ensures SlotChange(s, CountCall(s, key, status).s, key, {Counter})
  {
    hide Find;
  }

  lemma SlotKept(s: Slots, s': Slots, i: nat, key: nat, kinds: set<Kind>)
    requires SlotChange(s, s', key, kinds) && i < SLOTS && !Mine(s[i], key, kinds)
    ensures s'[i] == s[i]
  {
  }

  // Every operation writes only unused slots and slots of its own key and kinds.
  lemma StepSlots(s: Slots, op: Op)
    requires Step(s, op).Done? && !op.Reset?
    ensures SlotChange(s, Step(s, op).s, op.key, KindsOf(op))
  {
    hide Find, Encode, Stored, ReturnBytes, Zeros, Taken, Left;
    if op.Call? {
      hide Step, SlotChange;
      ExecuteSlots(s, op);
    } else if op.AddReturn? {
      hide SlotChange;
      ReturnTypeSlots(s, op.key, op.size, op.typeName);
    } else {
      hide Execute, RegisterReturn;
    }
  }

  lemma ReturnTypeSlots(s: Slots, key: nat, size: nat, typeName: string)
    requires RegisterReturn(s, key, size, typeName).Done?
    ensures SlotChange(s, RegisterReturn(s, key, size, typeName).s, key, {ReturnBuffer})
  {
    hide Find, Zeros;
  }

  // ---------------------------------------------------------------------------------
  // Appending
  // ---------------------------------------------------------------------------------

  // The probe distance of the first unused slot.
  function Gap(s: Slots, key: nat): nat {
    First(s, key, Unused, 0, |s|)
  }

  // No entry of the chain lies behind the first unused slot of its probe order.
  ghost predicate NoGap(s: Slots, key: nat, kind: Kind) {
    forall d :: Gap(s, key) <= d < SLOTS ==> !Matches(s[SlotAt(key, d)], key, kind)
  }

  lemma {:induction false} RangeNonEmpty(s: Slots, key: nat, kind: Kind, lo: nat, d: nat)
    requires lo <= d < SLOTS && Matches(s[SlotAt(key, d)], key, kind)
    ensures |Range(s, key, kind, lo, |s|)| >= 1
    decreases d - lo
  {
    if lo < d {
      RangeNonEmpty(s, key, kind, lo + 1, d);
    }
  }

  /** A new entry goes to the end of its chain, to be found last, exactly when no unused slot
      precedes an older entry in probe order. */
  lemma AddedLastExactly(s: Slots, key: nat, kind: Kind)
    requires !kind.Unused?
    ensures Place(s, key, kind) <= |Chain(s, key, kind)|
    ensures Place(s, key, kind) == |Chain(s, key, kind)| <==> NoGap(s, key, kind)
  {
    RangeSplit(s, key, kind, 0, Gap(s, key), |s|);
    if NoGap(s, key, kind) {
      RangeEmpty(s, key, kind, Gap(s, key), |s|);
    } else {
      var d :| Gap(s, key) <= d < SLOTS && Matches(s[SlotAt(key, d)], key, kind);
      RangeNonEmpty(s, key, kind, Gap(s, key), d);
    }
  }

  // ---------------------------------------------------------------------------------
  // Runs that clear nothing
  // ---------------------------------------------------------------------------------

  ghost predicate Grows(s: Slots, s': Slots) {
    forall i :: 0 <= i < SLOTS && !s[i].kind.Unused? ==> !s'[i].kind.Unused?
  }

  // The entry that an operation adds to the chains of data buffers and deferred codes, if any.
  function Adds(op: Op, key: nat, kind: Kind): seq<Data> {
    if op.key != key then []
    else if kind.DataBuffer? && op.Supply? && op.bytes != [] then [Buff(op.bytes, 0, "")]
    else if kind.Deferred? && op.SetRetval? && op.counter > 0 then [Rvc(op.counter, Stored(Zero, op.bytes))]
    else if kind.Deferred? && op.SetDeferredRc? && op.count > 0 then [Rvc(op.count, Decode(Encode(op.value, 8)))]
    else []
  }

  // The operation adds to the chain or leaves it alone.
  predicate OnlyAdds(op: Op, key: nat, kind: Kind) {
    !op.Reset? && (op.key != key || kind !in KindsOf(op) || op.Supply? || op.SetRetval? || op.SetDeferredRc?)
  }

  lemma AddStep(s: Slots, op: Op, key: nat, kind: Kind)
    requires kind in {DataBuffer, Deferred} && OnlyAdds(op, key, kind)
    requires Zeroed(s) && Single(s) && Step(s, op).Done? && NoGap(s, key, kind)
    ensures Chain(Step(s, op).s, key, kind) == Chain(s, key, kind) + Adds(op, key, kind)
  {
    hide Chain, Find, Zeroed, Single, NoGap, Place, Configure, SetData;
    if op.key != key || kind !in KindsOf(op) {
      hide Step;
      StepTouches(s, op);
    } else {
      AddedLastExactly(s, key, kind);
      match op
      case Supply(_, bytes) =>
        if bytes != [] {
          SetDataEffect(s, key, bytes);
        } else {
          SupplyOfNothing(s, key);
        }
      case SetRetval(_, bytes, counter) => DeferredEffect(s, key, bytes, counter);
      case SetDeferredRc(_, count, value) =>
        if count > 0 {
          DeferredEffect(s, key, Encode(value, 8), count);
        }
    }
  }

  lemma NoGapStep(s: Slots, op: Op, key: nat, kind: Kind)
    requires kind in {DataBuffer, Deferred} && OnlyAdds(op, key, kind) && Zeroed(s)
    requires Step(s, op).Done? && NoGap(s, key, kind) && Grows(s, Step(s, op).s)
    ensures NoGap(Step(s, op).s, key, kind)
  {
    hide Step, Find;
    var s' := Step(s, op).s;
    assert Gap(s, key) <= Gap(s', key) by { GapMoves(s, s', key); }
    forall d | Gap(s', key) <= d < SLOTS ensures !Matches(s'[SlotAt(key, d)], key, kind) {
      var i := SlotAt(key, d);
      if Matches(s'[i], key, kind) {
        AddSlot(s, op, key, kind, i);
      }
    }
  }

  lemma GapMoves(s: Slots, s': Slots, key: nat)
    requires Grows(s, s') && Zeroed(s)
    ensures Gap(s, key) <= Gap(s', key)
  {
    var g := Gap(s', key);
    if g < |s| {
      assert Matches(s'[SlotAt(key, g)], key, Unused);
      assert Matches(s[SlotAt(key, g)], key, Unused);
    }
  }

  // An entry of the chain was there before, or was put into the first unused slot.
  lemma AddSlot(s: Slots, op: Op, key: nat, kind: Kind, i: nat)
    requires kind in {DataBuffer, Deferred} && OnlyAdds(op, key, kind) && i < SLOTS
    requires Step(s, op).Done? && Matches(Step(s, op).s[i], key, kind)
    ensures Matches(s[i], key, kind) || DistOf(key, i) == Gap(s, key)
  {
    if op.key != key || kind !in KindsOf(op) {
      hide Step;
      StepSlots(s, op);
    } else {
      hide Stored, Encode;
      FindUnused(s, key);
      hide Find;
    }
  }

  lemma FindUnused(s: Slots, key: nat)
    ensures Find(s, key, Unused).Some? ==> DistOf(key, Find(s, key, Unused).value) == Gap(s, key)
  {
  }

  // Every step of the run satisfies its condition: nothing is cleared, and the chain is only added to.
  ghost predicate Adding(s: Slots, ops: seq<Op>, key: nat, kind: Kind)
    requires Completes(s, ops)
    decreases ops
  {
    ops == [] ||
    (var prev, op := ops[..|ops| - 1], ops[|ops| - 1];
     Adding(s, prev, key, kind) && OnlyAdds(op, key, kind) && Grows(End(s, prev), Step(End(s, prev), op).s))
  }

  function Added(ops: seq<Op>, key: nat, kind: Kind): seq<Data>
    decreases ops
  {
    if ops == [] then [] else Added(ops[..|ops| - 1], key, kind) + Adds(ops[|ops| - 1], key, kind)
  }

  /** As long as nothing is cleared, data buffers and deferred codes queue up in the order in which they
      are added, in the middle of any other operations. */
  lemma {:induction false} AddedInOrder(s: Slots, ops: seq<Op>, key: nat, kind: Kind)
    requires kind in {DataBuffer, Deferred} && Zeroed(s) && Single(s) && NoGap(s, key, kind)
    requires Completes(s, ops) && Adding(s, ops, key, kind)
    ensures Chain(End(s, ops), key, kind) == Chain(s, key, kind) + Added(ops, key, kind)
    ensures NoGap(End(s, ops), key, kind)
    decreases ops
  {
    hide Step, Chain, Zeroed, Single, NoGap, Grows, OnlyAdds, Adds;
    if ops != [] {
      var prev, op := ops[..|ops| - 1], ops[|ops| - 1];
      AddedInOrder(s, prev, key, kind);
      RunKeeps(s, prev);
      AddStep(End(s, prev), op, key, kind);
      NoGapStep(End(s, prev), op, key, kind);
    }
  }

  // ---------------------------------------------------------------------------------
  // What was added, what is left of it, and what was taken out
  // ---------------------------------------------------------------------------------

  lemma Regroup<T>(a: seq<T>, b: seq<T>, c: seq<T>)
    ensures a + b + c == a + (b + c)
  {
  }

  // Everything that was added was taken out or is left; and in the order of adding, if `inOrder`.
  ghost predicate Agree<T>(taken: seq<T>, left: seq<T>, added: seq<T>, inOrder: bool) {
    && multiset(taken) + multiset(left) == multiset(added)
    && (inOrder ==> taken + left == added)
  }

  lemma AgreeTake<T>(taken: seq<T>, x: T, left: seq<T>, added: seq<T>, inOrder: bool)
    requires Agree(taken, [x] + left, added, inOrder)
    ensures Agree(taken + [x], left, added, inOrder)
  {
    Regroup(taken, [x], left);
  }

  lemma AgreeAdd<T>(taken: seq<T>, left: seq<T>, left': seq<T>, added: seq<T>, x: T, inOrder: bool, last: bool)
    requires Agree(taken, left, added, inOrder) && multiset(left') == multiset(left) + multiset{x}
    requires last ==> left' == left + [x]
    ensures Agree(taken, left', added + [x], inOrder && last)
  {
    Regroup(taken, left, [x]);
  }

  // Entries carry the number of their addition; they are used as added while these numbers ascend.
  ghost predicate Ascending(tags: seq<nat>) {
    forall i, j :: 0 <= i < j < |tags| ==> tags[i] < tags[j]
  }

  lemma AscendingExactly(tags: seq<nat>, p: nat, n: nat)
    requires Ascending(tags) && p <= |tags| && forall i :: 0 <= i < |tags| ==> tags[i] < n
    ensures Ascending(Inserted(tags, p, n)) <==> p == |tags|
  {
    hide Inserted;
    InsertedAt(tags, p, n);
    var tags' := Inserted(tags, p, n);
    if p < |tags| {
      assert tags'[p] == n && tags'[p + 1] == tags[p];
    } else {
      forall i, j | 0 <= i < j < |tags'| ensures tags'[i] < tags'[j] {
      }
    }
  }
}
