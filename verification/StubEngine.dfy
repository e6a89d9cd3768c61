/**
 The stub table as the source keeps it: an array of 200 entries, searched by open addressing no
 further than the longest search since the last full reset.  Every operation is proved to act on
 the entries as the simple form in module StubTable does.
 */
module StubEngine {
  import opened Common
  import opened StubTable
  import opened StubChains
  import opened StubEffects
  import opened StubRuns

  // Every entry but the once-only ones lies within the recorded search length of its home.
  ghost predicate Bounded(s: Slots, max: nat) {
    forall i :: 0 <= i < SLOTS && !s[i].kind.Unused? && !s[i].kind.CallOnce? ==> DistOf(s[i].key, i) < max
  }

  lemma {:induction false} FirstPrefix(s: Slots, key: nat, kind: Kind, d: nat, max: nat)
    requires d <= max <= |s|
    ensures First(s, key, kind, d, max) < max ==> First(s, key, kind, d, |s|) == First(s, key, kind, d, max)
    ensures First(s, key, kind, d, max) == max ==> First(s, key, kind, d, |s|) >= max
    decreases max - d
  {
    if d < max {
      FirstPrefix(s, key, kind, d + 1, max);
    }
  }

  /** A search within the recorded length finds the same slot as a search of the whole table. */
  lemma BoundedSearchExact(s: Slots, max: nat, key: nat, kind: Kind)
    requires max <= |s| && Bounded(s, max) && !kind.Unused? && !kind.CallOnce?
    ensures var d := First(s, key, kind, 0, max);
            Find(s, key, kind) == if d < max then Some(SlotAt(key, d)) else None
  {
    FirstPrefix(s, key, kind, 0, max);
    var d := First(s, key, kind, 0, |s|);
    if d < |s| {
      assert DistOf(key, SlotAt(key, d)) == d;
    }
  }

  // The exemption is needed: in an empty table, a once-only entry is put beyond the recorded length.
  lemma OnceEntryBeyondBound() returns (s: Slots)
    ensures CallOnceOp(ALL_UNUSED, 1) == Done(s) && Bounded(s, 0) && Zeroed(s)
    ensures Find(s, 1, CallOnce).Some? && First(s, 1, CallOnce, 0, 0) == 0
  {
    s := ALL_UNUSED[0 := Entry(CallOnce, 1, Zero)];
    assert FirstUnused(ALL_UNUSED, 0) == 0 && Runs(ALL_UNUSED, 1);
    assert Matches(s[0], 1, CallOnce);
  }

  lemma ClearOneDeferred(s: Slots, key: nat)
    requires Find(s, key, Deferred).Some?
    ensures ClearDeferred(s[Find(s, key, Deferred).value := EMPTY], key) == ClearDeferred(s, key)
  {
    hide Find;
  }

  lemma NoDeferred(s: Slots, key: nat)
    requires Find(s, key, Deferred).None?
    ensures ClearDeferred(s, key) == s
  {
    hide Find;
  }

  class Table {
    var slots: array<Entry>
    var maxSearchLen: nat

    ghost predicate Valid()
      reads this, slots
    {
      && slots.Length == SLOTS && maxSearchLen <= SLOTS
      && Zeroed(slots[..]) && Bounded(slots[..], maxSearchLen)
    }

    ghost function View(): Slots
      requires slots.Length == SLOTS
      reads this, slots
    {
      slots[..]
    }

    constructor ()
      ensures Valid() && fresh(slots) && View() == ALL_UNUSED
    {
      slots := new Entry[SLOTS](_ => EMPTY);
      maxSearchLen := 0;
      new;
      assert slots[..] == ALL_UNUSED;
    }

    // The search loop of UT_GetStubEntry: how many entries it looks at, and the slot it stops at.
    method Probe(key: nat, kind: Kind, searchLimit: nat) returns (found: Option<nat>, searchLen: nat)
      requires slots.Length == SLOTS && searchLimit <= SLOTS
      ensures var d := First(View(), key, kind, 0, searchLimit);
              && found == (if d < searchLimit then Some(SlotAt(key, d)) else None)
              && searchLen == (if d < searchLimit then d + 1 else searchLimit)
    {
      hide Find;
      ghost var s := slots[..];
      var searchKey := if kind.Unused? then 0 else key;
      var idx := key % (SLOTS - 1);
      searchLen := 0;
      while searchLen < searchLimit
        invariant 0 <= searchLen <= searchLimit
        invariant searchLen < SLOTS ==> idx == SlotAt(key, searchLen)
        invariant First(s, key, kind, 0, searchLimit) == First(s, key, kind, searchLen, searchLimit)
      {
        searchLen := searchLen + 1;
        if slots[idx].kind == kind && slots[idx].key == searchKey {
          return Some(idx), searchLen;
        }
        idx := idx + 1;
        if idx >= SLOTS {
          idx := 0;
        }
      }
      found := None;
    }

    method GetStubEntry(key: nat, kind: Kind) returns (found: Option<nat>)
      requires Valid() && !kind.CallOnce?
      modifies this`maxSearchLen
      ensures Valid() && maxSearchLen >= old(maxSearchLen)
      ensures found == Find(View(), key, kind)
      ensures kind.Unused? && found.Some? ==> DistOf(key, found.value) < maxSearchLen
    {
      var searchLen;
      found, searchLen := Probe(key, kind, if kind.Unused? then SLOTS else maxSearchLen);
      if !kind.Unused? {
        BoundedSearchExact(slots[..], maxSearchLen, key, kind);
      }
      // Keep track of the longest search since the last full reset.
      if searchLen > maxSearchLen {
        maxSearchLen := searchLen;
      }
    }

    method Store(i: nat, e: Entry)
      requires Valid() && i < SLOTS && (e.kind.Unused? ==> e == EMPTY)
      requires e.kind.Unused? || e.kind.CallOnce? || DistOf(e.key, i) < maxSearchLen
      modifies slots
      ensures Valid() && View() == old(View())[i := e]
    {
      slots[i] := e;
      assert slots[..] == old(slots[..])[i := e];
      ZeroedWrite(old(slots[..]), i, e);
    }

    // The search for an existing entry, or else for an unused slot.
    method GetOrAllocate(key: nat, kind: Kind) returns (slot: Option<nat>)
      requires Valid() && !kind.Unused? && !kind.CallOnce?
      modifies this`maxSearchLen
      ensures Valid() && slot == Target(View(), key, kind)
      ensures slot.Some? ==> DistOf(key, slot.value) < maxSearchLen
    {
      slot := GetStubEntry(key, kind);
      if slot.None? {
        slot := GetStubEntry(key, Unused);
      }
    }

    method ResetState(key: nat)
      requires Valid()
      modifies this`maxSearchLen, slots
      ensures Valid() && View() == StubTable.ResetState(old(View()), key)
      ensures key == 0 ==> maxSearchLen == 0
      ensures key != 0 ==> maxSearchLen == old(maxSearchLen)
    {
      var i := 0;
      while i < SLOTS
        modifies slots
        invariant 0 <= i <= SLOTS && slots.Length == SLOTS
        invariant forall j :: 0 <= j < i ==>
              slots[j] == if key == 0 || old(slots[j]).key == key then EMPTY else old(slots[j])
        invariant forall j :: i <= j < SLOTS ==> slots[j] == old(slots[j])
      {
        if key == 0 || slots[i].key == key {
          slots[i] := EMPTY;
        }
        i := i + 1;
      }
      ghost var s := old(slots[..]);
      assert slots[..] == StubTable.ResetState(s, key);
      ResetZeroed(s, key);
      if key == 0 {
        maxSearchLen := 0;
      }
    }

    // UT_Stub_CallOnce.  `ran` says that the function was called.
    method CallOnce(key: nat) returns (ran: bool, aborted: bool)
      requires Valid()
      modifies slots
      ensures Valid() && (aborted <==> CallOnceOp(old(View()), key).Abort?)
      ensures !aborted ==> CallOnceOp(old(View()), key) == Done(View()) && (ran <==> Runs(old(View()), key))
    {
      ran, aborted := false, false;
      if key == 0 {
        return;
      }
      ghost var s := slots[..];
      var once: Option<nat> := None;
      var i := 0;
      while i < SLOTS
        invariant 0 <= i <= SLOTS
        invariant forall j :: 0 <= j < i ==> !Matches(s[j], key, StubTable.CallOnce)
        invariant once.None? ==> FirstUnused(s, 0) == FirstUnused(s, i)
        invariant once.Some? ==> once.value == FirstUnused(s, 0) < SLOTS
      {
        if slots[i].kind.Unused? && once.None? {
          once := Some(i);
        } else if slots[i].kind.CallOnce? && slots[i].key == key {
          return;
        }
        i := i + 1;
      }
      if once.None? {
        aborted := true;
      } else {
        Store(once.value, Entry(StubTable.CallOnce, key, Zero));
        ran := true;
      }
    }

    method ConfigureReturnValue(key: nat, bytes: seq<Byte>, counter: int) returns (aborted: bool)
      requires Valid()
      modifies this`maxSearchLen, slots
      ensures Valid() && (aborted <==> Configure(old(View()), key, bytes, counter).Abort?)
      ensures !aborted ==> Configure(old(View()), key, bytes, counter) == Done(View())
    {
      hide Find, Stored;
      var slot := GetStubEntry(key, Unused);
      slot := None;
      if counter <= 0 {
        slot := GetStubEntry(key, Constant);
      }
      if slot.None? {
        slot := GetStubEntry(key, Unused);
      }
      aborted := slot.None?;
      if !aborted {
        var d := if counter > 0 then Zero else slots[slot.value].data;
        Store(slot.value, Entry(if counter > 0 then Deferred else Constant, key, Rvc(counter, Stored(d, bytes))));
      }
    }

    method SetDeferredRetcode(key: nat, count: int, value: int) returns (aborted: bool)
      requires Valid()
      modifies this`maxSearchLen, slots
      ensures Valid() && (aborted <==> SetDeferred(old(View()), key, count, value).Abort?)
      ensures !aborted ==> SetDeferred(old(View()), key, count, value) == Done(View())
    {
      aborted := false;
      if count > 0 {
        aborted := ConfigureReturnValue(key, Encode(value, 8), count);
      }
    }

    method ClearEntry(key: nat, kind: Kind)
      requires Valid() && !kind.Unused? && !kind.CallOnce?
      modifies this`maxSearchLen, slots
      ensures Valid() && View() == Cleared(old(View()), key, kind)
    {
      var slot := GetStubEntry(key, kind);
      if slot.Some? {
        Store(slot.value, EMPTY);
      }
    }

    method SetCallback(key: nat, kind: Kind, func: nat) returns (aborted: bool)
      requires Valid() && kind in {Hook, Handler}
      modifies this`maxSearchLen, slots
      ensures Valid() && (aborted <==> StubTable.SetCallback(old(View()), key, kind, func).Abort?)
      ensures !aborted ==> StubTable.SetCallback(old(View()), key, kind, func) == Done(View())
    {
      hide Find;
      aborted := false;
      var slot := GetStubEntry(key, kind);
      if slot.None? && func != 0 {
        slot := GetStubEntry(key, Unused);
        aborted := slot.None?;
      }
      if slot.Some? {
        Store(slot.value, if func == 0 then EMPTY else Entry(kind, key, Cb(func)));
      }
    }

    method RegisterContext(key: nat, arg: nat) returns (aborted: bool)
      requires Valid()
      modifies this`maxSearchLen, slots
      ensures Valid() && (aborted <==> StubTable.RegisterContext(old(View()), key, arg).Abort?)
      ensures !aborted ==> StubTable.RegisterContext(old(View()), key, arg) == Done(View())
    {
      var slot := GetOrAllocate(key, Context);
      aborted := slot.None?;
      if !aborted {
        var d := slots[slot.value].data;
        var args := if d.Ctx? then d.args else [];
        if |args| < MAX_ARGS {
          args := args + [arg];
        }
        Store(slot.value, Entry(Context, key, Ctx(args)));
      }
    }

    method RegisterReturnType(key: nat, size: nat, typeName: string) returns (aborted: bool)
      requires Valid()
      modifies this`maxSearchLen, slots
      ensures Valid() && (aborted <==> RegisterReturn(old(View()), key, size, typeName).Abort?)
      ensures !aborted ==> RegisterReturn(old(View()), key, size, typeName) == Done(View())
    {
      aborted := false;
      if size == 0 {
        return;
      }
      var slot := GetStubEntry(key, ReturnBuffer);
      if slot.Some? && !(slots[slot.value].data.Buff? && |slots[slot.value].data.bytes| == size) {
        Store(slot.value, EMPTY);
        slot := None;
      }
      if slot.Some? {
        Store(slot.value, Entry(ReturnBuffer, key, Buff(slots[slot.value].data.bytes, 0, typeName)));
      } else {
        slot := GetStubEntry(key, Unused);
        aborted := slot.None?;
        if !aborted {
          Store(slot.value, Entry(ReturnBuffer, key, Buff(Zeros(size), 0, typeName)));
        }
      }
    }

    method CopyToReturnValue(key: nat, bytes: seq<Byte>) returns (aborted: bool)
      requires Valid()
      modifies this`maxSearchLen, slots
      ensures Valid() && (aborted <==> CopyToReturn(old(View()), key, bytes).Abort?)
      ensures !aborted ==> CopyToReturn(old(View()), key, bytes) == Done(View())
    {
      aborted := false;
      var slot := GetStubEntry(key, ReturnBuffer);
      if slot.Some? {
        var d := slots[slot.value].data;
        aborted := !d.Buff? || |d.bytes| != |bytes|;
        if !aborted {
          Store(slot.value, Entry(ReturnBuffer, key, Buff(bytes, |bytes|, d.typeName)));
        }
      }
    }

    method SetDataBuffer(key: nat, bytes: seq<Byte>) returns (aborted: bool)
      requires Valid()
      modifies this`maxSearchLen, slots
      ensures Valid() && (aborted <==> SetData(old(View()), key, bytes).Abort?)
      ensures !aborted ==> SetData(old(View()), key, bytes) == Done(View())
    {
      aborted := false;
      if bytes != [] {
        var slot := GetStubEntry(key, Unused);
        aborted := slot.None?;
        if !aborted {
          Store(slot.value, Entry(DataBuffer, key, Buff(bytes, 0, "")));
        }
      }
    }

    method CopyToLocal(key: nat, max: nat) returns (out: seq<Byte>)
      requires Valid()
      modifies this`maxSearchLen, slots
      ensures Valid() && (out, View()) == StubTable.CopyToLocal(old(View()), key, max)
    {
      out := [];
      var slot := GetStubEntry(key, DataBuffer);
      if slot.Some? {
        var d := slots[slot.value].data;
        out := Taken(d, max);
        if |Unread(d)| <= max || !d.Buff? {
          Store(slot.value, EMPTY);
        } else {
          Store(slot.value, Entry(DataBuffer, key, d.(pos := d.pos + max)));
        }
      }
    }

    method GetStubCount(key: nat) returns (count: nat)
      requires Valid()
      modifies this`maxSearchLen
      ensures Valid() && count == Count(View(), key)
    {
      var slot := GetStubEntry(key, Counter);
      count := if slot.Some? then CountOf(slots[slot.value].data) else 0;
    }

    // UT_Stub_FindRetvalConfig
    method FindRetvalConfig(key: nat) returns (slot: Option<nat>)
      requires Valid()
      modifies this`maxSearchLen, slots
      ensures Valid() && (slot, View()) == PickRetval(old(View()), key)
    {
      hide Find, PickConstant;
      slot := GetStubEntry(key, Deferred);
      if slot.Some? {
        var d := slots[slot.value].data;
        Store(slot.value, Entry(Deferred, key, Rvc(CounterOf(d) - 1, ValueOf(d))));
        if CounterOf(d) - 1 > 0 {
          slot := None;
        }
      }
      if slot.None? {
        slot := UseConstant(key);
      }
    }

    method UseConstant(key: nat) returns (slot: Option<nat>)
      requires Valid()
      modifies this`maxSearchLen, slots
      ensures Valid() && (slot, View()) == PickConstant(old(View()), key)
    {
      slot := GetStubEntry(key, Constant);
      if slot.Some? {
        var d := slots[slot.value].data;
        Store(slot.value, Entry(Constant, key, Rvc(CounterOf(d) + 1, ValueOf(d))));
      }
    }

    method CountCall(key: nat, status: int) returns (aborted: bool)
      requires Valid()
      modifies this`maxSearchLen, slots
      ensures Valid() && (aborted <==> StubTable.CountCall(old(View()), key, status).Abort?)
      ensures !aborted ==> StubTable.CountCall(old(View()), key, status) == Done(View())
    {
      var slot := GetOrAllocate(key, Counter);
      aborted := slot.None?;
      if !aborted {
        Store(slot.value, Entry(Counter, key, Rc((CountOf(slots[slot.value].data) + 1) % TWO_32, status)));
      }
    }

    method FillReturn(key: nat, hooked: bool, status: int, value: Option<int>)
      requires Valid()
      modifies this`maxSearchLen, slots
      ensures Valid() && View() == StubTable.FillReturn(old(View()), key, hooked, status, value)
    {
      var slot := GetStubEntry(key, ReturnBuffer);
      if slot.Some? {
        var d := slots[slot.value].data;
        if d.Buff? && d.pos == 0 {
          var size := |d.bytes|;
          var bytes: seq<Byte> := Zeros(size);
          if hooked && size == 4 {
            bytes := Encode(status, size);
          } else if value.Some? && IntegerSize(size) {
            bytes := Encode(value.value, size);
          }
          Store(slot.value, Entry(ReturnBuffer, key, Buff(bytes, size, d.typeName)));
        }
      }
    }

    // UT_DefaultStubImplWithArgs
    method DefaultStubImpl(key: nat, defaultRc: int, script: Script) returns (status: int, aborted: bool)
      requires Valid()
      modifies this`maxSearchLen, slots
      ensures Valid() && (aborted <==> Execute(old(View()), key, defaultRc, script).CallAborted?)
      ensures !aborted ==> Execute(old(View()), key, defaultRc, script) == Returned(View(), status)
    {
      hide Find, Cleared, PickRetval, StubTable.CountCall, StubTable.FillReturn, CopyToReturn, Int32, Zeroed, Bounded;
      ClearEntry(key, Context);
      var rvc := FindRetvalConfig(key);
      var value := if rvc.Some? then Some(ValueOf(slots[rvc.value].data)) else None;
      status := if value.Some? then Int32(value.value) else defaultRc;
      aborted := CountCall(key, status);
      if aborted {
        return;
      }
      var hook := GetStubEntry(key, Hook);
      if hook.Some? {
        status := script.hookReply;
      }
      var handler := GetStubEntry(key, Handler);
      if handler.Some? && script.staged.Some? {
        aborted := CopyToReturnValue(key, script.staged.value);
        if aborted {
          return;
        }
      }
      FillReturn(key, hook.Some?, status, value);
      if rvc.Some? && slots[rvc.value].kind.Deferred? {
        Store(rvc.value, EMPTY);
      }
    }

    method ExecuteBasicHandler(key: nat, defaultHandler: nat, script: Script) returns (status: int, aborted: bool)
      requires Valid()
      modifies this`maxSearchLen, slots
      ensures Valid() && (aborted <==> ExecuteBasic(old(View()), key, defaultHandler, script).CallAborted?)
      ensures !aborted ==> ExecuteBasic(old(View()), key, defaultHandler, script) == Returned(View(), status)
    {
      var handler := GetStubEntry(key, Handler);
      if handler.None? && defaultHandler != 0 {
        status := 0;
        aborted := SetCallback(key, Handler, defaultHandler);
        if aborted {
          return;
        }
      }
      status, aborted := DefaultStubImpl(key, 0, script);
    }

    // UT_ClearDeferredRetcode
    method ClearDeferredRetcode(key: nat)
      requires Valid()
      modifies this`maxSearchLen, slots
      ensures Valid() && View() == ClearDeferred(old(View()), key)
    {
      hide Find, Chain, ClearDeferred;
      ghost var s0 := slots[..];
      var slot := GetStubEntry(key, Deferred);
      while slot.Some?
        invariant Valid() && slot == Find(View(), key, Deferred)
        invariant ClearDeferred(View(), key) == ClearDeferred(s0, key)
        decreases |Chain(View(), key, Deferred)|
      {
        ClearHead(View(), key, Deferred);
        ClearOneDeferred(View(), key);
        Store(slot.value, EMPTY);
        slot := GetStubEntry(key, Deferred);
      }
      NoDeferred(View(), key);
    }

    // One operation of a run.
    method Perform(op: Op) returns (aborted: bool)
      requires Valid()
      modifies this`maxSearchLen, slots
      ensures Valid() && (aborted <==> Step(old(View()), op).Abort?)
      ensures !aborted ==> Step(old(View()), op) == Done(View())
    {
      hide StubTable.ResetState, CallOnceOp, Configure, SetDeferred, ClearDeferred, Cleared, StubTable.SetCallback;
      hide StubTable.RegisterContext, RegisterReturn, CopyToReturn, SetData, StubTable.CopyToLocal, Execute;
      hide Zeroed, Bounded, Runs;
      aborted := false;
      match op {
        case Reset(key) => ResetState(key);
        case Once(key) =>
          var ran;
          ran, aborted := CallOnce(key);
        case SetRetval(key, bytes, counter) => aborted := ConfigureReturnValue(key, bytes, counter);
        case SetDeferredRc(key, count, value) => aborted := SetDeferredRetcode(key, count, value);
        case ClearDeferredRc(key) => ClearDeferredRetcode(key);
        case ClearConstant(key) => ClearEntry(key, Constant);
        case SetFunc(key, handler, func) => aborted := SetCallback(key, FuncKind(handler), func);
        case AddContext(key, arg) => aborted := RegisterContext(key, arg);
        case AddReturn(key, size, typeName) => aborted := RegisterReturnType(key, size, typeName);
        case StageReturn(key, bytes) => aborted := CopyToReturnValue(key, bytes);
        case Supply(key, bytes) => aborted := SetDataBuffer(key, bytes);
        case Read(key, max) =>
          var out := CopyToLocal(key, max);
        case Call(key, rc, script) =>
          var status;
          status, aborted := DefaultStubImpl(key, rc, script);
      }
    }
  }

  lemma {:induction false} PrefixCompletes(s: Slots, ops: seq<Op>, i: nat)
    requires i <= |ops| && Completes(s, ops)
    ensures Completes(s, ops[..i])
    decreases |ops|
  {
    hide Step;
    if i == |ops| {
      assert ops[..i] == ops;
    } else {
      assert ops[..|ops| - 1][..i] == ops[..i];
      PrefixCompletes(s, ops[..|ops| - 1], i);
    }
  }

  lemma RunNext(s: Slots, ops: seq<Op>, i: nat)
    requires i < |ops| && Completes(s, ops[..i])
    ensures Completes(s, ops[..i + 1]) <==> Step(End(s, ops[..i]), ops[i]).Done?
    ensures Completes(s, ops[..i + 1]) ==> Step(End(s, ops[..i]), ops[i]) == Done(End(s, ops[..i + 1]))
  {
    hide Step;
    assert ops[..i + 1][..i] == ops[..i];
  }

  /** A whole run of the array with its bounded search is a run of the simple form: it is aborted exactly when
      that is, and otherwise ends with the same table. */
  method Replay(ops: seq<Op>) returns (table: Table, aborted: bool)
    ensures fresh(table) && table.Valid() && fresh(table.slots)
    ensures aborted <==> !Completes(ALL_UNUSED, ops)
    ensures !aborted ==> table.View() == End(ALL_UNUSED, ops)
  {
    hide Step;
    table := new Table();
    aborted := false;
    var i := 0;
    while i < |ops|
      invariant 0 <= i <= |ops| && table.Valid() && fresh(table) && fresh(table.slots)
      invariant Completes(ALL_UNUSED, ops[..i]) && table.View() == End(ALL_UNUSED, ops[..i])
    {
      RunNext(ALL_UNUSED, ops, i);
      aborted := table.Perform(ops[i]);
      if aborted {
        if Completes(ALL_UNUSED, ops) {
          PrefixCompletes(ALL_UNUSED, ops, i + 1);
        }
        return;
      }
      i := i + 1;
    }
    assert ops[..i] == ops;
  }

  /** Hence the counters of the array are exact after every run, and a once-only function is called exactly
      if it was not asked for since the last reset covering it. */
  method CountAfter(ops: seq<Op>, key: nat) returns (count: nat, ran: bool, aborted: bool)
    ensures aborted <==> !Completes(ALL_UNUSED, ops)
    ensures !aborted ==> count == Calls(ops, key) % TWO_32
    ensures !aborted && key != 0 && CallOnceOp(End(ALL_UNUSED, ops), key).Done? ==> (ran <==> !Registered(ops, key))
  {
    hide Step, Find, Runs, CallOnceOp;
    count, ran := 0, false;
    var table;
    table, aborted := Replay(ops);
    if !aborted {
      count := table.GetStubCount(key);
      CountExact(ops, key);
      var full;
      ran, full := table.CallOnce(key);
      if key != 0 {
        OnceExact(ops, key);
      }
    }
  }
}
