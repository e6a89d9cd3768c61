/** What a generated stub returns to its caller. */
module StubReturn {
  import opened Common
  import opened StubTable
  import opened StubChains
  import opened StubEffects
  import opened StubExecute
  import opened StubRuns
  import opened StubIntegers

  // The arguments are registered one by one.
  function RegisterAll(s: Slots, key: nat, args: seq<nat>): Outcome
    decreases args
  {
    if args == [] then Done(s)
    else
      match RegisterContext(s, key, args[0])
      case Abort => Abort
      case Done(s') => RegisterAll(s', key, args[1..])
  }

  // The body of a generated stub, up to the reading of the return buffer.
  function StubCall(s: Slots, key: nat, size: nat, typeName: string, args: seq<nat>,
                    defaultHandler: nat, script: Script): Called
  {
    match RegisterReturn(s, key, size, typeName)
    case Abort => CallAborted
    case Done(s1) =>
      match RegisterAll(s1, key, args)
      case Abort => CallAborted
      case Done(s2) => ExecuteBasic(s2, key, defaultHandler, script)
  }

  // UT_Stub_GetReturnValuePtr: the buffer, if its size and type are the expected ones.
  function GetReturn(s: Slots, key: nat, size: nat, typeName: string): Option<seq<Byte>> {
    match Find(s, key, ReturnBuffer)
    case None => None
    case Some(i) =>
      var d := s[i].data;
      if d.Buff? && d.pos == size && d.typeName == typeName then Some(d.bytes) else None
  }

  lemma {:induction false} RegisterAllEffect(s: Slots, key: nat, args: seq<nat>)
    requires Zeroed(s) && Single(s) && RegisterAll(s, key, args).Done?
    ensures Zeroed(RegisterAll(s, key, args).s) && Single(RegisterAll(s, key, args).s)
    ensures Touches(s, RegisterAll(s, key, args).s, key, {Context})
    decreases args
  {
    hide Chain, Zeroed, Single, RegisterContext;
    if args == [] {
      NothingTouched(s, key, {Context});
    } else {
      var op := AddContext(key, args[0]);
      StepTouches(s, op);
      RegisterAllEffect(Step(s, op).s, key, args[1..]);
    }
  }

  lemma RegisteredReturn(s: Slots, key: nat, size: nat, typeName: string, args: seq<nat>)
    returns (s2: Slots, previous: seq<Byte>)
    requires Zeroed(s) && Single(s) && size > 0 && RegisterReturn(s, key, size, typeName).Done?
    requires RegisterAll(RegisterReturn(s, key, size, typeName).s, key, args).Done?
    ensures s2 == RegisterAll(RegisterReturn(s, key, size, typeName).s, key, args).s
    ensures Zeroed(s2) && Single(s2) && Touches(s, s2, key, {Context, ReturnBuffer})
    ensures |previous| == size && Chain(s2, key, ReturnBuffer) == [Buff(previous, 0, typeName)]
  {
    hide Chain, Zeroed, Single, RegisterReturn, RegisterAll;
    SingleAt(s, key);
    RegisterReturnEffect(s, key, size, typeName);
    var s1 := RegisterReturn(s, key, size, typeName).s;
    TouchesOne(s, s1, key, ReturnBuffer);
    SingleAfter(s, s1, key, {ReturnBuffer});
    RegisterAllEffect(s1, key, args);
    s2 := RegisterAll(s1, key, args).s;
    previous := Chain(s1, key, ReturnBuffer)[0].bytes;
  }

  predicate Handled(s: Slots, key: nat, defaultHandler: nat) {
    Find(s, key, Handler).Some? || defaultHandler != 0
  }

  // With the handler in place, one execution fills the return buffer.
  lemma ExecuteFills(s: Slots, key: nat, defaultHandler: nat, script: Script, previous: seq<Byte>, typeName: string)
    requires Zeroed(s) && Single(s) && Chain(s, key, ReturnBuffer) == [Buff(previous, 0, typeName)] && previous != []
    requires ExecuteBasic(s, key, defaultHandler, script).Returned?
    ensures var s' := ExecuteBasic(s, key, defaultHandler, script).s;
            var def, con, hooked := Chain(s, key, Deferred), Chain(s, key, Constant), Chain(s, key, Hook) != [];
            var final := if hooked then script.hookReply else StatusOf(def, con, 0);
            var staged := Handled(s, key, defaultHandler) && script.staged.Some?;
            && (staged ==> |script.staged.value| == |previous|)
            && Chain(s', key, ReturnBuffer)
               == [Buff(if staged then script.staged.value
                        else ReturnBytes(|previous|, hooked, final, Picked(def, con)),
                        |previous|, typeName)]
  {
    hide Chain, Zeroed, Single, Execute, SetCallback, ReturnBytes, Picked, Int32, Find;
    FindIffChain(s, key, Handler);
    if Find(s, key, Handler).None? && defaultHandler != 0 {
      var op := SetFunc(key, true, defaultHandler);
      StepTouches(s, op);
      var s' := Step(s, op).s;
      SingleAt(s, key);
      SetCallbackEffect(s, key, Handler, defaultHandler);
      ExecuteEffect(s', key, 0, script);
    } else {
      ExecuteEffect(s, key, 0, script);
    }
  }

  /** A generated stub that returns has filled its return buffer completely, with a value of the
      expected size and type: the handler's; else the hook's code if the type is four bytes wide; else
      the configured integer, converted to the width of the type; else zeros. */
  lemma StubReturns(s: Slots, key: nat, size: nat, typeName: string, args: seq<nat>,
                    defaultHandler: nat, script: Script)
    requires Zeroed(s) && Single(s) && size > 0
    requires StubCall(s, key, size, typeName, args, defaultHandler, script).Returned?
    ensures var out := GetReturn(StubCall(s, key, size, typeName, args, defaultHandler, script).s, key, size, typeName);
            var value := Picked(Chain(s, key, Deferred), Chain(s, key, Constant));
            && out.Some? && |out.value| == size
            && (if Handled(s, key, defaultHandler) && script.staged.Some? then out.value == script.staged.value
                else if Chain(s, key, Hook) != [] && size == 4 then out.value == Encode(script.hookReply, 4)
                else if value.Some? && IntegerSize(size) then out.value == Encode(value.value, size)
                else forall i :: 0 <= i < size ==> out.value[i] == 0)
  {
    hide Chain, Zeroed, Single, ExecuteBasic, Picked, RegisterAll, RegisterReturn, Encode, Find;
    var s2, previous := RegisteredReturn(s, key, size, typeName, args);
    FindIffChain(s, key, Handler);
    FindIffChain(s2, key, Handler);
    ExecuteFills(s2, key, defaultHandler, script, previous, typeName);
    var s' := ExecuteBasic(s2, key, defaultHandler, script).s;
    FindIffChain(s', key, ReturnBuffer);
    FindSome(s', key, ReturnBuffer);
  }

  // For a value configured as bytes: the stub returns them cut off or sign-extended to its own width.
  lemma ConfiguredBytes(b: seq<Byte>, size: nat, i: nat)
    requires IntegerSize(|b|) && i < size
    ensures Encode(Stored(Zero, b), size)[i] == if i < |b| then b[i] else if b[|b| - 1] < 128 then 0 else 255
  {
    Resized(b, size, i);
  }
}
