/** What each operation of the stub table does to the chains. */
module StubEffects {
  import opened StubTable
  import opened StubChains

  // An unused slot is entirely zero.
  ghost predicate Zeroed(s: Slots) {
    forall i :: 0 <= i < SLOTS && s[i].kind.Unused? ==> s[i] == EMPTY
  }

  lemma ZeroedWrite(s: Slots, i: nat, e: Entry)
    requires Zeroed(s) && i < SLOTS && (e.kind.Unused? ==> e == EMPTY)
    ensures Zeroed(s[i := e])
  {
  }

  predicate SingleKind(kind: Kind) {
    !kind.Unused? && !kind.DataBuffer? && !kind.Deferred?
  }

  // At most one entry per key of every kind but data buffers and deferred codes.
  ghost predicate Single(s: Slots) {
    forall k: nat, kd: Kind :: SingleKind(kd) ==> |Chain(s, k, kd)| <= 1
  }

  // Every chain except those of the given kinds of one key is kept.
  ghost predicate Touches(s: Slots, s': Slots, key: nat, kinds: set<Kind>) {
    forall k: nat, kd: Kind :: !kd.Unused? && (k != key || kd !in kinds) ==> Chain(s', k, kd) == Chain(s, k, kd)
  }

  lemma SingleAfter(s: Slots, s': Slots, key: nat, kinds: set<Kind>)
    requires Single(s) && Touches(s, s', key, kinds)
    requires forall kd :: kd in kinds && SingleKind(kd) ==> |Chain(s', key, kd)| <= 1
    ensures Single(s')
  {
    forall k: nat, kd: Kind | SingleKind(kd) ensures |Chain(s', k, kd)| <= 1 {
      if k != key || kd !in kinds {
        assert Chain(s', k, kd) == Chain(s, k, kd);
      }
    }
  }

  // A lookup is not affected by a write that has nothing to do with it.
  lemma FindStable(s: Slots, i: nat, e: Entry, key: nat, kind: Kind)
    requires i < SLOTS && !Matches(s[i], key, kind) && !Matches(e, key, kind)
    ensures Find(s[i := e], key, kind) == Find(s, key, kind)
    ensures Find(s, key, kind).Some? ==> s[i := e][Find(s, key, kind).value] == s[Find(s, key, kind).value]
  {
    FirstStable(s, i, e, key, kind, 0);
  }

  lemma {:induction false} FirstStable(s: Slots, i: nat, e: Entry, key: nat, kind: Kind, d: nat)
    requires i < SLOTS && d <= |s| && !Matches(s[i], key, kind) && !Matches(e, key, kind)
    ensures First(s[i := e], key, kind, d, |s|) == First(s, key, kind, d, |s|)
    decreases |s| - d
  {
    if d < |s| {
      FirstStable(s, i, e, key, kind, d + 1);
    }
  }

  lemma PutSingle(s: Slots, key: nat, kind: Kind, data: Data)
    requires Zeroed(s) && SingleKind(kind) && |Chain(s, key, kind)| <= 1 && Target(s, key, kind).Some?
    ensures var i := Target(s, key, kind).value;
            var s' := s[i := Entry(kind, key, data)];
            && s[i].data == (if Chain(s, key, kind) == [] then Zero else Chain(s, key, kind)[0])
            && (s[i].kind.Unused? || Matches(s[i], key, kind))
            && Chain(s', key, kind) == [data]
            && OthersKept(s, s', key, kind)
  {
    if Find(s, key, kind).Some? {
      ReplaceHead(s, key, kind, data);
    } else {
      FindNone(s, key, kind);
      InsertNew(s, key, kind, data);
    }
  }

  lemma ClearSingle(s: Slots, key: nat, kind: Kind)
    requires !kind.Unused?
    ensures Chain(Cleared(s, key, kind), key, kind)
         == if Chain(s, key, kind) == [] then [] else Chain(s, key, kind)[1..]
    ensures OthersKept(s, Cleared(s, key, kind), key, kind)
  {
    if Find(s, key, kind).Some? {
      ClearHead(s, key, kind);
    } else {
      FindNone(s, key, kind);
    }
  }

  lemma ZeroedCleared(s: Slots, key: nat, kind: Kind)
    requires Zeroed(s)
    ensures Zeroed(Cleared(s, key, kind))
  {
  }

  // ---------------------------------------------------------------------------------
  // Operations that change one chain
  // ---------------------------------------------------------------------------------

  lemma SetCallbackEffect(s: Slots, key: nat, kind: Kind, func: nat)
    requires Zeroed(s) && SingleKind(kind) && |Chain(s, key, kind)| <= 1
    requires SetCallback(s, key, kind, func).Done?
    ensures var s' := SetCallback(s, key, kind, func).s;
            && Zeroed(s')
            && Chain(s', key, kind) == (if func == 0 then [] else [Cb(func)])
            && OthersKept(s, s', key, kind)
  {
    if func == 0 {
      ClearSingle(s, key, kind);
      ZeroedCleared(s, key, kind);
    } else {
      PutSingle(s, key, kind, Cb(func));
      ZeroedWrite(s, Target(s, key, kind).value, Entry(kind, key, Cb(func)));
    }
  }

  lemma ConstantEffect(s: Slots, key: nat, bytes: seq<Byte>, counter: int)
    requires Zeroed(s) && |Chain(s, key, Constant)| <= 1 && counter <= 0
    requires Configure(s, key, bytes, counter).Done?
    ensures var s' := Configure(s, key, bytes, counter).s;
            var previous := if Chain(s, key, Constant) == [] then Zero else Chain(s, key, Constant)[0];
            && Zeroed(s')
            && Chain(s', key, Constant) == [Rvc(counter, Stored(previous, bytes))]
            && OthersKept(s, s', key, Constant)
  {
    var i := Target(s, key, Constant).value;
    PutSingle(s, key, Constant, Rvc(counter, Stored(s[i].data, bytes)));
  }

  // A value of no integer width leaves the constant as it was.
  lemma ConstantSet(s: Slots, key: nat, bytes: seq<Byte>, counter: int)
    requires Zeroed(s) && |Chain(s, key, Constant)| <= 1 && counter <= 0
    requires Configure(s, key, bytes, counter).Done?
    ensures var c, c' := Chain(s, key, Constant), Chain(Configure(s, key, bytes, counter).s, key, Constant);
            && |c'| == 1 && CounterOf(c'[0]) == counter
            && ValueOf(c'[0]) == if IntegerSize(|bytes|) then Decode(bytes) else if c == [] then 0 else ValueOf(c[0])
  {
    hide Chain, Find, Decode, IntegerSize;
    ConstantEffect(s, key, bytes, counter);
  }

  lemma DeferredEffect(s: Slots, key: nat, bytes: seq<Byte>, counter: int)
    requires Zeroed(s) && counter > 0 && Configure(s, key, bytes, counter).Done?
    ensures Place(s, key, Deferred) <= |Chain(s, key, Deferred)|
    ensures var s' := Configure(s, key, bytes, counter).s;
            && Zeroed(s')
            && Chain(s', key, Deferred)
               == Inserted(Chain(s, key, Deferred), Place(s, key, Deferred), Rvc(counter, Stored(Zero, bytes)))
            && OthersKept(s, s', key, Deferred)
  {
    InsertNew(s, key, Deferred, Rvc(counter, Stored(Zero, bytes)));
  }

  lemma SetDataEffect(s: Slots, key: nat, bytes: seq<Byte>)
    requires Zeroed(s) && bytes != [] && SetData(s, key, bytes).Done?
    ensures Place(s, key, DataBuffer) <= |Chain(s, key, DataBuffer)|
    ensures var s' := SetData(s, key, bytes).s;
            && Zeroed(s')
            && Chain(s', key, DataBuffer)
               == Inserted(Chain(s, key, DataBuffer), Place(s, key, DataBuffer), Buff(bytes, 0, ""))
            && OthersKept(s, s', key, DataBuffer)
  {
    InsertNew(s, key, DataBuffer, Buff(bytes, 0, ""));
  }

  // Reading takes from the head of the chain.
  function ReadOut(c: seq<Data>, max: nat): seq<Byte> {
    if c == [] then [] else Taken(c[0], max)
  }

  function ReadRest(c: seq<Data>, max: nat): seq<Data> {
    if c == [] then []
    else match Left(c[0], max)
      case None => c[1..]
      case Some(d) => [d] + c[1..]
  }

  lemma CopyToLocalEffect(s: Slots, key: nat, max: nat)
    requires Zeroed(s)
    ensures Zeroed(CopyToLocal(s, key, max).1)
    ensures OthersKept(s, CopyToLocal(s, key, max).1, key, DataBuffer)
    ensures CopyToLocal(s, key, max).0 == ReadOut(Chain(s, key, DataBuffer), max)
    ensures Chain(CopyToLocal(s, key, max).1, key, DataBuffer) == ReadRest(Chain(s, key, DataBuffer), max)
  {
    if Find(s, key, DataBuffer).None? {
      FindNone(s, key, DataBuffer);
    } else {
      var i := Find(s, key, DataBuffer).value;
      FindSome(s, key, DataBuffer);
      match Left(s[i].data, max)
      case None =>
        ClearHead(s, key, DataBuffer);
        ZeroedWrite(s, i, EMPTY);
      case Some(d) =>
        ReplaceHead(s, key, DataBuffer, d);
        ZeroedWrite(s, i, Entry(DataBuffer, key, d));
    }
  }

  lemma RegisterContextEffect(s: Slots, key: nat, arg: nat)
    requires Zeroed(s) && |Chain(s, key, Context)| <= 1 && RegisterContext(s, key, arg).Done?
    ensures var s' := RegisterContext(s, key, arg).s;
            var c := Chain(s, key, Context);
            var args := if c != [] && c[0].Ctx? then c[0].args else [];
            && Zeroed(s')
            && Chain(s', key, Context) == [Ctx(if |args| < MAX_ARGS then args + [arg] else args)]
            && OthersKept(s, s', key, Context)
  {
    var d := s[Target(s, key, Context).value].data;
    var args := if d.Ctx? then d.args else [];
    PutSingle(s, key, Context, Ctx(if |args| < MAX_ARGS then args + [arg] else args));
  }

  // Registering a return type leaves an unfilled buffer of that size and type, whatever was there.
  lemma RegisterReturnEffect(s: Slots, key: nat, size: nat, typeName: string)
    requires Zeroed(s) && |Chain(s, key, ReturnBuffer)| <= 1 && size > 0
    requires RegisterReturn(s, key, size, typeName).Done?
    ensures var s' := RegisterReturn(s, key, size, typeName).s;
            var c := Chain(s', key, ReturnBuffer);
            && Zeroed(s')
            && |c| == 1 && c[0].Buff? && |c[0].bytes| == size && c[0].pos == 0 && c[0].typeName == typeName
            && OthersKept(s, s', key, ReturnBuffer)
  {
    hide Chain, Find;
    var blank := Buff(Zeros(size), 0, typeName);
    if Find(s, key, ReturnBuffer).None? {
      FindNone(s, key, ReturnBuffer);
      InsertNew(s, key, ReturnBuffer, blank);
    } else {
      var i := Find(s, key, ReturnBuffer).value;
      FindSome(s, key, ReturnBuffer);
      if s[i].data.Buff? && |s[i].data.bytes| == size {
        ReplaceHead(s, key, ReturnBuffer, Buff(s[i].data.bytes, 0, typeName));
      } else {
        ClearHead(s, key, ReturnBuffer);
        InsertNew(s[i := EMPTY], key, ReturnBuffer, blank);
      }
    }
  }

  lemma CopyToReturnEffect(s: Slots, key: nat, bytes: seq<Byte>)
    requires Zeroed(s) && |Chain(s, key, ReturnBuffer)| <= 1 && CopyToReturn(s, key, bytes).Done?
    ensures var s' := CopyToReturn(s, key, bytes).s;
            var c := Chain(s, key, ReturnBuffer);
            && Zeroed(s')
            && (c == [] ==> s' == s)
            && (c != [] ==> c[0].Buff? && |c[0].bytes| == |bytes|
                            && Chain(s', key, ReturnBuffer) == [Buff(bytes, |bytes|, c[0].typeName)])
            && OthersKept(s, s', key, ReturnBuffer)
  {
    hide Find, Chain;
    if Find(s, key, ReturnBuffer).None? {
      FindNone(s, key, ReturnBuffer);
    } else {
      var d := s[Find(s, key, ReturnBuffer).value].data;
      ReplaceHead(s, key, ReturnBuffer, Buff(bytes, |bytes|, d.typeName));
    }
  }
}
