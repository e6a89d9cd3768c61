/**
 Default handlers that feed on the data buffers of the stub table: OS_ForEachObject and
 OS_ForEachObjectOfType (src/ut-stubs/osapi-idmap-handlers.c), and the message queues
 (src/ut-stubs/osapi-queue-handlers.c).
 */
module StubHandlers {
  import opened Common
  import opened Arithmetic
  import opened StubTable
  import opened StubChains
  import opened StubEffects
  import opened StubRuns
  import opened StubOrder
  import opened StubData
  import opened StubEngine

  // ---------------------------------------------------------------------------------
  // Reading IDs until the first short read
  // ---------------------------------------------------------------------------------

  // b cut into pieces of n bytes; a rest that is shorter is dropped.
  function Pieces(b: seq<Byte>, n: nat): seq<seq<Byte>>
    requires n > 0
    decreases |b|
  {
    if |b| < n then [] else [b[..n]] + Pieces(b[n..], n)
  }

  predicate Whole(d: Data, n: nat)
    requires n > 0
  {
    Unread(d) != [] && |Unread(d)| % n == 0
  }

  // The IDs that are passed to the callback: those of whole buffers, and of the first other buffer.
  function Delivered(c: seq<Data>, n: nat): seq<seq<Byte>>
    requires n > 0
  {
    if c == [] then []
    else Pieces(Unread(c[0]), n) + if Whole(c[0], n) then Delivered(c[1..], n) else []
  }

  // The buffers behind that one.
  function Behind(c: seq<Data>, n: nat): seq<Data>
    requires n > 0
  {
    if c == [] then [] else if Whole(c[0], n) then Behind(c[1..], n) else c[1..]
  }

  function Flat(ids: seq<seq<Byte>>): seq<Byte> {
    if ids == [] then [] else ids[0] + Flat(ids[1..])
  }

  lemma {:induction false} FlatAppend(a: seq<seq<Byte>>, b: seq<seq<Byte>>)
    ensures Flat(a + b) == Flat(a) + Flat(b)
    decreases a
  {
    if a == [] {
      assert a + b == b;
    } else {
      assert (a + b)[1..] == a[1..] + b;
      FlatAppend(a[1..], b);
    }
  }

  lemma {:induction false} PiecesExact(b: seq<Byte>, n: nat)
    requires n > 0
    ensures Flat(Pieces(b, n)) == b[..|b| - |b| % n]
    ensures forall k :: 0 <= k < |Pieces(b, n)| ==> |Pieces(b, n)[k]| == n
    decreases |b|
  {
    if |b| >= n {
      PiecesExact(b[n..], n);
      ModStep(|b|, n);
      var k := |b| - |b| % n;
      assert b[..n] + b[n..][..k - n] == b[..k];
    } else {
      assert |b| % n == |b| by { ModSmall(|b|, n); }
    }
  }

  lemma ModSmall(a: nat, n: nat)
    requires a < n
    ensures a % n == a
  {
  }

  lemma ModStep(a: nat, n: nat)
    requires 0 < n <= a
    ensures (a - n) % n == a % n && a % n <= a - n
  {
    var q, r := (a - n) / n, (a - n) % n;
    assert a == (q + 1) * n + r;
    DivModUnique(a, n, q + 1, r);
    assert q * n >= 0;
  }

  // A read that takes the first n bytes of a longer buffer leaves the others in the same buffer.
  lemma PartRead(d: Data, n: nat)
    requires 0 < n < |Unread(d)|
    ensures Left(d, n).Some? && Unread(Left(d, n).value) == Unread(d)[n..] && Taken(d, n) == Unread(d)[..n]
    ensures Whole(Left(d, n).value, n) == Whole(d, n)
  {
    ModStep(|Unread(d)|, n);
  }

  // A read that takes all of a buffer.
  lemma FullRead(d: Data, n: nat)
    requires 0 < n && |Unread(d)| <= n
    ensures Left(d, n).None? && Taken(d, n) == Unread(d)
    ensures Whole(d, n) <==> |Unread(d)| == n
    ensures Pieces(Unread(d), n) == if |Unread(d)| == n then [Unread(d)] else []
  {
    var u := Unread(d);
    if |u| == n {
      ModStep(n, n);
      ModSmall(0, n);
      assert u[n..] == [] && u[..n] == u;
    } else {
      ModSmall(|u|, n);
    }
  }

  lemma DeliverFull(c: seq<Data>, n: nat)
    requires n > 0 && c != [] && |Unread(c[0])| <= n
    ensures ReadOut(c, n) == Unread(c[0]) && ReadRest(c, n) == c[1..]
    ensures Delivered(c, n) == if |Unread(c[0])| == n then [Unread(c[0])] + Delivered(c[1..], n) else []
    ensures Behind(c, n) == if |Unread(c[0])| == n then Behind(c[1..], n) else c[1..]
  {
    FullRead(c[0], n);
    hide Unread, Taken, Left, Whole, Pieces;
  }

  lemma DeliverPart(c: seq<Data>, n: nat)
    requires n > 0 && c != [] && |Unread(c[0])| > n
    ensures |ReadOut(c, n)| == n && Delivered(c, n) == [ReadOut(c, n)] + Delivered(ReadRest(c, n), n)
    ensures Behind(c, n) == Behind(ReadRest(c, n), n)
  {
    PartRead(c[0], n);
    hide Unread, Taken, Left, Whole;
    var u, d := Unread(c[0]), Left(c[0], n).value;
    assert Pieces(u, n) == [u[..n]] + Pieces(Unread(d), n);
    hide Pieces;
    var rest, tail := [d] + c[1..], if Whole(d, n) then Delivered(c[1..], n) else [];
    assert rest[1..] == c[1..] && ReadRest(c, n) == rest;
    Regroup([u[..n]], Pieces(Unread(d), n), tail);
  }

  // One read: the next ID, or the end of the loop.
  lemma DeliverNext(c: seq<Data>, n: nat)
    requires n > 0
    ensures |ReadOut(c, n)| < n ==> Delivered(c, n) == [] && Behind(c, n) == ReadRest(c, n)
    ensures |ReadOut(c, n)| >= n ==> Delivered(c, n) == [ReadOut(c, n)] + Delivered(ReadRest(c, n), n)
    ensures |ReadOut(c, n)| >= n ==> Behind(c, n) == Behind(ReadRest(c, n), n)
  {
    if c != [] {
      if |Unread(c[0])| <= n {
        DeliverFull(c, n);
      } else {
        DeliverPart(c, n);
      }
      hide *;
    }
  }

  // UT_DefaultHandler_OS_ForEachObject; `ids` are the calls of the callback.
  method ForEachObject(table: Table, key: nat, idSize: nat) returns (ids: seq<seq<Byte>>)
    requires table.Valid() && idSize > 0
    modifies table`maxSearchLen, table.slots
    ensures table.Valid()
    ensures ids == Delivered(old(Chain(table.View(), key, DataBuffer)), idSize)
    ensures Chain(table.View(), key, DataBuffer) == Behind(old(Chain(table.View(), key, DataBuffer)), idSize)
    ensures OthersKept(old(table.View()), table.View(), key, DataBuffer)
  {
    hide Chain, Delivered, Behind, CopyToLocal, ReadOut, ReadRest, Pending;
    ghost var s0 := table.View();
    ghost var c := Chain(s0, key, DataBuffer);
    ids := [];
    while true
      invariant table.Valid() && c == Chain(table.View(), key, DataBuffer)
      invariant OthersKept(s0, table.View(), key, DataBuffer)
      invariant ids + Delivered(c, idSize) == Delivered(Chain(s0, key, DataBuffer), idSize)
      invariant Behind(c, idSize) == Behind(Chain(s0, key, DataBuffer), idSize)
      decreases |Pending(c)|
    {
      CopyToLocalEffect(table.View(), key, idSize);
      DeliverNext(c, idSize);
      PendingRead(c, idSize);
      var next := table.CopyToLocal(key, idSize);
      c := ReadRest(c, idSize);
      if |next| < idSize {
        break;
      }
      ids := ids + [next];
    }
  }

  // What the short read at the end takes, and nobody gets.
  function Lost(c: seq<Data>, n: nat): seq<Byte>
    requires n > 0
  {
    if c == [] then []
    else if Whole(c[0], n) then Lost(c[1..], n)
    else Unread(c[0])[|Unread(c[0])| - |Unread(c[0])| % n..]
  }

  lemma CutExact(d: Data, n: nat)
    requires n > 0
    ensures Whole(d, n) ==> Flat(Pieces(Unread(d), n)) == Unread(d)
    ensures var u := Unread(d); Flat(Pieces(u, n)) + u[|u| - |u| % n..] == u
  {
    var u := Unread(d);
    PiecesExact(u, n);
    hide Pieces, Unread;
    var k := |u| - |u| % n;
    assert u[..k] + u[k..] == u && u[..|u|] == u;
  }

  lemma DrainWhole(c: seq<Data>, n: nat)
    requires n > 0 && c != [] && Whole(c[0], n)
    ensures Delivered(c, n) == Pieces(Unread(c[0]), n) + Delivered(c[1..], n)
    ensures Lost(c, n) == Lost(c[1..], n) && Behind(c, n) == Behind(c[1..], n)
  {
    hide Whole, Unread, Pieces;
  }

  lemma DrainPart(c: seq<Data>, n: nat)
    requires n > 0 && c != [] && !Whole(c[0], n)
    ensures var u := Unread(c[0]);
            Delivered(c, n) == Pieces(u, n) && Lost(c, n) == u[|u| - |u| % n..] && Behind(c, n) == c[1..]
  {
    hide Whole, Unread, Pieces;
  }

  lemma PendingFirst(c: seq<Data>)
    requires c != []
    ensures Pending(c) == Unread(c[0]) + Pending(c[1..])
  {
    hide Unread;
  }

  lemma DrainFirst(c: seq<Data>, n: nat)
    requires n > 0 && c != []
    ensures Whole(c[0], n) ==>
              && Flat(Delivered(c, n)) == Unread(c[0]) + Flat(Delivered(c[1..], n))
              && Lost(c, n) == Lost(c[1..], n) && Behind(c, n) == Behind(c[1..], n)
    ensures !Whole(c[0], n) ==> Flat(Delivered(c, n)) + Lost(c, n) == Unread(c[0]) && Behind(c, n) == c[1..]
    ensures !Whole(c[0], n) ==> |Lost(c, n)| == |Unread(c[0])| % n
  {
    hide Whole, Unread, Pieces, Flat, Delivered, Lost, Behind;
    CutExact(c[0], n);
    if Whole(c[0], n) {
      DrainWhole(c, n);
      FlatAppend(Pieces(Unread(c[0]), n), Delivered(c[1..], n));
    } else {
      DrainPart(c, n);
    }
  }

  /** Every pending byte is part of an ID that is passed on, or of the short read, or still pending. */
  lemma {:induction false} DrainConserves(c: seq<Data>, n: nat)
    requires n > 0
    ensures Flat(Delivered(c, n)) + Lost(c, n) + Pending(Behind(c, n)) == Pending(c)
    ensures |Lost(c, n)| < n
  {
    if c != [] {
      DrainFirst(c, n);
      PendingFirst(c);
      hide Unread, Delivered, Lost, Behind, Pending, Flat;
      if Whole(c[0], n) {
        DrainConserves(c[1..], n);
        hide Whole;
        var u, f, l, p := Unread(c[0]), Flat(Delivered(c[1..], n)), Lost(c, n), Pending(Behind(c, n));
        assert u + f + l + p == u + (f + l + p);
      }
    }
  }

  lemma {:induction false} DeliveredAreIds(c: seq<Data>, n: nat, k: nat)
    requires n > 0 && k < |Delivered(c, n)|
    ensures |Delivered(c, n)[k]| == n
  {
    var pieces := Pieces(Unread(c[0]), n);
    PiecesExact(Unread(c[0]), n);
    if k >= |pieces| {
      DeliveredAreIds(c[1..], n, k - |pieces|);
    }
  }

  ghost predicate AllWhole(c: seq<Data>, n: nat)
    requires n > 0
  {
    forall j :: 0 <= j < |c| ==> Whole(c[j], n)
  }

  lemma {:induction false} LostExactly(c: seq<Data>, n: nat)
    requires n > 0 && forall j :: 0 <= j < |c| ==> Unread(c[j]) != []
    ensures AllWhole(c, n) ==> Lost(c, n) == [] && Behind(c, n) == []
    ensures !AllWhole(c, n) ==> Lost(c, n) != []
  {
    if c != [] {
      DrainFirst(c, n);
      LostExactly(c[1..], n);
      assert Unread(c[0]) != [];
      assert !Whole(c[0], n) ==> |Unread(c[0])| % n != 0;
      hide Whole, Lost, Behind, Unread, Delivered, Pending, Flat;
      assert AllWhole(c, n) <==> Whole(c[0], n) && AllWhole(c[1..], n) by {
        assert c == [c[0]] + c[1..];
      }
    }
  }

  /** The loop passes on everything that is pending exactly when every buffer holds a whole number of IDs. */
  lemma DrainsAllExactly(c: seq<Data>, n: nat)
    requires n > 0 && forall j :: 0 <= j < |c| ==> Unread(c[j]) != []
    ensures Flat(Delivered(c, n)) == Pending(c) <==> AllWhole(c, n)
  {
    DrainConserves(c, n);
    LostExactly(c, n);
    PendingNone();
    hide Delivered, Lost, Behind, Pending, Unread, AllWhole;
    var f, l, p := Flat(Delivered(c, n)), Lost(c, n), Pending(Behind(c, n));
    assert |f + l + p| == |f| + |l| + |p|;
    if AllWhole(c, n) {
      assert f + [] + [] == f;
    }
  }

  // ---------------------------------------------------------------------------------
  // Message queues
  // ---------------------------------------------------------------------------------

  const QUEUE_EMPTY: int := -8

  // UT_DefaultHandler_OS_QueuePut.  The key of the buffers is the queue's ID.
  method QueuePut(table: Table, status: int, queue: nat, data: seq<Byte>) returns (aborted: bool)
    requires table.Valid()
    modifies table`maxSearchLen, table.slots
    ensures table.Valid()
    ensures status != 0 ==> !aborted && table.View() == old(table.View())
    ensures status == 0 ==> (aborted <==> SetData(old(table.View()), queue, data).Abort?)
    ensures status == 0 && !aborted ==> Step(old(table.View()), Supply(queue, data)) == Done(table.View())
  {
    aborted := false;
    if status == 0 {
      aborted := table.SetDataBuffer(queue, data);
    }
  }

  // UT_DefaultHandler_OS_QueueGet.  A status that the test has set is returned as it is, without a message.
  method QueueGet(table: Table, func: nat, queue: nat, size: nat, isSet: bool)
    returns (data: seq<Byte>, status: Option<int>, aborted: bool)
    requires table.Valid()
    modifies table`maxSearchLen, table.slots
    ensures table.Valid()
    ensures isSet ==> data == [] && status.None? && !aborted && table.View() == old(table.View())
    ensures !isSet ==>
              var (out, s) := CopyToLocal(old(table.View()), queue, size);
              && data == out && status == Some(if out == [] then QUEUE_EMPTY else 0)
              && Step(old(table.View()), Read(queue, size)) == Done(s)
              && (aborted <==> CopyToReturn(s, func, Encode(status.value, 4)).Abort?)
              && (!aborted ==> Step(s, StageReturn(func, Encode(status.value, 4))) == Done(table.View()))
  {
    hide CopyToReturn, CopyToLocal, Encode;
    data, status, aborted := [], None, false;
    if !isSet {
      data := table.CopyToLocal(queue, size);
      status := Some(if data == [] then QUEUE_EMPTY else 0);
      aborted := table.CopyToReturnValue(func, Encode(status.value, 4));
    }
  }

  function Messages(c: seq<Data>): (r: seq<seq<Byte>>)
    ensures |r| == |c| && forall j :: 0 <= j < |c| ==> r[j] == Unread(c[j])
  {
    seq(|c|, j requires 0 <= j < |c| => Unread(c[j]))
  }

  // The messages put, since the last reset that covers the queue; those there at the start count as put.
  ghost function Puts(s: Slots, ops: seq<Op>, queue: nat): seq<seq<Byte>>
    decreases ops
  {
    if ops == [] then Messages(Chain(s, queue, DataBuffer)) else
    var op := ops[|ops| - 1];
    if Covers(op, queue) then []
    else Puts(s, ops[..|ops| - 1], queue) + if op.Supply? && op.key == queue && op.bytes != [] then [op.bytes] else []
  }

  // Gets that did not find the queue empty.
  function Gets(s: Slots, ops: seq<Op>, queue: nat): seq<seq<Byte>>
    requires Completes(s, ops)
    decreases ops
  {
    if ops == [] then [] else
    var prev, op := ops[..|ops| - 1], ops[|ops| - 1];
    var out := if op.Read? && op.key == queue then CopyToLocal(End(s, prev), queue, op.max).0 else [];
    if Covers(op, queue) then [] else Gets(s, prev, queue) + if out != [] then [out] else []
  }

  // Since that reset, messages are at most `size` bytes, and every get has room for that much.
  predicate Sized(ops: seq<Op>, queue: nat, size: nat)
    decreases ops
  {
    ops == [] ||
    (var prev, op := ops[..|ops| - 1], ops[|ops| - 1];
     || Covers(op, queue)
     || (&& Sized(prev, queue, size)
         && (op.key == queue ==> (op.Supply? ==> |op.bytes| <= size) && (op.Read? ==> op.max >= size))))
  }

  predicate Fits(c: seq<Data>, size: nat) {
    forall j :: 0 <= j < |c| ==> 0 < |Unread(c[j])| <= size
  }

  lemma MessagesInserted(c: seq<Data>, p: nat, d: Data)
    requires p <= |c|
    ensures Messages(Inserted(c, p, d)) == Inserted(Messages(c), p, Unread(d))
    ensures multiset(Messages(Inserted(c, p, d))) == multiset(Messages(c)) + multiset{Unread(d)}
  {
    hide Unread;
    var m := Messages(c);
    assert Messages(Inserted(c, p, d)) == m[..p] + [Unread(d)] + m[p..];
    assert m == m[..p] + m[p..];
  }

  lemma GetsWhole(c: seq<Data>, max: nat, size: nat)
    requires Fits(c, size) && size <= max
    ensures Fits(ReadRest(c, max), size)
    ensures if c == [] then ReadOut(c, max) == [] && ReadRest(c, max) == []
            else ReadOut(c, max) != [] && Messages(c) == [ReadOut(c, max)] + Messages(ReadRest(c, max))
  {
    if c != [] {
      assert |Unread(c[0])| <= size;
      assert Left(c[0], max).None? && Taken(c[0], max) == Unread(c[0]);
      hide Unread;
    }
  }

  lemma PutFits(t: Slots, queue: nat, bytes: seq<Byte>, size: nat)
    requires Zeroed(t) && SetData(t, queue, bytes).Done? && bytes != [] && |bytes| <= size
    requires Fits(Chain(t, queue, DataBuffer), size)
    ensures var c, c' := Chain(t, queue, DataBuffer), Chain(SetData(t, queue, bytes).s, queue, DataBuffer);
            && Fits(c', size)
            && multiset(Messages(c')) == multiset(Messages(c)) + multiset{bytes}
            && (NoGap(t, queue, DataBuffer) ==> Messages(c') == Messages(c) + [bytes])
  {
    hide Chain, Zeroed, NoGap, Place, SetData;
    SetDataEffect(t, queue, bytes);
    AddedLastExactly(t, queue, DataBuffer);
    var c, p, d := Chain(t, queue, DataBuffer), Place(t, queue, DataBuffer), Buff(bytes, 0, "");
    InsertedAt(c, p, d);
    assert Unread(d) == bytes;
    MessagesInserted(c, p, d);
    hide Unread;
    if NoGap(t, queue, DataBuffer) {
      assert Inserted(Messages(c), |c|, bytes) == Messages(c) + [bytes];
    }
  }

  ghost predicate Queued(s: Slots, ops: seq<Op>, queue: nat, size: nat)
    requires Completes(s, ops)
  {
    && Fits(Chain(End(s, ops), queue, DataBuffer), size)
    && Agree(Gets(s, ops, queue), Messages(Chain(End(s, ops), queue, DataBuffer)), Puts(s, ops, queue),
             SuppliedLast(s, ops, queue))
  }

  lemma RunLast(s: Slots, ops: seq<Op>, queue: nat)
    requires Completes(s, ops) && ops != [] && !Covers(ops[|ops| - 1], queue)
    ensures var prev, op := ops[..|ops| - 1], ops[|ops| - 1];
            && Completes(s, prev) && Step(End(s, prev), op) == Done(End(s, ops))
            && Puts(s, ops, queue)
               == (if op.Supply? && op.key == queue && op.bytes != [] then Puts(s, prev, queue) + [op.bytes]
                   else Puts(s, prev, queue))
            && (SuppliedLast(s, ops, queue) <==>
                  && SuppliedLast(s, prev, queue)
                  && (op.Supply? && op.key == queue && op.bytes != [] ==> NoGap(End(s, prev), queue, DataBuffer)))
    ensures var prev, op := ops[..|ops| - 1], ops[|ops| - 1];
            var out := if op.Read? && op.key == queue then CopyToLocal(End(s, prev), queue, op.max).0 else [];
            Gets(s, ops, queue) == if out != [] then Gets(s, prev, queue) + [out] else Gets(s, prev, queue)
  {
    hide Step, NoGap, CopyToLocal, Covers, Chain;
  }

  lemma QueuedReset(s: Slots, ops: seq<Op>, queue: nat, size: nat)
    requires Completes(s, ops) && ops != [] && Covers(ops[|ops| - 1], queue)
    ensures Queued(s, ops, queue, size)
  {
    hide Step, Covers, Chain;
    CoveredStep(End(s, ops[..|ops| - 1]), ops[|ops| - 1], queue);
  }

  lemma QueuedStep(s: Slots, ops: seq<Op>, queue: nat, size: nat)
    requires Zeroed(s) && Single(s) && Completes(s, ops) && ops != []
    requires !Covers(ops[|ops| - 1], queue) && Sized(ops, queue, size)
    requires Queued(s, ops[..|ops| - 1], queue, size)
    ensures Queued(s, ops, queue, size)
  {
    hide Chain, Zeroed, Single, NoGap, SetData, CopyToLocal, Messages, ReadOut, ReadRest, Step, Fits, Covers, Agree;
    var prev, op := ops[..|ops| - 1], ops[|ops| - 1];
    assert op.key == queue ==> (op.Supply? ==> |op.bytes| <= size) && (op.Read? ==> op.max >= size);
    RunLast(s, ops, queue);
    hide End, Completes, Gets, Puts, SuppliedLast, Sized;
    RunKeeps(s, prev);
    var t := End(s, prev);
    var c := Chain(t, queue, DataBuffer);
    var gets, puts, inOrder := Gets(s, prev, queue), Puts(s, prev, queue), SuppliedLast(s, prev, queue);
    StepIs(t, op);
    if op.Supply? && op.key == queue && op.bytes != [] {
      PutFits(t, queue, op.bytes, size);
      AgreeAdd(gets, Messages(c), Messages(Chain(End(s, ops), queue, DataBuffer)), puts, op.bytes, inOrder,
               NoGap(t, queue, DataBuffer));
    } else if op.Read? && op.key == queue {
      CopyToLocalEffect(t, queue, op.max);
      GetsWhole(c, op.max, size);
      if c != [] {
        AgreeTake(gets, ReadOut(c, op.max), Messages(ReadRest(c, op.max)), puts, inOrder);
      }
    } else {
      OtherStep(t, op, queue);
    }
  }

  /** In every run from any table in order, each message that was put since the last reset covering the queue
      is got exactly once and in one piece, or is still queued; and in the order of the puts, if no unused
      slot ever precedes a queued message. */
  lemma {:induction false} MessagesWhole(s: Slots, ops: seq<Op>, queue: nat, size: nat)
    requires Zeroed(s) && Single(s) && Completes(s, ops)
    requires Fits(Chain(s, queue, DataBuffer), size) && Sized(ops, queue, size)
    ensures Queued(s, ops, queue, size)
    decreases ops
  {
    hide Step, Chain, Covers, Zeroed, Single, Fits, Messages;
    if ops == [] {
      assert [] + Messages(Chain(s, queue, DataBuffer)) == Messages(Chain(s, queue, DataBuffer));
    } else if Covers(ops[|ops| - 1], queue) {
      QueuedReset(s, ops, queue, size);
    } else {
      MessagesWhole(s, ops[..|ops| - 1], queue, size);
      QueuedStep(s, ops, queue, size);
    }
  }
}
