/** Data buffers: what is supplied is delivered, once and completely. */
module StubData {
  import opened StubTable
  import opened StubChains
  import opened StubEffects
  import opened StubRuns
  import opened StubOrder

  // ---------------------------------------------------------------------------------
  // A ledger of the buffers of one key
  // ---------------------------------------------------------------------------------

  /** All buffers supplied so far, what was delivered of each, and which of them make up the chain. */
  datatype Ledger = Ledger(tags: seq<nat>, supplied: seq<seq<Byte>>, delivered: seq<seq<Byte>>)

  ghost function Entered(l: Ledger, p: nat, bytes: seq<Byte>): Ledger {
    if p > |l.tags| then l
    else Ledger(Inserted<nat>(l.tags, p, |l.supplied|), l.supplied + [bytes], l.delivered + [[]])
  }

  ghost function Paid(l: Ledger, out: seq<Byte>, finished: bool): Ledger {
    if l.tags == [] || l.tags[0] >= |l.delivered| then l
    else Ledger(if finished then l.tags[1..] else l.tags, l.supplied,
                l.delivered[l.tags[0] := l.delivered[l.tags[0]] + out])
  }

  // The buffers that are there at the start count as supplied.
  ghost function Opening(c: seq<Data>): Ledger {
    Ledger(seq(|c|, j => j), seq(|c|, j requires 0 <= j < |c| => Unread(c[j])), seq(|c|, _ => []))
  }

  // The ledger of a run, since its start or since the last reset that covers the key.
  ghost function Book(s: Slots, ops: seq<Op>, key: nat): Ledger
    requires Completes(s, ops)
    decreases ops
  {
    if ops == [] then Opening(Chain(s, key, DataBuffer)) else
    var prev, op := ops[..|ops| - 1], ops[|ops| - 1];
    var t, l := End(s, prev), Book(s, prev, key);
    if Covers(op, key) then Opening([])
    else if op.Supply? && op.key == key && op.bytes != [] then Entered(l, Place(t, key, DataBuffer), op.bytes)
    else if op.Read? && op.key == key then
      var (out, t') := CopyToLocal(t, key, op.max);
      Paid(l, out, |Chain(t', key, DataBuffer)| < |Chain(t, key, DataBuffer)|)
    else l
  }

  predicate Sound(d: Data) {
    d.Buff? && d.pos < |d.bytes|
  }

  ghost predicate Distinct(tags: seq<nat>) {
    forall i, j :: 0 <= i < j < |tags| ==> tags[i] != tags[j]
  }

  // What was delivered of a buffer, followed by what is still unread of it, is what was supplied.
  predicate Fair(d: Data, supplied: seq<Byte>, delivered: seq<Byte>) {
    Sound(d) && delivered + Unread(d) == supplied
  }

  /** Every buffer is accounted for: those in the chain are fair, and one that left the table was
      delivered in full. */
  ghost predicate Balanced(c: seq<Data>, l: Ledger) {
    && |l.tags| == |c| && |l.delivered| == |l.supplied| && Distinct(l.tags)
    && (forall j :: 0 <= j < |c| ==> l.tags[j] < |l.supplied|)
    && (forall j :: 0 <= j < |c| ==> Fair(c[j], l.supplied[l.tags[j]], l.delivered[l.tags[j]]))
    && (forall id :: 0 <= id < |l.supplied| && id !in l.tags ==> l.delivered[id] == l.supplied[id])
  }

  lemma InsertedDistinct(tags: seq<nat>, p: nat, id: nat)
    requires p <= |tags| && Distinct(tags) && id !in tags
    ensures Distinct(Inserted(tags, p, id))
  {
    hide Inserted;
    InsertedAt(tags, p, id);
    var tags' := Inserted(tags, p, id);
    forall i, j | 0 <= i < j < |tags'| ensures tags'[i] != tags'[j] {
    }
  }

  lemma FairSupply(c: seq<Data>, l: Ledger, p: nat, bytes: seq<Byte>, j: nat)
    requires Balanced(c, l) && p <= |c| && j <= |c| && Fair(Buff(bytes, 0, ""), bytes, [])
    ensures var c', l' := Inserted(c, p, Buff(bytes, 0, "")), Entered(l, p, bytes);
            && |c'| == |c| + 1 == |l'.tags| && |l'.supplied| == |l'.delivered| && l'.tags[j] < |l'.supplied|
            && Fair(c'[j], l'.supplied[l'.tags[j]], l'.delivered[l'.tags[j]])
  {
    hide Inserted, Fair;
    InsertedAt(c, p, Buff(bytes, 0, ""));
    InsertedAt<nat>(l.tags, p, |l.supplied|);
    if j != p {
      var k := if j < p then j else j - 1;
      assert Fair(c[k], l.supplied[l.tags[k]], l.delivered[l.tags[k]]);
    }
  }

  lemma FreshTag(c: seq<Data>, l: Ledger)
    requires Balanced(c, l)
    ensures Distinct(l.tags) && |l.supplied| !in l.tags
  {
    hide Fair;
  }

  lemma BalancedSupply(c: seq<Data>, l: Ledger, p: nat, bytes: seq<Byte>)
    requires Balanced(c, l) && p <= |c| && bytes != []
    ensures Balanced(Inserted(c, p, Buff(bytes, 0, "")), Entered(l, p, bytes))
  {
    FreshTag(c, l);
    hide Inserted, Fair, Distinct;
    FairNew(bytes);
    var c', l' := Inserted(c, p, Buff(bytes, 0, "")), Entered(l, p, bytes);
    InsertedDistinct(l.tags, p, |l.supplied|);
    FairSupply(c, l, p, bytes, 0);
    forall j | 0 <= j < |c'|
      ensures l'.tags[j] < |l'.supplied|
      ensures Fair(c'[j], l'.supplied[l'.tags[j]], l'.delivered[l'.tags[j]])
    {
      FairSupply(c, l, p, bytes, j);
    }
    forall other | 0 <= other < |l'.supplied| && other !in l'.tags ensures l'.delivered[other] == l'.supplied[other] {
      InsertedMembers<nat>(l.tags, p, |l.supplied|, other);
    }
  }

  lemma FairNew(bytes: seq<Byte>)
    requires bytes != []
    ensures Fair(Buff(bytes, 0, ""), bytes, [])
  {
    assert [] + Unread(Buff(bytes, 0, "")) == bytes;
  }

  lemma SliceSplit<T>(b: seq<T>, pos: nat, n: nat)
    requires pos + n <= |b|
    ensures b[pos..][..n] + b[pos + n..] == b[pos..]
  {
  }

  lemma TakenLeft(d: Data, max: nat)
    ensures Left(d, max).None? ==> Taken(d, max) == Unread(d)
    ensures Left(d, max).Some? ==> Sound(Left(d, max).value) && Taken(d, max) + Unread(Left(d, max).value) == Unread(d)
  {
    if Left(d, max).Some? {
      SliceSplit(d.bytes, d.pos, max);
    }
  }

  // Reading a fair buffer: it is used up and was delivered in full, or the rest of it is fair.
  lemma FairRead(d: Data, supplied: seq<Byte>, delivered: seq<Byte>, max: nat)
    requires Fair(d, supplied, delivered)
    ensures Left(d, max).None? ==> delivered + Taken(d, max) == supplied
    ensures Left(d, max).Some? ==> Fair(Left(d, max).value, supplied, delivered + Taken(d, max))
  {
    hide Taken, Left, Unread, Sound;
    TakenLeft(d, max);
    if Left(d, max).Some? {
      Regroup(delivered, Taken(d, max), Unread(Left(d, max).value));
    }
  }

  // The first buffer was delivered in full.
  lemma BalancedDone(c: seq<Data>, l: Ledger, more: seq<Byte>)
    requires Balanced(c, l) && c != [] && more == l.supplied[l.tags[0]]
    ensures Balanced(c[1..], Ledger(l.tags[1..], l.supplied, l.delivered[l.tags[0] := more]))
  {
    hide Fair;
    var id, l' := l.tags[0], Ledger(l.tags[1..], l.supplied, l.delivered[l.tags[0] := more]);
    forall j | 0 <= j < |c| - 1 ensures Fair(c[1..][j], l'.supplied[l'.tags[j]], l'.delivered[l'.tags[j]]) {
      assert l'.tags[j] == l.tags[j + 1] != id;
      assert Fair(c[j + 1], l.supplied[l.tags[j + 1]], l.delivered[l.tags[j + 1]]);
    }
    assert l.tags == [id] + l.tags[1..];
  }

  // Part of the first buffer was delivered.
  lemma BalancedPart(c: seq<Data>, l: Ledger, d: Data, more: seq<Byte>)
    requires Balanced(c, l) && c != [] && Fair(d, l.supplied[l.tags[0]], more)
    ensures Balanced([d] + c[1..], Ledger(l.tags, l.supplied, l.delivered[l.tags[0] := more]))
  {
    hide Fair;
    var id, c', l' := l.tags[0], [d] + c[1..], Ledger(l.tags, l.supplied, l.delivered[l.tags[0] := more]);
    forall j | 0 <= j < |c| ensures Fair(c'[j], l'.supplied[l'.tags[j]], l'.delivered[l'.tags[j]]) {
      if j > 0 {
        assert l.tags[j] != id && c'[j] == c[j];
        assert Fair(c[j], l.supplied[l.tags[j]], l.delivered[l.tags[j]]);
      }
    }
  }

  lemma ReadRestIs(c: seq<Data>, max: nat)
    requires c != []
    ensures Left(c[0], max).None? ==> ReadRest(c, max) == c[1..]
    ensures Left(c[0], max).Some? ==> ReadRest(c, max) == [Left(c[0], max).value] + c[1..]
  {
    hide Left;
  }

  lemma BalancedRead(c: seq<Data>, l: Ledger, max: nat)
    requires Balanced(c, l) && c != []
    ensures Balanced(ReadRest(c, max), Paid(l, ReadOut(c, max), |ReadRest(c, max)| < |c|))
  {
    var id := l.tags[0];
    assert Fair(c[0], l.supplied[id], l.delivered[id]) && id < |l.delivered|;
    hide Balanced, Taken, Left, Fair, ReadRest;
    FairRead(c[0], l.supplied[id], l.delivered[id], max);
    ReadRestIs(c, max);
    var more := l.delivered[id] + Taken(c[0], max);
    if Left(c[0], max).None? {
      BalancedDone(c, l, more);
    } else {
      BalancedPart(c, l, Left(c[0], max).value, more);
    }
  }

  lemma NothingRead(c: seq<Data>, l: Ledger, max: nat)
    requires Balanced(c, l) && c == []
    ensures ReadRest(c, max) == c && Paid(l, ReadOut(c, max), false) == l
  {
  }

  lemma SupplyStep(t: Slots, l: Ledger, key: nat, bytes: seq<Byte>)
    requires Zeroed(t) && bytes != [] && SetData(t, key, bytes).Done? && Balanced(Chain(t, key, DataBuffer), l)
    ensures Balanced(Chain(SetData(t, key, bytes).s, key, DataBuffer), Entered(l, Place(t, key, DataBuffer), bytes))
  {
    hide Chain, Zeroed, Balanced, Place, Entered, SetData, Inserted;
    SetDataEffect(t, key, bytes);
    BalancedSupply(Chain(t, key, DataBuffer), l, Place(t, key, DataBuffer), bytes);
  }

  lemma ReadStep(t: Slots, l: Ledger, key: nat, max: nat)
    requires Zeroed(t) && Balanced(Chain(t, key, DataBuffer), l)
    ensures var (out, t') := CopyToLocal(t, key, max);
            var c, c' := Chain(t, key, DataBuffer), Chain(t', key, DataBuffer);
            Balanced(c', Paid(l, out, |c'| < |c|))
  {
    hide Chain, Zeroed, Balanced, Paid, CopyToLocal, ReadOut, ReadRest;
    CopyToLocalEffect(t, key, max);
    var c := Chain(t, key, DataBuffer);
    if c == [] {
      NothingRead(c, l, max);
    } else {
      BalancedRead(c, l, max);
    }
  }

  lemma OtherStep(t: Slots, op: Op, key: nat)
    requires Zeroed(t) && Single(t) && Step(t, op).Done? && !Covers(op, key)
    requires op.key == key ==> !op.Read? && (op.Supply? ==> op.bytes == [])
    ensures Chain(Step(t, op).s, key, DataBuffer) == Chain(t, key, DataBuffer)
  {
    hide Step, Chain, Zeroed, Single, ResetState;
    StepIs(t, op);
    if op.Reset? {
      ResetEffect(t, op.key, key, DataBuffer);
    } else if op.Supply? && op.key == key {
      SupplyOfNothing(t, key);
    } else {
      StepTouches(t, op);
      assert op.key != key || DataBuffer !in KindsOf(op);
    }
  }

  lemma BalancedOpening(c: seq<Data>)
    requires forall j :: 0 <= j < |c| ==> Sound(c[j])
    ensures Balanced(c, Opening(c))
  {
    hide Unread, Sound;
    var l := Opening(c);
    forall j | 0 <= j < |c| ensures Fair(c[j], l.supplied[l.tags[j]], l.delivered[l.tags[j]]) {
      assert [] + Unread(c[j]) == Unread(c[j]);
    }
    forall id | 0 <= id < |l.supplied| ensures id in l.tags {
      assert l.tags[id] == id;
    }
  }

  lemma CoveredStep(t: Slots, op: Op, key: nat)
    requires Covers(op, key)
    ensures Step(t, op).Done? && Chain(Step(t, op).s, key, DataBuffer) == []
  {
    hide Chain, ResetState;
    StepIs(t, op);
    ResetEffect(t, op.key, key, DataBuffer);
  }

  lemma BookStep(s: Slots, ops: seq<Op>, key: nat)
    requires Zeroed(s) && Single(s) && Completes(s, ops) && ops != []
    requires Balanced(Chain(End(s, ops[..|ops| - 1]), key, DataBuffer), Book(s, ops[..|ops| - 1], key))
    ensures Balanced(Chain(End(s, ops), key, DataBuffer), Book(s, ops, key))
  {
    hide Chain, Zeroed, Single, Balanced, Place, Entered, Paid, CopyToLocal, SetData, Step, Opening, Covers;
    var prev, op := ops[..|ops| - 1], ops[|ops| - 1];
    var t, l := End(s, prev), Book(s, prev, key);
    RunKeeps(s, prev);
    StepIs(t, op);
    if Covers(op, key) {
      CoveredStep(t, op, key);
      BalancedOpening([]);
    } else if op.Supply? && op.key == key && op.bytes != [] {
      SupplyStep(t, l, key, op.bytes);
    } else if op.Read? && op.key == key {
      ReadStep(t, l, key, op.max);
    } else {
      OtherStep(t, op, key);
    }
  }

  /** Nothing is lost, doubled or mixed up, in any run from any table in order: each buffer supplied since the
      last reset covering the key is what was delivered of it followed by what is still to be read. */
  lemma {:induction false} BuffersConserved(s: Slots, ops: seq<Op>, key: nat)
    requires Zeroed(s) && Single(s) && Completes(s, ops)
    requires forall j :: 0 <= j < |Chain(s, key, DataBuffer)| ==> Sound(Chain(s, key, DataBuffer)[j])
    ensures Balanced(Chain(End(s, ops), key, DataBuffer), Book(s, ops, key))
    decreases ops
  {
    hide Step, Chain, Covers, Zeroed, Single, Sound, Balanced;
    if ops == [] {
      BalancedOpening(Chain(s, key, DataBuffer));
    } else {
      BuffersConserved(s, ops[..|ops| - 1], key);
      BookStep(s, ops, key);
    }
  }

  // In every state that a run of an empty table can reach, every buffer in the table has something to read.
  lemma BuffersUnread(ops: seq<Op>, key: nat, j: nat)
    requires Completes(ALL_UNUSED, ops) && j < |Chain(End(ALL_UNUSED, ops), key, DataBuffer)|
    ensures Unread(Chain(End(ALL_UNUSED, ops), key, DataBuffer)[j]) != []
  {
    hide Step, Chain, Completes, End, Book;
    StartKeeps();
    StartEmpty(key, DataBuffer);
    BuffersConserved(ALL_UNUSED, ops, key);
    assert Sound(Chain(End(ALL_UNUSED, ops), key, DataBuffer)[j]);
  }

  // ---------------------------------------------------------------------------------
  // First in, first out
  // ---------------------------------------------------------------------------------

  function Pending(c: seq<Data>): seq<Byte> {
    if c == [] then [] else Unread(c[0]) + Pending(c[1..])
  }

  // All bytes supplied for the key, and all bytes read for it, in order, since the last reset that covers
  // it.  What is there at the start of the run counts as supplied.
  ghost function SuppliedBytes(s: Slots, ops: seq<Op>, key: nat): seq<Byte>
    decreases ops
  {
    if ops == [] then Pending(Chain(s, key, DataBuffer)) else
    var op := ops[|ops| - 1];
    if Covers(op, key) then []
    else SuppliedBytes(s, ops[..|ops| - 1], key) + (if op.Supply? && op.key == key then op.bytes else [])
  }

  function ReadBytes(s: Slots, ops: seq<Op>, key: nat): seq<Byte>
    requires Completes(s, ops)
    decreases ops
  {
    if ops == [] then [] else
    var prev, op := ops[..|ops| - 1], ops[|ops| - 1];
    if Covers(op, key) then []
    else ReadBytes(s, prev, key) + (if op.Read? && op.key == key then CopyToLocal(End(s, prev), key, op.max).0 else [])
  }

  // Since that reset, every buffer is supplied when no unused slot precedes an older buffer of the key.
  ghost predicate SuppliedLast(s: Slots, ops: seq<Op>, key: nat)
    requires Completes(s, ops)
    decreases ops
  {
    ops == [] ||
    (var prev, op := ops[..|ops| - 1], ops[|ops| - 1];
     || Covers(op, key)
     || (&& SuppliedLast(s, prev, key)
         && (op.Supply? && op.key == key && op.bytes != [] ==> NoGap(End(s, prev), key, DataBuffer))))
  }

  lemma {:induction false} PendingAppend(c: seq<Data>, d: Data)
    ensures Pending(c + [d]) == Pending(c) + Unread(d)
    decreases c
  {
    hide Unread;
    if c == [] {
      assert Pending([d]) == Unread(d) + Pending([]);
    } else {
      assert (c + [d])[1..] == c[1..] + [d];
      PendingAppend(c[1..], d);
    }
  }

  lemma PendingRead(c: seq<Data>, max: nat)
    ensures ReadOut(c, max) + Pending(ReadRest(c, max)) == Pending(c)
  {
    if c != [] {
      hide Taken, Left, Unread, Sound;
      TakenLeft(c[0], max);
      if Left(c[0], max).Some? {
        var rest := Unread(Left(c[0], max).value);
        assert ReadRest(c, max)[1..] == c[1..];
        Regroup(Taken(c[0], max), rest, Pending(c[1..]));
      }
    }
  }

  /** A read delivers as much as it asks for, or all that is left of the first buffer; it delivers nothing only
      if it asks for nothing or nothing is there. */
  lemma ReadAmount(s: Slots, key: nat, max: nat)
    requires Zeroed(s)
    ensures var out, c := CopyToLocal(s, key, max).0, Chain(s, key, DataBuffer);
            && |out| == (if c == [] then 0 else if max < |Unread(c[0])| then max else |Unread(c[0])|)
            && out + Pending(Chain(CopyToLocal(s, key, max).1, key, DataBuffer)) == Pending(c)
  {
    hide Chain, Zeroed, CopyToLocal, Pending, Left;
    CopyToLocalEffect(s, key, max);
    PendingRead(Chain(s, key, DataBuffer), max);
  }

  lemma FifoSupply(t: Slots, key: nat, bytes: seq<Byte>)
    requires Zeroed(t) && SetData(t, key, bytes).Done? && (bytes != [] ==> NoGap(t, key, DataBuffer))
    ensures var c, c' := Chain(t, key, DataBuffer), Chain(SetData(t, key, bytes).s, key, DataBuffer);
            Pending(c') == Pending(c) + bytes
  {
    hide Chain, Zeroed, NoGap, Place;
    if bytes == [] {
      SupplyOfNothing(t, key);
    } else {
      hide SetData;
      SetDataEffect(t, key, bytes);
      AddedLastExactly(t, key, DataBuffer);
      var c := Chain(t, key, DataBuffer);
      var d := Buff(bytes, 0, "");
      assert Inserted(c, |c|, d) == c + [d];
      PendingAppend(c, d);
    }
  }

  /** Under that condition the buffers of a key are one queue of bytes: what was read, followed by what is
      still unread, is what was supplied, in the order of supply. */
  lemma {:induction false} FirstInFirstOut(s: Slots, ops: seq<Op>, key: nat)
    requires Zeroed(s) && Single(s) && Completes(s, ops) && SuppliedLast(s, ops, key)
    ensures ReadBytes(s, ops, key) + Pending(Chain(End(s, ops), key, DataBuffer)) == SuppliedBytes(s, ops, key)
    decreases ops
  {
    hide Step, Chain, Covers, Zeroed, Single, NoGap, SetData, CopyToLocal, ReadOut, ReadRest, Pending;
    if ops != [] {
      var prev, op := ops[..|ops| - 1], ops[|ops| - 1];
      RunKeeps(s, prev);
      var t := End(s, prev);
      var c := Chain(t, key, DataBuffer);
      StepIs(t, op);
      if Covers(op, key) {
        CoveredStep(t, op, key);
        PendingNone();
      } else {
        FirstInFirstOut(s, prev, key);
        if op.Supply? && op.key == key {
          FifoSupply(t, key, op.bytes);
          Regroup(ReadBytes(s, prev, key), Pending(c), op.bytes);
        } else if op.Read? && op.key == key {
          CopyToLocalEffect(t, key, op.max);
          PendingRead(c, op.max);
          Regroup(ReadBytes(s, prev, key), ReadOut(c, op.max), Pending(ReadRest(c, op.max)));
        } else {
          OtherStep(t, op, key);
        }
      }
    }
  }

  /** The documented order of use, per buffer: after every operation since the last reset covering the key,
      the buffers in the table are found in the order in which they were supplied. */
  ghost predicate UsedInOrder(s: Slots, ops: seq<Op>, key: nat)
    requires Completes(s, ops)
    decreases ops
  {
    && Ascending(Book(s, ops, key).tags)
    && (ops == [] || Covers(ops[|ops| - 1], key) || UsedInOrder(s, ops[..|ops| - 1], key))
  }

  lemma OpeningAscends(c: seq<Data>)
    ensures Ascending(Opening(c).tags)
  {
    hide Unread;
  }

  // What one operation does to the order of the buffers.
  lemma TagsStep(s: Slots, ops: seq<Op>, key: nat)
    requires Completes(s, ops) && ops != [] && !Covers(ops[|ops| - 1], key)
    requires var prev := ops[..|ops| - 1];
             Balanced(Chain(End(s, prev), key, DataBuffer), Book(s, prev, key)) && Ascending(Book(s, prev, key).tags)
    ensures var t, op := End(s, ops[..|ops| - 1]), ops[|ops| - 1];
            Ascending(Book(s, ops, key).tags) <==>
              (op.Supply? && op.key == key && op.bytes != [] ==> NoGap(t, key, DataBuffer))
  {
    hide Chain, NoGap, CopyToLocal, Step, Covers, Ascending, Entered, Paid, Place, Balanced;
    var prev, op := ops[..|ops| - 1], ops[|ops| - 1];
    var t, l := End(s, prev), Book(s, prev, key);
    if op.Supply? && op.key == key && op.bytes != [] {
      TagsSupply(t, l, key, op.bytes);
    } else if op.Read? && op.key == key {
      var (out, t') := CopyToLocal(t, key, op.max);
      TagsRead(l, out, |Chain(t', key, DataBuffer)| < |Chain(t, key, DataBuffer)|);
    }
  }

  lemma TagsSupply(t: Slots, l: Ledger, key: nat, bytes: seq<Byte>)
    requires Balanced(Chain(t, key, DataBuffer), l) && Ascending(l.tags)
    ensures Ascending(Entered(l, Place(t, key, DataBuffer), bytes).tags) <==> NoGap(t, key, DataBuffer)
  {
    hide Chain, NoGap, Place, Inserted, Ascending, Fair, Distinct;
    AddedLastExactly(t, key, DataBuffer);
    AscendingExactly(l.tags, Place(t, key, DataBuffer), |l.supplied|);
  }

  lemma TagsRead(l: Ledger, out: seq<Byte>, finished: bool)
    requires Ascending(l.tags)
    ensures Ascending(Paid(l, out, finished).tags)
  {
  }

  /** The exact condition: the buffers are used in the order of supply if and only if each of them is supplied
      when no unused slot precedes an older one. */
  lemma {:induction false} OrderExactly(s: Slots, ops: seq<Op>, key: nat)
    requires Zeroed(s) && Single(s) && Completes(s, ops)
    requires forall j :: 0 <= j < |Chain(s, key, DataBuffer)| ==> Sound(Chain(s, key, DataBuffer)[j])
    ensures UsedInOrder(s, ops, key) <==> SuppliedLast(s, ops, key)
    decreases ops
  {
    hide Step, Chain, Covers, Zeroed, Single, Sound, Balanced, Ascending, NoGap, Opening, Entered, Paid;
    if ops == [] {
      OpeningAscends(Chain(s, key, DataBuffer));
    } else if Covers(ops[|ops| - 1], key) {
      OpeningAscends([]);
    } else {
      var prev := ops[..|ops| - 1];
      OrderExactly(s, prev, key);
      BuffersConserved(s, prev, key);
      if UsedInOrder(s, prev, key) {
        TagsStep(s, ops, key);
      }
    }
  }

  lemma PendingNone()
    ensures Pending([]) == []
  {
  }

  lemma RunOne(s: Slots, ops: seq<Op>, op: Op)
    requires Completes(s, ops) && Step(End(s, ops), op).Done? && !op.Reset?
    ensures Completes(s, ops + [op]) && End(s, ops + [op]) == Step(End(s, ops), op).s
    ensures ReadBytes(s, ops + [op], op.key)
         == ReadBytes(s, ops, op.key) + (if op.Read? then CopyToLocal(End(s, ops), op.key, op.max).0 else [])
  {
    hide Step, CopyToLocal;
    assert (ops + [op])[..|ops + [op]| - 1] == ops;
  }

  // Key 1 has its home at slot 1.
  function BufferAt(s: Slots, i: nat, b: Byte): Slots
    requires i < SLOTS
  {
    s[i := Entry(DataBuffer, 1, Buff([b], 0, ""))]
  }

  lemma SupplyFirst(s: Slots, b: Byte)
    requires s[1] == EMPTY
    ensures Step(s, Supply(1, [b])) == Done(BufferAt(s, 1, b))
  {
    assert SlotAt(1, 0) == 1;
    assert First(s, 1, Unused, 0, |s|) == 0;
  }

  lemma SupplySecond(s: Slots, b: Byte)
    requires !s[1].kind.Unused? && s[2] == EMPTY
    ensures Step(s, Supply(1, [b])) == Done(BufferAt(s, 2, b))
  {
    assert SlotAt(1, 0) == 1 && SlotAt(1, 1) == 2;
    assert First(s, 1, Unused, 0, |s|) == 1;
  }

  lemma ReadFirst(s: Slots, b: Byte)
    requires s[1] == Entry(DataBuffer, 1, Buff([b], 0, ""))
    ensures Step(s, Read(1, 1)) == Done(s[1 := EMPTY]) && CopyToLocal(s, 1, 1).0 == [b]
  {
    assert SlotAt(1, 0) == 1;
    assert First(s, 1, DataBuffer, 0, |s|) == 0;
  }

  /** The documented order of use does not hold without the condition: two buffers, the first one is read,
      a third one is supplied - and read before the second. */
  lemma ThirdBeforeSecond()
    ensures var ops := [Supply(1, [10]), Supply(1, [11]), Read(1, 1), Supply(1, [12]), Read(1, 1)];
            && Completes(ALL_UNUSED, ops)
            && SuppliedBytes(ALL_UNUSED, ops, 1) == [10, 11, 12]
            && ReadBytes(ALL_UNUSED, ops, 1) == [10, 12]
  {
    hide Step, CopyToLocal;
    var s0, a, b, c, r := ALL_UNUSED, Supply(1, [10]), Supply(1, [11]), Supply(1, [12]), Read(1, 1);
    SupplyFirst(s0, 10);
    var s1 := BufferAt(s0, 1, 10);
    RunOne(s0, [], a);
    assert [] + [a] == [a];
    SupplySecond(s1, 11);
    var s2 := BufferAt(s1, 2, 11);
    RunOne(s0, [a], b);
    assert [a] + [b] == [a, b];
    ReadFirst(s2, 10);
    var s3 := s2[1 := EMPTY];
    RunOne(s0, [a, b], r);
    assert [a, b] + [r] == [a, b, r];
    SupplyFirst(s3, 12);
    var s4 := BufferAt(s3, 1, 12);
    RunOne(s0, [a, b, r], c);
    assert [a, b, r] + [c] == [a, b, r, c];
    ReadFirst(s4, 12);
    RunOne(s0, [a, b, r, c], r);
    assert [a, b, r, c] + [r] == [a, b, r, c, r];
    SuppliedThree();
  }

  lemma SuppliedThree()
    ensures var ops := [Supply(1, [10]), Supply(1, [11]), Read(1, 1), Supply(1, [12]), Read(1, 1)];
            SuppliedBytes(ALL_UNUSED, ops, 1) == [10, 11, 12]
  {
    hide SuppliedBytes, Chain;
    var a, b, c, r := Supply(1, [10]), Supply(1, [11]), Supply(1, [12]), Read(1, 1);
    SuppliedNone();
    SuppliedSnoc([], a);
    SuppliedSnoc([a], b);
    SuppliedSnoc([a, b], r);
    SuppliedSnoc([a, b, r], c);
    SuppliedSnoc([a, b, r, c], r);
    assert [a, b, r, c] + [r] == [a, b, r, c, r] && [a, b, r] + [c] == [a, b, r, c];
    assert [a, b] + [r] == [a, b, r] && [a] + [b] == [a, b] && [] + [a] == [a];
  }

  lemma SuppliedNone()
    ensures SuppliedBytes(ALL_UNUSED, [], 1) == []
  {
    StartEmpty(1, DataBuffer);
    hide Chain;
  }

  lemma SuppliedSnoc(ops: seq<Op>, op: Op)
    requires !op.Reset?
    ensures SuppliedBytes(ALL_UNUSED, ops + [op], 1)
         == SuppliedBytes(ALL_UNUSED, ops, 1) + (if op.Supply? && op.key == 1 then op.bytes else [])
  {
    hide Chain;
    assert (ops + [op])[..|ops + [op]| - 1] == ops;
  }
}
