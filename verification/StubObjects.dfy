/** Object IDs handed out by the stubs of the OSAL API (src/ut-stubs/utstub-helpers.c). */
module StubObjects {
  import opened Arithmetic
  import opened Bits
  import opened StubEngine
  import StubTable

  // ---------------------------------------------------------------------------------
  // Packing of an ID
  // ---------------------------------------------------------------------------------

  const MARK: nat := 0x4000

  predicate Marked(t: nat) {
    t / MARK % 2 == 1
  }

  // An ID is a 32-bit number: the index in the low half, and in the high half the type with the
  // marker bit of the stub IDs or'ed in.
  function Compose(index: nat, objType: nat): nat
    requires index < 0x1_0000
  {
    index + (if Marked(objType) then objType else objType + MARK) * 0x1_0000
  }

  function IndexOf(id: nat): nat {
    id % 0x1_0000
  }

  // The high half with the marker bit flipped.
  function TypeOf(id: nat): nat {
    var t := id / 0x1_0000;
    if Marked(t) then t - MARK else t + MARK
  }

  // The number of an ID: the index, the type from bit 16 on, and bit 30.
  lemma ComposeIs(index: nat, objType: nat)
    requires index < 0x1_0000 && objType < 0x4000
    ensures Compose(index, objType) == 0x4000_0000 + objType * 0x1_0000 + index
  {
  }

  /** An ID gives back the index and the type it was made from, if the type is below the marker bit. */
  lemma DecomposeCompose(index: nat, objType: nat)
    requires index < 0x1_0000
    ensures IndexOf(Compose(index, objType)) == index
    ensures TypeOf(Compose(index, objType)) == objType <==> !Marked(objType)
  {
    var high := if Marked(objType) then objType else objType + MARK;
    DivModUnique(Compose(index, objType), 0x1_0000, high, index);
  }

  /** Index and type give back the ID exactly when it carries the marker bit. */
  lemma ComposeDecompose(id: nat)
    ensures Compose(IndexOf(id), TypeOf(id)) == id <==> Marked(id / 0x1_0000)
  {
  }

  // ---------------------------------------------------------------------------------
  // What happened to the IDs of one type since the last clear
  // ---------------------------------------------------------------------------------

  // 8 * sizeof(ValidBits)
  const BITS: nat := 256

  datatype Event = Alloc | Delete(index: nat)

  function Allocs(es: seq<Event>): nat
    decreases es
  {
    if es == [] then 0 else Allocs(es[..|es| - 1]) + if es[|es| - 1].Alloc? then 1 else 0
  }

  // LastIssueNumber: it stops at the last bit.
  function Last(es: seq<Event>): nat {
    if Allocs(es) < BITS - 1 then Allocs(es) else BITS - 1
  }

  function Issue(es: seq<Event>): nat {
    Last(es + [Alloc])
  }

  function Live(es: seq<Event>): set<nat>
    decreases es
  {
    if es == [] then {} else
    var prev := es[..|es| - 1];
    match es[|es| - 1]
    case Alloc => Live(prev) + {Last(es)}
    case Delete(index) => Live(prev) - {index}
  }

  lemma After(es: seq<Event>, e: Event)
    ensures Allocs(es + [e]) == Allocs(es) + if e.Alloc? then 1 else 0
    ensures Live(es + [e]) == match e case Alloc => Live(es) + {Last(es + [e])} case Delete(index) => Live(es) - {index}
  {
    assert (es + [e])[..|es + [e]| - 1] == es;
  }

  lemma {:induction false} LiveWereIssued(es: seq<Event>, index: nat)
    requires index in Live(es)
    ensures 1 <= index <= Last(es)
    decreases es
  {
    if es != [] {
      var prev := es[..|es| - 1];
      if index in Live(prev) {
        LiveWereIssued(prev, index);
      }
    }
  }

  // Indices are issued from 1 on, one after the other, up to 255.
  lemma IssueIs(es: seq<Event>)
    ensures Issue(es) == if Allocs(es) + 1 < 255 then Allocs(es) + 1 else 255
  {
    After(es, Alloc);
  }

  /** The next index to be issued is live exactly when the numbers have run out and the last one was not
      deleted. */
  lemma ReissueExactly(es: seq<Event>)
    ensures Issue(es) in Live(es) <==> Allocs(es) >= BITS - 1 && BITS - 1 in Live(es)
  {
    After(es, Alloc);
    if Issue(es) in Live(es) {
      LiveWereIssued(es, Issue(es));
    }
  }

  lemma {:induction false} AllocsGrow(es: seq<Event>, a: nat, b: nat)
    requires a < b <= |es| && es[a].Alloc?
    ensures Allocs(es[..a]) < Allocs(es[..b])
    decreases b
  {
    assert es[..b][..b - 1] == es[..b - 1];
    if a < b - 1 {
      AllocsGrow(es, a, b - 1);
    }
  }

  /** The first 255 IDs of a type are pairwise distinct, whatever was deleted in between. */
  lemma FirstIdsDistinct(es: seq<Event>, a: nat, b: nat, objType: nat)
    requires a < b < |es| && es[a].Alloc? && es[b].Alloc? && Allocs(es[..b]) < BITS - 1
    ensures Compose(Issue(es[..a]), objType) != Compose(Issue(es[..b]), objType)
  {
    AllocsGrow(es, a, b);
    After(es[..a], Alloc);
    After(es[..b], Alloc);
    assert Issue(es[..a]) < Issue(es[..b]);
  }

  // ---------------------------------------------------------------------------------
  // UT_ObjState
  // ---------------------------------------------------------------------------------

  // OS_OBJECT_TYPE_USER
  const TYPES: nat := 0x10

  datatype TypeState = TypeState(last: nat, bits: seq<bv8>)

  const CLEARED := TypeState(0, seq(BITS / 8, _ => 0))

  // The bitmap is the set of live indices.
  ghost predicate Tracks(st: TypeState, es: seq<Event>) {
    && |st.bits| == BITS / 8 && st.last == Last(es)
    && forall i: nat :: i < BITS ==> (Bit(st.bits[i / 8], i % 8) <==> i in Live(es))
  }

  lemma TracksCleared()
    ensures Tracks(CLEARED, [])
  {
  }

  lemma TracksAlloc(st: TypeState, es: seq<Event>, i: nat)
    requires Tracks(st, es) && i == Issue(es)
    ensures i < BITS && Tracks(TypeState(i, st.bits[i / 8 := st.bits[i / 8] | Mask(i % 8)]), es + [Alloc])
  {
    After(es, Alloc);
    var bits := st.bits[i / 8 := st.bits[i / 8] | Mask(i % 8)];
    forall j: nat | j < BITS ensures Bit(bits[j / 8], j % 8) <==> j in Live(es + [Alloc]) {
      hide Mask, Bit;
      SetBit(st.bits[i / 8], i % 8, j % 8);
    }
  }

  lemma TracksDelete(st: TypeState, es: seq<Event>, i: nat)
    requires Tracks(st, es) && i < BITS
    ensures Tracks(st.(bits := st.bits[i / 8 := st.bits[i / 8] & !Mask(i % 8)]), es + [Delete(i)])
  {
    After(es, Delete(i));
    var bits := st.bits[i / 8 := st.bits[i / 8] & !Mask(i % 8)];
    forall j: nat | j < BITS ensures Bit(bits[j / 8], j % 8) <==> j in Live(es + [Delete(i)]) {
      hide Mask, Bit;
      ClearBit(st.bits[i / 8], i % 8, j % 8);
    }
  }

  lemma NothingDeleted(st: TypeState, es: seq<Event>, i: nat)
    requires Tracks(st, es) && i < BITS && !Bit(st.bits[i / 8], i % 8)
    ensures Tracks(st, es + [Delete(i)])
  {
    After(es, Delete(i));
  }

  // The histories after UT_Stub_CallOnce: they start again if the stub table was reset.
  ghost function Remembered(h: seq<seq<Event>>, slots: StubTable.Slots, clearFunc: nat): (r: seq<seq<Event>>)
    ensures |h| == TYPES ==> |r| == TYPES
  {
    if StubTable.Runs(slots, clearFunc) then seq(TYPES, _ => []) else h
  }

  class Objects {
    var state: array<TypeState>
    ghost var history: seq<seq<Event>>

    ghost predicate Valid()
      reads this, state
    {
      && state.Length == TYPES && |history| == TYPES
      && forall t :: 0 <= t < TYPES ==> Tracks(state[t], history[t])
    }

    constructor ()
      ensures Valid() && fresh(state) && history == seq(TYPES, _ => [])
    {
      state := new TypeState[TYPES](_ => CLEARED);
      history := seq(TYPES, _ => []);
      new;
      TracksCleared();
    }

    // UT_ClearAllStubObjects
    method ClearAll()
      requires Valid()
      modifies this, state
      ensures Valid() && state == old(state) && history == seq(TYPES, _ => [])
    {
      forall t | 0 <= t < TYPES {
        state[t] := CLEARED;
      }
      history := seq(TYPES, _ => []);
      TracksCleared();
    }

    // UT_Stub_CallOnce(UT_ClearAllStubObjects)
    method ClearOnce(table: Table, clearFunc: nat) returns (aborted: bool)
      requires Valid() && table.Valid()
      modifies this, state, table.slots
      ensures Valid() && table.Valid() && state == old(state)
      ensures aborted <==> StubTable.CallOnceOp(old(table.View()), clearFunc).Abort?
      ensures !aborted ==> history == Remembered(old(history), old(table.View()), clearFunc)
    {
      var ran;
      ran, aborted := table.CallOnce(clearFunc);
      if !aborted && ran {
        ClearAll();
      }
    }

    // UT_AllocStubObjId
    method AllocId(table: Table, clearFunc: nat, objType: nat) returns (id: nat, overlap: bool, aborted: bool)
      requires Valid() && table.Valid()
      modifies this, state, table.slots
      ensures Valid() && table.Valid() && state == old(state)
      ensures aborted <==> StubTable.CallOnceOp(old(table.View()), clearFunc).Abort? || !(0 < objType < TYPES)
      ensures !aborted ==>
                var h := Remembered(old(history), old(table.View()), clearFunc);
                && history == h[objType := h[objType] + [Alloc]]
                && id == Compose(Issue(h[objType]), objType)
                && (overlap <==> Issue(h[objType]) in Live(h[objType]))
    {
      hide Compose, Remembered, StubTable.CallOnceOp, Mask;
      id, overlap := 0, false;
      aborted := ClearOnce(table, clearFunc);
      if aborted || objType == 0 || objType >= TYPES {
        aborted := true;
        return;
      }
      var index;
      index, overlap := TakeIndex(objType);
      id := Compose(index, objType);
    }

    method TakeIndex(objType: nat) returns (index: nat, overlap: bool)
      requires Valid() && objType < TYPES
      modifies this`history, state
      ensures Valid() && history == old(history)[objType := old(history)[objType] + [Alloc]]
      ensures index == Issue(old(history)[objType])
      ensures overlap <==> index in Live(old(history)[objType])
    {
      hide Mask, Live;
      ghost var es := history[objType];
      After(es, Alloc);
      var st := state[objType];
      index := if st.last < BITS - 1 then st.last + 1 else st.last;
      overlap := st.bits[index / 8] & Mask(index % 8) != 0;
      assert overlap == Bit(st.bits[index / 8], index % 8);
      TracksAlloc(st, es, index);
      hide Tracks, Bit;
      state[objType] := TypeState(index, st.bits[index / 8 := st.bits[index / 8] | Mask(index % 8)]);
      history := history[objType := es + [Alloc]];
    }

    // UT_DeleteStubObjId.  A failed check is recorded, and the operation goes on.
    method DeleteId(table: Table, clearFunc: nat, objType: nat, id: nat)
      returns (wrongType: bool, unknown: bool, aborted: bool)
      requires Valid() && table.Valid() && objType < TYPES && IndexOf(id) < BITS
      modifies this, state, table.slots
      ensures Valid() && table.Valid() && state == old(state)
      ensures aborted <==> StubTable.CallOnceOp(old(table.View()), clearFunc).Abort?
      ensures !aborted ==>
                var h := Remembered(old(history), old(table.View()), clearFunc);
                && history == h[objType := h[objType] + [Delete(IndexOf(id))]]
                && (wrongType <==> TypeOf(id) != objType)
                && (unknown <==> IndexOf(id) !in Live(h[objType]))
    {
      hide IndexOf, TypeOf, Remembered, StubTable.CallOnceOp, Mask;
      wrongType, unknown := false, false;
      aborted := ClearOnce(table, clearFunc);
      if !aborted {
        wrongType := TypeOf(id) != objType;
        unknown := DropIndex(objType, IndexOf(id));
      }
    }

    method DropIndex(objType: nat, index: nat) returns (unknown: bool)
      requires Valid() && objType < TYPES && index < BITS
      modifies this`history, state
      ensures Valid() && history == old(history)[objType := old(history)[objType] + [Delete(index)]]
      ensures unknown <==> index !in Live(old(history)[objType])
    {
      hide Mask, Live;
      ghost var es := history[objType];
      var st := state[objType];
      unknown := st.bits[index / 8] & Mask(index % 8) == 0;
      assert unknown == !Bit(st.bits[index / 8], index % 8);
      TracksDelete(st, es, index);
      if !unknown {
        hide Tracks, Bit;
        state[objType] := st.(bits := st.bits[index / 8 := st.bits[index / 8] & !Mask(index % 8)]);
      } else {
        NothingDeleted(st, es, index);
      }
      history := history[objType := es + [Delete(index)]];
    }
  }
}
