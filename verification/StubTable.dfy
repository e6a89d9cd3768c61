/**
 The stub table of UT assert (ut_assert/src/utstubs.c), in its simple form: a table of 200
 entries that every lookup scans in full, in probe order.  The bounded search of the source,
 and its high-water mark, are in module StubEngine, which is proved against this module.
 */
module StubTable {
  import opened Common

  // UT_MAX_FUNC_STUBS
  const SLOTS: nat := 200

  // UT_STUBCONTEXT_MAXSIZE
  const MAX_ARGS: nat := 8

  datatype Kind =
    | Unused | Counter | DataBuffer | Hook | Context | CallOnce | Handler | ReturnBuffer | Deferred | Constant

  type Byte = b: int | 0 <= b < 256

  // UT_EntryData_t.  Zero is the union as memset() leaves it.
  datatype Data =
    | Zero
    | Rc(count: nat, status: int)
    | Rvc(counter: int, value: int)
    | Buff(bytes: seq<Byte>, pos: nat, typeName: string)
    | Cb(func: nat)
    | Ctx(args: seq<nat>)

  datatype Entry = Entry(kind: Kind, key: nat, data: Data)

  const EMPTY := Entry(Unused, 0, Zero)

  type Slots = s: seq<Entry> | |s| == SLOTS witness seq(SLOTS, _ => EMPTY)

  // ---------------------------------------------------------------------------------
  // Probing
  // ---------------------------------------------------------------------------------

  function Home(key: nat): (h: nat)
    ensures h < SLOTS - 1
  {
    key % (SLOTS - 1)
  }

  // The slot at probe distance d from the key's home.
  function SlotAt(key: nat, d: nat): (i: nat)
    requires d < SLOTS
    ensures i < SLOTS && DistOf(key, i) == d
  {
    if Home(key) + d >= SLOTS then Home(key) + d - SLOTS else Home(key) + d
  }

  function DistOf(key: nat, i: nat): (d: nat)
    requires i < SLOTS
    ensures d < SLOTS
  {
    if i >= Home(key) then i - Home(key) else i + SLOTS - Home(key)
  }

  predicate Matches(e: Entry, key: nat, kind: Kind) {
    e.kind == kind && e.key == if kind.Unused? then 0 else key
  }

  // The first probe distance in [d, limit) with a matching entry, or limit.
  function First(s: Slots, key: nat, kind: Kind, d: nat, limit: nat): (r: nat)
    requires d <= limit <= SLOTS
    ensures d <= r <= limit
    ensures r < limit ==> Matches(s[SlotAt(key, r)], key, kind)
    ensures forall j :: d <= j < r ==> !Matches(s[SlotAt(key, j)], key, kind)
    decreases limit - d
  {
    if d == limit || Matches(s[SlotAt(key, d)], key, kind) then d else First(s, key, kind, d + 1, limit)
  }

  function Find(s: Slots, key: nat, kind: Kind): (r: Option<nat>)
    ensures r.Some? ==> r.value < SLOTS && Matches(s[r.value], key, kind)
    ensures r.None? <==> forall i :: 0 <= i < SLOTS ==> !Matches(s[i], key, kind)
  {
    var d := First(s, key, kind, 0, |s|);
    assert d == SLOTS ==> forall i :: 0 <= i < SLOTS ==> !Matches(s[i], key, kind) by {
      forall i | d == SLOTS && 0 <= i < SLOTS ensures !Matches(s[i], key, kind) {
        assert !Matches(s[SlotAt(key, DistOf(key, i))], key, kind);
      }
    }
    if d < SLOTS then Some(SlotAt(key, d)) else None
  }

  // ---------------------------------------------------------------------------------
  // Integers of different widths: UT_StoreRetval and UT_LoadRetval
  // ---------------------------------------------------------------------------------

  // The n low-order bytes of v in two's complement, least significant byte first.
  function Encode(v: int, n: nat): (b: seq<Byte>)
    ensures |b| == n
    decreases n
  {
    if n == 0 then [] else [v % 256] + Encode(v / 256, n - 1)
  }

  // The signed value of a two's complement number.
  function Decode(b: seq<Byte>): int {
    if b == [] then 0
    else if |b| == 1 then if b[0] < 128 then b[0] else b[0] - 256
    else b[0] + 256 * Decode(b[1..])
  }

  predicate IntegerSize(n: nat) {
    n in {1, 2, 4, 8}
  }

  function Int32(v: int): int {
    Decode(Encode(v, 4))
  }

  // ---------------------------------------------------------------------------------
  // Operations
  // ---------------------------------------------------------------------------------

  // UtAssert_Abort() stops the test.
  datatype Outcome = Done(s: Slots) | Abort

  // The slot for an entry: the existing one, or else an unused one.
  function Target(s: Slots, key: nat, kind: Kind): (r: Option<nat>)
    ensures r.Some? ==> r.value < SLOTS
  {
    if Find(s, key, kind).Some? then Find(s, key, kind) else Find(s, key, Unused)
  }

  function Cleared(s: Slots, key: nat, kind: Kind): Slots {
    match Find(s, key, kind)
    case Some(i) => s[i := EMPTY]
    case None => s
  }

  function Write(s: Slots, slot: Option<nat>, e: Entry): Outcome
    requires slot.Some? ==> slot.value < SLOTS
  {
    match slot
    case Some(i) => Done(s[i := e])
    case None => Abort
  }

  function ResetState(s: Slots, key: nat): Slots {
    seq(SLOTS, i requires 0 <= i < SLOTS => if key == 0 || s[i].key == key then EMPTY else s[i])
  }

  // The entry is added in the first unused slot of the table, not in probe order.
  function FirstUnused(s: Slots, from: nat): (i: nat)
    requires from <= SLOTS
    ensures from <= i <= SLOTS && (i < SLOTS ==> s[i].kind.Unused?)
    ensures forall j :: from <= j < i ==> !s[j].kind.Unused?
    decreases |s| - from
  {
    if from == |s| || s[from].kind.Unused? then from else FirstUnused(s, from + 1)
  }

  // UT_Stub_CallOnce; `runs` says whether the function is called.
  predicate Runs(s: Slots, key: nat) {
    key != 0 && forall i :: 0 <= i < SLOTS ==> !Matches(s[i], key, CallOnce)
  }

  function CallOnceOp(s: Slots, key: nat): Outcome {
    if !Runs(s, key) then Done(s)
    else if FirstUnused(s, 0) == SLOTS then Abort
    else Done(s[FirstUnused(s, 0) := Entry(CallOnce, key, Zero)])
  }

  function Stored(previous: Data, bytes: seq<Byte>): int {
    if IntegerSize(|bytes|) then Decode(bytes) else if previous.Rvc? then previous.value else 0
  }

  // UT_ConfigureGenericStubReturnValue for integer values.
  function Configure(s: Slots, key: nat, bytes: seq<Byte>, counter: int): Outcome {
    if counter > 0 then
      Write(s, Find(s, key, Unused), Entry(Deferred, key, Rvc(counter, Stored(Zero, bytes))))
    else
      var slot := Target(s, key, Constant);
      Write(s, slot, Entry(Constant, key, Rvc(counter, Stored(if slot.Some? then s[slot.value].data else Zero, bytes))))
  }

  function SetDeferred(s: Slots, key: nat, count: int, value: int): Outcome {
    if count <= 0 then Done(s) else Configure(s, key, Encode(value, 8), count)
  }

  function ClearDeferred(s: Slots, key: nat): Slots {
    seq(SLOTS, i requires 0 <= i < SLOTS => if Matches(s[i], key, Deferred) then EMPTY else s[i])
  }

  // UT_DoSetHookFunction; function 0 is NULL.
  function SetCallback(s: Slots, key: nat, kind: Kind, func: nat): Outcome {
    if func == 0 then Done(Cleared(s, key, kind))
    else Write(s, Target(s, key, kind), Entry(kind, key, Cb(func)))
  }

  function RegisterContext(s: Slots, key: nat, arg: nat): Outcome {
    var slot := Target(s, key, Context);
    if slot.None? then Abort else
    var d := s[slot.value].data;
    var args := if d.Ctx? then d.args else [];
    Write(s, slot, Entry(Context, key, Ctx(if |args| < MAX_ARGS then args + [arg] else args)))
  }

  function Zeros(n: nat): seq<Byte> {
    seq(n, _ => 0)
  }

  function RegisterReturn(s: Slots, key: nat, size: nat, typeName: string): Outcome {
    if size == 0 then Done(s) else
    match Find(s, key, ReturnBuffer)
    case Some(i) =>
      if s[i].data.Buff? && |s[i].data.bytes| == size then
        Done(s[i := Entry(ReturnBuffer, key, Buff(s[i].data.bytes, 0, typeName))])
      else
        var s' := s[i := EMPTY];
        Write(s', Find(s', key, Unused), Entry(ReturnBuffer, key, Buff(Zeros(size), 0, typeName)))
    case None =>
      Write(s, Find(s, key, Unused), Entry(ReturnBuffer, key, Buff(Zeros(size), 0, typeName)))
  }

  // UT_Stub_CopyToReturnValue
  function CopyToReturn(s: Slots, key: nat, bytes: seq<Byte>): Outcome {
    match Find(s, key, ReturnBuffer)
    case None => Done(s)
    case Some(i) =>
      var d := s[i].data;
      if !d.Buff? || |d.bytes| != |bytes| then Abort
      else Done(s[i := Entry(ReturnBuffer, key, Buff(bytes, |bytes|, d.typeName))])
  }

  function SetData(s: Slots, key: nat, bytes: seq<Byte>): Outcome {
    if bytes == [] then Done(s)
    else Write(s, Find(s, key, Unused), Entry(DataBuffer, key, Buff(bytes, 0, "")))
  }

  function Min(a: nat, b: nat): nat {
    if a < b then a else b
  }

  function Unread(d: Data): seq<Byte> {
    if d.Buff? && d.pos <= |d.bytes| then d.bytes[d.pos..] else []
  }

  // What a read of at most max bytes takes from a buffer, and what it leaves of it, if anything.
  function Taken(d: Data, max: nat): seq<Byte> {
    Unread(d)[..Min(|Unread(d)|, max)]
  }

  function Left(d: Data, max: nat): Option<Data> {
    if |Unread(d)| <= max || !d.Buff? then None else Some(d.(pos := d.pos + max))
  }

  // UT_Stub_CopyToLocal: what is delivered, and the table afterwards.
  function CopyToLocal(s: Slots, key: nat, max: nat): (seq<Byte>, Slots) {
    match Find(s, key, DataBuffer)
    case None => ([], s)
    case Some(i) =>
      (Taken(s[i].data, max),
       match Left(s[i].data, max)
       case None => s[i := EMPTY]
       case Some(d) => s[i := Entry(DataBuffer, key, d)])
  }

  // UT_GetStubCount
  function Count(s: Slots, key: nat): nat {
    match Find(s, key, Counter)
    case Some(i) => CountOf(s[i].data)
    case None => 0
  }

  function CountOf(d: Data): nat {
    if d.Rc? then d.count else 0
  }

  // ---------------------------------------------------------------------------------
  // UT_DefaultStubImplWithArgs, phase by phase
  // ---------------------------------------------------------------------------------

  function ValueOf(d: Data): int {
    if d.Rvc? then d.value else 0
  }

  function CounterOf(d: Data): int {
    if d.Rvc? then d.counter else 0
  }

  // UT_Stub_FindRetvalConfig: the slot of the configuration to use, and the table afterwards.
  function PickRetval(s: Slots, key: nat): (r: (Option<nat>, Slots))
    ensures r.0.Some? ==> r.0.value < SLOTS
  {
    match Find(s, key, Deferred)
    case None => PickConstant(s, key)
    case Some(i) =>
      var c := CounterOf(s[i].data) - 1;
      var s' := s[i := Entry(Deferred, key, Rvc(c, ValueOf(s[i].data)))];
      if c > 0 then PickConstant(s', key) else (Some(i), s')
  }

  function PickConstant(s: Slots, key: nat): (r: (Option<nat>, Slots))
    ensures r.0.Some? ==> r.0.value < SLOTS
  {
    match Find(s, key, Constant)
    case None => (None, s)
    case Some(i) => (Some(i), s[i := Entry(Constant, key, Rvc(CounterOf(s[i].data) + 1, ValueOf(s[i].data)))])
  }

  function CountCall(s: Slots, key: nat, status: int): Outcome {
    var slot := Target(s, key, Counter);
    var count := if slot.Some? then CountOf(s[slot.value].data) else 0;
    Write(s, slot, Entry(Counter, key, Rc((count + 1) % TWO_32, status)))
  }

  function ReturnBytes(size: nat, hooked: bool, status: int, value: Option<int>): (b: seq<Byte>)
    ensures |b| == size
  {
    if hooked && size == 4 then Encode(status, size)
    else if value.Some? && IntegerSize(size) then Encode(value.value, size)
    else Zeros(size)
  }

  // The return buffer is filled in unless the handler has done so.
  function FillReturn(s: Slots, key: nat, hooked: bool, status: int, value: Option<int>): Slots {
    match Find(s, key, ReturnBuffer)
    case None => s
    case Some(i) =>
      var d := s[i].data;
      if !d.Buff? || d.pos != 0 then s
      else s[i := Entry(ReturnBuffer, key, Buff(ReturnBytes(|d.bytes|, hooked, status, value), |d.bytes|, d.typeName))]
  }

  // The handler stages a return value, if there is a handler and it does so.
  function Stage(s: Slots, key: nat, handled: bool, staged: Option<seq<Byte>>): Outcome {
    if handled && staged.Some? then CopyToReturn(s, key, staged.value) else Done(s)
  }

  // A deferred code is dropped once it was used.
  function DropUsed(s: Slots, slot: Option<nat>): Slots
    requires slot.Some? ==> slot.value < SLOTS
  {
    if slot.Some? && s[slot.value].kind.Deferred? then s[slot.value := EMPTY] else s
  }

  // What the test's own functions do during a call: the code the hook returns, and the value
  // the handler stages with UT_Stub_SetReturnValue(), if it does.
  datatype Script = Script(hookReply: int, staged: Option<seq<Byte>>)

  datatype Called = Returned(s: Slots, status: int) | CallAborted

  function Execute(s: Slots, key: nat, defaultRc: int, script: Script): Called {
    var s1 := Cleared(s, key, Context);
    var picked := PickRetval(s1, key);
    var value := if picked.0.Some? then Some(ValueOf(picked.1[picked.0.value].data)) else None;
    var status := if value.Some? then Int32(value.value) else defaultRc;
    match CountCall(picked.1, key, status)
    case Abort => CallAborted
    case Done(s3) =>
      var hooked := Find(s3, key, Hook).Some?;
      var final := if hooked then script.hookReply else status;
      match Stage(s3, key, Find(s3, key, Handler).Some?, script.staged)
      case Abort => CallAborted
      case Done(s4) => Returned(DropUsed(FillReturn(s4, key, hooked, final, value), picked.0), final)
  }

  // UT_ExecuteBasicHandler
  function ExecuteBasic(s: Slots, key: nat, defaultHandler: nat, script: Script): Called {
    if Find(s, key, Handler).None? && defaultHandler != 0 then
      match SetCallback(s, key, Handler, defaultHandler)
      case Abort => CallAborted
      case Done(s') => Execute(s', key, 0, script)
    else Execute(s, key, 0, script)
  }
}
