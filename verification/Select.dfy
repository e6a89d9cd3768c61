/** Waiting on sets of file handles (src/os/portable/os-impl-bsd-select.c). */
module Select {
  import opened Common
  import opened Bits
  import opened Clock

  // ---------------------------------------------------------------------------------
  // Bits of a byte
  // ---------------------------------------------------------------------------------

  // b shifted right n times by one.
  function Shifted(b: bv8, n: nat): bv8
    requires n <= 8
  {
    match n
    case 0 => b case 1 => b >> 1 case 2 => b >> 2 case 3 => b >> 3
    case 4 => b >> 4 case 5 => b >> 5 case 6 => b >> 6 case 7 => b >> 7
    case 8 => 0
  }

  lemma ShiftOnce(b: bv8, n: nat)
    requires n < 8
    ensures Shifted(b, n) >> 1 == Shifted(b, n + 1)
    ensures Shifted(b, n) & 1 != 0 <==> Bit(b, n)
  {
  }

  lemma ShiftedOut(b: bv8, n: nat, j: nat)
    requires n <= j < 8 && Shifted(b, n) == 0
    ensures !Bit(b, j)
  {
  }

  // ---------------------------------------------------------------------------------
  // Handles and descriptors
  // ---------------------------------------------------------------------------------

  datatype FileRecord = FileRecord(fd: int, selectable: bool)

  // FD_SETSIZE
  const FD_SETSIZE: int := 1024

  // Handle id is in the set.
  predicate InSet(ids: seq<bv8>, id: nat) {
    id / 8 < |ids| && Bit(ids[id / 8], id % 8)
  }

  // A handle that is in the set, in range of the table and open.
  predicate Open(ids: seq<bv8>, table: seq<FileRecord>, id: nat) {
    InSet(ids, id) && id < |table| && table[id].fd >= 0
  }

  predicate Supported(f: FileRecord) {
    f.fd < FD_SETSIZE && f.selectable
  }

  // The descriptors of the open and supported handles below n.
  function Image(ids: seq<bv8>, table: seq<FileRecord>, n: nat): set<int> {
    if n == 0 then {}
    else if Open(ids, table, n - 1) && Supported(table[n - 1]) then Image(ids, table, n - 1) + {table[n - 1].fd}
    else Image(ids, table, n - 1)
  }

  // Some open handle below n is not supported.
  predicate Unsupported(ids: seq<bv8>, table: seq<FileRecord>, n: nat) {
    n > 0 && (Unsupported(ids, table, n - 1) || (Open(ids, table, n - 1) && !Supported(table[n - 1])))
  }

  // The running maximum over those descriptors.
  function MaxFd(ids: seq<bv8>, table: seq<FileRecord>, n: nat, m: int): int {
    if n == 0 then m else
    var before := MaxFd(ids, table, n - 1, m);
    if Open(ids, table, n - 1) && Supported(table[n - 1]) && table[n - 1].fd > before then table[n - 1].fd else before
  }

  lemma {:induction false} ImageExact(ids: seq<bv8>, table: seq<FileRecord>, n: nat, fd: int)
    ensures fd in Image(ids, table, n) <==>
              exists id: nat :: id < n && Open(ids, table, id) && Supported(table[id]) && table[id].fd == fd
    decreases n
  {
    if n > 0 {
      ImageExact(ids, table, n - 1, fd);
      if fd in Image(ids, table, n) && fd !in Image(ids, table, n - 1) {
        assert Open(ids, table, n - 1) && Supported(table[n - 1]) && table[n - 1].fd == fd;
      }
    }
  }

  lemma {:induction false} UnsupportedExact(ids: seq<bv8>, table: seq<FileRecord>, n: nat)
    ensures Unsupported(ids, table, n) <==> exists id: nat :: id < n && Open(ids, table, id) && !Supported(table[id])
    decreases n
  {
    if n > 0 {
      UnsupportedExact(ids, table, n - 1);
      if Open(ids, table, n - 1) && !Supported(table[n - 1]) {
        assert Unsupported(ids, table, n);
      }
    }
  }

  // It is the true maximum.
  lemma {:induction false} MaxFdExact(ids: seq<bv8>, table: seq<FileRecord>, n: nat, m: int)
    ensures var r := MaxFd(ids, table, n, m);
            && r >= m && (r == m || r in Image(ids, table, n))
            && forall fd :: fd in Image(ids, table, n) ==> fd <= r
    decreases n
  {
    if n > 0 {
      MaxFdExact(ids, table, n - 1, m);
    }
  }

  lemma {:induction false} ImageValid(ids: seq<bv8>, table: seq<FileRecord>, n: nat)
    ensures forall fd :: fd in Image(ids, table, n) ==> 0 <= fd < FD_SETSIZE
    decreases n
  {
    if n > 0 {
      ImageValid(ids, table, n - 1);
    }
  }

  // Handles that are not in the set make no difference.
  lemma {:induction false} SkipAbsent(ids: seq<bv8>, table: seq<FileRecord>, n: nat, k: nat, m: int)
    requires n <= k && forall id: nat :: n <= id < k ==> !InSet(ids, id)
    ensures Image(ids, table, k) == Image(ids, table, n)
    ensures Unsupported(ids, table, k) == Unsupported(ids, table, n)
    ensures MaxFd(ids, table, k, m) == MaxFd(ids, table, n, m)
    decreases k
  {
    if n < k {
      SkipAbsent(ids, table, n, k - 1, m);
      assert !InSet(ids, k - 1);
    }
  }

  // ---------------------------------------------------------------------------------
  // OS_FdSet_ConvertIn_Impl
  // ---------------------------------------------------------------------------------

  // The progress of the conversion after the handles below n.
  datatype In = In(maxfd: int, fds: set<int>, failed: bool)

  function Converted(ids: seq<bv8>, table: seq<FileRecord>, n: nat, start: In): In {
    In(MaxFd(ids, table, n, start.maxfd), start.fds + Image(ids, table, n), start.failed || Unsupported(ids, table, n))
  }

  lemma ByteHandles(ids: seq<bv8>, offset: nat, bit: nat)
    requires offset < |ids| && bit < 8
    ensures InSet(ids, offset * 8 + bit) <==> Bit(ids[offset], bit)
  {
    assert (offset * 8 + bit) / 8 == offset && (offset * 8 + bit) % 8 == bit;
  }

  lemma ConvertedNext(ids: seq<bv8>, table: seq<FileRecord>, n: nat, s0: In)
    ensures var c := Converted(ids, table, n, s0);
            Converted(ids, table, n + 1, s0)
              == if !Open(ids, table, n) then c
                 else if !Supported(table[n]) then c.(failed := true)
                 else c.(fds := c.fds + {table[n].fd}, maxfd := if table[n].fd > c.maxfd then table[n].fd else c.maxfd)
  {
  }

  // No bit of the byte is left to look at.
  lemma ByteDone(ids: seq<bv8>, table: seq<FileRecord>, offset: nat, bit: nat, s0: In)
    requires offset < |ids| && bit <= 8 && Shifted(ids[offset], bit) == 0
    ensures Converted(ids, table, offset * 8 + 8, s0) == Converted(ids, table, offset * 8 + bit, s0)
  {
    forall id: nat | offset * 8 + bit <= id < offset * 8 + 8 ensures !InSet(ids, id) {
      ByteHandles(ids, offset, id - offset * 8);
      ShiftedOut(ids[offset], bit, id - offset * 8);
    }
    SkipAbsent(ids, table, offset * 8 + bit, offset * 8 + 8, s0.maxfd);
  }

  // One byte of the set: the bits are shifted out until none is left.
  method ConvertInByte(ids: seq<bv8>, table: seq<FileRecord>, offset: nat, start: In, ghost s0: In) returns (r: In)
    requires offset < |ids| && start == Converted(ids, table, offset * 8, s0)
    ensures r == Converted(ids, table, offset * 8 + 8, s0)
  {
    hide Converted, Shifted, Bit, InSet;
    r := start;
    var objids := ids[offset];
    var bit := 0;
    assert objids == Shifted(objids, 0) by { ShiftZero(objids); }
    while objids != 0
      invariant 0 <= bit <= 8 && objids == Shifted(ids[offset], bit)
      invariant r == Converted(ids, table, offset * 8 + bit, s0)
      decreases 8 - bit
    {
      assert bit < 8 by { ShiftZero(ids[offset]); }
      var id := offset * 8 + bit;
      ShiftOnce(ids[offset], bit);
      ByteHandles(ids, offset, bit);
      ConvertedNext(ids, table, id, s0);
      if objids & 1 != 0 && id < |table| {
        var osfd := table[id].fd;
        if osfd >= 0 {
          if osfd >= FD_SETSIZE || !table[id].selectable {
            r := r.(failed := true);
          } else {
            r := r.(fds := r.fds + {osfd});
            if osfd > r.maxfd {
              r := r.(maxfd := osfd);
            }
          }
        }
      }
      bit := bit + 1;
      objids := objids >> 1;
    }
    ByteDone(ids, table, offset, bit, s0);
  }

  lemma ShiftZero(b: bv8)
    ensures Shifted(b, 0) == b && Shifted(b, 8) == 0
  {
  }

  /** The descriptors of exactly the open handles, with their true maximum; a failure exactly when one of
      them is out of range of select() or not selectable. */
  method ConvertIn(ids: seq<bv8>, table: seq<FileRecord>, start: In) returns (r: In)
    ensures r == Converted(ids, table, 8 * |ids|, start)
  {
    hide Converted;
    r := start;
    var offset := 0;
    assert r == Converted(ids, table, 0, start) by { ConvertedZero(ids, table, start); }
    while offset < |ids|
      invariant 0 <= offset <= |ids| && r == Converted(ids, table, offset * 8, start)
    {
      r := ConvertInByte(ids, table, offset, r, start);
      offset := offset + 1;
    }
  }

  lemma ConvertedZero(ids: seq<bv8>, table: seq<FileRecord>, start: In)
    ensures Converted(ids, table, 0, start) == start
  {
  }

  // ---------------------------------------------------------------------------------
  // OS_FdSet_ConvertOut_Impl
  // ---------------------------------------------------------------------------------

  // A handle that stays in the set: beyond the table, or open with its descriptor in fds.
  predicate Stays(table: seq<FileRecord>, fds: set<int>, id: nat) {
    id < |table| ==> table[id].fd >= 0 && table[id].fd in fds
  }

  // The byte after looking at its lowest bits.
  ghost predicate ByteKept(b: bv8, b': bv8, table: seq<FileRecord>, fds: set<int>, offset: nat, bits: nat) {
    forall j: nat :: j < 8 ==> (Bit(b', j) <==> Bit(b, j) && (j < bits ==> Stays(table, fds, offset * 8 + j)))
  }

  method ConvertOutByte(b: bv8, table: seq<FileRecord>, fds: set<int>, offset: nat) returns (r: bv8)
    ensures ByteKept(b, r, table, fds, offset, 8)
  {
    hide Bit, Shifted, Mask;
    r := b;
    var objids := b;
    var bit := 0;
    ShiftZero(b);
    while objids != 0
      invariant 0 <= bit <= 8 && objids == Shifted(b, bit)
      invariant ByteKept(b, r, table, fds, offset, bit)
      decreases 8 - bit
    {
      var id := offset * 8 + bit;
      ShiftOnce(b, bit);
      if objids & 1 != 0 && id < |table| {
        var osfd := table[id].fd;
        if osfd < 0 || osfd !in fds {
          forall j: nat | j < 8 ensures Bit(r & !Mask(bit), j) <==> Bit(r, j) && j != bit {
            ClearBit(r, bit, j);
          }
          r := r & !Mask(bit);
        }
      }
      bit := bit + 1;
      objids := objids >> 1;
    }
    forall j: nat | bit <= j < 8 ensures !Bit(b, j) {
      ShiftedOut(b, bit, j);
    }
  }

  /** Exactly the handles whose descriptors are in fds stay in the set; bits beyond the table are not
      touched. */
  method ConvertOut(ids: array<bv8>, table: seq<FileRecord>, fds: set<int>)
    modifies ids
    ensures forall id: nat :: InSet(ids[..], id) <==> InSet(old(ids[..]), id) && Stays(table, fds, id)
  {
    var offset := 0;
    while offset < ids.Length
      invariant 0 <= offset <= ids.Length
      invariant forall i :: 0 <= i < offset ==> ByteKept(old(ids[i]), ids[i], table, fds, i, 8)
      invariant forall i :: offset <= i < ids.Length ==> ids[i] == old(ids[i])
    {
      ids[offset] := ConvertOutByte(ids[offset], table, fds, offset);
      offset := offset + 1;
    }
    forall id: nat ensures InSet(ids[..], id) <==> InSet(old(ids[..]), id) && Stays(table, fds, id) {
      if id / 8 < ids.Length {
        assert id == id / 8 * 8 + id % 8;
        assert ByteKept(old(ids[id / 8]), ids[id / 8], table, fds, id / 8, 8);
      }
    }
  }

  // ---------------------------------------------------------------------------------
  // OS_DoSelect
  // ---------------------------------------------------------------------------------

  datatype Timeval = Timeval(sec: int, usec: int)

  function TicksOf(tv: Timeval): int {
    tv.sec * TICKS_PER_SECOND + tv.usec * TICKS_PER_USEC
  }

  // What the select() call of the system does: EINTR or EAGAIN, another error, a timeout, or
  // descriptors that are ready for reading and for writing.
  datatype Reply = Interrupted | Failed | TimedOut | Ready(rd: set<int>, wr: set<int>)

  // One turn of the loop: the local time read before the call, the call's reply, and the time it returned.
  datatype Round = Round(now: Ticks, reply: Reply, end: int)

  datatype Code = Success | Timeout | Error | NotSupported | InvalidId

  /** The system's side, as the pselect/select page of IEEE Std 1003.1-2017 has it: ready descriptors are
      among those asked for, and there is at least one; a timeout is not reported before the interval has
      passed, and never without an interval. */
  ghost predicate SystemKeeps(round: Round, tv: Option<Timeval>, rd: set<int>, wr: set<int>) {
    match round.reply
    case Ready(rd', wr') => rd' <= rd && wr' <= wr && (rd' != {} || wr' != {})
    case TimedOut => tv.Some? && round.end >= round.now + TicksOf(tv.value)
    case _ => true
  }

  // A trace of the loop: it goes on as long as the call is interrupted.
  predicate Trace(rounds: seq<Round>) {
    && rounds != []
    && (forall i :: 0 <= i < |rounds| - 1 ==> rounds[i].reply.Interrupted?)
    && !rounds[|rounds| - 1].reply.Interrupted?
    && forall i :: 0 <= i < |rounds| ==> rounds[i].now >= 0
  }

  // The interval that is passed to select() when the time is `now`; None waits forever.
  function IntervalAt(deadline: Ticks, now: Ticks): Option<Timeval> {
    if deadline == TIME_MAX then None else
    var left := if Sign(deadline) > 0 then Subtract(deadline, now) else deadline;
    if Sign(left) <= 0 then Some(Timeval(0, 0))
    else Some(Timeval(TotalSeconds(left), MicrosecondsPart(left)))
  }

  // select() looks at the descriptors up to maxfd only.
  method DoSelect(maxfd: int, rd: set<int>, wr: set<int>, deadline: Ticks, rounds: seq<Round>)
    returns (code: Code, rd': set<int>, wr': set<int>, handed: seq<Option<Timeval>>)
    requires forall fd :: fd in rd || fd in wr ==> 0 <= fd <= maxfd
    requires Trace(rounds)
    ensures |handed| == |rounds| && forall i :: 0 <= i < |rounds| ==> handed[i] == IntervalAt(deadline, rounds[i].now)
    ensures match rounds[|rounds| - 1].reply
            case Ready(r, w) => code == Success && rd' == r && wr' == w
            case TimedOut => code == Timeout
            case _ => code == Error
  {
    rd', wr', handed := rd, wr, [];
    var i := 0;
    var reply;
    while true
      invariant 0 <= i < |rounds| && |handed| == i
      invariant forall j :: 0 <= j < i ==> handed[j] == IntervalAt(deadline, rounds[j].now)
      decreases |rounds| - i
    {
      var tv := None;
      if deadline != TIME_MAX {
        var currTime := deadline;
        if Sign(deadline) > 0 {
          currTime := Subtract(deadline, rounds[i].now);
        }
        if Sign(currTime) <= 0 {
          tv := Some(Timeval(0, 0));
        } else {
          tv := Some(Timeval(TotalSeconds(currTime), MicrosecondsPart(currTime)));
        }
      }
      handed := handed + [tv];
      reply := rounds[i].reply;
      if !reply.Interrupted? {
        break;
      }
      i := i + 1;
    }
    match reply
    case Ready(r, w) => code, rd', wr' := Success, r, w;
    case TimedOut => code := Timeout;
    case _ => code := Error;
  }

  lemma IntervalTicks(left: Ticks)
    requires left > 0
    ensures var tv := Timeval(TotalSeconds(left), MicrosecondsPart(left));
            && 0 <= tv.sec && 0 <= tv.usec < 1_000_000
            && left - TICKS_PER_USEC < TicksOf(tv) <= left
  {
    SplitExact(left);
    hide TotalSeconds;
    var f := FractionalPart(left);
    hide FractionalPart;
    assert MicrosecondsPart(left) == f / TICKS_PER_USEC;
  }

  lemma IntervalIs(deadline: Ticks, now: Ticks)
    requires deadline != TIME_MAX && now >= 0
    ensures deadline > now ==>
              IntervalAt(deadline, now) == Some(Timeval(TotalSeconds(deadline - now), MicrosecondsPart(deadline - now)))
    ensures deadline <= now ==> IntervalAt(deadline, now) == Some(Timeval(0, 0))
  {
    hide TotalSeconds, MicrosecondsPart;
    assert deadline > now ==> Subtract(deadline, now) == deadline - now;
  }

  /** Every interval handed to select() is a valid timeval that ends at the deadline, or less than one
      microsecond before it, or at once if the deadline has passed; a deadline that is not positive polls. */
  lemma IntervalMeetsDeadline(deadline: Ticks, now: Ticks)
    requires deadline != TIME_MAX && now >= 0
    ensures var tv := IntervalAt(deadline, now);
            && tv.Some? && 0 <= tv.value.sec && 0 <= tv.value.usec < 1_000_000
            && (deadline > now ==> deadline - TICKS_PER_USEC < now + TicksOf(tv.value) <= deadline)
            && (deadline <= now ==> TicksOf(tv.value) == 0)
  {
    IntervalIs(deadline, now);
    hide IntervalAt, TotalSeconds, MicrosecondsPart;
    if deadline > now {
      IntervalTicks(deadline - now);
    }
  }

  /** In every trace: a timeout is reported less than one microsecond before the deadline at the earliest,
      and no call was asked to wait past the deadline. */
  lemma TimeoutIsDue(deadline: Ticks, rounds: seq<Round>, rd: set<int>, wr: set<int>)
    requires Trace(rounds) && 0 < deadline
    requires forall i :: 0 <= i < |rounds| ==> SystemKeeps(rounds[i], IntervalAt(deadline, rounds[i].now), rd, wr)
    ensures rounds[|rounds| - 1].reply.TimedOut? ==>
              deadline != TIME_MAX && rounds[|rounds| - 1].end > deadline - TICKS_PER_USEC
    ensures deadline != TIME_MAX ==> forall i :: 0 <= i < |rounds| && rounds[i].now < deadline ==>
              IntervalAt(deadline, rounds[i].now).Some?
              && rounds[i].now + TicksOf(IntervalAt(deadline, rounds[i].now).value) <= deadline
  {
    var last := rounds[|rounds| - 1];
    assert SystemKeeps(last, IntervalAt(deadline, last.now), rd, wr);
    if deadline != TIME_MAX {
      IntervalMeetsDeadline(deadline, last.now);
      forall i | 0 <= i < |rounds| && rounds[i].now < deadline
        ensures IntervalAt(deadline, rounds[i].now).Some?
        ensures rounds[i].now + TicksOf(IntervalAt(deadline, rounds[i].now).value) <= deadline
      {
        IntervalMeetsDeadline(deadline, rounds[i].now);
      }
    }
  }

  // ---------------------------------------------------------------------------------
  // OS_SelectMultiple_Impl
  // ---------------------------------------------------------------------------------

  ghost function IdsOf(a: array?<bv8>): seq<bv8>
    reads if a == null then {} else {a}
  {
    if a == null then [] else a[..]
  }

  ghost function Wanted(a: array?<bv8>, table: seq<FileRecord>): set<int>
    reads if a == null then {} else {a}
  {
    Image(IdsOf(a), table, 8 * |IdsOf(a)|)
  }

  ghost predicate Refused(a: array?<bv8>, table: seq<FileRecord>)
    reads if a == null then {} else {a}
  {
    Unsupported(IdsOf(a), table, 8 * |IdsOf(a)|)
  }

  ghost predicate Filtered(now: seq<bv8>, before: seq<bv8>, table: seq<FileRecord>, fds: set<int>) {
    forall id: nat :: InSet(now, id) <==> InSet(before, id) && Stays(table, fds, id)
  }

  lemma Member(s: set<int>) returns (x: int)
    requires s != {}
    ensures x in s
  {
    assert (forall y :: y !in s) ==> s == {};
    x :| x in s;
  }

  // A ready descriptor comes from a handle, and that handle is still in the set.
  lemma SomeLeft(now: seq<bv8>, before: seq<bv8>, table: seq<FileRecord>, fds: set<int>)
    requires Filtered(now, before, table, fds) && fds <= Image(before, table, 8 * |before|) && fds != {}
    ensures exists id: nat :: id < |table| && InSet(now, id)
  {
    var fd := Member(fds);
    assert fd in Image(before, table, 8 * |before|);
    ImageExact(before, table, 8 * |before|, fd);
    var id: nat :| id < 8 * |before| && Open(before, table, id) && Supported(table[id]) && table[id].fd == fd;
    assert InSet(now, id);
  }

  lemma MaxFdCovers(ids: seq<bv8>, table: seq<FileRecord>, m: int)
    ensures m <= MaxFd(ids, table, 8 * |ids|, m)
    ensures forall fd :: fd in Image(ids, table, 8 * |ids|) ==> 0 <= fd <= MaxFd(ids, table, 8 * |ids|, m)
  {
    MaxFdExact(ids, table, 8 * |ids|, m);
    ImageValid(ids, table, 8 * |ids|);
  }

  lemma NoneWanted(ids: seq<bv8>, table: seq<FileRecord>, m: int)
    ensures MaxFd(ids, table, 8 * |ids|, m) < 0 <==> m < 0 && Image(ids, table, 8 * |ids|) == {}
  {
    MaxFdExact(ids, table, 8 * |ids|, m);
    ImageValid(ids, table, 8 * |ids|);
    if Image(ids, table, 8 * |ids|) != {} {
      var fd := Member(Image(ids, table, 8 * |ids|));
      assert 0 <= fd <= MaxFd(ids, table, 8 * |ids|, m);
    }
  }

  /** On success each set holds exactly the handles it held that are ready, plus bits beyond the table; at
      least one handle is left.  If one object is passed as both sets, it holds the handles that are ready for
      both.  Otherwise the sets are as they were.  Nothing is waited for if a handle is not supported, or if
      there is no open handle. */
  method SelectMultiple(readSet: array?<bv8>, writeSet: array?<bv8>, table: seq<FileRecord>, deadline: Ticks,
                        rounds: seq<Round>)
    returns (code: Code)
    requires Trace(rounds)
    requires var rd, wr := Wanted(readSet, table), Wanted(writeSet, table);
             forall i :: 0 <= i < |rounds| ==> SystemKeeps(rounds[i], IntervalAt(deadline, rounds[i].now), rd, wr)
    modifies if readSet == null then {} else {readSet}, if writeSet == null then {} else {writeSet}
    ensures code == NotSupported <==> old(Refused(readSet, table)) || old(Refused(writeSet, table))
    ensures code == InvalidId <==>
              code != NotSupported && old(Wanted(readSet, table)) == {} && old(Wanted(writeSet, table)) == {}
    ensures var last := rounds[|rounds| - 1];
            code != NotSupported && code != InvalidId ==>
              && (code == Timeout <==> last.reply.TimedOut?) && (code == Error <==> last.reply.Failed?)
              && (code == Success <==> last.reply.Ready?)
    ensures code == Timeout && deadline > 0 ==>
              deadline != TIME_MAX && rounds[|rounds| - 1].end > deadline - TICKS_PER_USEC
    ensures code != Success ==> IdsOf(readSet) == old(IdsOf(readSet)) && IdsOf(writeSet) == old(IdsOf(writeSet))
    ensures code == Success ==>
              var reply := rounds[|rounds| - 1].reply;
              && reply.Ready?
              && (readSet == writeSet ==> Filtered(IdsOf(readSet), old(IdsOf(readSet)), table, reply.rd * reply.wr))
              && (readSet != writeSet ==>
                    && Filtered(IdsOf(readSet), old(IdsOf(readSet)), table, reply.rd)
                    && Filtered(IdsOf(writeSet), old(IdsOf(writeSet)), table, reply.wr)
                    && exists id: nat :: id < |table| && (InSet(IdsOf(readSet), id) || InSet(IdsOf(writeSet), id)))
  {
    var rd := In(-1, {}, false);
    if readSet != null {
      rd := ConvertIn(readSet[..], table, rd);
      if rd.failed {
        return NotSupported;
      }
    }
    var wr := In(rd.maxfd, {}, false);
    if writeSet != null {
      wr := ConvertIn(writeSet[..], table, wr);
      if wr.failed {
        return NotSupported;
      }
    }
    NoneWanted(IdsOf(readSet), table, -1);
    NoneWanted(IdsOf(writeSet), table, rd.maxfd);
    if wr.maxfd < 0 {
      return InvalidId;
    }
    MaxFdCovers(IdsOf(readSet), table, -1);
    MaxFdCovers(IdsOf(writeSet), table, rd.maxfd);
    if deadline > 0 {
      TimeoutIsDue(deadline, rounds, Wanted(readSet, table), Wanted(writeSet, table));
    }
    var rdReady, wrReady, handed;
    code, rdReady, wrReady, handed := DoSelect(wr.maxfd, rd.fds, wr.fds, deadline, rounds);
    if code == Success {
      if readSet != null {
        ConvertOut(readSet, table, rdReady);
      }
      if writeSet != null {
        ConvertOut(writeSet, table, wrReady);
      }
      ghost var last := rounds[|rounds| - 1];
      ghost var tv := IntervalAt(deadline, last.now);
      assert SystemKeeps(last, tv, old(Wanted(readSet, table)), old(Wanted(writeSet, table)));
      if readSet != writeSet {
        if rdReady != {} {
          SomeLeft(IdsOf(readSet), old(IdsOf(readSet)), table, rdReady);
        } else {
          SomeLeft(IdsOf(writeSet), old(IdsOf(writeSet)), table, wrReady);
        }
      }
    }
  }
}
