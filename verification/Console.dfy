/**
 The console ring buffer: OS_ConsoleWrite puts messages in (src/os/shared/src/osapi-printf.c), and
 OS_ConsoleOutput_Impl drains it (src/os/portable/os-impl-console-bsp.c).
 */
module Console {

  // The characters from position r up to position w, around the end of the buffer.
  function Circular(b: seq<char>, r: nat, w: nat): seq<char>
    requires r < |b| && w < |b|
  {
    if r <= w then b[r..w] else b[r..] + b[..w]
  }

  function Next(pos: nat, size: nat): nat {
    if pos + 1 >= size then 0 else pos + 1
  }

  // Appending one character at position w, next to which is not r, makes the range one longer.
  lemma CircularPut(b: seq<char>, r: nat, w: nat, c: char)
    requires r < |b| && w < |b| && Next(w, |b|) != r
    ensures Circular(b[w := c], r, Next(w, |b|)) == Circular(b, r, w) + [c]
  {
    var b', w' := b[w := c], Next(w, |b|);
    if r <= w {
      if w' == 0 {
        assert b'[r..] == b[r..w] + [c];
      }
    }
  }

  // A write at position w is outside of the ranges that end there.
  lemma CircularKept(b: seq<char>, r: nat, w: nat, p: nat, c: char)
    requires r < |b| && w < |b| && p < |b|
    requires if r <= w then p >= w || p < r else w <= p < r
    ensures Circular(b[p := c], r, w) == Circular(b, r, w)
  {
  }

  // How many characters lie between the positions.
  function Distance(r: nat, w: nat, size: nat): int {
    if r <= w then w - r else w - r + size
  }

  class Ring {
    var buf: array<char>
    var readPos: nat
    var writePos: nat
    var overflowEvents: nat

    ghost predicate Valid()
      reads this
    {
      readPos < buf.Length && writePos < buf.Length
    }

    // What was written and not yet output.
    ghost function Unread(): seq<char>
      requires Valid()
      reads this, buf
    {
      Circular(buf[..], readPos, writePos)
    }

    constructor (size: nat)
      requires size > 0
      ensures Valid() && fresh(buf) && buf.Length == size && Unread() == []
    {
      buf := new char[size];
      readPos, writePos, overflowEvents := 0, 0, 0;
    }

    /** OS_ConsoleOutput_Impl: exactly the unread characters, in order, in at most two pieces. */
    method Output() returns (pieces: seq<seq<char>>)
      requires Valid()
      modifies this`readPos
      ensures Valid() && readPos == writePos && Unread() == []
      ensures |pieces| <= 2
      ensures old(Unread()) == if |pieces| == 0 then [] else if |pieces| == 1 then pieces[0] else pieces[0] + pieces[1]
    {
      var startPos, endPos := readPos, writePos;
      pieces := [];
      while startPos != endPos
        invariant startPos < buf.Length
        invariant pieces == [] ==> startPos == readPos
        invariant pieces != [] ==>
                    |pieces| == (if readPos > endPos && startPos == endPos != 0 then 2 else 1)
                    && (startPos == endPos || (startPos == 0 && readPos > endPos))
        invariant |pieces| == 1 ==> pieces[0] == (if readPos > endPos then buf[readPos..] else buf[readPos..endPos])
        invariant |pieces| == 2 ==> pieces == [buf[readPos..], buf[..endPos]]
        decreases if startPos > endPos then 2 else if startPos < endPos then 1 else 0
      {
        var size := if startPos > endPos then buf.Length - startPos else endPos - startPos;
        pieces := pieces + [buf[startPos..startPos + size]];
        startPos := startPos + size;
        if startPos >= buf.Length {
          startPos := 0;
        }
      }
      readPos := startPos;
    }

    /** OS_Console_CopyOut: the string is appended at the given position if there is room for all of it; in
        no case are unread characters overwritten. */
    method CopyOut(str: seq<char>, next: nat) returns (ok: bool, end: nat)
      requires Valid() && next < buf.Length
      requires Distance(readPos, writePos, buf.Length) <= Distance(readPos, next, buf.Length)
      modifies buf
      ensures ok <==> Distance(readPos, next, buf.Length) + |str| < buf.Length
      ensures Unread() == old(Unread())
      ensures ok ==> end < buf.Length && Circular(buf[..], readPos, end) == old(Circular(buf[..], readPos, next)) + str
      ensures ok ==> Distance(readPos, end, buf.Length) == Distance(readPos, next, buf.Length) + |str|
    {
      ghost var before := Circular(buf[..], readPos, next);
      var i := 0;
      end := next;
      while i < |str|
        invariant 0 <= i <= |str| && end < buf.Length
        invariant Distance(readPos, end, buf.Length) == Distance(readPos, next, buf.Length) + i < buf.Length
        invariant Unread() == old(Unread())
        invariant Circular(buf[..], readPos, end) == before + str[..i]
      {
        ghost var b := buf[..];
        buf[end] := str[i];
        assert buf[..] == b[end := str[i]];
        CircularKept(b, readPos, writePos, end, str[i]);
        if Next(end, buf.Length) == readPos {
          return false, next;
        }
        CircularPut(b, readPos, end, str[i]);
        assert str[..i + 1] == str[..i] + [str[i]];
        end := Next(end, buf.Length);
        i := i + 1;
      }
      assert str[..i] == str;
      ok := true;
    }

    /** OS_ConsoleWrite: the device name and the message are put in as a whole, or nothing is; it depends
        only on whether they fit. */
    method Write(name: seq<char>, str: seq<char>) returns (ok: bool)
      requires Valid()
      modifies this`writePos, this`overflowEvents, buf
      ensures Valid() && (ok <==> |old(Unread())| + |name| + |str| < buf.Length)
      ensures Unread() == if ok then old(Unread()) + name + str else old(Unread())
      ensures overflowEvents == if ok then old(overflowEvents) else old(overflowEvents) + 1
    {
      var pending := writePos;
      ok := true;
      if name != [] {
        ok, pending := CopyOut(name, pending);
      }
      if ok {
        ok, pending := CopyOut(str, pending);
      }
      if ok {
        writePos := pending;
      } else {
        overflowEvents := overflowEvents + 1;
      }
    }
  }

  // ---------------------------------------------------------------------------------
  // A writer and the console task at the same time
  // ---------------------------------------------------------------------------------

  // A task inside OS_Console_CopyOut has put the first k characters of its message at pos.
  datatype Writer = NoWriter | Copying(msg: seq<char>, k: nat, pos: nat)

  // The console task inside OS_ConsoleOutput_Impl.
  datatype Drainer = NoDrain | Draining(start: nat, end: nat)

  /** `accepted` are all messages for which OS_ConsoleWrite returned success, `output` is what went to the
      device.  Writers take turns, since they hold the table lock of the consoles. */
  datatype State = State(buf: seq<char>, readPos: nat, writePos: nat, writer: Writer, drainer: Drainer,
                         accepted: seq<char>, output: seq<char>)

  datatype Event = Begin(msg: seq<char>) | CopyChar | Commit | Snapshot | Emit | Retire

  predicate Enabled(s: State, e: Event) {
    match e
    case Begin(_) => s.writer.NoWriter?
    case CopyChar => s.writer.Copying? && s.writer.k < |s.writer.msg| && s.writer.pos < |s.buf|
    case Commit => s.writer.Copying? && s.writer.k == |s.writer.msg|
    case Snapshot => s.drainer.NoDrain?
    case Emit =>
      s.drainer.Draining? && s.drainer.start != s.drainer.end && s.drainer.start < |s.buf| && s.drainer.end < |s.buf|
    case Retire => s.drainer.Draining? && s.drainer.start == s.drainer.end
  }

  function Step(s: State, e: Event): State
    requires Enabled(s, e)
  {
    match e
    case Begin(msg) => s.(writer := Copying(msg, 0, s.writePos))
    case CopyChar =>
      var w := s.writer;
      var s' := s.(buf := s.buf[w.pos := w.msg[w.k]]);
      var pos := Next(w.pos, |s.buf|);
      if pos == s.readPos then s'.(writer := NoWriter) else s'.(writer := Copying(w.msg, w.k + 1, pos))
    case Commit => s.(writer := NoWriter, writePos := s.writer.pos, accepted := s.accepted + s.writer.msg)
    case Snapshot => s.(drainer := Draining(s.readPos, s.writePos))
    case Emit =>
      var d := s.drainer;
      var piece := s.buf[d.start..d.start + PieceSize(d.start, d.end, |s.buf|)];
      s.(output := s.output + piece, drainer := Draining(PieceEnd(d.start, d.end, |s.buf|), d.end))
    case Retire => s.(readPos := s.drainer.start, drainer := NoDrain)
  }

  // The next character to be output.
  function Cursor(s: State): nat {
    if s.drainer.Draining? then s.drainer.start else s.readPos
  }

  predicate Inv(s: State) {
    var n := |s.buf|;
    var far := if s.writer.Copying? then s.writer.pos else s.writePos;
    && s.readPos < n && s.writePos < n && far < n && Cursor(s) < n
    && Distance(s.readPos, Cursor(s), n) <= Distance(s.readPos, s.writePos, n) <= Distance(s.readPos, far, n)
    && (s.drainer.Draining? ==>
          && s.drainer.end < n
          && Distance(s.readPos, Cursor(s), n) <= Distance(s.readPos, s.drainer.end, n)
          && Distance(s.readPos, s.drainer.end, n) <= Distance(s.readPos, s.writePos, n))
    && (s.writer.Copying? ==>
          s.writer.k <= |s.writer.msg| && Circular(s.buf, s.writePos, s.writer.pos) == s.writer.msg[..s.writer.k])
    && s.accepted == s.output + Circular(s.buf, Cursor(s), s.writePos)
  }

  lemma CircularSplit(b: seq<char>, r: nat, c: nat, w: nat)
    requires r < |b| && c < |b| && w < |b|
    requires Distance(r, c, |b|) <= Distance(r, w, |b|)
    ensures Circular(b, r, w) == Circular(b, r, c) + Circular(b, c, w)
  {
  }

  lemma CopyCharInv(s: State)
    requires Inv(s) && Enabled(s, CopyChar)
    ensures Inv(Step(s, CopyChar))
  {
    hide Circular;
    var w, n := s.writer, |s.buf|;
    var c := w.msg[w.k];
    CircularKept(s.buf, Cursor(s), s.writePos, w.pos, c);
    if Next(w.pos, n) != s.readPos {
      CircularPut(s.buf, s.writePos, w.pos, c);
      assert w.msg[..w.k + 1] == w.msg[..w.k] + [c];
    }
  }

  lemma CommitInv(s: State)
    requires Inv(s) && Enabled(s, Commit)
    ensures Inv(Step(s, Commit))
  {
    var w := s.writer;
    assert w.msg[..w.k] == w.msg;
    CircularSplit(s.buf, Cursor(s), s.writePos, w.pos);
    var unread := Circular(s.buf, Cursor(s), s.writePos);
    assert s.output + unread + w.msg == s.output + (unread + w.msg);
  }

  // The size of the next piece of the drain, and the position behind it.
  function PieceSize(start: nat, end: nat, size: nat): int {
    if start > end then size - start else end - start
  }

  function PieceEnd(start: nat, end: nat, size: nat): nat
    requires start < size && end < size
  {
    var next := start + PieceSize(start, end, size);
    if next >= size then 0 else next
  }

  lemma PieceIs(b: seq<char>, start: nat, end: nat)
    requires start < |b| && end < |b| && start != end
    ensures PieceEnd(start, end, |b|) < |b| && start + PieceSize(start, end, |b|) <= |b|
    ensures b[start..start + PieceSize(start, end, |b|)] == Circular(b, start, PieceEnd(start, end, |b|))
  {
  }

  // The position behind the piece lies between the start and the end, seen from the read position.
  lemma PieceBetween(r: nat, start: nat, end: nat, w: nat, n: nat)
    requires r < n && start < n && end < n && w < n && start != end
    requires Distance(r, start, n) <= Distance(r, end, n) <= Distance(r, w, n)
    ensures Distance(r, start, n) <= Distance(r, PieceEnd(start, end, n), n) <= Distance(r, end, n)
    ensures Distance(start, PieceEnd(start, end, n), n) <= Distance(start, w, n)
  {
  }

  lemma EmitInv(s: State)
    requires Inv(s) && Enabled(s, Emit)
    ensures Inv(Step(s, Emit))
  {
    hide Circular, Distance, PieceSize, PieceEnd;
    var d, n := s.drainer, |s.buf|;
    PieceIs(s.buf, d.start, d.end);
    PieceBetween(s.readPos, d.start, d.end, s.writePos, n);
    var next := PieceEnd(d.start, d.end, n);
    CircularSplit(s.buf, d.start, next, s.writePos);
    var piece, rest := Circular(s.buf, d.start, next), Circular(s.buf, next, s.writePos);
    assert s.output + (piece + rest) == s.output + piece + rest;
  }

  lemma StepInv(s: State, e: Event)
    requires Inv(s) && Enabled(s, e)
    ensures Inv(Step(s, e))
  {
    match e
    case CopyChar => CopyCharInv(s);
    case Commit => CommitInv(s);
    case Emit => EmitInv(s);
    case _ =>
  }

  predicate ValidRun(s: State, es: seq<Event>)
    decreases es
  {
    es == [] || (Enabled(s, es[0]) && ValidRun(Step(s, es[0]), es[1..]))
  }

  function Run(s: State, es: seq<Event>): State
    requires ValidRun(s, es)
    decreases es
  {
    if es == [] then s else Run(Step(s, es[0]), es[1..])
  }

  lemma {:induction false} RunInv(s: State, es: seq<Event>)
    requires Inv(s) && ValidRun(s, es)
    ensures Inv(Run(s, es))
    decreases es
  {
    hide Inv, Step;
    if es != [] {
      StepInv(s, es[0]);
      RunInv(Step(s, es[0]), es[1..]);
    }
  }

  /** However writing and draining interleave: the output is a prefix of the accepted messages, complete and
      in order; when the console task is idle with the positions equal, it is all of them. */
  lemma OutputIsAccepted(buf: seq<char>, es: seq<Event>)
    requires buf != [] && ValidRun(State(buf, 0, 0, NoWriter, NoDrain, [], []), es)
    ensures var s := Run(State(buf, 0, 0, NoWriter, NoDrain, [], []), es);
            && s.output <= s.accepted
            && (s.drainer.NoDrain? && s.readPos == s.writePos ==> s.output == s.accepted)
  {
    var s0 := State(buf, 0, 0, NoWriter, NoDrain, [], []);
    RunInv(s0, es);
  }

  // ---------------------------------------------------------------------------------
  // A drain outputs all that was accepted when it began
  // ---------------------------------------------------------------------------------

  // What is still to be output up to the end of the drain makes up the goal.
  predicate Aims(s: State, goal: seq<char>) {
    && s.drainer.Draining? && s.drainer.start < |s.buf| && s.drainer.end < |s.buf|
    && s.output + Circular(s.buf, s.drainer.start, s.drainer.end) == goal
  }

  lemma AimsEmit(s: State, goal: seq<char>)
    requires Inv(s) && Aims(s, goal) && Enabled(s, Emit)
    ensures Aims(Step(s, Emit), goal)
  {
    hide Circular, Distance, PieceSize, PieceEnd;
    var d, n := s.drainer, |s.buf|;
    PieceIs(s.buf, d.start, d.end);
    PieceBetween(s.readPos, d.start, d.end, s.writePos, n);
    PieceWithin(d.start, d.end, n);
    var next := PieceEnd(d.start, d.end, n);
    CircularSplit(s.buf, d.start, next, d.end);
    var piece, rest := Circular(s.buf, d.start, next), Circular(s.buf, next, d.end);
    assert s.output + (piece + rest) == s.output + piece + rest;
  }

  lemma PieceWithin(start: nat, end: nat, n: nat)
    requires start < n && end < n && start != end
    ensures Distance(start, PieceEnd(start, end, n), n) <= Distance(start, end, n)
  {
  }

  lemma AimsStep(s: State, e: Event, goal: seq<char>)
    requires Inv(s) && Aims(s, goal) && Enabled(s, e) && !e.Retire?
    ensures Aims(Step(s, e), goal)
  {
    match e
    case Emit => AimsEmit(s, goal);
    case CopyChar =>
      var d, w := s.drainer, s.writer;
      CircularKept(s.buf, d.start, d.end, w.pos, w.msg[w.k]);
      hide Circular, Distance;
    case _ =>
  }

  /** Whatever the writers do meanwhile: when a drain has come to its end, it has output exactly what had been
      accepted when it began. */
  lemma {:induction false} DrainReaches(s: State, es: seq<Event>, goal: seq<char>)
    requires Inv(s) && Aims(s, goal) && ValidRun(s, es) && forall e :: e in es ==> !e.Retire?
    ensures Aims(Run(s, es), goal) && (Enabled(Run(s, es), Retire) ==> Run(s, es).output == goal)
    decreases es
  {
    hide Inv, Step;
    if es != [] {
      assert es[0] in es;
      AimsStep(s, es[0], goal);
      StepInv(s, es[0]);
      DrainReaches(Step(s, es[0]), es[1..], goal);
    }
  }

  // It begins with that aim.
  lemma DrainBegins(s: State)
    requires Inv(s) && s.drainer.NoDrain?
    ensures Enabled(s, Snapshot) && Inv(Step(s, Snapshot)) && Aims(Step(s, Snapshot), s.accepted)
  {
  }

  /** It comes to its end after two pieces at most. */
  lemma DrainEnds(s: State) returns (es: seq<Event>)
    requires Inv(s) && s.drainer.Draining?
    ensures |es| <= 2 && (forall e :: e in es ==> e == Emit) && ValidRun(s, es) && Enabled(Run(s, es), Retire)
  {
    hide Circular;
    es := [];
    if s.drainer.start != s.drainer.end {
      es := [Emit];
      var s1 := Step(s, Emit);
      assert es[1..] == [] && Run(s, es) == s1;
      if s1.drainer.start != s1.drainer.end {
        es := [Emit, Emit];
        assert es[1..] == [Emit] && [Emit][1..] == [];
        assert Run(s, es) == Step(s1, Emit);
      }
    }
  }

  // ---------------------------------------------------------------------------------
  // A message is accepted if it fits
  // ---------------------------------------------------------------------------------

  lemma DistanceNext(r: nat, p: nat, n: nat)
    requires r < n && p < n
    ensures Next(p, n) < n
    ensures Next(p, n) == r <==> Distance(r, p, n) + 1 == n
    ensures Next(p, n) != r ==> Distance(r, Next(p, n), n) == Distance(r, p, n) + 1
  {
  }

  /** A writer that is not disturbed copies its whole message if and only if that fits before the read position;
      otherwise it gives up. */
  lemma {:induction false} CopyExactly(s: State) returns (es: seq<Event>)
    requires Inv(s) && s.writer.Copying?
    ensures (forall e :: e in es ==> e == CopyChar) && ValidRun(s, es)
    ensures var s', w := Run(s, es), s.writer;
            && Inv(s') && s'.accepted == s.accepted && s'.output == s.output && s'.drainer == s.drainer
            && (if Distance(s.readPos, w.pos, |s.buf|) + (|w.msg| - w.k) < |s.buf|
                then s'.writer.Copying? && s'.writer.msg == w.msg && s'.writer.k == |w.msg|
                else s'.writer.NoWriter?)
    decreases |s.writer.msg| - s.writer.k
  {
    var w, n := s.writer, |s.buf|;
    es := [];
    if w.k < |w.msg| {
      DistanceNext(s.readPos, w.pos, n);
      StepInv(s, CopyChar);
      var s1 := Step(s, CopyChar);
      if s1.writer.NoWriter? {
        es := [CopyChar];
        assert es[1..] == [];
      } else {
        hide Distance, Circular;
        var rest := CopyExactly(s1);
        es := [CopyChar] + rest;
        assert es[1..] == rest;
      }
    } else {
      DistanceBelow(s.readPos, w.pos, n);
    }
  }

  lemma DistanceBelow(r: nat, p: nat, n: nat)
    requires r < n && p < n
    ensures 0 <= Distance(r, p, n) < n
  {
  }

  /** Hence a message written without disturbance is accepted if and only if it fits. */
  lemma MessageExactly(s: State, msg: seq<char>) returns (es: seq<Event>)
    requires Inv(s) && s.writer.NoWriter?
    ensures var fits := Distance(s.readPos, s.writePos, |s.buf|) + |msg| < |s.buf|;
            && ValidRun(s, es) && Run(s, es).writer.NoWriter? && Run(s, es).output == s.output
            && Run(s, es).accepted == if fits then s.accepted + msg else s.accepted
  {
    hide Distance, Circular;
    StepInv(s, Begin(msg));
    var s1 := Step(s, Begin(msg));
    var copies := CopyExactly(s1);
    var s2 := Run(s1, copies);
    hide Inv;
    if s2.writer.Copying? {
      RunMore(s1, copies, Commit);
      es := [Begin(msg)] + (copies + [Commit]);
      assert es[1..] == copies + [Commit];
    } else {
      es := [Begin(msg)] + copies;
      assert es[1..] == copies;
    }
  }

  lemma {:induction false} RunMore(s: State, es: seq<Event>, e: Event)
    requires ValidRun(s, es) && Enabled(Run(s, es), e)
    ensures ValidRun(s, es + [e]) && Run(s, es + [e]) == Step(Run(s, es), e)
    decreases es
  {
    hide Step, Enabled;
    if es == [] {
      assert es + [e] == [e] && [e][1..] == [];
    } else {
      assert (es + [e])[1..] == es[1..] + [e];
      RunMore(Step(s, es[0]), es[1..], e);
    }
  }
}
