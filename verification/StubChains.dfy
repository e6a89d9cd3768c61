/**
 The table as a family of chains: for each key and each kind of entry, the data of the
 matching entries in probe order.  Every operation of the table is characterised by what it
 does to the chains.
 */
module StubChains {
  import opened StubTable

  // The chain of (key, kind) restricted to the probe distances in [lo, hi).
  ghost function Range(s: Slots, key: nat, kind: Kind, lo: nat, hi: nat): seq<Data>
    requires lo <= hi <= SLOTS
    decreases hi - lo
  {
    if lo == hi then [] else Here(s[SlotAt(key, lo)], key, kind) + Range(s, key, kind, lo + 1, hi)
  }

  ghost function Here(e: Entry, key: nat, kind: Kind): seq<Data> {
    if Matches(e, key, kind) then [e.data] else []
  }

  ghost function Chain(s: Slots, key: nat, kind: Kind): seq<Data> {
    Range(s, key, kind, 0, |s|)
  }

  lemma {:induction false} RangeSplit(s: Slots, key: nat, kind: Kind, lo: nat, mid: nat, hi: nat)
    requires lo <= mid <= hi <= SLOTS
    ensures Range(s, key, kind, lo, hi) == Range(s, key, kind, lo, mid) + Range(s, key, kind, mid, hi)
    decreases mid - lo
  {
    hide Here;
    if lo < mid {
      RangeSplit(s, key, kind, lo + 1, mid, hi);
      var here := Here(s[SlotAt(key, lo)], key, kind);
      var front, back := Range(s, key, kind, lo + 1, mid), Range(s, key, kind, mid, hi);
      assert here + (front + back) == here + front + back;
    }
  }

  // A write at slot i does not show in a range that the slot's probe distance is outside of.
  lemma {:induction false} WriteFrame(s: Slots, i: nat, e: Entry, key: nat, kind: Kind, lo: nat, hi: nat)
    requires i < SLOTS && lo <= hi <= SLOTS && !(lo <= DistOf(key, i) < hi)
    ensures Range(s[i := e], key, kind, lo, hi) == Range(s, key, kind, lo, hi)
    decreases hi - lo
  {
    if lo < hi {
      WriteFrame(s, i, e, key, kind, lo + 1, hi);
    }
  }

  lemma {:induction false} RangeEmpty(s: Slots, key: nat, kind: Kind, lo: nat, hi: nat)
    requires lo <= hi <= SLOTS
    requires forall d :: lo <= d < hi ==> !Matches(s[SlotAt(key, d)], key, kind)
    ensures Range(s, key, kind, lo, hi) == []
    decreases hi - lo
  {
    if lo < hi {
      RangeEmpty(s, key, kind, lo + 1, hi);
    }
  }

  // The range that starts with slot i.
  lemma RangeFrom(s: Slots, key: nat, kind: Kind, i: nat)
    requires i < SLOTS
    ensures var d := DistOf(key, i);
            Range(s, key, kind, d, |s|) == Here(s[i], key, kind) + Range(s, key, kind, d + 1, |s|)
  {
    assert SlotAt(key, DistOf(key, i)) == i;
  }

  // The chain around slot i.
  lemma ChainAt(s: Slots, i: nat, key: nat, kind: Kind) returns (before: seq<Data>, after: seq<Data>)
    requires i < SLOTS
    ensures before == Range(s, key, kind, 0, DistOf(key, i)) && after == Range(s, key, kind, DistOf(key, i) + 1, |s|)
    ensures Chain(s, key, kind) == before + Here(s[i], key, kind) + after
  {
    hide Range, Here;
    var d := DistOf(key, i);
    before, after := Range(s, key, kind, 0, d), Range(s, key, kind, d + 1, |s|);
    RangeSplit(s, key, kind, 0, d, |s|);
    RangeFrom(s, key, kind, i);
    var here := Here(s[i], key, kind);
    assert before + (here + after) == before + here + after;
  }

  // Two different matching slots make a chain of at least two.
  lemma TwoEntries(s: Slots, key: nat, kind: Kind, i: nat, j: nat)
    requires i < SLOTS && j < SLOTS && Matches(s[i], key, kind) && Matches(s[j], key, kind)
    requires DistOf(key, i) < DistOf(key, j)
    ensures |Chain(s, key, kind)| >= 2
  {
    hide Chain, Range;
    var d, e := DistOf(key, i), DistOf(key, j);
    var before, after := ChainAt(s, i, key, kind);
    RangeSplit(s, key, kind, d + 1, e, |s|);
    RangeFrom(s, key, kind, j);
  }

  lemma WriteAt(s: Slots, i: nat, e: Entry, key: nat, kind: Kind) returns (before: seq<Data>, after: seq<Data>)
    requires i < SLOTS
    ensures before == Range(s, key, kind, 0, DistOf(key, i))
    ensures Chain(s, key, kind) == before + Here(s[i], key, kind) + after
    ensures Chain(s[i := e], key, kind) == before + Here(e, key, kind) + after
  {
    hide Chain, Range, Here;
    before, after := ChainAt(s, i, key, kind);
    var before', after' := ChainAt(s[i := e], i, key, kind);
    WriteFrame(s, i, e, key, kind, 0, DistOf(key, i));
    WriteFrame(s, i, e, key, kind, DistOf(key, i) + 1, |s|);
  }

  // All chains but one are kept.
  ghost predicate OthersKept(s: Slots, s': Slots, key: nat, kind: Kind) {
    forall k: nat, kd: Kind :: (k != key || kd != kind) && !kd.Unused? ==> Chain(s', k, kd) == Chain(s, k, kd)
  }

  lemma WriteOthers(s: Slots, i: nat, e: Entry, key: nat, kind: Kind)
    requires i < SLOTS && !kind.Unused?
    requires s[i].kind.Unused? || Matches(s[i], key, kind)
    requires e.kind.Unused? || Matches(e, key, kind)
    ensures OthersKept(s, s[i := e], key, kind)
  {
    hide Chain, Range;
    forall k: nat, kd: Kind | (k != key || kd != kind) && !kd.Unused?
      ensures Chain(s[i := e], k, kd) == Chain(s, k, kd)
    {
      var before, after := WriteAt(s, i, e, k, kd);
    }
  }

  // Finding is looking at the head of the chain.
  lemma FindNone(s: Slots, key: nat, kind: Kind)
    requires Find(s, key, kind).None?
    ensures Chain(s, key, kind) == []
  {
    RangeEmpty(s, key, kind, 0, |s|);
  }

  lemma FindSome(s: Slots, key: nat, kind: Kind)
    requires Find(s, key, kind).Some?
    ensures Range(s, key, kind, 0, DistOf(key, Find(s, key, kind).value)) == []
    ensures Chain(s, key, kind) != [] && Chain(s, key, kind)[0] == s[Find(s, key, kind).value].data
  {
    var d := First(s, key, kind, 0, |s|);
    hide Chain, Range;
    RangeEmpty(s, key, kind, 0, d);
    var before, after := ChainAt(s, Find(s, key, kind).value, key, kind);
  }

  // Clearing the found entry drops the head of its chain.
  lemma ClearHead(s: Slots, key: nat, kind: Kind)
    requires !kind.Unused? && Find(s, key, kind).Some?
    ensures var s' := s[Find(s, key, kind).value := EMPTY];
            && Chain(s, key, kind) != [] && Chain(s', key, kind) == Chain(s, key, kind)[1..]
            && OthersKept(s, s', key, kind)
  {
    hide Chain, Range, Find;
    var i := Find(s, key, kind).value;
    FindSome(s, key, kind);
    var before, after := WriteAt(s, i, EMPTY, key, kind);
    WriteOthers(s, i, EMPTY, key, kind);
  }

  ghost function NewHead<T>(c: seq<T>, x: T): seq<T>
    requires c != []
  {
    [x] + c[1..]
  }

  // Rewriting the found entry replaces the head of its chain.
  lemma ReplaceHead(s: Slots, key: nat, kind: Kind, data: Data)
    requires !kind.Unused? && Find(s, key, kind).Some?
    ensures var i := Find(s, key, kind).value;
            var s' := s[i := Entry(kind, key, data)];
            && Chain(s, key, kind) != [] && Chain(s, key, kind)[0] == s[i].data
            && Chain(s', key, kind) == NewHead(Chain(s, key, kind), data)
            && OthersKept(s, s', key, kind)
  {
    hide Chain, Range, Find;
    var i := Find(s, key, kind).value;
    FindSome(s, key, kind);
    var before, after := WriteAt(s, i, Entry(kind, key, data), key, kind);
    WriteOthers(s, i, Entry(kind, key, data), key, kind);
  }

  // How many entries of the chain lie ahead of the first unused slot, in probe order.
  ghost function Place(s: Slots, key: nat, kind: Kind): nat {
    |Range(s, key, kind, 0, First(s, key, Unused, 0, |s|))|
  }

  ghost function Inserted<T>(c: seq<T>, p: nat, x: T): seq<T>
    requires p <= |c|
  {
    c[..p] + [x] + c[p..]
  }

  lemma InsertedAt<T>(c: seq<T>, p: nat, x: T)
    requires p <= |c|
    ensures |Inserted(c, p, x)| == |c| + 1
    ensures forall j :: 0 <= j < p ==> Inserted(c, p, x)[j] == c[j]
    ensures Inserted(c, p, x)[p] == x
    ensures forall j :: p < j <= |c| ==> Inserted(c, p, x)[j] == c[j - 1]
  {
  }

  lemma InsertedMembers<T>(c: seq<T>, p: nat, x: T, y: T)
    requires p <= |c|
    ensures y in Inserted(c, p, x) <==> y == x || y in c
  {
    assert c == c[..p] + c[p..];
  }

  lemma InsertedSplit<T>(before: seq<T>, after: seq<T>, x: T)
    ensures before + [x] + after == Inserted(before + after, |before|, x)
  {
  }

  lemma InsertChain(s: Slots, i: nat, key: nat, kind: Kind, data: Data) returns (before: seq<Data>, after: seq<Data>)
    requires i < SLOTS && s[i].kind.Unused? && !kind.Unused?
    ensures before == Range(s, key, kind, 0, DistOf(key, i))
    ensures Chain(s, key, kind) == before + after
    ensures Chain(s[i := Entry(kind, key, data)], key, kind) == before + [data] + after
  {
    hide Chain, Range;
    before, after := WriteAt(s, i, Entry(kind, key, data), key, kind);
    assert before + [] == before;
  }

  // A new entry enters its chain at the place of the first unused slot.
  lemma InsertNew(s: Slots, key: nat, kind: Kind, data: Data)
    requires !kind.Unused? && Find(s, key, Unused).Some?
    ensures Place(s, key, kind) <= |Chain(s, key, kind)|
    ensures var s' := s[Find(s, key, Unused).value := Entry(kind, key, data)];
            && Chain(s', key, kind) == Inserted(Chain(s, key, kind), Place(s, key, kind), data)
            && OthersKept(s, s', key, kind)
  {
    hide Chain, Range;
    var i := Find(s, key, Unused).value;
    var before, after := InsertChain(s, i, key, kind, data);
    InsertedSplit(before, after, data);
    WriteOthers(s, i, Entry(kind, key, data), key, kind);
  }
}
