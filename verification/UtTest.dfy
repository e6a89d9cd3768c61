/** The test runner of UT assert (ut_assert/src/uttest.c): registration and execution. */
module UtTest {
  import opened Common
  import opened UtList
  import opened UtAssert

  // UTASSERT_GROUP_DEFAULT, _SETUP, _TEST, _TEARDOWN and _MAX
  const GROUP_DEFAULT: nat := 0
  const GROUP_SETUP: nat := 1
  const GROUP_TEST: nat := 2
  const GROUP_TEARDOWN: nat := 3
  const GROUP_MAX: nat := 4

  /** A registered test.  A test function is what it does here: the checks that it performs. */
  datatype Entry = Entry(name: string, setup: Option<seq<Check>>, test: Option<seq<Check>>,
                         teardown: Option<seq<Check>>)

  // What one test contributes to the counters.
  function Phase(f: Option<seq<Check>>, context: nat): seq<nat> {
    if f.Some? then CountedAll(f.value, context) else []
  }

  function Outcomes(e: Entry): seq<nat> {
    Phase(e.setup, TSF) + Phase(e.test, FAILURE) + Phase(e.teardown, TTF)
  }

  function AllOutcomes(es: seq<Entry>): seq<nat> {
    if es == [] then [] else AllOutcomes(es[..|es| - 1]) + Outcomes(es[|es| - 1])
  }

  function Tests(es: seq<Entry>): nat {
    if es == [] then 0 else Tests(es[..|es| - 1]) + (if es[|es| - 1].test.Some? then 1 else 0)
  }

  lemma {:induction false} ContentsAppend<T>(r: seq<Node<T>>, q: seq<Node<T>>)
    ensures Contents(r + q) == Contents(r) + Contents(q)
    decreases r
  {
    if r == [] {
      assert r + q == q;
    } else {
      assert (r + q)[1..] == r[1..] + q;
      ContentsAppend(r[1..], q);
    }
  }

  lemma ContentsOne<T>(n: Node<T>)
    ensures Contents([n]) == if n.data.Some? then [n.data.value] else []
  {
    assert Contents([n][1..]) == [];
  }

  // The part of a list up to and including node i.
  lemma ContentsNext<T>(r: seq<Node<T>>, i: nat)
    requires i < |r|
    ensures Contents(r[..i + 1]) == Contents(r[..i]) + (if r[i].data.Some? then [r[i].data.value] else [])
  {
    assert r[..i + 1] == r[..i] + [r[i]];
    ContentsAppend(r[..i], [r[i]]);
    ContentsOne(r[i]);
  }

  lemma OutcomesNext(es: seq<Entry>, e: Entry)
    ensures AllOutcomes(es + [e]) == AllOutcomes(es) + Outcomes(e)
    ensures Tests(es + [e]) == Tests(es) + (if e.test.Some? then 1 else 0)
  {
    assert (es + [e])[..|es + [e]| - 1] == es;
  }

  ghost function WithTest(es: seq<Entry>): set<nat> {
    set i: nat | i < |es| && es[i].test.Some?
  }

  // The tests are the entries that have a test function.
  lemma {:induction false} TestsExact(es: seq<Entry>)
    ensures Tests(es) == |WithTest(es)|
    decreases es
  {
    if es != [] {
      TestsExact(es[..|es| - 1]);
      WithTestNext(es);
      hide WithTest;
    }
  }

  lemma WithTestNext(es: seq<Entry>)
    requires es != []
    ensures |WithTest(es)| == |WithTest(es[..|es| - 1])| + if es[|es| - 1].test.Some? then 1 else 0
  {
    var before, k: nat := WithTest(es[..|es| - 1]), |es| - 1;
    assert k !in before;
    assert WithTest(es) == if es[k].test.Some? then before + {k} else before;
  }

  method RunPhase(f: Option<seq<Check>>, context: nat, counters: Counters)
    requires counters.Valid()
    modifies counters`context, counters`segmentTotal, counters`pending, counters.segmentCases
    ensures counters.Valid() && counters.pending == old(counters.pending) + Phase(f, context)
  {
    hide Tally, CountedAll;
    counters.SetContext(context);
    if f.Some? {
      counters.Perform(f.value);
    }
  }

  // One entry of the merged list, from UtAssert_BeginTest to UtAssert_EndTest.
  method RunEntry(e: Entry, counters: Counters)
    requires counters.Valid()
    modifies counters, counters.segmentCases, counters.totalCases
    ensures counters.Valid() && counters.segmentCases == old(counters.segmentCases)
    ensures counters.totalCases == old(counters.totalCases) && counters.pending == []
    ensures |Outcomes(e)| < TWO_32 ==> counters.ended == old(counters.ended) + Outcomes(e)
  {
    hide Tally, Phase;
    counters.BeginTest();
    RunPhase(e.setup, TSF, counters);
    RunPhase(e.test, FAILURE, counters);
    RunPhase(e.teardown, TTF, counters);
    assert counters.pending == Outcomes(e);
    counters.EndTest();
  }

  lemma NodesWithOneMore<T>(rings: seq<seq<Node<T>>>, g: nat, node: Node<T>)
    requires g < |rings|
    ensures Nodes(rings[g := rings[g] + [node]]) == Nodes(rings) + {node}
  {
    var rings' := rings[g := rings[g] + [node]];
    forall n ensures n in Nodes(rings') <==> n in Nodes(rings) + {node} {
      if n in Nodes(rings) {
        var k :| 0 <= k < |rings| && n in rings[k];
        assert n in rings'[k];
      }
      if n == node {
        assert n in rings'[g];
      }
    }
  }

  ghost predicate Apart<T>(rings: seq<seq<Node<T>>>) {
    forall g, h :: 0 <= g < |rings| && 0 <= h < |rings| && g != h ==> Disjoint(rings[g], rings[h])
  }

  lemma ApartWithOneMore<T>(rings: seq<seq<Node<T>>>, g: nat, node: Node<T>)
    requires Apart(rings) && g < |rings| && node !in Nodes(rings)
    ensures Apart(rings[g := rings[g] + [node]])
  {
    var rings' := rings[g := rings[g] + [node]];
    forall h, k | 0 <= h < |rings| && 0 <= k < |rings| && h != k ensures Disjoint(rings'[h], rings'[k]) {
      assert Disjoint(rings[h], rings[k]);
      assert forall i :: 0 <= i < |rings[h]| ==> rings[h][i] in Nodes(rings);
      assert forall i :: 0 <= i < |rings[k]| ==> rings[k][i] in Nodes(rings);
    }
  }

  // The groups are rings of their own, each with its head first.
  ghost predicate GroupsOk(heads: seq<Node<Entry>>, rings: seq<seq<Node<Entry>>>)
    reads Nodes(rings)
  {
    && |heads| == GROUP_MAX == |rings| && Apart(rings)
    && (forall g :: 0 <= g < GROUP_MAX ==> Ring(rings[g]) && rings[g][0] == heads[g] && heads[g].data.None?)
  }

  /** UtAssert_Global: the registered tests, by group. */
  class Registry {
    var heads: seq<Node<Entry>>
    var executedCount: nat

    // The rings of the groups.
    ghost var rings: seq<seq<Node<Entry>>>

    ghost predicate Valid()
      reads this, Nodes(rings)
    {
      |heads| == GROUP_MAX == |rings| && GroupsOk(heads, rings)
    }

    // The tests of a group in the order of their registration.
    ghost function Group(g: nat): seq<Entry>
      requires g < |rings|
      reads this
    {
      Contents(rings[g])
    }

    // UtTest_EarlyInit, with the loop of UtList_Create.
    constructor ()
      ensures Valid() && executedCount == 0 && fresh(Nodes(rings))
      ensures forall g :: 0 <= g < GROUP_MAX ==> Group(g) == []
    {
      executedCount := 0;
      heads := [];
      rings := [];
      new;
      while |heads| < GROUP_MAX
        invariant |heads| == |rings| <= GROUP_MAX && executedCount == 0
        invariant forall g :: 0 <= g < |heads| ==> rings[g] == [heads[g]] && heads[g].data.None?
        invariant forall g :: 0 <= g < |heads| ==>
                    heads[g].next == heads[g] && heads[g].prev == heads[g] && !heads[g].freed
        invariant Distinct(heads) && forall g :: 0 <= g < |heads| ==> fresh(heads[g])
        decreases GROUP_MAX - |heads|
      {
        var head := new Node(None);
        heads := heads + [head];
        rings := rings + [[head]];
      }
      forall g | 0 <= g < GROUP_MAX ensures Group(g) == [] {
        ContentsOne(heads[g]);
      }
    }

    // UtTest_AddCommon.  An unknown group is ignored.
    method AddCommon(e: Entry, g: nat)
      requires Valid()
      modifies this`rings, Nodes(rings)
      ensures Valid() && heads == old(heads) && fresh(Nodes(rings) - old(Nodes(rings)))
      ensures g < GROUP_MAX ==> Group(g) == old(Group(g)) + [e]
      ensures forall h :: 0 <= h < GROUP_MAX && h != g ==> Group(h) == old(Group(h))
    {
      hide Contents;
      if g < |heads| {
        rings := AddNode(heads, g, e, rings);
      }
    }
  }

  // UtList_Add of a new node.
  method AddNode(heads: seq<Node<Entry>>, g: nat, e: Entry, ghost rings: seq<seq<Node<Entry>>>)
    returns (ghost rings': seq<seq<Node<Entry>>>)
    requires GroupsOk(heads, rings) && g < GROUP_MAX
    modifies Nodes(rings)
    ensures GroupsOk(heads, rings') && fresh(Nodes(rings') - Nodes(rings))
    ensures |rings'| == |rings| && Contents(rings'[g]) == Contents(rings[g]) + [e]
    ensures forall h :: 0 <= h < GROUP_MAX && h != g ==> rings'[h] == rings[h]
  {
    var node := new Node(Some(e));
    assert node !in Nodes(rings) && GroupsOk(heads, rings);
    hide Nodes, Contents, GroupsOk;
    rings' := rings[g := rings[g] + [node]];
    AddToGroup(heads, g, node, rings);
    NodesWithOneMore(rings, g, node);
    ContentsAppend(rings[g], [node]);
    ContentsOne(node);
  }

  // The node goes before the head of its group.
  method AddToGroup(heads: seq<Node<Entry>>, g: nat, node: Node<Entry>, ghost rings: seq<seq<Node<Entry>>>)
    requires GroupsOk(heads, rings) && g < GROUP_MAX && node !in Nodes(rings) && !node.freed
    modifies Nodes(rings), node
    ensures GroupsOk(heads, rings[g := rings[g] + [node]])
  {
    ghost var r := rings[g];
    RingNodes(rings, g);
    ApartWithOneMore(rings, g, node);
    assert r[After(|r| - 1, |r|)].prev == r[|r| - 1];
    forall h | 0 <= h < GROUP_MAX && h != g
      ensures forall i :: 0 <= i < |rings[h]| ==> rings[h][i] !in r && rings[h][i] != node
    {
      assert Disjoint(rings[h], r);
      RingNodes(rings, h);
    }
    hide Nodes, Apart, Disjoint, Distinct;
    InsertBefore(heads[g], node, r);
    assert forall h :: 0 <= h < GROUP_MAX && h != g ==> Ring(rings[h]);
  }

  lemma RingNodes<T>(rings: seq<seq<Node<T>>>, g: nat)
    requires g < |rings|
    ensures forall i :: 0 <= i < |rings[g]| ==> rings[g][i] in Nodes(rings)
  {
  }

  lemma DisjointNodes<T>(r: seq<Node<T>>, q: seq<Node<T>>)
    requires Disjoint(r, q)
    ensures forall j :: 0 <= j < |q| ==> q[j] !in r
  {
  }

  lemma DisjointJoin<T>(r: seq<Node<T>>, q: seq<Node<T>>, p: seq<Node<T>>)
    requires Disjoint(r, p) && Disjoint(q, p)
    ensures Disjoint(r + q, p)
  {
  }

  method MergeNodes(head1: Node<Entry>, head2: Node<Entry>, ghost r: seq<Node<Entry>>, ghost q: seq<Node<Entry>>)
    requires Ring(r) && Ring(q) && Disjoint(r, q) && r[0] == head1 && q[0] == head2
    modifies r, q
    ensures Ring(r + q)
  {
    assert r[After(|r| - 1, |r|)].prev == r[|r| - 1] && q[After(|q| - 1, |q|)].prev == q[|q| - 1];
    Merge(head1, head2, r, q);
  }

  // UtTest_Run joins the groups into one ring.
  method MergeGroups(heads: seq<Node<Entry>>, ghost r0: seq<Node<Entry>>, ghost r1: seq<Node<Entry>>,
                     ghost r2: seq<Node<Entry>>, ghost r3: seq<Node<Entry>>)
    requires |heads| == GROUP_MAX && Ring(r0) && Ring(r1) && Ring(r2) && Ring(r3)
    requires r0[0] == heads[0] && r1[0] == heads[1] && r2[0] == heads[2] && r3[0] == heads[3]
    requires Disjoint(r0, r1) && Disjoint(r0, r2) && Disjoint(r0, r3)
    requires Disjoint(r1, r2) && Disjoint(r1, r3) && Disjoint(r2, r3)
    modifies r0, r1, r2, r3
    ensures Ring(r0 + r1 + r2 + r3)
  {
    hide Disjoint;
    DisjointNodes(r0, r2);
    DisjointNodes(r0, r3);
    DisjointNodes(r1, r2);
    DisjointNodes(r1, r3);
    DisjointNodes(r2, r3);
    DisjointJoin(r0, r1, r2);
    DisjointJoin(r0, r1, r3);
    DisjointJoin(r0 + r1, r2, r3);
    assert r0 != [] && r1 != [] && r2 != [] && r3 != [] by { NotEmpty(r0); NotEmpty(r1); NotEmpty(r2); NotEmpty(r3); }
    MergeNodes(heads[0], heads[1], r0, r1);
    MergeNodes(heads[0], heads[2], r0 + r1, r2);
    MergeNodes(heads[0], heads[3], r0 + r1 + r2, r3);
  }

  lemma NotEmpty<T>(r: seq<Node<T>>)
    requires Ring(r)
    ensures r != []
  {
  }

  lemma NothingYet()
    ensures AllOutcomes([]) == [] && Tests([]) == 0
  {
  }

  /** The walk over the merged list. */
  method Walk(head: Node<Entry>, counters: Counters, ghost all: seq<Node<Entry>>)
    returns (order: seq<Entry>, executed: nat)
    requires Ring(all) && all[0] == head && head.data.None? && counters.Valid()
    modifies counters, counters.segmentCases, counters.totalCases
    ensures order == Contents(all) && executed == Tests(order)
    ensures counters.Valid() && counters.segmentCases == old(counters.segmentCases)
    ensures counters.totalCases == old(counters.totalCases)
    ensures (forall e :: e in order ==> |Outcomes(e)| < TWO_32) ==>
              counters.ended == old(counters.ended) + AllOutcomes(order)
  {
    hide Tally, Outcomes, Contents, AllOutcomes, Tests;
    NothingYet();
    order, executed := [], 0;
    var node := head.next;
    ghost var i := 1;
    ContentsOne(head);
    assert all[..1] == [head];
    assert node == all[After(0, |all|)];
    while node != head
      invariant Ring(all) && counters.Valid()
      invariant 1 <= i <= |all| && node == all[if i < |all| then i else 0]
      invariant order == Contents(all[..i]) && executed == Tests(order)
      invariant counters.segmentCases == old(counters.segmentCases) && counters.totalCases == old(counters.totalCases)
      invariant (forall e :: e in order ==> |Outcomes(e)| < TWO_32) ==>
                  counters.ended == old(counters.ended) + AllOutcomes(order)
      decreases |all| - i
    {
      ContentsNext(all, i);
      if node.data.Some? {
        var e := node.data.value;
        RunEntry(e, counters);
        OutcomesNext(order, e);
        order := order + [e];
        if e.test.Some? {
          executed := executed + 1;
        }
      }
      assert node.next == all[After(i, |all|)];
      node := node.next;
      i := i + 1;
    }
    assert all[..i] == all;
  }

  lemma HeadsDistinct(reg: Registry)
    requires reg.Valid()
    ensures Distinct(reg.heads)
  {
    forall g, h | 0 <= g < h < GROUP_MAX ensures reg.heads[g] != reg.heads[h] {
      assert Disjoint(reg.rings[g], reg.rings[h]);
      assert reg.rings[g][0] != reg.rings[h][0];
    }
  }

  lemma ContentsFour(r0: seq<Node<Entry>>, r1: seq<Node<Entry>>, r2: seq<Node<Entry>>, r3: seq<Node<Entry>>)
    ensures Contents(r0 + r1 + r2 + r3) == Contents(r0) + Contents(r1) + Contents(r2) + Contents(r3)
  {
    ContentsAppend(r0, r1);
    ContentsAppend(r0 + r1, r2);
    ContentsAppend(r0 + r1 + r2, r3);
  }

  // After the merge there is one ring, and all heads are on it.
  lemma MergedForest(heads: seq<Node<Entry>>, r0: seq<Node<Entry>>, r1: seq<Node<Entry>>,
                     r2: seq<Node<Entry>>, r3: seq<Node<Entry>>)
    requires |heads| == GROUP_MAX && Distinct(heads) && r0 != [] && r1 != [] && r2 != [] && r3 != []
    requires r0[0] == heads[0] && r1[0] == heads[1] && r2[0] == heads[2] && r3[0] == heads[3]
    requires forall g :: 0 <= g < GROUP_MAX ==> heads[g].data.None?
    ensures Forest(heads, [r0 + r1 + r2 + r3], [0], [0, 0, 0, 0])
  {
    var all := r0 + r1 + r2 + r3;
    assert all[0] == heads[0] && all[|r0|] == heads[1];
    assert all[|r0| + |r1|] == heads[2] && all[|r0| + |r1| + |r2|] == heads[3];
  }

  // Walking the merged ring and destroying it.
  method WalkAndDestroy(heads: seq<Node<Entry>>, counters: Counters, ghost all: seq<Node<Entry>>)
    returns (order: seq<Entry>, executed: nat)
    requires Ring(all) && Forest(heads, [all], [0], [0, 0, 0, 0]) && counters.Valid()
    modifies all, counters, counters.segmentCases, counters.totalCases
    ensures order == Contents(all) && executed == Tests(order) && AllGone(all) && counters.Valid()
    ensures (forall e :: e in order ==> |Outcomes(e)| < TWO_32) ==>
              counters.ended == old(counters.ended) + AllOutcomes(order)
  {
    hide Tally, Outcomes, Contents;
    assert [all][0][0] == heads[0] && heads[0].data.None?;
    order, executed := Walk(heads[0], counters, all);
    assert forall n :: n in Nodes([all]) ==> n in all;
    Destroy(heads, [all], [0], [0, 0, 0, 0]);
    assert AllGone([all][0]);
  }

  lemma GoneParts(r0: seq<Node<Entry>>, r1: seq<Node<Entry>>, r2: seq<Node<Entry>>, r3: seq<Node<Entry>>)
    requires AllGone(r0 + r1 + r2 + r3)
    ensures AllGone(r0) && AllGone(r1) && AllGone(r2) && AllGone(r3)
  {
    var all := r0 + r1 + r2 + r3;
    forall j | 0 <= j < |r0| ensures Gone(r0[j]) { assert all[j] == r0[j]; }
    forall j | 0 <= j < |r1| ensures Gone(r1[j]) { assert all[|r0| + j] == r1[j]; }
    forall j | 0 <= j < |r2| ensures Gone(r2[j]) { assert all[|r0| + |r1| + j] == r2[j]; }
    forall j | 0 <= j < |r3| ensures Gone(r3[j]) { assert all[|r0| + |r1| + |r2| + j] == r3[j]; }
  }

  method RunGroups(heads: seq<Node<Entry>>, counters: Counters, ghost r0: seq<Node<Entry>>, ghost r1: seq<Node<Entry>>,
                   ghost r2: seq<Node<Entry>>, ghost r3: seq<Node<Entry>>)
    returns (order: seq<Entry>, executed: nat)
    requires |heads| == GROUP_MAX && Ring(r0) && Ring(r1) && Ring(r2) && Ring(r3) && Distinct(heads)
    requires r0[0] == heads[0] && r1[0] == heads[1] && r2[0] == heads[2] && r3[0] == heads[3]
    requires Disjoint(r0, r1) && Disjoint(r0, r2) && Disjoint(r0, r3)
    requires Disjoint(r1, r2) && Disjoint(r1, r3) && Disjoint(r2, r3)
    requires (forall g :: 0 <= g < GROUP_MAX ==> heads[g].data.None?) && counters.Valid()
    modifies r0, r1, r2, r3, counters, counters.segmentCases, counters.totalCases
    ensures order == Contents(r0) + Contents(r1) + Contents(r2) + Contents(r3) && executed == Tests(order)
    ensures AllGone(r0) && AllGone(r1) && AllGone(r2) && AllGone(r3) && counters.Valid()
    ensures (forall e :: e in order ==> |Outcomes(e)| < TWO_32) ==>
              counters.ended == old(counters.ended) + AllOutcomes(order)
  {
    hide Tally, Outcomes, Contents, Disjoint, Forest, AllGone, Distinct;
    MergedForest(heads, r0, r1, r2, r3);
    ContentsFour(r0, r1, r2, r3);
    MergeGroups(heads, r0, r1, r2, r3);
    order, executed := WalkAndDestroy(heads, counters, r0 + r1 + r2 + r3);
    GoneParts(r0, r1, r2, r3);
  }

  /** The whole run: the setup entries, then the tests, then the teardown entries, each group in the order
      of registration and each entry once; then every entry is freed and no head is; the exit code reports a
      failure exactly when some check failed. */
  method Run(reg: Registry, counters: Counters) returns (order: seq<Entry>, error: bool)
    requires reg.Valid() && counters.Valid()
    modifies reg`executedCount, Nodes(reg.rings), counters, counters.segmentCases, counters.totalCases
    ensures order == old(reg.Group(GROUP_DEFAULT)) + old(reg.Group(GROUP_SETUP))
                   + old(reg.Group(GROUP_TEST)) + old(reg.Group(GROUP_TEARDOWN))
    ensures reg.executedCount == (old(reg.executedCount) + Tests(order)) % TWO_32
    ensures AllGone(reg.rings[0]) && AllGone(reg.rings[1]) && AllGone(reg.rings[2]) && AllGone(reg.rings[3])
    ensures counters.Valid()
    ensures (forall e :: e in order ==> |Outcomes(e)| < TWO_32) ==>
              && counters.ended == old(counters.ended) + AllOutcomes(order)
              && (|counters.ended| < TWO_32 ==>
                    (error <==> FAILURE in counters.ended || TSF in counters.ended || TTF in counters.ended))
  {
    hide Tally, Contents, Outcomes, AllGone, Tests, AllOutcomes, Nodes, Disjoint, Distinct;
    NodesOf(reg);
    HeadsDistinct(reg);
    GroupsApart(reg);
    ghost var r0, r1, r2, r3 := reg.rings[0], reg.rings[1], reg.rings[2], reg.rings[3];
    var executed;
    order, executed := RunGroups(reg.heads, counters, r0, r1, r2, r3);
    error := counters.EndTestRun();
    reg.executedCount := (reg.executedCount + executed) % TWO_32;
  }

  // ---------------------------------------------------------------------------------
  // The whole application
  // ---------------------------------------------------------------------------------

  // What UtTest_Setup does, in any order: it performs checks and registers entries.
  datatype SetupAction = Performs(check: Check) | Registers(entry: Entry, group: nat)

  function ChecksOf(actions: seq<SetupAction>): seq<nat>
    decreases actions
  {
    if actions == [] then [] else
    var last := actions[|actions| - 1];
    ChecksOf(actions[..|actions| - 1]) + if last.Performs? then [Counted(last.check, FAILURE)] else []
  }

  function Entered(action: SetupAction, g: nat): seq<Entry> {
    if action.Registers? && action.group == g then [action.entry] else []
  }

  function Registered(actions: seq<SetupAction>, g: nat): seq<Entry>
    decreases actions
  {
    if actions == [] then [] else Registered(actions[..|actions| - 1], g) + Entered(actions[|actions| - 1], g)
  }

  lemma SetupNext(actions: seq<SetupAction>, i: nat)
    requires i < |actions|
    ensures ChecksOf(actions[..i + 1])
         == ChecksOf(actions[..i]) + if actions[i].Performs? then [Counted(actions[i].check, FAILURE)] else []
    ensures forall g: nat :: Registered(actions[..i + 1], g) == Registered(actions[..i], g) + Entered(actions[i], g)
  {
    assert actions[..i + 1][..i] == actions[..i];
  }

  method Act(action: SetupAction, reg: Registry, counters: Counters)
    requires reg.Valid() && counters.Valid() && counters.context == FAILURE
    modifies reg`rings, Nodes(reg.rings), counters`segmentTotal, counters`pending, counters.segmentCases
    ensures reg.Valid() && counters.Valid() && fresh(Nodes(reg.rings) - old(Nodes(reg.rings)))
    ensures forall g :: 0 <= g < GROUP_MAX ==> reg.Group(g) == old(reg.Group(g)) + Entered(action, g)
    ensures counters.pending
         == old(counters.pending) + if action.Performs? then [Counted(action.check, FAILURE)] else []
  {
    hide Tally, Counted, Contents;
    match action
    case Performs(check) => counters.AssertEx(check);
    case Registers(entry, group) => reg.AddCommon(entry, group);
  }

  // OS_Application_Startup: the setup of the test program is a segment of its own.
  method Startup(actions: seq<SetupAction>) returns (reg: Registry, counters: Counters)
    ensures fresh(reg) && reg.Valid() && fresh(Nodes(reg.rings))
    ensures fresh(counters) && counters.Valid() && fresh(counters.segmentCases) && fresh(counters.totalCases)
    ensures reg.executedCount == 0 && forall g :: 0 <= g < GROUP_MAX ==> reg.Group(g) == Registered(actions, g)
    ensures |ChecksOf(actions)| < TWO_32 ==> counters.ended == ChecksOf(actions)
  {
    hide Tally, Counted, Contents, Entered, GroupsOk;
    reg := new Registry();
    counters := new Counters();
    counters.BeginTest();
    var i := 0;
    while i < |actions|
      invariant 0 <= i <= |actions| && reg.Valid() && counters.Valid() && counters.context == FAILURE
      invariant fresh(Nodes(reg.rings)) && fresh(counters.segmentCases) && fresh(counters.totalCases)
      invariant reg.executedCount == 0 && counters.ended == [] && counters.pending == ChecksOf(actions[..i])
      invariant forall g :: 0 <= g < GROUP_MAX ==> reg.Group(g) == Registered(actions[..i], g)
    {
      SetupNext(actions, i);
      Act(actions[i], reg, counters);
      i := i + 1;
    }
    assert actions[..i] == actions;
    counters.EndTest();
  }

  // ---------------------------------------------------------------------------------
  // Counters and exit code in terms of the checks
  // ---------------------------------------------------------------------------------

  // A check that makes the test program fail.
  predicate Fails(c: Check) {
    !c.expression && (c.caseType.None? || c.caseType.value in {FAILURE, TSF, TTF})
  }

  ghost predicate SomeFails(f: Option<seq<Check>>) {
    f.Some? && exists i :: 0 <= i < |f.value| && Fails(f.value[i])
  }

  ghost predicate EntryFails(e: Entry) {
    SomeFails(e.setup) || SomeFails(e.test) || SomeFails(e.teardown)
  }

  ghost predicate StartFails(actions: seq<SetupAction>) {
    exists i :: 0 <= i < |actions| && actions[i].Performs? && Fails(actions[i].check)
  }

  function Checks(f: Option<seq<Check>>): seq<Check> {
    if f.Some? then f.value else []
  }

  // The checks of the start-up that count under type t, and those of the entries.
  function StartCount(actions: seq<SetupAction>, t: nat): nat
    decreases actions
  {
    if actions == [] then 0 else
    var last := actions[|actions| - 1];
    StartCount(actions[..|actions| - 1], t) + if last.Performs? && CountsAs(last.check, FAILURE, t) then 1 else 0
  }

  function EntryCount(e: Entry, t: nat): nat {
    HowMany(Checks(e.setup), TSF, t) + HowMany(Checks(e.test), FAILURE, t) + HowMany(Checks(e.teardown), TTF, t)
  }

  function AllCount(es: seq<Entry>, t: nat): nat
    decreases es
  {
    if es == [] then 0 else AllCount(es[..|es| - 1], t) + EntryCount(es[|es| - 1], t)
  }

  // How many checks there are.
  function StartChecks(actions: seq<SetupAction>): nat
    decreases actions
  {
    if actions == [] then 0
    else StartChecks(actions[..|actions| - 1]) + if actions[|actions| - 1].Performs? then 1 else 0
  }

  function EntryChecks(e: Entry): nat {
    |Checks(e.setup)| + |Checks(e.test)| + |Checks(e.teardown)|
  }

  function AllChecks(es: seq<Entry>): nat
    decreases es
  {
    if es == [] then 0 else AllChecks(es[..|es| - 1]) + EntryChecks(es[|es| - 1])
  }

  predicate Failing(t: nat) {
    t == FAILURE || t == TSF || t == TTF
  }

  ghost predicate HasFailing(history: seq<nat>) {
    FAILURE in history || TSF in history || TTF in history
  }

  lemma FailingIs(history: seq<nat>)
    ensures HasFailing(history) <==> FAILURE in history || TSF in history || TTF in history
  {
  }

  lemma FailsIs(c: Check, context: nat)
    requires Failing(context)
    ensures Fails(c) <==> Failing(Counted(c, context))
  {
  }

  lemma {:induction false} StartExact(actions: seq<SetupAction>, t: nat)
    ensures Tally(ChecksOf(actions), t) == StartCount(actions, t) && |ChecksOf(actions)| == StartChecks(actions)
    decreases actions
  {
    hide Counted, CountsAs, Tally;
    if actions == [] {
      NoTally(t);
    } else {
      var prev, last := actions[..|actions| - 1], actions[|actions| - 1];
      StartExact(prev, t);
      if last.Performs? {
        TallySnoc(ChecksOf(prev), Counted(last.check, FAILURE), t);
        CountedIs(last.check, FAILURE, t);
      } else {
        assert ChecksOf(prev) + [] == ChecksOf(prev);
      }
    }
  }

  lemma {:induction false} StartFailsExactly(actions: seq<SetupAction>)
    ensures HasFailing(ChecksOf(actions)) <==> StartFails(actions)
    decreases actions
  {
    hide Counted, Fails;
    if actions != [] {
      var prev, last := actions[..|actions| - 1], actions[|actions| - 1];
      StartFailsExactly(prev);
      StartFailsNext(actions);
      hide StartFails;
      if last.Performs? {
        FailsIs(last.check, FAILURE);
      }
    }
  }

  lemma StartFailsNext(actions: seq<SetupAction>)
    requires actions != []
    ensures var last := actions[|actions| - 1];
            StartFails(actions) <==> StartFails(actions[..|actions| - 1]) || (last.Performs? && Fails(last.check))
  {
    hide Fails;
  }

  lemma NoTally(t: nat)
    ensures Tally([], t) == 0
  {
  }

  lemma PhaseExact(f: Option<seq<Check>>, context: nat, t: nat)
    requires Failing(context)
    ensures Tally(Phase(f, context), t) == HowMany(Checks(f), context, t) && |Phase(f, context)| == |Checks(f)|
    ensures HasFailing(Phase(f, context)) <==> SomeFails(f)
  {
    if f.Some? {
      TallyCounted(f.value, context, t);
      InCounted(f.value, context, FAILURE);
      InCounted(f.value, context, TSF);
      InCounted(f.value, context, TTF);
      hide Tally, HowMany, CountedAll;
      FailsCount(f.value, context);
    }
  }

  lemma FailsCount(cs: seq<Check>, context: nat)
    requires Failing(context)
    ensures (exists i :: 0 <= i < |cs| && Fails(cs[i])) <==>
              exists i :: 0 <= i < |cs| && (CountsAs(cs[i], context, FAILURE) || CountsAs(cs[i], context, TSF)
                                            || CountsAs(cs[i], context, TTF))
  {
    forall i | 0 <= i < |cs|
      ensures Fails(cs[i]) <==> CountsAs(cs[i], context, FAILURE) || CountsAs(cs[i], context, TSF)
                                || CountsAs(cs[i], context, TTF)
    {
    }
  }

  lemma EntryExact(e: Entry, t: nat)
    ensures Tally(Outcomes(e), t) == EntryCount(e, t) && |Outcomes(e)| == EntryChecks(e)
    ensures HasFailing(Outcomes(e)) <==> EntryFails(e)
  {
    hide Tally, Phase, HowMany, SomeFails;
    PhaseExact(e.setup, TSF, t);
    PhaseExact(e.test, FAILURE, t);
    PhaseExact(e.teardown, TTF, t);
    TallyAppend(Phase(e.setup, TSF), Phase(e.test, FAILURE), t);
    TallyAppend(Phase(e.setup, TSF) + Phase(e.test, FAILURE), Phase(e.teardown, TTF), t);
  }

  lemma {:induction false} AllExact(es: seq<Entry>, t: nat)
    ensures Tally(AllOutcomes(es), t) == AllCount(es, t) && |AllOutcomes(es)| == AllChecks(es)
    ensures HasFailing(AllOutcomes(es)) <==> exists i :: 0 <= i < |es| && EntryFails(es[i])
    decreases es
  {
    hide Tally, Outcomes, EntryCount, EntryChecks, EntryFails;
    if es != [] {
      var prev, last := es[..|es| - 1], es[|es| - 1];
      AllExact(prev, t);
      EntryExact(last, t);
      TallyAppend(AllOutcomes(prev), Outcomes(last), t);
      assert (exists i :: 0 <= i < |es| && EntryFails(es[i])) <==>
               (exists i :: 0 <= i < |prev| && EntryFails(prev[i])) || EntryFails(last);
    } else {
      NoTally(t);
    }
  }

  lemma {:induction false} EntryWithinAll(es: seq<Entry>, i: nat)
    requires i < |es|
    ensures EntryChecks(es[i]) <= AllChecks(es)
    decreases es
  {
    if i < |es| - 1 {
      EntryWithinAll(es[..|es| - 1], i);
    }
  }

  /** From start-up to exit, for every sequence of registrations and checks: the setup, test and teardown
      entries are visited in this order, each group in the order of registration; the counter of each type is
      the number of checks that count under it, in the context of their phase; the exit code is an error
      exactly when some check failed that names a failing type or no type. */
  method Application(actions: seq<SetupAction>) returns (order: seq<Entry>, error: bool, counters: Counters)
    ensures order == Registered(actions, GROUP_DEFAULT) + Registered(actions, GROUP_SETUP)
                   + Registered(actions, GROUP_TEST) + Registered(actions, GROUP_TEARDOWN)
    ensures counters.Valid()
    ensures StartChecks(actions) + AllChecks(order) < TWO_32 ==>
              && counters.totalTotal == StartChecks(actions) + AllChecks(order)
              && (forall t :: 0 <= t < CASE_MAX ==>
                    counters.totalCases[t] == StartCount(actions, t) + AllCount(order, t))
              && (error <==> StartFails(actions) || exists i :: 0 <= i < |order| && EntryFails(order[i]))
  {
    hide Tally, Outcomes, AllOutcomes, ChecksOf, Registered, EntryFails, StartFails;
    hide StartCount, AllCount, StartChecks, AllChecks, GroupsOk, Nodes, AllGone, Contents, HasFailing;
    var reg;
    reg, counters := Startup(actions);
    order, error := Run(reg, counters);
    if StartChecks(actions) + AllChecks(order) < TWO_32 {
      AllCounted(actions, order);
      FailingIs(counters.ended);
      CountsExact(actions, order, counters.totalCases[..]);
    }
  }

  lemma CountsExact(actions: seq<SetupAction>, order: seq<Entry>, cases: seq<nat>)
    requires |cases| == CASE_MAX && StartChecks(actions) + AllChecks(order) < TWO_32
    requires forall t :: 0 <= t < CASE_MAX ==> cases[t] == Tally(ChecksOf(actions) + AllOutcomes(order), t) % TWO_32
    ensures forall t :: 0 <= t < CASE_MAX ==> cases[t] == StartCount(actions, t) + AllCount(order, t)
  {
    hide Tally, AllOutcomes, ChecksOf, EntryFails, StartFails, StartCount, AllCount, StartChecks, AllChecks;
    AllCounted(actions, order);
    forall t | 0 <= t < CASE_MAX ensures cases[t] == StartCount(actions, t) + AllCount(order, t) {
      CountOf(actions, order, t);
      TallyPositive(ChecksOf(actions) + AllOutcomes(order), t);
    }
  }

  // The bounds that keep the 32-bit counters from wrapping, and the exit code.
  lemma AllCounted(actions: seq<SetupAction>, order: seq<Entry>)
    requires StartChecks(actions) + AllChecks(order) < TWO_32
    ensures |ChecksOf(actions)| < TWO_32 && forall e :: e in order ==> |Outcomes(e)| < TWO_32
    ensures |ChecksOf(actions) + AllOutcomes(order)| == StartChecks(actions) + AllChecks(order)
    ensures HasFailing(ChecksOf(actions) + AllOutcomes(order)) <==>
              StartFails(actions) || exists i :: 0 <= i < |order| && EntryFails(order[i])
  {
    hide Tally, Outcomes, AllOutcomes, ChecksOf, EntryChecks, EntryFails;
    StartExact(actions, 0);
    StartFailsExactly(actions);
    AllExact(order, 0);
    hide StartFails, StartChecks, AllChecks;
    forall e | e in order ensures |Outcomes(e)| < TWO_32 {
      var i :| 0 <= i < |order| && order[i] == e;
      EntryWithinAll(order, i);
      EntryExact(e, 0);
    }
  }

  lemma CountOf(actions: seq<SetupAction>, order: seq<Entry>, t: nat)
    ensures Tally(ChecksOf(actions) + AllOutcomes(order), t) == StartCount(actions, t) + AllCount(order, t)
  {
    hide Tally, AllOutcomes, ChecksOf, EntryFails;
    StartExact(actions, t);
    AllExact(order, t);
    TallyAppend(ChecksOf(actions), AllOutcomes(order), t);
  }

  lemma NodesOf(reg: Registry)
    requires reg.Valid()
    ensures forall n :: n in reg.rings[0] ==> n in Nodes(reg.rings)
    ensures forall n :: n in reg.rings[1] ==> n in Nodes(reg.rings)
    ensures forall n :: n in reg.rings[2] ==> n in Nodes(reg.rings)
    ensures forall n :: n in reg.rings[3] ==> n in Nodes(reg.rings)
  {
  }

  lemma GroupsApart(reg: Registry)
    requires reg.Valid()
    ensures Disjoint(reg.rings[0], reg.rings[1]) && Disjoint(reg.rings[0], reg.rings[2])
    ensures Disjoint(reg.rings[0], reg.rings[3]) && Disjoint(reg.rings[1], reg.rings[2])
    ensures Disjoint(reg.rings[1], reg.rings[3]) && Disjoint(reg.rings[2], reg.rings[3])
    ensures Ring(reg.rings[0]) && Ring(reg.rings[1]) && Ring(reg.rings[2]) && Ring(reg.rings[3])
  {
  }
}
