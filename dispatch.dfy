/** Depth-first lifecycle dispatch (the _node_in_* trampolines). Nodes live in an arena and are
    named by handles; a node's child slots hold handles. Running a hook is recorded as a call of
    its function with the node, so a dispatch is the sequence of calls it makes. */
module Dispatch {
  import opened Config
  import opened Optional
  import opened Methods

  /** The six lifecycle events. */
  datatype Event = Init | Destroy | Awake | Sleep | Process | Render

  /** The external hooks given to nm_node_create; None stands for NULL. */
  datatype Hooks = Hooks(init: Option<Fn>, destroy: Option<Fn>, awake: Option<Fn>,
                         sleep: Option<Fn>, process: Option<Fn>, render: Option<Fn>)

  /** The external hook a node holds for an event. */
  function HookFor(hooks: Hooks, e: Event): Option<Fn> {
    match e
    case Init => hooks.init
    case Destroy => hooks.destroy
    case Awake => hooks.awake
    case Sleep => hooks.sleep
    case Process => hooks.process
    case Render => hooks.render
  }

  type Handle = nat

  /** A node as dispatch sees it: its external hooks and its ChildCapacity child slots. */
  datatype Rec = Rec(hooks: Hooks, children: seq<Option<Handle>>)

  type Arena = seq<Rec>

  /** One run of a hook function with a node as its argument. */
  datatype Call = Call(fn: Fn, node: Handle)

  /** Every node has ChildCapacity slots, every occupied slot names a node of the arena, and
      rank decreases from parent to child, so the child relation has no cycle. The engine does
      not check this; a cycle would make dispatch recurse forever. */
  ghost predicate Ranked(a: Arena, rank: seq<nat>) {
    && |rank| == |a|
    && (forall h | 0 <= h < |a| :: |a[h].children| == ChildCapacity)
    && (forall h, i | 0 <= h < |a| && 0 <= i < |a[h].children| && a[h].children[i].Some? ::
          a[h].children[i].value < |a| && rank[a[h].children[i].value] < rank[h])
  }

  /** The call a node's own external hook makes, if it has one. */
  function Own(a: Arena, e: Event, h: Handle): seq<Call>
    requires h < |a|
  {
    match HookFor(a[h].hooks, e)
    case None => []
    case Some(f) => [Call(f, h)]
  }

  /** The calls of one dispatch of event e at node h: its own hook, then the dispatch at each
      occupied child slot in ascending order. */
  function Trace(a: Arena, rank: seq<nat>, e: Event, h: Handle): seq<Call>
    requires Ranked(a, rank) && h < |a|
    decreases rank[h], 1, 0
  {
    Own(a, e, h) + Slots(a, rank, e, h, 0, ChildCapacity)
  }

  /** The calls made for child slots lo .. hi-1 of node h, in ascending slot order; an empty
      slot makes none. */
  function Slots(a: Arena, rank: seq<nat>, e: Event, h: Handle, lo: nat, hi: nat): seq<Call>
    requires Ranked(a, rank) && h < |a| && hi <= ChildCapacity
    decreases rank[h], 0, hi
  {
    if hi <= lo then []
    else Slots(a, rank, e, h, lo, hi - 1) + SlotCalls(a, rank, e, h, hi - 1)
  }

  /** The calls made for child slot i of node h. */
  function SlotCalls(a: Arena, rank: seq<nat>, e: Event, h: Handle, i: nat): seq<Call>
    requires Ranked(a, rank) && h < |a| && i < ChildCapacity
    decreases rank[h], 0, 0
  {
    match a[h].children[i]
    case None => []
    case Some(c) => Trace(a, rank, e, c)
  }

  /** A trampoline (_node_in_init, _node_in_destroy, _node_in_awake, _node_in_sleep,
      _node_in_process, _node_in_render; nm_node_process and nm_node_render call the last two). */
  method Run(a: Arena, rank: seq<nat>, e: Event, h: Handle) returns (calls: seq<Call>)
    requires Ranked(a, rank) && h < |a|
    ensures calls == Trace(a, rank, e, h)
    decreases rank[h], 1
  {
    var hook := HookFor(a[h].hooks, e);
    if hook.Some? {
      calls := [Call(hook.value, h)];
    } else {
      calls := [];
    }
    for i := 0 to ChildCapacity
      invariant calls == Own(a, e, h) + Slots(a, rank, e, h, 0, i)
    {
      var sub := Visit(a, rank, e, h, i);
      Regroup3(Own(a, e, h), Slots(a, rank, e, h, 0, i), sub);
      calls := calls + sub;
    }
  }

  /** One iteration of a trampoline's child loop: an empty slot is skipped, an occupied one is
      dispatched. */
  method Visit(a: Arena, rank: seq<nat>, e: Event, h: Handle, i: nat) returns (calls: seq<Call>)
    requires Ranked(a, rank) && h < |a| && i < ChildCapacity
    ensures calls == SlotCalls(a, rank, e, h, i)
    decreases rank[h], 0
  {
    if a[h].children[i].None? {
      return [];
    }
    ChildRanked(a, rank, h, i);
    calls := Run(a, rank, e, a[h].children[i].value);
  }

  // ---------------------------------------------------------------------------------------
  // Shape of a dispatch

  /** An occupied child slot names a node of the arena of strictly lower rank. */
  lemma ChildRanked(a: Arena, rank: seq<nat>, h: Handle, i: nat)
    requires Ranked(a, rank) && h < |a| && i < ChildCapacity && a[h].children[i].Some?
    ensures a[h].children[i].value < |a| && rank[a[h].children[i].value] < rank[h]
  {
  }

  /** The slot calls of a range split at any point in between. */
  lemma {:induction false} SlotsSplit(a: Arena, rank: seq<nat>, e: Event, h: Handle, lo: nat, mid: nat, hi: nat)
    requires Ranked(a, rank) && h < |a| && lo <= mid <= hi <= ChildCapacity
    ensures Slots(a, rank, e, h, lo, hi) == Slots(a, rank, e, h, lo, mid) + Slots(a, rank, e, h, mid, hi)
    decreases hi
  {
    if mid < hi {
      SlotsSplit(a, rank, e, h, lo, mid, hi - 1);
    }
  }

  /** Empty child slots contribute nothing. */
  lemma {:induction false} EmptySlotsSkipped(a: Arena, rank: seq<nat>, e: Event, h: Handle, lo: nat, hi: nat)
    requires Ranked(a, rank) && h < |a| && hi <= ChildCapacity
    requires forall i | lo <= i < hi :: a[h].children[i].None?
    ensures Slots(a, rank, e, h, lo, hi) == []
    decreases hi
  {
    if lo < hi {
      EmptySlotsSkipped(a, rank, e, h, lo, hi - 1);
    }
  }

  /** The slot calls of a range that holds one occupied slot are that child's dispatch. */
  lemma OneSlot(a: Arena, rank: seq<nat>, e: Event, h: Handle, i: nat)
    requires Ranked(a, rank) && h < |a| && i < ChildCapacity
    ensures Slots(a, rank, e, h, i, i + 1) == SlotCalls(a, rank, e, h, i)
  {
    assert Slots(a, rank, e, h, i, i) == [];
  }

  /** The slot calls of lo .. hi-1 around an inner slot i. */
  lemma SlotsAround(a: Arena, rank: seq<nat>, e: Event, h: Handle, lo: nat, i: nat, hi: nat)
    requires Ranked(a, rank) && h < |a| && lo <= i < hi <= ChildCapacity
    ensures Slots(a, rank, e, h, lo, hi) ==
      Slots(a, rank, e, h, lo, i) + SlotCalls(a, rank, e, h, i) + Slots(a, rank, e, h, i + 1, hi)
  {
    SlotsSplit(a, rank, e, h, lo, i, hi);
    SlotsSplit(a, rank, e, h, i, i + 1, hi);
    OneSlot(a, rank, e, h, i);
    Regroup3(Slots(a, rank, e, h, lo, i), SlotCalls(a, rank, e, h, i), Slots(a, rank, e, h, i + 1, hi));
  }

  /** Every occupied child slot is dispatched, whether or not the node has a hook for the event:
      the child's whole dispatch is a contiguous part of the parent's, after the calls of the
      lower slots and before those of the higher ones. */
  lemma ChildDispatched(a: Arena, rank: seq<nat>, e: Event, h: Handle, i: nat)
    requires Ranked(a, rank) && h < |a| && i < ChildCapacity && a[h].children[i].Some?
    ensures Trace(a, rank, e, h) ==
      Own(a, e, h) + Slots(a, rank, e, h, 0, i) + Trace(a, rank, e, a[h].children[i].value)
        + Slots(a, rank, e, h, i + 1, ChildCapacity)
  {
    SlotsAround(a, rank, e, h, 0, i, ChildCapacity);
    OccupiedSlot(a, rank, e, h, i);
    Regroup4(Own(a, e, h), Slots(a, rank, e, h, 0, i), Trace(a, rank, e, a[h].children[i].value),
      Slots(a, rank, e, h, i + 1, ChildCapacity));
  }

  /** Children are visited in ascending slot order: the dispatch at a lower occupied slot comes
      wholly before the dispatch at a higher one, with the slots between them in the middle. */
  lemma ChildrenInSlotOrder(a: Arena, rank: seq<nat>, e: Event, h: Handle, i: nat, j: nat)
    requires Ranked(a, rank) && h < |a| && i < j < ChildCapacity
    requires a[h].children[i].Some? && a[h].children[j].Some?
    ensures Trace(a, rank, e, h) ==
      Own(a, e, h) + Slots(a, rank, e, h, 0, i) + Trace(a, rank, e, a[h].children[i].value)
        + Slots(a, rank, e, h, i + 1, j) + Trace(a, rank, e, a[h].children[j].value)
        + Slots(a, rank, e, h, j + 1, ChildCapacity)
  {
    ChildDispatched(a, rank, e, h, i);
    SlotsAround(a, rank, e, h, i + 1, j, ChildCapacity);
    OccupiedSlot(a, rank, e, h, j);
    Regroup4(Own(a, e, h) + Slots(a, rank, e, h, 0, i) + Trace(a, rank, e, a[h].children[i].value),
      Slots(a, rank, e, h, i + 1, j), Trace(a, rank, e, a[h].children[j].value),
      Slots(a, rank, e, h, j + 1, ChildCapacity));
  }

  /** An occupied slot contributes exactly its child's dispatch. */
  lemma OccupiedSlot(a: Arena, rank: seq<nat>, e: Event, h: Handle, j: nat)
    requires Ranked(a, rank) && h < |a| && j < ChildCapacity && a[h].children[j].Some?
    ensures SlotCalls(a, rank, e, h, j) == Trace(a, rank, e, a[h].children[j].value)
  {
  }

  /** Regrouping a concatenation of three sequences. */
  lemma Regroup3<T>(p: seq<T>, q: seq<T>, r: seq<T>)
    ensures p + (q + r) == p + q + r
  {
  }

  /** Regrouping a concatenation of four sequences. */
  lemma Regroup4<T>(p: seq<T>, q: seq<T>, r: seq<T>, s: seq<T>)
    ensures p + (q + r + s) == p + q + r + s
  {
  }

  // ---------------------------------------------------------------------------------------
  // Which calls a dispatch makes

  /** d is h, or lies below h through occupied child slots. */
  ghost predicate Below(a: Arena, rank: seq<nat>, h: Handle, d: Handle)
    requires Ranked(a, rank) && h < |a|
    decreases rank[h]
  {
    h == d || exists i | 0 <= i < ChildCapacity :: a[h].children[i].Some? && Below(a, rank, a[h].children[i].value, d)
  }

  /** The call runs the hook that its node holds for event e. */
  ghost predicate HookCall(a: Arena, e: Event, c: Call) {
    c.node < |a| && HookFor(a[c.node].hooks, e) == Some(c.fn)
  }

  /** A dispatch at h runs only hooks for e of nodes at or below h. */
  lemma {:induction false} TraceSound(a: Arena, rank: seq<nat>, e: Event, h: Handle)
    requires Ranked(a, rank) && h < |a|
    ensures forall k | 0 <= k < |Trace(a, rank, e, h)| ::
      HookCall(a, e, Trace(a, rank, e, h)[k]) && Below(a, rank, h, Trace(a, rank, e, h)[k].node)
    decreases rank[h], 1, 0
  {
    SlotsSound(a, rank, e, h, 0, ChildCapacity);
  }

  /** The calls made for child slots run only hooks of nodes strictly below h. */
  lemma {:induction false} SlotsSound(a: Arena, rank: seq<nat>, e: Event, h: Handle, lo: nat, hi: nat)
    requires Ranked(a, rank) && h < |a| && hi <= ChildCapacity
    ensures forall k | 0 <= k < |Slots(a, rank, e, h, lo, hi)| ::
      var c := Slots(a, rank, e, h, lo, hi)[k];
      HookCall(a, e, c) && Below(a, rank, h, c.node) && c.node < |a| && rank[c.node] < rank[h]
    decreases rank[h], 0, hi
  {
    if lo < hi {
      SlotsSound(a, rank, e, h, lo, hi - 1);
      var i := hi - 1;
      if a[h].children[i].Some? {
        var ch := a[h].children[i].value;
        TraceSound(a, rank, e, ch);
        TraceBelowRank(a, rank, e, ch);
        var s := Trace(a, rank, e, ch);
        forall k | 0 <= k < |s|
          ensures Below(a, rank, h, s[k].node)
        {
          assert a[h].children[i].Some? && Below(a, rank, a[h].children[i].value, s[k].node);
        }
      }
    }
  }

  /** Every node a dispatch at h calls has rank at most h's. */
  lemma {:induction false} TraceBelowRank(a: Arena, rank: seq<nat>, e: Event, h: Handle)
    requires Ranked(a, rank) && h < |a|
    ensures forall k | 0 <= k < |Trace(a, rank, e, h)| ::
      Trace(a, rank, e, h)[k].node < |a| && rank[Trace(a, rank, e, h)[k].node] <= rank[h]
    decreases rank[h], 1, 0
  {
    SlotsBelowRank(a, rank, e, h, 0, ChildCapacity);
  }

  lemma {:induction false} SlotsBelowRank(a: Arena, rank: seq<nat>, e: Event, h: Handle, lo: nat, hi: nat)
    requires Ranked(a, rank) && h < |a| && hi <= ChildCapacity
    ensures forall k | 0 <= k < |Slots(a, rank, e, h, lo, hi)| ::
      Slots(a, rank, e, h, lo, hi)[k].node < |a| && rank[Slots(a, rank, e, h, lo, hi)[k].node] < rank[h]
    decreases rank[h], 0, hi
  {
    if lo < hi {
      SlotsBelowRank(a, rank, e, h, lo, hi - 1);
      var p, q := Slots(a, rank, e, h, lo, hi - 1), SlotCalls(a, rank, e, h, hi - 1);
      if a[h].children[hi - 1].Some? {
        var c := a[h].children[hi - 1].value;
        TraceBelowRank(a, rank, e, c);
        assert q == Trace(a, rank, e, c) && rank[c] < rank[h];
      }
      assert forall k | 0 <= k < |q| :: q[k].node < |a| && rank[q[k].node] < rank[h];
      assert Slots(a, rank, e, h, lo, hi) == p + q;
    }
  }

  /** Pre-order: when h has a hook for e, the dispatch at h runs it first, and every later call
      is on a node strictly below h. */
  lemma OwnHookFirst(a: Arena, rank: seq<nat>, e: Event, h: Handle)
    requires Ranked(a, rank) && h < |a| && HookFor(a[h].hooks, e).Some?
    ensures |Trace(a, rank, e, h)| >= 1
    ensures Trace(a, rank, e, h)[0] == Call(HookFor(a[h].hooks, e).value, h)
    ensures forall k | 1 <= k < |Trace(a, rank, e, h)| ::
      Trace(a, rank, e, h)[k].node != h && Below(a, rank, h, Trace(a, rank, e, h)[k].node)
  {
    SlotsSound(a, rank, e, h, 0, ChildCapacity);
    var s := Slots(a, rank, e, h, 0, ChildCapacity);
    assert Trace(a, rank, e, h) == [Call(HookFor(a[h].hooks, e).value, h)] + s;
    forall k | 1 <= k < |Trace(a, rank, e, h)|
      ensures Trace(a, rank, e, h)[k] == s[k - 1]
    {
    }
  }

  /** A dispatch at h runs the hook for e of every node at or below h that has one. */
  lemma {:induction false} TraceComplete(a: Arena, rank: seq<nat>, e: Event, h: Handle, d: Handle)
    requires Ranked(a, rank) && h < |a| && Below(a, rank, h, d) && d < |a| && HookFor(a[d].hooks, e).Some?
    ensures Call(HookFor(a[d].hooks, e).value, d) in Trace(a, rank, e, h)
    decreases rank[h]
  {
    var call := Call(HookFor(a[d].hooks, e).value, d);
    if h == d {
      assert Trace(a, rank, e, h)[0] == call;
    } else {
      var i :| 0 <= i < ChildCapacity && a[h].children[i].Some? && Below(a, rank, a[h].children[i].value, d);
      TraceComplete(a, rank, e, a[h].children[i].value, d);
      ChildDispatched(a, rank, e, h, i);
      var x := Own(a, e, h) + Slots(a, rank, e, h, 0, i);
      var k :| 0 <= k < |Trace(a, rank, e, a[h].children[i].value)| && Trace(a, rank, e, a[h].children[i].value)[k] == call;
      assert Trace(a, rank, e, h)[|x| + k] == call;
    }
  }

  /** A node with no children: its dispatch is its own hook alone. */
  lemma Childless(a: Arena, rank: seq<nat>, e: Event, h: Handle)
    requires Ranked(a, rank) && h < |a| && forall i | 0 <= i < ChildCapacity :: a[h].children[i].None?
    ensures Trace(a, rank, e, h) == Own(a, e, h)
  {
    EmptySlotsSkipped(a, rank, e, h, 0, ChildCapacity);
  }

  /** A node with children in slots 0 and 1 only, both childless: the dispatch runs the parent's
      hook, then the hook of the child in slot 0, then that of the child in slot 1. */
  lemma TwoChildren(a: Arena, rank: seq<nat>, e: Event, h: Handle)
    requires Ranked(a, rank) && h < |a|
    requires a[h].children[0].Some? && a[h].children[1].Some?
    requires forall i | 2 <= i < ChildCapacity :: a[h].children[i].None?
    requires forall i | 0 <= i < ChildCapacity :: a[a[h].children[0].value].children[i].None?
    requires forall i | 0 <= i < ChildCapacity :: a[a[h].children[1].value].children[i].None?
    ensures Trace(a, rank, e, h) ==
      Own(a, e, h) + Own(a, e, a[h].children[0].value) + Own(a, e, a[h].children[1].value)
  {
    SlotsSplit(a, rank, e, h, 0, 2, ChildCapacity);
    EmptySlotsSkipped(a, rank, e, h, 2, ChildCapacity);
    Childless(a, rank, e, a[h].children[0].value);
    Childless(a, rank, e, a[h].children[1].value);
    OneSlot(a, rank, e, h, 0);
    SlotsSplit(a, rank, e, h, 0, 1, 2);
    OneSlot(a, rank, e, h, 1);
  }

  /** The arena of one node that has the given hooks and no children, at handle 0. */
  function Lone(hooks: Hooks): (a: Arena)
    ensures Ranked(a, [0]) && |a| == 1
  {
    [Rec(hooks, seq(ChildCapacity, _ => None))]
  }
}
