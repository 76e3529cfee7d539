/** The node machine (struct node_machine_t) over the dispatch arena: a root node whose process
    and render hooks forward to the current state, a table of state slots and the current state.
    No operation of the engine ever sets the current state. */
module NodeMachine {
  import opened Config
  import opened Optional
  import opened Methods
  import opened Dispatch

  datatype Machine = Machine(root: Handle, states: seq<Option<Handle>>, current: Option<Handle>)

  /** The hooks nm_node_machine_create gives the root: process and render only, both forwarders. */
  const ForwarderHooks: Hooks := Hooks(None, None, None, None, Some(MachineProcessFn), Some(MachineRenderFn))

  /** The root's forwarder for a machine event. */
  function ForwarderFor(e: Event): Fn
    requires e == Process || e == Render
  {
    if e == Process then MachineProcessFn else MachineRenderFn
  }

  /** nm_node_machine_create: the root is a new node appended to the arena, with no children and
      the forwarder hooks; every state slot is empty and there is no current state. */
  function CreateMachine(a: Arena): (r: (Arena, Machine))
    ensures |r.0| == |a| + 1 && r.0[..|a|] == a
    ensures r.1.root == |a| && r.0[|a|].hooks == ForwarderHooks
    ensures |r.0[|a|].children| == ChildCapacity && forall i | 0 <= i < ChildCapacity :: r.0[|a|].children[i].None?
    ensures |r.1.states| == StateCapacity && forall i | 0 <= i < StateCapacity :: r.1.states[i].None?
    ensures r.1.current.None?
  {
    (a + [Rec(ForwarderHooks, seq(ChildCapacity, _ => None))], Machine(|a|, seq(StateCapacity, _ => None), None))
  }

  /** nm_node_machine_get_root. */
  function GetRoot(m: Machine): (r: Handle)
    ensures r == m.root
  {
    m.root
  }

  /** The root is a node of the arena with the forwarder hooks, and the current state, if any, is
      a node of the arena. */
  ghost predicate Wired(a: Arena, rank: seq<nat>, m: Machine) {
    && Ranked(a, rank) && m.root < |a| && a[m.root].hooks == ForwarderHooks
    && (m.current.Some? ==> m.current.value < |a|)
  }

  /** _node_machine_in_process and _node_machine_in_render: the dispatch at the current state,
      or nothing when there is none. */
  function Forward(a: Arena, rank: seq<nat>, m: Machine, e: Event): seq<Call>
    requires Wired(a, rank, m)
  {
    match m.current
    case None => []
    case Some(s) => Trace(a, rank, e, s)
  }

  /** nm_node_machine_process (Process) and nm_node_machine_render (Render): the root's dispatch,
      with the forwarder's call replaced by the calls the forwarder makes. */
  function MachineDispatch(a: Arena, rank: seq<nat>, m: Machine, e: Event): seq<Call>
    requires Wired(a, rank, m) && (e == Process || e == Render)
  {
    Forward(a, rank, m, e) + Slots(a, rank, e, m.root, 0, ChildCapacity)
  }

  /** The root's own dispatch runs the forwarder first; the machine's dispatch is what the
      forwarder runs followed by the rest of the root's dispatch. */
  lemma RootRunsForwarderFirst(a: Arena, rank: seq<nat>, m: Machine, e: Event)
    requires Wired(a, rank, m) && (e == Process || e == Render)
    ensures |Trace(a, rank, e, m.root)| >= 1
    ensures Trace(a, rank, e, m.root)[0] == Call(ForwarderFor(e), m.root)
    ensures MachineDispatch(a, rank, m, e) == Forward(a, rank, m, e) + Trace(a, rank, e, m.root)[1..]
  {
    assert Trace(a, rank, e, m.root) == [Call(ForwarderFor(e), m.root)] + Slots(a, rank, e, m.root, 0, ChildCapacity);
  }

  /** Without a current state the machine's dispatch reaches only nodes strictly below the root,
      and every such node's hook for the event. */
  lemma IdleMachineReachesOnlyRootSubtree(a: Arena, rank: seq<nat>, m: Machine, e: Event)
    requires Wired(a, rank, m) && (e == Process || e == Render) && m.current.None?
    ensures forall k | 0 <= k < |MachineDispatch(a, rank, m, e)| ::
      var c := MachineDispatch(a, rank, m, e)[k];
      c.node != m.root && Below(a, rank, m.root, c.node) && HookCall(a, e, c)
    ensures forall d | 0 <= d < |a| && d != m.root && Below(a, rank, m.root, d) && HookFor(a[d].hooks, e).Some? ::
      Call(HookFor(a[d].hooks, e).value, d) in MachineDispatch(a, rank, m, e)
  {
    SlotsSound(a, rank, e, m.root, 0, ChildCapacity);
    RootRunsForwarderFirst(a, rank, m, e);
    var t := Trace(a, rank, e, m.root);
    forall d | 0 <= d < |a| && d != m.root && Below(a, rank, m.root, d) && HookFor(a[d].hooks, e).Some?
      ensures Call(HookFor(a[d].hooks, e).value, d) in MachineDispatch(a, rank, m, e)
    {
      TraceComplete(a, rank, e, m.root, d);
      var k :| 0 <= k < |t| && t[k] == Call(HookFor(a[d].hooks, e).value, d);
      assert k != 0;
      assert t[1..][k - 1] == t[k];
    }
  }

  /** A machine as created: its root has no children and no current state, so processing and
      rendering it call nothing, and the root's init dispatch calls nothing either. */
  lemma FreshMachineIsInert(a: Arena, rank: seq<nat>, e: Event)
    requires Ranked(a, rank) && (e == Process || e == Render)
    ensures Ranked(CreateMachine(a).0, rank + [0])
    ensures Wired(CreateMachine(a).0, rank + [0], CreateMachine(a).1)
    ensures MachineDispatch(CreateMachine(a).0, rank + [0], CreateMachine(a).1, e) == []
    ensures Trace(CreateMachine(a).0, rank + [0], Init, CreateMachine(a).1.root) == []
  {
    var (b, m) := CreateMachine(a);
    var r := rank + [0];
    forall h, i | 0 <= h < |b| && 0 <= i < |b[h].children| && b[h].children[i].Some?
      ensures b[h].children[i].value < |b| && r[b[h].children[i].value] < r[h]
    {
      assert h < |a|;
      assert b[h] == a[h] && r[h] == rank[h];
    }
    assert Ranked(b, r);
    EmptySlotsSkipped(b, r, e, m.root, 0, ChildCapacity);
    Childless(b, r, Init, m.root);
  }
}
