/** A node (struct node_t): its owner, parent link, fixed array of child slots, external hooks
    and signal table, with the operations of the engine that create and change it. */
module Engine {
  import opened Config
  import opened CStrings
  import opened Fnv
  import opened Optional
  import opened Methods
  import opened OpenAddressing
  import SignalBus
  import Dispatch

  type Entry = Slot<SignalBus.CallbackTable<Node?>>

  class Node {
    /** The opaque owner pointer given at creation. */
    const owner: object?
    var parent: Node?
    const children: array<Node?>
    const hooks: Dispatch.Hooks
    const signals: array<Entry>

    /** Both arrays have their fixed sizes and every in-use signal has a full callback table. */
    ghost predicate Valid()
      reads this, signals
    {
      children.Length == ChildCapacity && signals.Length == SignalCapacity && SignalBus.Shaped(signals[..])
    }

    /** malloc and the field stores of nm_node_create; the signal table is left as it was found. */
    constructor Alloc(owner: object?, hooks: Dispatch.Hooks)
      ensures this.owner == owner && this.hooks == hooks && parent == null
      ensures fresh(children) && children.Length == ChildCapacity
      ensures forall i | 0 <= i < ChildCapacity :: children[i] == null
      ensures fresh(signals) && signals.Length == SignalCapacity
    {
      this.owner := owner;
      this.parent := null;
      this.children := new Node?[ChildCapacity](_ => null);
      this.hooks := hooks;
      this.signals := new Entry[SignalCapacity];
    }

    /** memset of the signal table: every slot unused. */
    method ClearSignals()
      requires signals.Length == SignalCapacity
      modifies signals
      ensures signals[..] == SignalBus.EmptyBus()
    {
      forall j | 0 <= j < signals.Length {
        signals[j] := Free;
      }
    }

    /** nm_node_create: the new node, and the calls its init dispatch makes. The dispatch sees a
        node without children and no signal table; the body runs it before zeroing the table, in
        the source's order, but the contract does not record that order. */
    static method Create(owner: object?, hooks: Dispatch.Hooks) returns (n: Node, inits: seq<Dispatch.Call>)
      ensures fresh(n) && fresh(n.children) && fresh(n.signals) && n.Valid()
      ensures n.owner == owner && n.hooks == hooks && n.parent == null
      ensures forall i | 0 <= i < ChildCapacity :: n.children[i] == null
      ensures n.signals[..] == SignalBus.EmptyBus()
      ensures inits == Dispatch.Trace(Dispatch.Lone(hooks), [0], Dispatch.Init, 0)
      ensures inits == if hooks.init.Some? then [Dispatch.Call(hooks.init.value, 0)] else []
    {
      n := new Node.Alloc(owner, hooks);
      inits := Dispatch.Run(Dispatch.Lone(hooks), [0], Dispatch.Init, 0);
      n.ClearSignals();
      Dispatch.Childless(Dispatch.Lone(hooks), [0], Dispatch.Init, 0);
    }

    // -------------------------------------------------------------------------------------
    // Tree

    /** nm_node_get_owner. */
    function GetOwner(): (r: object?)
      ensures r == owner
    {
      if owner == null then null else owner
    }

    /** nm_node_get_parent. */
    function GetParent(): (r: Node?)
      reads this
      ensures r == parent
    {
      if parent == null then null else parent
    }

    /** nm_node_get_child: NULL for an index past the array, otherwise the slot's content. */
    function GetChild(index: u16): (r: Node?)
      reads children
      requires children.Length == ChildCapacity
      ensures index >= ChildCapacity ==> r == null
      ensures index < ChildCapacity ==> r == children[index]
    {
      if index >= ChildCapacity then null
      else if children[index] == null then null
      else children[index]
    }

    /** nm_node_get_parent_owner; a node without a parent would be dereferenced as NULL. */
    function GetParentOwner(): (r: object?)
      reads this
      requires parent != null
      ensures r == parent.owner
    {
      parent.GetOwner()
    }

    /** nm_node_get_child_owner; an empty slot in range would be dereferenced as NULL. */
    function GetChildOwner(index: u16): (r: object?)
      reads children
      requires children.Length == ChildCapacity
      requires index < ChildCapacity ==> children[index] != null
      ensures index >= ChildCapacity ==> r == null
      ensures index < ChildCapacity ==> r == children[index].owner
    {
      if index >= ChildCapacity then null else children[index].GetOwner()
    }

    /** nm_node_add_child. The parent link is written at child[index], which is the child itself
        only for index 0; a successful call at any other index writes outside the child and is
        excluded. */
    method AddChild(child: Node, index: u16) returns (ok: bool)
      requires Valid()
      requires index < ChildCapacity && children[index] == null ==> index == 0
      modifies children, child`parent
      ensures Valid()
      ensures ok <==> index < ChildCapacity && old(children[index]) == null
      ensures ok ==> children[..] == old(children[..])[index := child] && child.parent == this
      ensures ok ==> GetChild(index) == child
      ensures !ok ==> children[..] == old(children[..]) && child.parent == old(child.parent)
    {
      if index >= ChildCapacity {
        return false;
      }
      if children[index] != null {
        return false;
      }
      children[index] := child;
      child.parent := this;
      return true;
    }

    /** nm_node_remove_child as written: the guard returns early when the slot is occupied, so
        the only slot ever written is an empty one, with the NULL it already holds. */
    method RemoveChild(index: u16)
      requires Valid()
      modifies children
      ensures children[..] == old(children[..])
    {
      if index >= ChildCapacity {
        return;
      }
      if children[index] != null {
        return;
      }
      children[index] := null;
    }

    /** nm_node_remove_child as evidently intended: the slot is emptied when it is occupied. */
    method DetachChild(index: u16)
      requires Valid()
      modifies children
      ensures index < ChildCapacity ==> children[..] == old(children[..])[index := null]
      ensures index >= ChildCapacity ==> children[..] == old(children[..])
      ensures GetChild(index) == null
    {
      if index >= ChildCapacity {
        return;
      }
      if children[index] == null {
        return;
      }
      children[index] := null;
    }

    // -------------------------------------------------------------------------------------
    // Signals

    /** nm_node_add_signal, on the node's table in place. */
    method AddSignal(name: CString) returns (ok: bool)
      requires Valid() && SignalBus.AddReturns(signals[..], name)
      modifies signals
      ensures Valid()
      ensures SignalBus.Update(ok, signals[..]) == SignalBus.AddSignal(old(signals[..]), name)
    {
      if |name| > NameCapacity {
        return false;
      }
      var key := ProbeSignals(name);
      if signals[key].Used? {
        // the probe stopped at a slot holding the name
        return true;
      }
      signals[key] := Used(Stored(name), Empty());
      assert signals[..] == Claim(old(signals[..]), name, Empty());
      return true;
    }

    /** The unbounded probe of add_signal: from the name's hash slot to the first slot that is
        unused or holds the name. */
    method ProbeSignals(name: CString) returns (key: nat)
      requires Valid() && Probe(signals[..], name) < Size
      ensures key == Stop(signals[..], name)
    {
      ghost var t := signals[..];
      ghost var steps := 0;
      key := GetHashKey(name);
      PosStart(key);
      while signals[key].Used?
        invariant steps <= Probe(t, name) < Size
        invariant key == Pos(HashKey(name), steps)
        decreases Probe(t, name) - steps
      {
        if StrnEq(signals[key].key, name, NameCapacity) {
          ProbeStopsAt(t, name, steps);
          return;
        }
        ProbePasses(t, name, steps);
        PosNext(HashKey(name), steps);
        key := (key + 1) % SignalCapacity;
        steps := steps + 1;
      }
      ProbeStopsAt(t, name, steps);
    }

    /** The bounded lookup of a signal shared by connect and emit: at most SignalCapacity slots,
        stopping at an unused one. */
    method FindSignal(name: CString) returns (found: bool, k: nat)
      requires Valid()
      ensures found <==> Find(signals[..], name).Some?
      ensures found ==> k == Find(signals[..], name).value
    {
      ghost var t := signals[..];
      ghost var h := HashKey(name);
      k := GetHashKey(name);
      PosStart(k);
      var i := 0;
      while i < SignalCapacity
        invariant i <= Probe(t, name)
        invariant k == Pos(h, i)
      {
        if !signals[k].Used? {
          ProbeStopsAt(t, name, i);
          return false, k;
        }
        if StrnEq(signals[k].key, name, NameCapacity) {
          ProbeStopsAt(t, name, i);
          return true, k;
        }
        ProbePasses(t, name, i);
        PosNext(h, i);
        k := (k + 1) % SignalCapacity;
        i := i + 1;
      }
      return false, k;
    }

    /** The unbounded probe of a callback table in connect: from the callback's hash slot to the
        first slot that is unused or holds the callback name. */
    static method ProbeCallbacks(inner: SignalBus.CallbackTable<Node?>, callback: CString) returns (key: nat)
      requires |inner| == Size && Probe(inner, callback) < Size
      ensures key == Stop(inner, callback)
    {
      ghost var steps := 0;
      key := GetHashKey(callback);
      PosStart(key);
      while inner[key].Used?
        invariant steps <= Probe(inner, callback) < Size
        invariant key == Pos(HashKey(callback), steps)
        decreases Probe(inner, callback) - steps
      {
        if StrnEq(inner[key].key, callback, NameCapacity) {
          ProbeStopsAt(inner, callback, steps);
          return;
        }
        ProbePasses(inner, callback, steps);
        PosNext(HashKey(callback), steps);
        key := (key + 1) % CallbackCapacity;
        steps := steps + 1;
      }
      ProbeStopsAt(inner, callback, steps);
    }

    /** nm_node_connect_signal, on the node's table in place. */
    method ConnectSignal(signal: CString, callback: CString, target: Node?, fn: Fn) returns (ok: bool)
      requires Valid() && SignalBus.ConnectReturns(signals[..], signal, callback)
      modifies signals
      ensures Valid()
      ensures SignalBus.Update(ok, signals[..]) == SignalBus.Connect(old(signals[..]), signal, callback, target, fn)
    {
      if |signal| > NameCapacity || |callback| > NameCapacity {
        return false;
      }
      var found, k := FindSignal(signal);
      if !found {
        return false;
      }
      var inner := signals[k].val;
      var key := ProbeCallbacks(inner, callback);
      var updated;
      if inner[key].Used? {
        updated := inner[key := Used(inner[key].key, SignalBus.Callback(target, fn))];
      } else {
        updated := inner[key := Used(Stored(callback), SignalBus.Callback(target, fn))];
      }
      assert updated == Upsert(inner, callback, SignalBus.Callback(target, fn));
      signals[k] := Used(signals[k].key, updated);
      return true;
    }

    /** nm_node_emit_signal: the callbacks it invokes, in order. */
    method EmitSignal(signal: CString) returns (calls: seq<SignalBus.Callback<Node?>>)
      requires Valid()
      ensures calls == SignalBus.Emit(signals[..], signal)
    {
      if |signal| > NameCapacity {
        return [];
      }
      var found, k := FindSignal(signal);
      if !found {
        return [];
      }
      var inner := signals[k].val;
      calls := [];
      for i := 0 to CallbackCapacity
        invariant calls == SignalBus.Fired(inner[..i])
      {
        assert inner[..i + 1][..i] == inner[..i];
        if !inner[i].Used? {
          continue;
        }
        calls := calls + [inner[i].val];
      }
      assert inner[..CallbackCapacity] == inner;
    }
  }
}
