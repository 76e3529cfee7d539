/** A node's signal table as a value: an open-addressing table of signals, each owning an
    open-addressing table of named callbacks, and the three operations on it (add a signal,
    connect a callback, emit). N is the type of the node a callback is called with. */
module SignalBus {
  import opened Config
  import opened CStrings
  import opened Fnv
  import opened Optional
  import opened Methods
  import opened OpenAddressing

  /** The payload of a callback slot: the node the method is called with, and the method. */
  datatype Callback<N> = Callback(target: N, fn: Fn)

  type CallbackTable<N> = Table<Callback<N>>

  type SignalTable<N> = Table<CallbackTable<N>>

  /** The result of an operation that reports success. */
  datatype Update<N> = Update(ok: bool, table: SignalTable<N>)

  /** Both levels have their fixed sizes. */
  predicate Shaped<N>(t: SignalTable<N>) {
    |t| == Size && forall j | 0 <= j < Size && t[j].Used? :: |t[j].val| == Size
  }

  /** The probe invariants hold in the signal table and in every signal's callback table. */
  ghost predicate Valid<N>(t: SignalTable<N>) {
    Shaped(t) && OpenAddressing.Valid(t) && forall j | 0 <= j < Size && t[j].Used? :: OpenAddressing.Valid(t[j].val)
  }

  /** The table every node starts with once its signal table is zeroed. */
  function EmptyBus<N>(): (t: SignalTable<N>)
    ensures Shaped(t)
  {
    Empty()
  }

  // ---------------------------------------------------------------------------------------
  // add_signal

  /** add_signal returns at all: the name is rejected as too long, or its probe meets the name
      or a free slot within one lap. On a full table without the name the loop never ends. */
  predicate AddReturns<N>(t: SignalTable<N>, name: CString)
    requires Shaped(t)
  {
    |name| > NameCapacity || Probe(t, name) < Size
  }

  /** nm_node_add_signal. */
  function AddSignal<N>(t: SignalTable<N>, name: CString): (r: Update<N>)
    requires Shaped(t) && AddReturns(t, name)
    ensures r.ok <==> |name| <= NameCapacity
    ensures !r.ok ==> r.table == t
    ensures Shaped(r.table)
  {
    if |name| > NameCapacity then Update(false, t) else Update(true, Claim(t, name, Empty()))
  }

  /** add_signal keeps both invariants at both levels for every name shorter than its key buffer. */
  lemma AddSignalKeepsValid<N>(t: SignalTable<N>, name: CString)
    requires Valid(t) && |name| < NameCapacity && Probe(t, name) < Size
    ensures Valid(AddSignal(t, name).table)
  {
    ClaimKeepsValid(t, name, Empty<Callback<N>>());
  }

  /** Adding a signal twice: both calls succeed and the second changes nothing. */
  lemma AddSignalIdempotent<N>(t: SignalTable<N>, name: CString)
    requires Valid(t) && |name| < NameCapacity && Probe(t, name) < Size
    ensures AddReturns(AddSignal(t, name).table, name)
    ensures AddSignal(AddSignal(t, name).table, name) == Update(true, AddSignal(t, name).table)
  {
    ClaimIdempotent(t, name, Empty<Callback<N>>(), Empty<Callback<N>>());
  }

  // ---------------------------------------------------------------------------------------
  // connect_signal

  /** connect_signal returns at all: it rejects the names or does not find the signal, or the
      probe of the signal's callback table meets the callback name or a free slot within one lap. */
  predicate ConnectReturns<N>(t: SignalTable<N>, signal: CString, callback: CString)
    requires Shaped(t)
  {
    |signal| > NameCapacity || |callback| > NameCapacity || Find(t, signal).None?
    || Probe(t[Find(t, signal).value].val, callback) < Size
  }

  /** nm_node_connect_signal. */
  function Connect<N>(t: SignalTable<N>, signal: CString, callback: CString, target: N, fn: Fn): (r: Update<N>)
    requires Shaped(t) && ConnectReturns(t, signal, callback)
    ensures r.ok <==> |signal| <= NameCapacity && |callback| <= NameCapacity && Find(t, signal).Some?
    ensures !r.ok ==> r.table == t
    ensures Shaped(r.table)
    ensures r.ok ==> var k := Find(t, signal).value;
      && r.table[k].Used? && r.table[k].key == t[k].key
      && forall j | 0 <= j < Size && j != k :: r.table[j] == t[j]
  {
    if |signal| > NameCapacity || |callback| > NameCapacity then Update(false, t)
    else match Find(t, signal)
      case None => Update(false, t)
      case Some(k) => Update(true, t[k := Used(t[k].key, Upsert(t[k].val, callback, Callback(target, fn)))])
  }

  /** The callback table of the signal that connect changes, after the change. */
  function Connected<N>(t: SignalTable<N>, k: nat, callback: CString, target: N, fn: Fn): CallbackTable<N>
    requires Shaped(t) && k < Size && t[k].Used? && Probe(t[k].val, callback) < Size
  {
    Upsert(t[k].val, callback, Callback(target, fn))
  }

  /** connect keeps both invariants at both levels. */
  lemma ConnectKeepsValid<N>(t: SignalTable<N>, signal: CString, callback: CString, target: N, fn: Fn)
    requires Valid(t) && |callback| < NameCapacity && ConnectReturns(t, signal, callback)
    ensures Valid(Connect(t, signal, callback, target, fn).table)
  {
    if |signal| <= NameCapacity && Find(t, signal).Some? {
      var k := Find(t, signal).value;
      UpsertKeepsValid(t[k].val, callback, Callback(target, fn));
      ReplaceKeepsValid(t, k, Connected(t, k, callback, target, fn));
    }
  }

  /** Reconnecting a callback name of a signal overwrites the node and method of its slot and
      occupies no new slot. */
  lemma ReconnectOverwrites<N>(t: SignalTable<N>, signal: CString, callback: CString, target: N, fn: Fn)
    requires Valid(t) && |signal| <= NameCapacity && Find(t, signal).Some?
    requires Holds(t[Find(t, signal).value].val, callback)
    ensures ConnectReturns(t, signal, callback)
    ensures var inner := t[Find(t, signal).value].val;
      Connect(t, signal, callback, target, fn).table[Find(t, signal).value].val
        == inner[Stop(inner, callback) := Used(callback, Callback(target, fn))]
  {
    UpsertPresent(t[Find(t, signal).value].val, callback, Callback(target, fn));
  }

  // ---------------------------------------------------------------------------------------
  // emit_signal

  /** The payloads of the in-use slots, in ascending slot order. */
  function Fired<V>(t: Table<V>): seq<V>
    decreases |t|
  {
    if t == [] then []
    else Fired(t[..|t| - 1]) + (if t[|t| - 1].Used? then [t[|t| - 1].val] else [])
  }

  /** The indices of the in-use slots, in ascending order. */
  function UsedIndices<V>(t: Table<V>): (ix: seq<nat>)
    ensures forall m | 0 <= m < |ix| :: ix[m] < |t| && t[ix[m]].Used?
    ensures forall j | 0 <= j < |t| && t[j].Used? :: j in ix
    ensures forall m, m' | 0 <= m < m' < |ix| :: ix[m] < ix[m']
    decreases |t|
  {
    if t == [] then []
    else
      var rest := UsedIndices(t[..|t| - 1]);
      rest + (if t[|t| - 1].Used? then [|t| - 1] else [])
  }

  /** The m-th payload fired is the payload of the m-th in-use slot: each in-use slot fires
      exactly once, in ascending slot order, and nothing else fires. */
  lemma {:induction false} FiredInSlotOrder<V>(t: Table<V>)
    ensures |Fired(t)| == |UsedIndices(t)|
    ensures forall m | 0 <= m < |Fired(t)| :: Fired(t)[m] == t[UsedIndices(t)[m]].val
    decreases |t|
  {
    if t != [] {
      var t' := t[..|t| - 1];
      FiredInSlotOrder(t');
      forall m | 0 <= m < |UsedIndices(t')|
        ensures t'[UsedIndices(t')[m]] == t[UsedIndices(t')[m]]
      {
      }
    }
  }

  /** A table with no slot in use fires nothing. */
  lemma {:induction false} FiredNone<V>(t: Table<V>)
    requires forall j | 0 <= j < |t| :: t[j].Free?
    ensures Fired(t) == []
    decreases |t|
  {
    if t != [] {
      FiredNone(t[..|t| - 1]);
    }
  }

  /** Filling a free slot adds its payload to what fires, once. */
  lemma {:induction false} FiredInsert<V>(t: Table<V>, k: nat, key: CString, v: V)
    requires k < |t| && t[k].Free?
    ensures |Fired(t[k := Used(key, v)])| == |Fired(t)| + 1
    ensures multiset(Fired(t[k := Used(key, v)])) == multiset(Fired(t)) + multiset{v}
    decreases |t|
  {
    var n := |t| - 1;
    if k < n {
      var u := t[k := Used(key, v)];
      assert u[..n] == t[..n][k := Used(key, v)];
      FiredInsert(t[..n], k, key, v);
      FiredUnfold(t, n);
      FiredUnfold(u, n);
    } else {
      FiredFillLast(t, key, v);
    }
  }

  /** What fires is what the slots before the last fire, then the last slot's payload if it is
      in use. */
  lemma FiredUnfold<V>(t: Table<V>, n: nat)
    requires n + 1 == |t|
    ensures Fired(t) == Fired(t[..n]) + if t[n].Used? then [t[n].val] else []
  {
  }

  /** Filling the last slot, when free, appends its payload to what fires. */
  lemma FiredFillLast<V>(t: Table<V>, key: CString, v: V)
    requires |t| > 0 && t[|t| - 1].Free?
    ensures Fired(t[|t| - 1 := Used(key, v)]) == Fired(t) + [v]
  {
    var n := |t| - 1;
    var u := t[n := Used(key, v)];
    assert u[..n] == t[..n];
    FiredUnfold(t, n);
    FiredUnfold(u, n);
  }

  /** Replacing the payload of an in-use slot replaces it, once, in what fires. */
  lemma {:induction false} FiredReplace<V>(t: Table<V>, k: nat, key: CString, v: V)
    requires k < |t| && t[k].Used?
    ensures |Fired(t[k := Used(key, v)])| == |Fired(t)|
    ensures multiset(Fired(t[k := Used(key, v)])) + multiset{t[k].val} == multiset(Fired(t)) + multiset{v}
    decreases |t|
  {
    var n := |t| - 1;
    var u := t[k := Used(key, v)];
    var last := if t[n].Used? then [t[n].val] else [];
    FiredUnfold(t, n);
    if k < n {
      assert u[..n] == t[..n][k := Used(key, v)];
      assert t[..n][k] == t[k];
      FiredReplace(t[..n], k, key, v);
      FiredUnfold(u, n);
      assert Fired(u) == Fired(u[..n]) + last;
      AddBoth(multiset(Fired(u[..n])), multiset(Fired(t[..n])), multiset{t[k].val}, multiset{v}, multiset(last));
    } else {
      assert u[..n] == t[..n];
      FiredUnfold(u, n);
    }
  }

  /** Adding the same multiset to both sides of an equation of sums. */
  lemma AddBoth<T>(b: multiset<T>, a: multiset<T>, x: multiset<T>, y: multiset<T>, l: multiset<T>)
    requires b + x == a + y
    ensures b + l + x == a + l + y
  {
    forall e
      ensures (b + l + x)[e] == (a + l + y)[e]
    {
      assert (b + x)[e] == (a + y)[e];
    }
  }

  /** nm_node_emit_signal: the callbacks of the signal, in the order they are invoked; none when
      the name is too long or the signal is not found. */
  function Emit<N>(t: SignalTable<N>, signal: CString): (calls: seq<Callback<N>>)
    requires Shaped(t)
    ensures |signal| > NameCapacity || Find(t, signal).None? ==> calls == []
    ensures |signal| <= NameCapacity && Find(t, signal).Some? ==>
      var inner := t[Find(t, signal).value].val;
      && |calls| == |UsedIndices(inner)|
      && forall m | 0 <= m < |calls| :: calls[m] == inner[UsedIndices(inner)[m]].val
  {
    if |signal| > NameCapacity then []
    else match Find(t, signal)
      case None => []
      case Some(k) => (FiredInSlotOrder(t[k].val); Fired(t[k].val))
  }

  /** The probe depends only on which slots are in use and on their keys, not on payloads. */
  lemma {:induction false} ProbeIgnoresPayloads<V, W>(t: Table<V>, u: Table<W>, h: nat, name: CString, d: nat)
    requires |t| == Size && |u| == Size && h < Size && d <= Size
    requires forall j | 0 <= j < Size :: t[j].Used? == u[j].Used? && (t[j].Used? ==> t[j].key == u[j].key)
    ensures ProbeFrom(t, h, name, d) == ProbeFrom(u, h, name, d)
    decreases Size - d
  {
    if d < Size {
      ProbeIgnoresPayloads(t, u, h, name, d + 1);
    }
  }

  /** connect changes only payloads of the signal table, so every signal is found where it was. */
  lemma ConnectKeepsLookups<N>(t: SignalTable<N>, signal: CString, callback: CString, target: N, fn: Fn, name: CString)
    requires Shaped(t) && ConnectReturns(t, signal, callback)
    ensures Find(Connect(t, signal, callback, target, fn).table, name) == Find(t, name)
  {
    ProbeIgnoresPayloads(t, Connect(t, signal, callback, target, fn).table, HashKey(name), name, 0);
  }

  /** connect's insertion into a callback table changes what fires by exactly the new payload:
      when the probe stops at a free slot it fires once more, and when it stops at the callback's
      own slot the old payload is replaced, once. */
  lemma UpsertFires<V>(t: Table<V>, name: CString, v: V)
    requires |t| == Size && Probe(t, name) < Size
    ensures t[Stop(t, name)].Free? ==>
      |Fired(Upsert(t, name, v))| == |Fired(t)| + 1
      && multiset(Fired(Upsert(t, name, v))) == multiset(Fired(t)) + multiset{v}
    ensures t[Stop(t, name)].Used? ==>
      |Fired(Upsert(t, name, v))| == |Fired(t)|
      && multiset(Fired(Upsert(t, name, v))) + multiset{t[Stop(t, name)].val} == multiset(Fired(t)) + multiset{v}
  {
    var k := Stop(t, name);
    if t[k].Used? {
      FiredReplace(t, k, t[k].key, v);
    } else {
      FiredInsert(t, k, Stored(name), v);
    }
  }

  /** connect changes what the connected signal emits by exactly the connected callback: a new
      callback name adds one call, an existing one has its call replaced. */
  lemma ConnectThenEmit<N>(t: SignalTable<N>, signal: CString, callback: CString, target: N, fn: Fn)
    requires Shaped(t) && |signal| <= NameCapacity && |callback| < NameCapacity && Find(t, signal).Some?
    requires OpenAddressing.Valid(t[Find(t, signal).value].val)
    requires ConnectReturns(t, signal, callback)
    ensures var k := Find(t, signal).value;
      var before := Emit(t, signal);
      var after := Emit(Connect(t, signal, callback, target, fn).table, signal);
      && (!Holds(t[k].val, callback) ==>
            |after| == |before| + 1 && multiset(after) == multiset(before) + multiset{Callback(target, fn)})
      && (forall j | 0 <= j < Size && t[k].val[j].Used? && t[k].val[j].key == callback ::
            |after| == |before|
            && multiset(after) + multiset{t[k].val[j].val} == multiset(before) + multiset{Callback(target, fn)})
  {
    var k := Find(t, signal).value;
    var inner := t[k].val;
    ConnectEmitsUpsert(t, signal, callback, target, fn);
    StopHolds(inner, callback);
    if Holds(inner, callback) {
      ProbeStopsAtHolder(inner, callback);
    }
    UpsertFires(inner, callback, Callback(target, fn));
  }

  /** connect of a callback name the signal does not hold yet adds exactly one call to what the
      signal emits. */
  lemma ConnectNewThenEmit<N>(t: SignalTable<N>, signal: CString, callback: CString, target: N, fn: Fn)
    requires Shaped(t) && |signal| <= NameCapacity && |callback| < NameCapacity && Find(t, signal).Some?
    requires OpenAddressing.Valid(t[Find(t, signal).value].val) && !Holds(t[Find(t, signal).value].val, callback)
    requires ConnectReturns(t, signal, callback)
    ensures var after := Emit(Connect(t, signal, callback, target, fn).table, signal);
      |after| == |Emit(t, signal)| + 1 && multiset(after) == multiset(Emit(t, signal)) + multiset{Callback(target, fn)}
  {
    var inner := t[Find(t, signal).value].val;
    ConnectEmitsUpsert(t, signal, callback, target, fn);
    StopHolds(inner, callback);
    UpsertFires(inner, callback, Callback(target, fn));
  }

  /** What a found signal emits after connect is what its callback table fires after the
      insertion. */
  lemma ConnectEmitsUpsert<N>(t: SignalTable<N>, signal: CString, callback: CString, target: N, fn: Fn)
    requires Shaped(t) && |signal| <= NameCapacity && |callback| <= NameCapacity && Find(t, signal).Some?
    requires ConnectReturns(t, signal, callback)
    ensures Emit(Connect(t, signal, callback, target, fn).table, signal)
      == Fired(Upsert(t[Find(t, signal).value].val, callback, Callback(target, fn)))
    ensures Emit(t, signal) == Fired(t[Find(t, signal).value].val)
  {
    var k := Find(t, signal).value;
    var u := Connect(t, signal, callback, target, fn).table;
    assert u[k].val == Upsert(t[k].val, callback, Callback(target, fn));
    ConnectKeepsLookups(t, signal, callback, target, fn, signal);
  }

  /** connect leaves what every other signal emits as it was. */
  lemma ConnectLeavesOtherEmits<N>(t: SignalTable<N>, signal: CString, callback: CString, target: N, fn: Fn, other: CString)
    requires Valid(t) && ConnectReturns(t, signal, callback)
    requires other != signal && |other| <= NameCapacity
    ensures Emit(Connect(t, signal, callback, target, fn).table, other) == Emit(t, other)
  {
    ConnectKeepsLookups(t, signal, callback, target, fn, other);
    if |signal| <= NameCapacity && Find(t, other).Some? && Find(t, signal).Some? {
      FindCorrect(t, other);
      FindCorrect(t, signal);
    }
  }

  /** Emitting a signal that is not stored calls nothing. */
  lemma EmitUnregistered<N>(t: SignalTable<N>, signal: CString)
    requires Valid(t) && !Holds(t, signal)
    ensures Emit(t, signal) == []
  {
    if |signal| <= NameCapacity {
      FindCorrect(t, signal);
    }
  }

  /** A signal just added emits nothing until a callback is connected; adding one that is
      already stored leaves what it emits as it was. */
  lemma AddSignalThenEmit<N>(t: SignalTable<N>, signal: CString)
    requires Valid(t) && |signal| < NameCapacity && Probe(t, signal) < Size
    ensures Emit(AddSignal(t, signal).table, signal) == if Holds(t, signal) then Emit(t, signal) else []
  {
    var u := AddSignal(t, signal).table;
    ClaimThenFind(t, signal, Empty<Callback<N>>());
    if Holds(t, signal) {
      ClaimPresent(t, signal, Empty<Callback<N>>());
    } else {
      ClaimAbsent(t, signal, Empty<Callback<N>>());
      FiredNone(u[Stop(t, signal)].val);
    }
  }

  /** add_signal leaves what every other signal emits as it was. */
  lemma AddSignalLeavesOtherEmits<N>(t: SignalTable<N>, signal: CString, other: CString)
    requires Valid(t) && |signal| < NameCapacity && Probe(t, signal) < Size
    requires other != signal && |other| <= NameCapacity
    ensures Emit(AddSignal(t, signal).table, other) == Emit(t, other)
  {
    var u := AddSignal(t, signal).table;
    ClaimKeepsOtherLookups(t, signal, Empty<Callback<N>>(), other);
    if Find(t, other).Some? {
      FindCorrect(t, other);
      ClaimThenFind(t, signal, Empty<Callback<N>>());
      StopHolds(t, signal);
      if Holds(t, signal) {
        ProbeStopsAtHolder(t, signal);
      }
    }
  }

  // ---------------------------------------------------------------------------------------
  // Sequences of calls

  /** A call that changes the signal table. */
  datatype Op<N> = AddOp(name: CString) | ConnectOp(signal: CString, callback: CString, target: N, fn: Fn)

  /** The names an operation stores fit the key buffer. */
  predicate ShortNames<N>(op: Op<N>) {
    match op
    case AddOp(name) => |name| < NameCapacity
    case ConnectOp(signal, callback, _, _) => |signal| < NameCapacity && |callback| < NameCapacity
  }

  /** The table after a sequence of calls from t, or None when one of them never returns. */
  function Perform<N>(t: SignalTable<N>, ops: seq<Op<N>>): (r: Option<SignalTable<N>>)
    requires Shaped(t)
    ensures r.Some? ==> Shaped(r.value)
    decreases |ops|
  {
    if ops == [] then Some(t)
    else match ops[0]
      case AddOp(name) =>
        if AddReturns(t, name) then Perform(AddSignal(t, name).table, ops[1..]) else None
      case ConnectOp(signal, callback, target, fn) =>
        if ConnectReturns(t, signal, callback) then Perform(Connect(t, signal, callback, target, fn).table, ops[1..]) else None
  }

  /** Any sequence of calls with names that fit keeps both invariants at both levels. */
  lemma {:induction false} PerformKeepsValid<N>(t: SignalTable<N>, ops: seq<Op<N>>)
    requires Valid(t) && forall i | 0 <= i < |ops| :: ShortNames(ops[i])
    ensures Perform(t, ops).Some? ==> Valid(Perform(t, ops).value)
    decreases |ops|
  {
    if ops != [] {
      match ops[0]
      case AddOp(name) =>
        if AddReturns(t, name) {
          AddSignalKeepsValid(t, name);
          PerformKeepsValid(AddSignal(t, name).table, ops[1..]);
        }
      case ConnectOp(signal, callback, target, fn) =>
        if ConnectReturns(t, signal, callback) {
          ConnectKeepsValid(t, signal, callback, target, fn);
          PerformKeepsValid(Connect(t, signal, callback, target, fn).table, ops[1..]);
        }
    }
  }

  /** Running one sequence of calls and then another is running the two in a row. */
  lemma {:induction false} PerformAppend<N>(t: SignalTable<N>, ops: seq<Op<N>>, more: seq<Op<N>>)
    requires Shaped(t)
    ensures Perform(t, ops + more) ==
      match Perform(t, ops)
      case None => None
      case Some(u) => Perform(u, more)
    decreases |ops|
  {
    if ops == [] {
      assert ops + more == more;
    } else {
      assert (ops + more)[0] == ops[0];
      assert (ops + more)[1..] == ops[1..] + more;
      match ops[0]
      case AddOp(name) =>
        if AddReturns(t, name) {
          PerformAppend(AddSignal(t, name).table, ops[1..], more);
        }
      case ConnectOp(signal, callback, target, fn) =>
        if ConnectReturns(t, signal, callback) {
          PerformAppend(Connect(t, signal, callback, target, fn).table, ops[1..], more);
        }
    }
  }

  /** Of two connects of the same callback name to the same signal, the last wins: the table is
      as if only the last had happened. */
  lemma ConnectLastWins<N>(t: SignalTable<N>, signal: CString, callback: CString, target: N, fn: Fn, target': N, fn': Fn)
    requires Valid(t) && |callback| < NameCapacity && ConnectReturns(t, signal, callback)
    ensures ConnectReturns(Connect(t, signal, callback, target, fn).table, signal, callback)
    ensures Connect(Connect(t, signal, callback, target, fn).table, signal, callback, target', fn')
      == Connect(t, signal, callback, target', fn')
  {
    var u := Connect(t, signal, callback, target, fn).table;
    ConnectKeepsLookups(t, signal, callback, target, fn, signal);
    if |signal| <= NameCapacity && Find(t, signal).Some? {
      var k := Find(t, signal).value;
      UpsertTwice(t[k].val, callback, Callback(target, fn), Callback(target', fn'));
    }
  }

  // ---------------------------------------------------------------------------------------
  // The length checks and the unbounded probes, as written and as intended

  /** As written, a signal name of NameCapacity bytes passes the length check of add_signal and
      is stored truncated, after which connect and emit never find it, and adding it again
      claims another slot. */
  lemma LongSignalAcceptedButLost<N>(t: SignalTable<N>, name: CString, callback: CString, target: N, fn: Fn)
    requires Shaped(t) && KeysFit(t) && |name| == NameCapacity && Probe(t, name) < Size
    ensures AddSignal(t, name).ok
    ensures Find(AddSignal(t, name).table, name).None?
    ensures ConnectReturns(AddSignal(t, name).table, name, callback)
    ensures !Connect(AddSignal(t, name).table, name, callback, target, fn).ok
    ensures Emit(AddSignal(t, name).table, name) == []
    ensures AddReturns(AddSignal(t, name).table, name) ==>
      AddSignal(AddSignal(t, name).table, name).table != AddSignal(t, name).table
  {
    var u := AddSignal(t, name).table;
    LongNameNeverFound(t, name);
    ClaimKeepsKeysFit(t, name, Empty<Callback<N>>());
    LongNameNeverFound(u, name);
    if AddReturns(u, name) {
      var k := Stop(u, name);
      assert u[k].Free? by {
        if u[k].Used? {
          LongNameNeverMatchesItsKey(name);
        }
      }
    }
  }

  /** As written, a callback name of NameCapacity bytes passes the length check of connect and
      is stored truncated, so connecting it again never finds it: the second connect claims
      another slot, and emit then calls both targets instead of only the last. */
  lemma LongCallbackConnectedTwice<N>(t: SignalTable<N>, signal: CString, callback: CString,
                                      target: N, fn: Fn, target': N, fn': Fn)
    requires Shaped(t) && |signal| <= NameCapacity && Find(t, signal).Some?
    requires KeysFit(t[Find(t, signal).value].val) && |callback| == NameCapacity
    requires ConnectReturns(t, signal, callback)
    ensures Connect(t, signal, callback, target, fn).ok
    ensures var u := Connect(t, signal, callback, target, fn).table;
      ConnectReturns(u, signal, callback) ==>
        var after := Emit(Connect(u, signal, callback, target', fn').table, signal);
        && |after| == |Emit(t, signal)| + 2
        && multiset(after) == multiset(Emit(t, signal)) + multiset{Callback(target, fn), Callback(target', fn')}
  {
    var u := Connect(t, signal, callback, target, fn).table;
    LongCallbackConnectAdds(t, signal, callback, target, fn);
    if ConnectReturns(u, signal, callback) {
      LongCallbackConnectAdds(u, signal, callback, target', fn');
    }
  }

  /** As written, each connect of a callback name of NameCapacity bytes to a found signal adds
      one call to what it emits, and keeps the signal where it was and every key short. */
  lemma LongCallbackConnectAdds<N>(t: SignalTable<N>, signal: CString, callback: CString, target: N, fn: Fn)
    requires Shaped(t) && |signal| <= NameCapacity && Find(t, signal).Some?
    requires KeysFit(t[Find(t, signal).value].val) && |callback| == NameCapacity
    requires ConnectReturns(t, signal, callback)
    ensures Connect(t, signal, callback, target, fn).ok
    ensures var u := Connect(t, signal, callback, target, fn).table;
      && Find(u, signal) == Find(t, signal) && KeysFit(u[Find(t, signal).value].val)
      && |Emit(u, signal)| == |Emit(t, signal)| + 1
      && multiset(Emit(u, signal)) == multiset(Emit(t, signal)) + multiset{Callback(target, fn)}
  {
    var inner := t[Find(t, signal).value].val;
    LongNameUpsertClaimsFree(inner, callback, Callback(target, fn));
    FiredInsert(inner, Stop(inner, callback), Stored(callback), Callback(target, fn));
    ConnectEmitsUpsert(t, signal, callback, target, fn);
    ConnectKeepsLookups(t, signal, callback, target, fn, signal);
  }

  /** connect_signal as evidently intended: names that do not fit the key buffer with their
      terminator are rejected, and a full callback table without the name fails instead of
      probing forever. */
  function ConnectChecked<N>(t: SignalTable<N>, signal: CString, callback: CString, target: N, fn: Fn): (r: Update<N>)
    requires Shaped(t)
    ensures r.ok <==> && |signal| < NameCapacity && |callback| < NameCapacity && Find(t, signal).Some?
                      && Probe(t[Find(t, signal).value].val, callback) < Size
    ensures !r.ok ==> r.table == t
    ensures Shaped(r.table)
  {
    if |signal| >= NameCapacity || |callback| >= NameCapacity then Update(false, t)
    else match Find(t, signal)
      case None => Update(false, t)
      case Some(k) =>
        if Probe(t[k].val, callback) == Size then Update(false, t)
        else Update(true, t[k := Used(t[k].key, Upsert(t[k].val, callback, Callback(target, fn)))])
  }

  /** With the checked connect the last of two connects of one callback name wins for every
      name: the table is as if only the last had happened. */
  lemma ConnectCheckedLastWins<N>(t: SignalTable<N>, signal: CString, callback: CString,
                                  target: N, fn: Fn, target': N, fn': Fn)
    requires Valid(t)
    ensures ConnectChecked(ConnectChecked(t, signal, callback, target, fn).table, signal, callback, target', fn')
      == ConnectChecked(t, signal, callback, target', fn')
  {
    var first := ConnectChecked(t, signal, callback, target, fn);
    if first.ok {
      CheckedAgrees(t, signal, callback, target, fn);
      CheckedAgrees(t, signal, callback, target', fn');
      ConnectLastWins(t, signal, callback, target, fn, target', fn');
      CheckedAgrees(first.table, signal, callback, target', fn');
    }
  }

  /** Where the names fit and the callback probe stops, the checked connect is connect. */
  lemma CheckedAgrees<N>(t: SignalTable<N>, signal: CString, callback: CString, target: N, fn: Fn)
    requires Shaped(t) && |signal| < NameCapacity && |callback| < NameCapacity
    requires ConnectReturns(t, signal, callback)
    ensures ConnectChecked(t, signal, callback, target, fn) == Connect(t, signal, callback, target, fn)
  {
  }

  /** As written, add_signal on a table whose slots are all in use by other names never returns. */
  lemma AddSignalHangsWhenFull<N>(t: SignalTable<N>, name: CString)
    requires Shaped(t) && |name| <= NameCapacity
    requires forall j | 0 <= j < Size :: t[j].Used? && !Matches(t[j], name)
    ensures !AddReturns(t, name)
  {
    ProbeNeverStopsWhenFull(t, name);
  }

  /** As written, connect on a found signal whose callback slots are all in use by other names
      never returns. */
  lemma ConnectHangsWhenFull<N>(t: SignalTable<N>, signal: CString, callback: CString)
    requires Shaped(t) && |signal| <= NameCapacity && |callback| <= NameCapacity && Find(t, signal).Some?
    requires forall j | 0 <= j < Size :: t[Find(t, signal).value].val[j].Used? && !Matches(t[Find(t, signal).value].val[j], callback)
    ensures !ConnectReturns(t, signal, callback)
  {
    ProbeNeverStopsWhenFull(t[Find(t, signal).value].val, callback);
  }

  /** add_signal as evidently intended: a name that does not fit the key buffer with its
      terminator is rejected, and a full table without the name fails instead of probing
      forever. */
  function AddSignalChecked<N>(t: SignalTable<N>, name: CString): (r: Update<N>)
    requires Shaped(t)
    ensures r.ok <==> |name| < NameCapacity && Probe(t, name) < Size
    ensures !r.ok ==> r.table == t
    ensures Shaped(r.table)
  {
    if |name| >= NameCapacity || Probe(t, name) == Size then Update(false, t)
    else Update(true, Claim(t, name, Empty()))
  }

  /** The checked add keeps both invariants, always returns, fails on a name that fits only when
      every slot holds another name, and after it succeeds the name is found. */
  lemma AddSignalCheckedFinds<N>(t: SignalTable<N>, name: CString)
    requires Valid(t)
    ensures Valid(AddSignalChecked(t, name).table)
    ensures AddSignalChecked(t, name).ok ==> Find(AddSignalChecked(t, name).table, name).Some?
    ensures !AddSignalChecked(t, name).ok && |name| < NameCapacity ==>
      (forall j | 0 <= j < Size :: t[j].Used?) && !Holds(t, name)
  {
    if |name| < NameCapacity {
      ProbeFullLap(t, name);
      if Probe(t, name) < Size {
        AddSignalKeepsValid(t, name);
        ClaimThenFind(t, name, Empty<Callback<N>>());
      }
    }
  }
}
