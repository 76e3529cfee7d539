/** Whole sequences of signal calls on a fresh node, and what emit then calls. */
module BusScenarios {
  import opened Config
  import opened CStrings
  import opened Fnv
  import opened Optional
  import opened Methods
  import opened OpenAddressing
  import opened SignalBus

  /** Adding a signal to a fresh table stores it, with no callbacks, at its hash slot. */
  lemma AddToFresh<N>(signal: CString)
    requires |signal| < NameCapacity
    ensures AddSignal(EmptyBus<N>(), signal).table == EmptyBus<N>()[HashKey(signal) := Used(signal, Empty())]
    ensures SignalBus.Valid(AddSignal(EmptyBus<N>(), signal).table)
    ensures Find(AddSignal(EmptyBus<N>(), signal).table, signal) == Some(HashKey(signal))
  {
    var t := EmptyBus<N>();
    EmptyValid<CallbackTable<N>>();
    PosStart(HashKey(signal));
    ClaimAbsent(t, signal, Empty<Callback<N>>());
    AddSignalKeepsValid(t, signal);
    ClaimThenFind(t, signal, Empty<Callback<N>>());
  }

  /** Running two calls is running the first, then the second on its result. */
  lemma PerformTwo<N>(t: SignalTable<N>, first: Op<N>, second: Op<N>)
    requires Shaped(t)
    ensures Perform(t, [first, second]) ==
      match Perform(t, [first])
      case None => None
      case Some(u) => Perform(u, [second])
  {
    assert [first, second][1..] == [second];
    assert [first][1..] == [];
    assert [second][1..] == [];
  }

  /** The first callback connected to a signal with none makes emit call exactly it. */
  lemma ConnectFirstCallback<N>(t: SignalTable<N>, signal: CString, callback: CString, target: N, fn: Fn)
    requires Shaped(t) && |signal| <= NameCapacity && |callback| < NameCapacity && Find(t, signal).Some?
    requires forall j | 0 <= j < Size :: t[Find(t, signal).value].val[j].Free?
    ensures ConnectReturns(t, signal, callback)
    ensures Emit(Connect(t, signal, callback, target, fn).table, signal) == [Callback(target, fn)]
  {
    var inner := t[Find(t, signal).value].val;
    ProbeStopsIfFree(inner, callback, 0);
    AllFreeValid(inner);
    FiredNone(inner);
    ConnectThenEmit(t, signal, callback, target, fn);
    Single(Emit(Connect(t, signal, callback, target, fn).table, signal), Callback(target, fn));
  }

  /** A table with no slot in use satisfies the invariant and holds no name. */
  lemma AllFreeValid<V>(t: Table<V>)
    requires |t| == Size && forall j | 0 <= j < Size :: t[j].Free?
    ensures OpenAddressing.Valid(t) && forall name: CString :: !Holds(t, name)
  {
  }

  /** A one-element sequence is determined by its multiset. */
  lemma Single<T>(s: seq<T>, x: T)
    requires |s| == 1 && multiset(s) == multiset{x}
    ensures s == [x]
  {
    assert s[0] in multiset(s);
  }

  /** Connecting a callback to a signal just added to a fresh table: emit calls exactly it. */
  lemma ConnectToFresh<N>(signal: CString, callback: CString, target: N, fn: Fn)
    requires |signal| < NameCapacity && |callback| < NameCapacity
    ensures ConnectReturns(AddSignal(EmptyBus<N>(), signal).table, signal, callback)
    ensures Emit(Connect(AddSignal(EmptyBus<N>(), signal).table, signal, callback, target, fn).table, signal)
      == [Callback(target, fn)]
  {
    AddToFresh<N>(signal);
    ConnectFirstCallback(AddSignal(EmptyBus<N>(), signal).table, signal, callback, target, fn);
  }

  /** Add a signal, connect a callback, emit: exactly that callback is called. */
  lemma AddConnectEmit<N>(signal: CString, callback: CString, target: N, fn: Fn)
    requires |signal| < NameCapacity && |callback| < NameCapacity
    ensures Perform(EmptyBus<N>(), [AddOp(signal), ConnectOp(signal, callback, target, fn)]).Some?
    ensures Emit(Perform(EmptyBus<N>(), [AddOp(signal), ConnectOp(signal, callback, target, fn)]).value, signal)
      == [Callback(target, fn)]
  {
    PerformTwo(EmptyBus<N>(), AddOp(signal), ConnectOp(signal, callback, target, fn));
    ConnectToFresh(signal, callback, target, fn);
  }

  /** Running one call that returns. */
  lemma PerformOne<N>(t: SignalTable<N>, op: Op<N>)
    requires Shaped(t)
    ensures op.AddOp? ==>
      Perform(t, [op]) == if AddReturns(t, op.name) then Some(AddSignal(t, op.name).table) else None
    ensures op.ConnectOp? ==>
      Perform(t, [op]) ==
        if ConnectReturns(t, op.signal, op.callback)
        then Some(Connect(t, op.signal, op.callback, op.target, op.fn).table)
        else None
  {
    assert [op][1..] == [];
  }

  /** The fresh table satisfies the invariants at both levels. */
  lemma FreshValid<N>()
    ensures SignalBus.Valid(EmptyBus<N>())
  {
    EmptyValid<CallbackTable<N>>();
  }

  /** Connecting the same callback name twice: emit calls only the later target and method. */
  lemma Reconnect<N>(signal: CString, callback: CString, target: N, fn: Fn, target': N, fn': Fn)
    requires |signal| < NameCapacity && |callback| < NameCapacity
    ensures Perform(EmptyBus<N>(), [AddOp(signal), ConnectOp(signal, callback, target, fn),
                                    ConnectOp(signal, callback, target', fn')]).Some?
    ensures Emit(Perform(EmptyBus<N>(), [AddOp(signal), ConnectOp(signal, callback, target, fn),
                                         ConnectOp(signal, callback, target', fn')]).value, signal)
      == [Callback(target', fn')]
  {
    var a, c, c' := AddOp(signal), ConnectOp(signal, callback, target, fn), ConnectOp(signal, callback, target', fn');
    var t1 := AddSignal(EmptyBus<N>(), signal).table;
    AddToFresh<N>(signal);
    ConnectToFresh(signal, callback, target, fn);
    ConnectToFresh(signal, callback, target', fn');
    ConnectLastWins(t1, signal, callback, target, fn, target', fn');
    var t2 := Connect(t1, signal, callback, target, fn).table;
    PerformTwo(EmptyBus<N>(), a, c);
    PerformOne(EmptyBus<N>(), a);
    PerformOne(t1, c);
    PerformOne(t2, c');
    PerformAppend(EmptyBus<N>(), [a, c], [c']);
    assert [a, c] + [c'] == [a, c, c'];
  }

  /** As written, connecting the same callback name of NameCapacity bytes twice to a signal just
      added to a fresh table: both calls return, and emit calls the first target and the second,
      where a shorter name would leave only the second (Reconnect). */
  lemma LongCallbackReconnect<N>(signal: CString, callback: CString, target: N, fn: Fn, target': N, fn': Fn)
    requires |signal| < NameCapacity && |callback| == NameCapacity
    ensures Perform(EmptyBus<N>(), [AddOp(signal), ConnectOp(signal, callback, target, fn),
                                    ConnectOp(signal, callback, target', fn')]).Some?
    ensures var calls := Emit(Perform(EmptyBus<N>(), [AddOp(signal), ConnectOp(signal, callback, target, fn),
                                                      ConnectOp(signal, callback, target', fn')]).value, signal);
      |calls| == 2 && multiset(calls) == multiset{Callback(target, fn), Callback(target', fn')}
  {
    var a, c, c' := AddOp(signal), ConnectOp(signal, callback, target, fn), ConnectOp(signal, callback, target', fn');
    var t1 := AddSignal(EmptyBus<N>(), signal).table;
    AddToFresh<N>(signal);
    FiredNone(t1[HashKey(signal)].val);
    assert Emit(t1, signal) == [];
    var t2 := LongCallbackOnce(t1, signal, callback, target, fn);
    LongCallbackConnectedTwice(t1, signal, callback, target, fn, target', fn');
    PerformThree(EmptyBus<N>(), a, c, c');
    PerformTwo(EmptyBus<N>(), a, c);
    PerformOne(EmptyBus<N>(), a);
    PerformOne(t1, c);
    PerformOne(t2, c');
  }

  /** Running three calls is running the first two, then the third on their result. */
  lemma PerformThree<N>(t: SignalTable<N>, first: Op<N>, second: Op<N>, third: Op<N>)
    requires Shaped(t)
    ensures Perform(t, [first, second, third]) ==
      match Perform(t, [first, second])
      case None => None
      case Some(u) => Perform(u, [third])
  {
    PerformAppend(t, [first, second], [third]);
    assert [first, second] + [third] == [first, second, third];
  }

  /** The first connect of a long callback name to a signal with an empty callback table leaves
      a free slot for the second. */
  lemma LongCallbackOnce<N>(t: SignalTable<N>, signal: CString, callback: CString, target: N, fn: Fn)
    returns (u: SignalTable<N>)
    requires Shaped(t) && |signal| <= NameCapacity && |callback| == NameCapacity && Find(t, signal).Some?
    requires t[Find(t, signal).value].val == Empty<Callback<N>>()
    ensures ConnectReturns(t, signal, callback)
    ensures u == Connect(t, signal, callback, target, fn).table && ConnectReturns(u, signal, callback)
  {
    var k := Find(t, signal).value;
    var h := HashKey(callback);
    var inner := t[k].val;
    u := Connect(t, signal, callback, target, fn).table;
    PosStart(h);
    assert Stop(inner, callback) == h;
    LongNameUpsertClaimsFree(inner, callback, Callback(target, fn));
    ConnectKeepsLookups(t, signal, callback, target, fn, signal);
    assert u[k].val == Upsert(inner, callback, Callback(target, fn));
    ProbeStopsIfFree(u[k].val, callback, (h + 1) % Size);
  }

  /** A second callback name connected to a signal whose callback table holds one other name:
      emit calls both, each once. */
  lemma ConnectSecondCallback<N>(t: SignalTable<N>, signal: CString, callback: CString, x: Callback<N>,
                                 callback': CString, target': N, fn': Fn)
    requires Shaped(t) && |signal| <= NameCapacity && Find(t, signal).Some?
    requires |callback| < NameCapacity && |callback'| < NameCapacity && callback != callback'
    requires t[Find(t, signal).value].val == Empty<Callback<N>>()[HashKey(callback) := Used(callback, x)]
    ensures ConnectReturns(t, signal, callback')
    ensures var calls := Emit(Connect(t, signal, callback', target', fn').table, signal);
      |calls| == 2 && multiset(calls) == multiset{x, Callback(target', fn')}
  {
    var inner := t[Find(t, signal).value].val;
    OneName(inner, callback, x, callback');
    ConnectEmitsUpsert(t, signal, callback', target', fn');
    ConnectNewThenEmit(t, signal, callback', target', fn');
  }

  /** A callback table holding one name, at its hash slot: valid, without any other name, with a
      free slot for another name's probe, and firing that name's payload alone. */
  lemma OneName<V>(inner: Table<V>, callback: CString, x: V, callback': CString)
    requires |callback| < NameCapacity && callback != callback'
    requires inner == Empty<V>()[HashKey(callback) := Used(callback, x)]
    ensures OpenAddressing.Valid(inner) && !Holds(inner, callback') && Probe(inner, callback') < Size
    ensures Fired(inner) == [x]
  {
    var k := HashKey(callback);
    ProbeStopsIfFree(inner, callback', (k + 1) % Size);
    AllFreeValid(Empty<V>());
    PosStart(k);
    UpsertKeepsValid(Empty<V>(), callback, x);
    FiredOne(inner, k);
  }

  /** A table with one slot in use fires its payload alone. */
  lemma FiredOne<V>(t: Table<V>, k: nat)
    requires |t| == Size && k < Size && t[k].Used? && forall j | 0 <= j < Size && j != k :: t[j].Free?
    ensures Fired(t) == [t[k].val]
  {
    var e := t[k := Free];
    FiredNone(e);
    FiredInsert(e, k, t[k].key, t[k].val);
    assert e[k := Used(t[k].key, t[k].val)] == t;
    Single(Fired(t), t[k].val);
  }

  /** Two different callback names connected to a signal just added to a fresh table: emit calls
      each of them once. */
  lemma SecondCallback<N>(signal: CString, callback: CString, target: N, fn: Fn,
                          callback': CString, target': N, fn': Fn)
    requires |signal| < NameCapacity && |callback| < NameCapacity && |callback'| < NameCapacity
    requires callback != callback'
    ensures ConnectReturns(AddSignal(EmptyBus<N>(), signal).table, signal, callback)
    ensures ConnectReturns(Connect(AddSignal(EmptyBus<N>(), signal).table, signal, callback, target, fn).table, signal, callback')
    ensures var calls := Emit(Connect(Connect(AddSignal(EmptyBus<N>(), signal).table, signal, callback, target, fn).table,
                                      signal, callback', target', fn').table, signal);
      |calls| == 2 && multiset(calls) == multiset{Callback(target, fn), Callback(target', fn')}
  {
    var t1 := AddSignal(EmptyBus<N>(), signal).table;
    AddToFresh<N>(signal);
    ConnectToFresh(signal, callback, target, fn);
    var t2 := Connect(t1, signal, callback, target, fn).table;
    ConnectKeepsLookups(t1, signal, callback, target, fn, signal);
    PosStart(HashKey(callback));
    assert t2[HashKey(signal)].val == Empty<Callback<N>>()[HashKey(callback) := Used(callback, Callback(target, fn))];
    ConnectSecondCallback(t2, signal, callback, Callback(target, fn), callback', target', fn');
  }

  /** Adding a signal twice to a fresh table is adding it once. */
  lemma AddTwice<N>(signal: CString)
    requires |signal| < NameCapacity
    ensures Perform(EmptyBus<N>(), [AddOp(signal), AddOp(signal)]) == Some(AddSignal(EmptyBus<N>(), signal).table)
  {
    var t0 := EmptyBus<N>();
    FreshValid<N>();
    AddSignalIdempotent(t0, signal);
    PerformTwo(t0, AddOp(signal), AddOp(signal));
    PerformOne(t0, AddOp(signal));
    PerformOne(AddSignal(t0, signal).table, AddOp(signal));
  }

  /** Add a signal twice, connect two different callback names: the second add changes nothing,
      and emit calls both callbacks, each once. */
  lemma TwoCallbacks<N>(signal: CString, callback: CString, target: N, fn: Fn,
                        callback': CString, target': N, fn': Fn)
    requires |signal| < NameCapacity && |callback| < NameCapacity && |callback'| < NameCapacity
    requires callback != callback'
    ensures Perform(EmptyBus<N>(), [AddOp(signal), AddOp(signal), ConnectOp(signal, callback, target, fn),
                                    ConnectOp(signal, callback', target', fn')]).Some?
    ensures var calls := Emit(Perform(EmptyBus<N>(), [AddOp(signal), AddOp(signal), ConnectOp(signal, callback, target, fn),
                                                      ConnectOp(signal, callback', target', fn')]).value, signal);
      |calls| == 2 && multiset(calls) == multiset{Callback(target, fn), Callback(target', fn')}
  {
    SecondCallback(signal, callback, target, fn, callback', target', fn');
    TwoCallbacksRun(signal, callback, target, fn, callback', target', fn');
  }

  /** The table that sequence of calls leaves. */
  lemma TwoCallbacksRun<N>(signal: CString, callback: CString, target: N, fn: Fn,
                           callback': CString, target': N, fn': Fn)
    requires |signal| < NameCapacity
    requires ConnectReturns(AddSignal(EmptyBus<N>(), signal).table, signal, callback)
    requires ConnectReturns(Connect(AddSignal(EmptyBus<N>(), signal).table, signal, callback, target, fn).table, signal, callback')
    ensures Perform(EmptyBus<N>(), [AddOp(signal), AddOp(signal), ConnectOp(signal, callback, target, fn),
                                    ConnectOp(signal, callback', target', fn')])
      == Some(Connect(Connect(AddSignal(EmptyBus<N>(), signal).table, signal, callback, target, fn).table,
                      signal, callback', target', fn').table)
  {
    var a, c, c' := AddOp(signal), ConnectOp(signal, callback, target, fn), ConnectOp(signal, callback', target', fn');
    var t1 := AddSignal(EmptyBus<N>(), signal).table;
    AddTwice<N>(signal);
    var t2 := Connect(t1, signal, callback, target, fn).table;
    PerformTwo(t1, c, c');
    PerformOne(t1, c);
    PerformOne(t2, c');
    PerformAppend(EmptyBus<N>(), [a, a], [c, c']);
    assert [a, a] + [c, c'] == [a, a, c, c'];
  }

  /** After adding one signal to a fresh table, emitting any other name calls nothing. */
  lemma EmitOtherAfterAdd<N>(signal: CString, other: CString)
    requires |signal| < NameCapacity && |other| <= NameCapacity && other != signal
    ensures Perform(EmptyBus<N>(), [AddOp(signal)]).Some?
    ensures Emit(Perform(EmptyBus<N>(), [AddOp(signal)]).value, other) == []
  {
    FreshValid<N>();
    PerformOne(EmptyBus<N>(), AddOp(signal));
    AddSignalLeavesOtherEmits(EmptyBus<N>(), signal, other);
    AllFreeValid(EmptyBus<N>());
    EmitUnregistered(EmptyBus<N>(), other);
  }
}
