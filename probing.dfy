/** Open addressing with linear probing, the scheme shared by a node's signal table and by the
    callback table of each signal: a fixed array of slots, each free or holding a stored name and
    a value; a name is looked for from its hash slot onward, one slot at a time, wrapping around. */
module OpenAddressing {
  import opened Config
  import opened CStrings
  import opened Fnv
  import opened Optional

  /** Slots per table: SignalCapacity for the signal table and CallbackCapacity for a callback
      table, which are equal. */
  const Size: nat := SignalCapacity

  /** A slot: _in_use false (all zero), or in use with its stored key and its payload. */
  datatype Slot<V> = Free | Used(key: CString, val: V)

  type Table<V> = seq<Slot<V>>

  /** The slot visited after d steps of a probe that starts at slot h. */
  function Pos(h: nat, d: nat): nat {
    (h + d) % Size
  }

  /** The number of steps from slot h to slot j. */
  function Dist(h: nat, j: nat): nat {
    (j - h) % Size
  }

  lemma PosDist(h: nat, d: nat)
    requires h < Size && d < Size
    ensures Pos(h, d) < Size && Dist(h, Pos(h, d)) == d
  {
    if h + d < Size {
      assert Pos(h, d) == h + d;
    } else {
      assert Pos(h, d) == h + d - Size;
    }
  }

  lemma DistPos(h: nat, j: nat)
    requires h < Size && j < Size
    ensures Dist(h, j) < Size && Pos(h, Dist(h, j)) == j
  {
    if h <= j {
      assert Dist(h, j) == j - h;
    } else {
      assert Dist(h, j) == j - h + Size;
    }
  }

  /** A probe starts at its hash slot. */
  lemma PosStart(h: nat)
    requires h < Size
    ensures Pos(h, 0) == h
  {
  }

  /** Advancing the slot index by one, modulo Size, is the next step of the probe. */
  lemma PosNext(h: nat, d: nat)
    requires h < Size && d < Size
    ensures (Pos(h, d) + 1) % Size == Pos(h, d + 1)
  {
    if h + d < Size {
      assert Pos(h, d) == h + d;
    } else {
      assert Pos(h, d) == h + d - Size;
    }
  }

  /** strncmp(slot._key, name, NameCapacity) == 0 on an in-use slot. */
  predicate Matches<V>(s: Slot<V>, name: CString) {
    s.Used? && StrnEq(s.key, name, NameCapacity)
  }

  /** A probe for name ends at s: s is free, or s holds name. */
  predicate Stops<V>(s: Slot<V>, name: CString) {
    s.Free? || Matches(s, name)
  }

  /** The number of steps, from the d-th on, that a probe for name starting at slot h takes before
      it stops; Size when it passes every slot without stopping. */
  function ProbeFrom<V>(t: Table<V>, h: nat, name: CString, d: nat): (r: nat)
    requires |t| == Size && h < Size && d <= Size
    ensures d <= r <= Size
    ensures r < Size ==> Stops(t[Pos(h, r)], name)
    ensures forall e | d <= e < r :: !Stops(t[Pos(h, e)], name)
    decreases Size - d
  {
    if d == Size then d
    else if Stops(t[Pos(h, d)], name) then d
    else ProbeFrom(t, h, name, d + 1)
  }

  /** The steps of a probe for name from its hash slot. */
  function Probe<V>(t: Table<V>, name: CString): nat
    requires |t| == Size
  {
    ProbeFrom(t, HashKey(name), name, 0)
  }

  /** A probe that has not reached its stop passes a slot that does not stop it. */
  lemma ProbePasses<V>(t: Table<V>, name: CString, d: nat)
    requires |t| == Size && d <= Probe(t, name) && d < Size && !Stops(t[Pos(HashKey(name), d)], name)
    ensures d < Probe(t, name)
  {
  }

  /** A probe that has not passed its stop stops at the first slot that stops it. */
  lemma ProbeStopsAt<V>(t: Table<V>, name: CString, d: nat)
    requires |t| == Size && d <= Probe(t, name) && d < Size && Stops(t[Pos(HashKey(name), d)], name)
    ensures d == Probe(t, name)
  {
  }

  /** The slot where that probe stops, when it stops within one lap. */
  function Stop<V>(t: Table<V>, name: CString): (k: nat)
    requires |t| == Size && Probe(t, name) < Size
    ensures k < Size && Stops(t[k], name)
  {
    Pos(HashKey(name), Probe(t, name))
  }

  /** The lookup of a signal by connect and emit: at most Size slots are probed, and an empty
      slot or a full lap means the name is absent. */
  function Find<V>(t: Table<V>, name: CString): (r: Option<nat>)
    requires |t| == Size
    ensures r.Some? ==> r.value < Size && Matches(t[r.value], name)
    ensures r.None? ==> Probe(t, name) == Size || t[Pos(HashKey(name), Probe(t, name))].Free?
  {
    var d := Probe(t, name);
    if d < Size && t[Pos(HashKey(name), d)].Used? then Some(Pos(HashKey(name), d)) else None
  }

  /** The insertion of add_signal: a probe that meets the name leaves the table as it is;
      one that meets a free slot claims it for the (truncated) name and the payload v. */
  function Claim<V>(t: Table<V>, name: CString, v: V): (r: Table<V>)
    requires |t| == Size && Probe(t, name) < Size
    ensures |r| == Size
    ensures forall j | 0 <= j < Size && j != Stop(t, name) :: r[j] == t[j]
  {
    var k := Stop(t, name);
    if t[k].Used? then t else t[k := Used(Stored(name), v)]
  }

  /** The insertion of connect into a callback table: a probe that meets the name replaces
      that slot's payload and keeps its key; one that meets a free slot claims it. */
  function Upsert<V>(t: Table<V>, name: CString, v: V): (r: Table<V>)
    requires |t| == Size && Probe(t, name) < Size
    ensures |r| == Size
    ensures forall j | 0 <= j < Size && j != Stop(t, name) :: r[j] == t[j]
  {
    var k := Stop(t, name);
    if t[k].Used? then t[k := Used(t[k].key, v)] else t[k := Used(Stored(name), v)]
  }

  /** A table where every slot is free, as memset leaves it. */
  function Empty<V>(): (t: Table<V>)
    ensures |t| == Size && forall j | 0 <= j < Size :: t[j].Free?
    ensures forall name: CString :: Probe(t, name) == 0
  {
    seq(Size, _ => Free)
  }

  // ---------------------------------------------------------------------------------------
  // The table invariant

  /** Every stored key fits the key buffer with its terminator. */
  ghost predicate KeysFit<V>(t: Table<V>) {
    forall j | 0 <= j < |t| && t[j].Used? :: |t[j].key| < NameCapacity
  }

  /** No two in-use slots hold the same name. */
  ghost predicate Distinct<V>(t: Table<V>) {
    forall i, j | 0 <= i < |t| && 0 <= j < |t| && t[i].Used? && t[j].Used? && t[i].key == t[j].key :: i == j
  }

  /** The first n slots of the probe that starts at h are all in use. */
  ghost predicate RunUsed<V>(t: Table<V>, h: nat, n: nat)
    requires |t| == Size
  {
    forall d | 0 <= d < n :: t[Pos(h, d)].Used?
  }

  /** Every in-use entry is reachable from its hash slot through in-use slots. */
  ghost predicate Chained<V>(t: Table<V>)
    requires |t| == Size
  {
    forall j | 0 <= j < Size && t[j].Used? :: RunUsed(t, HashKey(t[j].key), Dist(HashKey(t[j].key), j))
  }

  ghost predicate Valid<V>(t: Table<V>) {
    |t| == Size && KeysFit(t) && Distinct(t) && Chained(t)
  }

  /** The name is stored in some in-use slot. */
  ghost predicate Holds<V>(t: Table<V>, name: CString) {
    exists j | 0 <= j < |t| :: t[j].Used? && t[j].key == name
  }

  lemma EmptyValid<V>()
    ensures Valid(Empty<V>())
  {
  }

  // ---------------------------------------------------------------------------------------
  // Lookup

  /** A stored key is found where it is stored: every slot between its hash slot and its own
      slot is in use and holds another name. */
  lemma FindsPresent<V>(t: Table<V>, j: nat)
    requires Valid(t) && j < Size && t[j].Used?
    ensures Probe(t, t[j].key) == Dist(HashKey(t[j].key), j)
    ensures Find(t, t[j].key) == Some(j)
  {
    var key := t[j].key;
    var h := HashKey(key);
    var n := Dist(h, j);
    DistPos(h, j);
    forall e | 0 <= e < n
      ensures !Stops(t[Pos(h, e)], key)
    {
      PosDist(h, e);
      assert t[Pos(h, e)].Used?;
      StrnEqStoredKey(t[Pos(h, e)].key, key);
    }
    StrnEqStoredKey(key, key);
    assert Stops(t[Pos(h, n)], key);
  }

  /** The lookup is exact for every name the engine accepts: it finds a slot exactly when the
      name is stored, and the slot it finds holds that name. */
  lemma FindCorrect<V>(t: Table<V>, name: CString)
    requires Valid(t) && |name| <= NameCapacity
    ensures Find(t, name).Some? <==> Holds(t, name)
    ensures Find(t, name).Some? ==> t[Find(t, name).value].key == name
  {
    var r := Find(t, name);
    if r.Some? {
      StrnEqStoredKey(t[r.value].key, name);
    }
    if Holds(t, name) {
      var j :| 0 <= j < |t| && t[j].Used? && t[j].key == name;
      FindsPresent(t, j);
    }
  }

  /** A name that is stored makes every probe for it stop at its slot. */
  lemma ProbeStopsAtHolder<V>(t: Table<V>, name: CString)
    requires Valid(t) && Holds(t, name)
    ensures Probe(t, name) < Size && t[Stop(t, name)].Used? && t[Stop(t, name)].key == name
  {
    var j :| 0 <= j < |t| && t[j].Used? && t[j].key == name;
    FindsPresent(t, j);
  }

  // ---------------------------------------------------------------------------------------
  // Insertion

  /** Every slot in use in t is in use in u with the same key. */
  ghost predicate Grows<V>(t: Table<V>, u: Table<V>) {
    |t| == |u| && forall j | 0 <= j < |t| && t[j].Used? :: u[j].Used? && u[j].key == t[j].key
  }

  /** Storing name (absent from t) in the free slot where its probe stops keeps the invariant. */
  lemma InsertKeepsValid<V>(t: Table<V>, name: CString, v: V)
    requires Valid(t) && |name| < NameCapacity && Probe(t, name) < Size
    requires t[Stop(t, name)].Free?
    ensures !Holds(t, name)
    ensures Valid(t[Stop(t, name) := Used(name, v)])
  {
    var k := Stop(t, name);
    var h := HashKey(name);
    var u := t[k := Used(name, v)];
    if Holds(t, name) {
      ProbeStopsAtHolder(t, name);
      assert false;
    }
    assert Grows(t, u);
    PosDist(h, Probe(t, name));
    forall j | 0 <= j < Size && u[j].Used?
      ensures RunUsed(u, HashKey(u[j].key), Dist(HashKey(u[j].key), j))
    {
      if j != k {
        assert RunUsed(t, HashKey(t[j].key), Dist(HashKey(t[j].key), j));
      }
    }
  }

  /** Changing the payload of an in-use slot keeps the invariant. */
  lemma ReplaceKeepsValid<V>(t: Table<V>, k: nat, v: V)
    requires Valid(t) && k < Size && t[k].Used?
    ensures Valid(t[k := Used(t[k].key, v)])
  {
    var u := t[k := Used(t[k].key, v)];
    forall j | 0 <= j < Size && u[j].Used?
      ensures RunUsed(u, HashKey(u[j].key), Dist(HashKey(u[j].key), j))
    {
      assert RunUsed(t, HashKey(t[j].key), Dist(HashKey(t[j].key), j));
    }
  }

  /** add_signal on a name that is already stored changes nothing. */
  lemma ClaimPresent<V>(t: Table<V>, name: CString, v: V)
    requires Valid(t) && Holds(t, name)
    ensures Probe(t, name) < Size && Claim(t, name, v) == t
  {
    ProbeStopsAtHolder(t, name);
  }

  /** add_signal on a new name claims the first free slot on its probe path: every slot before it
      on the path is in use, and the slot itself now holds the name and the payload. */
  lemma ClaimAbsent<V>(t: Table<V>, name: CString, v: V)
    requires Valid(t) && |name| < NameCapacity && !Holds(t, name) && Probe(t, name) < Size
    ensures t[Stop(t, name)].Free?
    ensures RunUsed(t, HashKey(name), Dist(HashKey(name), Stop(t, name)))
    ensures Claim(t, name, v) == t[Stop(t, name) := Used(name, v)]
  {
    var k := Stop(t, name);
    if t[k].Used? {
      StrnEqStoredKey(t[k].key, name);
      assert false;
    }
    PosDist(HashKey(name), Probe(t, name));
  }

  /** The insertion of add_signal keeps the invariant. */
  lemma ClaimKeepsValid<V>(t: Table<V>, name: CString, v: V)
    requires Valid(t) && |name| < NameCapacity && Probe(t, name) < Size
    ensures Valid(Claim(t, name, v))
  {
    if t[Stop(t, name)].Free? {
      InsertKeepsValid(t, name, v);
    }
  }

  /** The insertion of connect keeps the invariant. */
  lemma UpsertKeepsValid<V>(t: Table<V>, name: CString, v: V)
    requires Valid(t) && |name| < NameCapacity && Probe(t, name) < Size
    ensures Valid(Upsert(t, name, v))
  {
    if t[Stop(t, name)].Free? {
      InsertKeepsValid(t, name, v);
    } else {
      ReplaceKeepsValid(t, Stop(t, name), v);
    }
  }

  /** After add_signal the name is found, in the slot where its probe stopped. */
  lemma ClaimThenFind<V>(t: Table<V>, name: CString, v: V)
    requires Valid(t) && |name| < NameCapacity && Probe(t, name) < Size
    ensures Find(Claim(t, name, v), name) == Some(Stop(t, name))
  {
    var k := Stop(t, name);
    if t[k].Used? {
      StrnEqStoredKey(t[k].key, name);
      FindsPresent(t, k);
    } else {
      InsertKeepsValid(t, name, v);
      var u := t[k := Used(name, v)];
      FindsPresent(u, k);
    }
  }

  /** After connect the name is found, and its slot holds the new payload. */
  lemma UpsertThenFind<V>(t: Table<V>, name: CString, v: V)
    requires Valid(t) && |name| < NameCapacity && Probe(t, name) < Size
    ensures Find(Upsert(t, name, v), name) == Some(Stop(t, name))
    ensures Upsert(t, name, v)[Stop(t, name)].val == v
  {
    var k := Stop(t, name);
    if t[k].Used? {
      StrnEqStoredKey(t[k].key, name);
      ReplaceKeepsValid(t, k, v);
      var u := t[k := Used(name, v)];
      FindsPresent(u, k);
    } else {
      InsertKeepsValid(t, name, v);
      var u := t[k := Used(name, v)];
      FindsPresent(u, k);
    }
  }

  /** add_signal is idempotent: repeating it stops at the same slot and changes nothing. */
  lemma ClaimIdempotent<V>(t: Table<V>, name: CString, v: V, w: V)
    requires Valid(t) && |name| < NameCapacity && Probe(t, name) < Size
    ensures Probe(Claim(t, name, v), name) < Size
    ensures Claim(Claim(t, name, v), name, w) == Claim(t, name, v)
  {
    var u := Claim(t, name, v);
    ClaimKeepsValid(t, name, v);
    ClaimThenFind(t, name, v);
    FindCorrect(u, name);
    ClaimPresent(u, name, w);
  }

  /** Connecting a name that is already stored overwrites the payload of its slot and occupies
      no other slot. */
  lemma UpsertPresent<V>(t: Table<V>, name: CString, v: V)
    requires Valid(t) && Holds(t, name)
    ensures Probe(t, name) < Size
    ensures Upsert(t, name, v) == t[Stop(t, name) := Used(name, v)]
  {
    ProbeStopsAtHolder(t, name);
  }

  /** The slot where the probe for an accepted name stops is in use exactly when the name is stored. */
  lemma StopHolds<V>(t: Table<V>, name: CString)
    requires Valid(t) && |name| <= NameCapacity && Probe(t, name) < Size
    ensures t[Stop(t, name)].Used? <==> Holds(t, name)
  {
    var k := Stop(t, name);
    if t[k].Used? {
      StrnEqStoredKey(t[k].key, name);
    } else if Holds(t, name) {
      ProbeStopsAtHolder(t, name);
    }
  }

  /** Inserting one name leaves the lookup of every other accepted name as it was. */
  lemma InsertKeepsOtherLookups<V>(t: Table<V>, u: Table<V>, name: CString, other: CString)
    requires Valid(t) && Valid(u) && Grows(t, u)
    requires forall j | 0 <= j < Size && u[j].Used? && u[j].key != name :: t[j].Used? && t[j].key == u[j].key
    requires other != name && |other| <= NameCapacity
    ensures Find(u, other) == Find(t, other)
  {
    FindCorrect(t, other);
    FindCorrect(u, other);
    if Holds(t, other) {
      var j :| 0 <= j < |t| && t[j].Used? && t[j].key == other;
      FindsPresent(t, j);
      FindsPresent(u, j);
    }
  }

  /** add_signal does not disturb the lookup of any other name. */
  lemma ClaimKeepsOtherLookups<V>(t: Table<V>, name: CString, v: V, other: CString)
    requires Valid(t) && |name| < NameCapacity && Probe(t, name) < Size
    requires other != name && |other| <= NameCapacity
    ensures Find(Claim(t, name, v), other) == Find(t, other)
  {
    ClaimKeepsValid(t, name, v);
    InsertKeepsOtherLookups(t, Claim(t, name, v), name, other);
  }

  /** connect does not disturb the lookup of any other callback name. */
  lemma UpsertKeepsOtherLookups<V>(t: Table<V>, name: CString, v: V, other: CString)
    requires Valid(t) && |name| < NameCapacity && Probe(t, name) < Size
    requires other != name && |other| <= NameCapacity
    ensures Find(Upsert(t, name, v), other) == Find(t, other)
  {
    var k := Stop(t, name);
    UpsertKeepsValid(t, name, v);
    var u := Upsert(t, name, v);
    if t[k].Used? {
      StrnEqStoredKey(t[k].key, name);
      assert u == t[k := Used(name, v)];
    }
    InsertKeepsOtherLookups(t, u, name, other);
  }

  // ---------------------------------------------------------------------------------------
  // When a probe ends

  /** A probe stops within one lap whenever some slot is free. */
  lemma ProbeStopsIfFree<V>(t: Table<V>, name: CString, j: nat)
    requires |t| == Size && j < Size && t[j].Free?
    ensures Probe(t, name) < Size
  {
    DistPos(HashKey(name), j);
  }

  /** A table whose slots are all in use, none with the name, never stops a probe for it. */
  lemma ProbeNeverStopsWhenFull<V>(t: Table<V>, name: CString)
    requires |t| == Size && forall j | 0 <= j < Size :: t[j].Used? && !Matches(t[j], name)
    ensures Probe(t, name) == Size
  {
  }

  /** For a valid table and an accepted name, the probe runs a full lap exactly when every slot
      is in use and none holds the name. */
  lemma ProbeFullLap<V>(t: Table<V>, name: CString)
    requires Valid(t) && |name| <= NameCapacity
    ensures Probe(t, name) == Size <==> (forall j | 0 <= j < Size :: t[j].Used?) && !Holds(t, name)
  {
    if Probe(t, name) == Size {
      forall j | 0 <= j < Size
        ensures t[j].Used?
      {
        if t[j].Free? {
          ProbeStopsIfFree(t, name, j);
        }
      }
      if Holds(t, name) {
        ProbeStopsAtHolder(t, name);
      }
    } else if (forall j | 0 <= j < Size :: t[j].Used?) && !Holds(t, name) {
      StopHolds(t, name);
    }
  }

  /** Storing a name keeps every key within the key buffer. */
  lemma ClaimKeepsKeysFit<V>(t: Table<V>, name: CString, v: V)
    requires |t| == Size && KeysFit(t) && Probe(t, name) < Size
    ensures KeysFit(Claim(t, name, v))
  {
  }

  /** A name of NameCapacity bytes is never found: every stored key is shorter, and the
      comparison covers all NameCapacity bytes of the name. */
  lemma LongNameNeverFound<V>(t: Table<V>, name: CString)
    requires |t| == Size && KeysFit(t) && |name| == NameCapacity
    ensures Find(t, name).None?
  {
  }

  /** connect's insertion of a name of NameCapacity bytes, as written: no stored key matches
      it, so it always claims a free slot, under a key truncated to fit. */
  lemma LongNameUpsertClaimsFree<V>(t: Table<V>, name: CString, v: V)
    requires |t| == Size && KeysFit(t) && |name| == NameCapacity && Probe(t, name) < Size
    ensures t[Stop(t, name)].Free?
    ensures Upsert(t, name, v) == t[Stop(t, name) := Used(Stored(name), v)]
    ensures KeysFit(Upsert(t, name, v))
  {
  }

  /** Of two insertions of the same name by connect, the second wins: the result is as if only
      the second had happened. */
  lemma UpsertTwice<V>(t: Table<V>, name: CString, v: V, w: V)
    requires Valid(t) && |name| < NameCapacity && Probe(t, name) < Size
    ensures Probe(Upsert(t, name, v), name) < Size
    ensures Upsert(Upsert(t, name, v), name, w) == Upsert(t, name, w)
  {
    var k := Stop(t, name);
    UpsertThenFind(t, name, v);
    if t[k].Used? {
      StrnEqStoredKey(t[k].key, name);
    }
  }
}
