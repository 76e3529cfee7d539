/** The slot-selection hash: 64-bit FNV-1a over the bytes of a name, reduced modulo the table size. */
module Fnv {
  import opened Config
  import opened CStrings

  const OffsetBasis: bv64 := 14695981039346656037
  const Prime: bv64 := 1099511628211

  /** One FNV-1a round on a uint64_t accumulator: xor the byte in, then multiply.
      bv64 multiplication wraps modulo 2^64, as unsigned C arithmetic does. */
  function Round(h: bv64, b: byte): bv64 {
    (h ^ (b as bv64)) * Prime
  }

  /** The accumulator after folding the bytes of s into h, first byte first. */
  function Fold(h: bv64, s: seq<byte>): bv64
    decreases |s|
  {
    if s == [] then h else Round(Fold(h, s[..|s| - 1]), s[|s| - 1])
  }

  /** Folding a concatenation folds the first part, then the second: the hash is a streaming fold. */
  lemma {:induction false} FoldAppend(h: bv64, s: seq<byte>, t: seq<byte>)
    ensures Fold(h, s + t) == Fold(Fold(h, s), t)
    decreases |t|
  {
    if t != [] {
      var t' := t[..|t| - 1];
      assert (s + t)[..|s + t| - 1] == s + t';
      FoldAppend(h, s, t');
    } else {
      assert s + t == s;
    }
  }

  /** How many bytes of the buffer p the hash loop reads, scanning from index i: it stops at the
      first NUL or after NameCapacity bytes. The end of p stands for the terminator that
      follows the bytes of a C string. */
  function ReadFrom(p: seq<byte>, i: nat): (n: nat)
    requires i <= |p| && i <= NameCapacity
    requires forall j | 0 <= j < i :: p[j] != 0
    ensures i <= n <= |p| && n <= NameCapacity
    ensures forall j | 0 <= j < n :: p[j] != 0
    ensures n == |p| || n == NameCapacity || p[n] == 0
    decreases NameCapacity - i
  {
    if i < NameCapacity && i < |p| && p[i] != 0 then ReadFrom(p, i + 1) else i
  }

  function ReadLength(p: seq<byte>): (n: nat)
    ensures n <= |p| && n <= NameCapacity
    ensures forall j | 0 <= j < n :: p[j] != 0
    ensures n == |p| || n == NameCapacity || p[n] == 0
  {
    ReadFrom(p, 0)
  }

  /** The three properties of ReadLength determine it: it is the first stopping point. */
  lemma ReadLengthUnique(p: seq<byte>, n: nat)
    requires n <= |p| && n <= NameCapacity
    requires forall j | 0 <= j < n :: p[j] != 0
    requires n == |p| || n == NameCapacity || p[n] == 0
    ensures ReadLength(p) == n
  {
    var m := ReadLength(p);
    if m < n {
      assert p[m] != 0;
    } else if n < m {
      assert p[n] != 0;
    }
  }

  /** _get_hash_key: the table slot of a name. */
  function HashKey(p: seq<byte>): (key: nat)
    ensures key < SignalCapacity
  {
    (Fold(OffsetBasis, p[..ReadLength(p)]) as int) % SignalCapacity
  }

  /** The accumulator loop of _get_hash_key. */
  method GetHashKey(p: seq<byte>) returns (key: nat)
    ensures key == HashKey(p)
  {
    var h := OffsetBasis;
    var i := 0;
    while i < NameCapacity && i < |p| && p[i] != 0
      invariant i <= |p| && i <= NameCapacity
      invariant forall j | 0 <= j < i :: p[j] != 0
      invariant h == Fold(OffsetBasis, p[..i])
    {
      assert p[..i + 1][..i] == p[..i];
      h := Round(h, p[i]);
      i := i + 1;
    }
    ReadLengthUnique(p, i);
    key := (h as int) % SignalCapacity;
  }

  /** Of a name, every byte is hashed when it fits the name capacity. */
  lemma HashKeyOfName(name: CString)
    requires |name| <= NameCapacity
    ensures HashKey(name) == (Fold(OffsetBasis, name) as int) % SignalCapacity
  {
    ReadLengthUnique(name, |name|);
    assert name[..|name|] == name;
  }

  /** Bytes after the point where the hash loop stops (a NUL, or the NameCapacity-th byte)
      never influence the slot. */
  lemma HashKeyIgnoresUnread(p: seq<byte>, rest: seq<byte>)
    requires ReadLength(p) < |p|
    ensures HashKey(p + rest) == HashKey(p)
  {
    var n := ReadLength(p);
    assert forall j | 0 <= j < n :: (p + rest)[j] == p[j];
    ReadLengthUnique(p + rest, n);
    assert (p + rest)[..n] == p[..n];
  }

  /** In particular a name followed by its terminator hashes the same whatever comes after it. */
  lemma HashKeyStopsAtTerminator(name: CString, rest: seq<byte>)
    requires |name| < NameCapacity
    ensures HashKey(name + [0] + rest) == HashKey(name)
  {
    var p := name + [0];
    ReadLengthUnique(p, |name|);
    HashKeyIgnoresUnread(p, rest);
    ReadLengthUnique(name, |name|);
    assert p[..|name|] == name[..|name|];
    assert name + [0] + rest == p + rest;
  }
}
