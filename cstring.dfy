/** NUL-terminated byte strings as the engine's names see them: strlen, strncmp and the
    truncating strncpy used to store a name into a NameCapacity-byte key buffer. */
module CStrings {
  import opened Config

  type byte = b: int | 0 <= b < 256

  /** The bytes of a C string before its terminator: no NUL inside, so strlen(s) == |s|. */
  type CString = s: seq<byte> | forall i | 0 <= i < |s| :: s[i] != 0

  function Min(a: nat, b: nat): nat { if a <= b then a else b }

  /** The first n bytes of s, or all of s when it is shorter. */
  function Prefix(s: seq<byte>, n: nat): (r: seq<byte>)
    ensures |r| == Min(|s|, n) && r <= s
  {
    s[..Min(|s|, n)]
  }

  /** strncmp(a, b, n) == 0 for C strings a and b: the comparison stops at the first
      difference, at the terminator of either string, or after n bytes. */
  predicate StrnEq(a: seq<byte>, b: seq<byte>, n: nat) {
    Prefix(a, n) == Prefix(b, n)
  }

  /** The key left in a NameCapacity-byte buffer by strncpy(key, name, NameCapacity - 1)
      followed by key[NameCapacity - 1] = '\0': at most NameCapacity - 1 bytes survive. */
  function Stored(name: CString): (key: CString)
    ensures |key| < NameCapacity
    ensures |name| < NameCapacity ==> key == name
    ensures |name| >= NameCapacity ==> key == name[..NameCapacity - 1]
  {
    Prefix(name, NameCapacity - 1)
  }

  /** A name the engine accepts (strlen(name) > NameCapacity is rejected) matches a stored key
      exactly when the two are equal: the key is shorter than the comparison window. */
  lemma StrnEqStoredKey(key: seq<byte>, name: seq<byte>)
    requires |key| < NameCapacity && |name| <= NameCapacity
    ensures StrnEq(key, name, NameCapacity) <==> key == name
  {
  }

  /** A name of exactly NameCapacity bytes passes the length checks but never matches the
      truncated copy that is stored for it. */
  lemma LongNameNeverMatchesItsKey(name: CString)
    requires |name| == NameCapacity
    ensures !StrnEq(Stored(name), name, NameCapacity)
  {
  }
}
