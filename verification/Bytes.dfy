/** Bytes, and the few facts about byte strings every layer of the stack uses. */
module Bytes {

  newtype byte = x: int | 0 <= x < 256

  /** No byte of s is zero. */
  predicate ZeroFree(s: seq<byte>) {
    forall i :: 0 <= i < |s| ==> s[i] != 0
  }

  lemma ZeroFreeSlice(s: seq<byte>, i: nat, j: nat)
    requires ZeroFree(s) && i <= j <= |s|
    ensures ZeroFree(s[i..j])
  {
  }

  lemma ZeroFreeAppend(s: seq<byte>, t: seq<byte>)
    ensures ZeroFree(s + t) <==> ZeroFree(s) && ZeroFree(t)
  {
    if ZeroFree(s + t) {
      forall i | 0 <= i < |s| ensures s[i] != 0 { assert (s + t)[i] != 0; }
      forall i | 0 <= i < |t| ensures t[i] != 0 { assert (s + t)[|s| + i] != 0; }
    }
  }

  function Min(a: int, b: int): int { if a < b then a else b }

  function Max(a: int, b: int): int { if a < b then b else a }

  lemma Assoc<T>(a: seq<T>, b: seq<T>, c: seq<T>)
    ensures (a + b) + c == a + (b + c)
  {
  }

  lemma SetAssoc<T>(a: set<T>, b: set<T>, c: set<T>)
    ensures (a + b) + c == a + (b + c)
  {
  }

  lemma NoBytes<T>(a: seq<T>)
    ensures a + [] == a && [] + a == a
  {
  }

  /** n zero bytes. */
  function Zeros(n: nat): (z: seq<byte>)
    ensures |z| == n && forall i :: 0 <= i < n ==> z[i] == 0
  {
    seq(n, _ => 0)
  }
}
