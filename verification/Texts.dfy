/** Byte strings as texts: what several components of the shell need of them. */
module Texts {
  import opened Bytes
  import opened Ctype

  type Text = seq<byte>

  /** Bytes of a C string, without its terminator. */
  predicate NulFree(z: Text) {
    forall i :: 0 <= i < |z| ==> z[i] != 0
  }

  /** The whitespace a text starts with. */
  function Spaces(z: Text): (n: nat)
    ensures n <= |z| && (n < |z| ==> !IsSpace(z[n]))
    ensures forall i :: 0 <= i < n ==> IsSpace(z[i])
  {
    if z != [] && IsSpace(z[0]) then 1 + Spaces(z[1..]) else 0
  }

  function DropSpaces(z: Text): (r: Text)
    ensures |r| <= |z| && (r != [] ==> !IsSpace(r[0]))
  {
    z[Spaces(z)..]
  }

  lemma Assoc<T>(a: seq<T>, b: seq<T>, c: seq<T>)
    ensures (a + b) + c == a + (b + c)
  {
  }
}
