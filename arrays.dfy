/**
 * The two JDK primitives the builder moves characters with: String.toCharArray,
 * built with an array initialiser, and System.arraycopy, written out as loops.
 */
module Arrays {

  /** A fresh array holding the characters of `s` (String.toCharArray). */
  method ToCharArray(s: string) returns (a: array<char>)
    ensures fresh(a) && a[..] == s
  {
    a := new char[|s|](i requires 0 <= i < |s| => s[i]);
  }

  /** `dest` after `length` elements of `src` from `srcPos` were written at `destPos`. */
  function Copied(dest: seq<char>, destPos: nat, src: seq<char>, srcPos: nat, length: nat): seq<char>
    requires srcPos + length <= |src| && destPos + length <= |dest|
  {
    dest[..destPos] + src[srcPos..srcPos + length] + dest[destPos + length..]
  }

  /** A sequence that agrees with `Copied` at every index is `Copied`. */
  lemma {:induction false} CopiedPointwise(r: seq<char>, dest: seq<char>, destPos: nat, src: seq<char>, srcPos: nat, length: nat)
    requires srcPos + length <= |src| && destPos + length <= |dest| && |r| == |dest|
    requires forall t :: 0 <= t < |r| ==>
      r[t] == if destPos <= t < destPos + length then src[t - destPos + srcPos] else dest[t]
    ensures r == Copied(dest, destPos, src, srcPos, length)
  {
  }

  /**
   * System.arraycopy: `dest[destPos .. destPos + length)` becomes what
   * `src[srcPos .. srcPos + length)` held before the call, even when `src` and
   * `dest` are the same array and the two ranges overlap. When the copy moves
   * characters to the right within one array it runs from the high end down, so
   * no character is overwritten before it has been read.
   */
  method ArrayCopy(src: array<char>, srcPos: nat, dest: array<char>, destPos: nat, length: nat)
    requires srcPos + length <= src.Length
    requires destPos + length <= dest.Length
    modifies dest
    ensures dest[..] == Copied(old(dest[..]), destPos, old(src[..]), srcPos, length)
  {
    if src == dest && srcPos < destPos {
      var i := length;
      while i > 0
        invariant 0 <= i <= length
        invariant forall t :: 0 <= t < dest.Length ==>
          dest[t] == if destPos + i <= t < destPos + length then old(src[t - destPos + srcPos]) else old(dest[t])
      {
        i := i - 1;
        dest[destPos + i] := src[srcPos + i];
      }
    } else {
      var i := 0;
      while i < length
        invariant 0 <= i <= length
        invariant forall t :: 0 <= t < dest.Length ==>
          dest[t] == if destPos <= t < destPos + i then old(src[t - destPos + srcPos]) else old(dest[t])
      {
        dest[destPos + i] := src[srcPos + i];
        i := i + 1;
      }
    }
    CopiedPointwise(dest[..], old(dest[..]), destPos, old(src[..]), srcPos, length);
  }
}
