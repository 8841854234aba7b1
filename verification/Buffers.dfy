/** Writing into part of a buffer. */
module Buffers {

  function Splice<T>(s: seq<T>, at: nat, piece: seq<T>): (r: seq<T>)
    requires at + |piece| <= |s|
    ensures |r| == |s|
  {
    s[..at] + piece + s[at + |piece|..]
  }

  lemma SpliceTwice<T>(s: seq<T>, at: nat, first: seq<T>, second: seq<T>)
    requires at + |first| + |second| <= |s|
    ensures Splice(Splice(s, at, first), at + |first|, second) == Splice(s, at, first + second)
  {}

  /** `memcpy(dest + at, piece, |piece|)`. */
  method CopyInto<T>(dest: array<T>, at: nat, piece: seq<T>)
    requires at + |piece| <= dest.Length
    modifies dest
    ensures dest[..] == Splice(old(dest[..]), at, piece)
  {
    for i := 0 to |piece|
      invariant dest[..at] == old(dest[..at])
      invariant dest[at..at + i] == piece[..i]
      invariant dest[at + |piece|..] == old(dest[at + |piece|..])
    {
      dest[at + i] := piece[i];
    }
    assert dest[..] == dest[..at] + dest[at..at + |piece|] + dest[at + |piece|..];
  }
}
