/** Bytes, NUL-terminated strings and `strcmp`. */
module CStrings {

  type byte = bv8

  const NUL: byte := 0

  /** The number of values of an `unsigned int`. */
  const UINT_RANGE: nat := 0x1_0000_0000

  /** The contents of a C string, without its terminator. */
  type CString = s: seq<byte> | NUL !in s

  /** What `strlen` returns for a buffer that holds a terminator. */
  function Strlen(buffer: seq<byte>): (length: nat)
    requires NUL in buffer
    ensures length < |buffer| && buffer[length] == NUL && NUL !in buffer[..length]
  {
    if buffer[0] == NUL then 0 else
      var rest := Strlen(buffer[1..]);
      assert buffer[..rest + 1] == [buffer[0]] + buffer[1..][..rest];
      rest + 1
  }

  lemma {:induction false} StrlenOfTerminated(name: CString, rest: seq<byte>)
    ensures NUL in name + [NUL] + rest
    ensures Strlen(name + [NUL] + rest) == |name|
  {
    var buffer := name + [NUL] + rest;
    assert buffer[|name|] == NUL;
    if name != [] {
      StrlenOfTerminated(name[1..], rest);
      assert buffer[1..] == name[1..] + [NUL] + rest;
    }
  }

  /** `strcmp`: the first differing byte decides, compared as unsigned; a proper prefix is smaller. */
  function Strcmp(a: CString, b: CString): int
  {
    if a == [] then (if b == [] then 0 else -1)
    else if b == [] then 1
    else if a[0] < b[0] then -1
    else if b[0] < a[0] then 1
    else Strcmp(a[1..], b[1..])
  }

  predicate StrLe(a: CString, b: CString) {
    Strcmp(a, b) <= 0
  }

  lemma {:induction false} StrcmpZeroIsEquality(a: CString, b: CString)
    ensures Strcmp(a, b) == 0 <==> a == b
  {
    if a != [] && b != [] {
      StrcmpZeroIsEquality(a[1..], b[1..]);
      assert a == [a[0]] + a[1..] && b == [b[0]] + b[1..];
    }
  }

  lemma {:induction false} StrcmpFlips(a: CString, b: CString)
    ensures Strcmp(a, b) == -Strcmp(b, a)
  {
    if a != [] && b != [] {
      StrcmpFlips(a[1..], b[1..]);
    }
  }

  /** `a` ends where `b` goes on, or has the smaller byte there. */
  predicate SmallerAt(a: CString, b: CString, i: nat) {
    i <= |a| && i < |b| && (i < |a| ==> a[i] < b[i])
  }

  /** The first place where two strings differ decides, as in a dictionary over unsigned bytes. */
  lemma {:induction false} FirstDifferenceDecides(a: CString, b: CString, i: nat)
    requires i <= |a| && i <= |b| && a[..i] == b[..i]
    ensures SmallerAt(a, b, i) ==> Strcmp(a, b) < 0
    ensures SmallerAt(b, a, i) ==> Strcmp(a, b) > 0
    decreases i
  {
    if i > 0 {
      assert a[0] == a[..i][0] == b[..i][0] == b[0];
      assert a[1..][..i - 1] == a[..i][1..] && b[1..][..i - 1] == b[..i][1..];
      FirstDifferenceDecides(a[1..], b[1..], i - 1);
    }
  }

  lemma {:induction false} StrLeTransitive(a: CString, b: CString, c: CString)
    requires StrLe(a, b) && StrLe(b, c)
    ensures StrLe(a, c)
  {
    if a != [] && b != [] && c != [] && a[0] == b[0] == c[0] {
      StrLeTransitive(a[1..], b[1..], c[1..]);
    }
  }
}
