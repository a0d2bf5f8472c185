/** Types and arithmetic shared by the component models. */
module Prelude {

  /** One octet. */
  type byte = x: int | 0 <= x < 256

  datatype Option<+T> = None | Some(value: T)

  function Min(a: int, b: int): int {
    if a <= b then a else b
  }

  function Max(a: int, b: int): int {
    if a <= b then b else a
  }

  /** 2 to the n; `x << n` on an unsigned word is `x * Pow2(n)` before truncation. */
  function Pow2(n: nat): (r: nat)
    ensures 1 <= r
  {
    if n == 0 then 1 else 2 * Pow2(n - 1)
  }

  /** Concatenation of a list of byte strings. */
  function Concat<T>(parts: seq<seq<T>>): seq<T> {
    if parts == [] then [] else parts[0] + Concat(parts[1..])
  }

  lemma {:induction false} ConcatAppend<T>(a: seq<seq<T>>, b: seq<seq<T>>)
    ensures Concat(a + b) == Concat(a) + Concat(b)
  {
    if a == [] {
      assert a + b == b;
    } else {
      ConcatAppend(a[1..], b);
      assert (a + b)[1..] == a[1..] + b;
      calc {
        Concat(a + b);
        a[0] + Concat(a[1..] + b);
        a[0] + (Concat(a[1..]) + Concat(b));
        Concat(a) + Concat(b);
      }
    }
  }

  lemma ConcatSnoc<T>(a: seq<seq<T>>, last: seq<T>)
    ensures Concat(a + [last]) == Concat(a) + last
  {
    ConcatAppend(a, [last]);
    assert [last][1..] == [];
  }

  /** `buf` with `part` written over it from position `at` on. */
  function Splice<T>(buf: seq<T>, at: nat, part: seq<T>): (r: seq<T>)
    requires at + |part| <= |buf|
    ensures |r| == |buf|
  {
    buf[..at] + part + buf[at + |part|..]
  }

  lemma SpliceNone<T>(buf: seq<T>, at: nat)
    requires at <= |buf|
    ensures Splice(buf, at, []) == buf
  {
  }

  /** Writing one more element extends the written part. */
  lemma SpliceStep<T>(buf: seq<T>, at: nat, part: seq<T>, x: T)
    requires at + |part| < |buf|
    ensures Splice(buf, at, part)[at + |part| := x] == Splice(buf, at, part + [x])
  {
  }

  /** `strchr` from the front; the length of `s` when the byte is absent. */
  function IndexOf(s: seq<byte>, c: byte): (i: nat)
    ensures i <= |s| && (i < |s| ==> s[i] == c)
    ensures forall k :: 0 <= k < i ==> s[k] != c
  {
    if s == [] || s[0] == c then 0 else 1 + IndexOf(s[1..], c)
  }

  lemma {:induction false} IndexAt(s: seq<byte>, c: byte, i: nat)
    requires i <= |s| && (i < |s| ==> s[i] == c)
    requires forall k :: 0 <= k < i ==> s[k] != c
    ensures IndexOf(s, c) == i
  {
    if i > 0 {
      IndexAt(s[1..], c, i - 1);
    }
  }

  method StrChr(s: seq<byte>, from: nat, c: byte) returns (i: nat)
    requires from <= |s|
    ensures from <= i <= |s| && i - from == IndexOf(s[from..], c)
  {
    i := from;
    while i < |s| && s[i] != c
      invariant from <= i <= |s|
      invariant forall k :: from <= k < i ==> s[k] != c
    {
      i := i + 1;
    }
    IndexAt(s[from..], c, i - from);
  }
}
