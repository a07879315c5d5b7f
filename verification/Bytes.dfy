/** Bytes, the concatenation of chunks, and the two memory primitives the C code uses. */
module Bytes {

  type Byte = b: int | 0 <= b < 256

  datatype Option<+T> = None | Some(value: T)

  /** All chunks, one after another. */
  function Flatten<T>(chunks: seq<seq<T>>): seq<T> {
    if chunks == [] then [] else chunks[0] + Flatten(chunks[1..])
  }

  lemma {:induction false} FlattenAppend<T>(a: seq<seq<T>>, b: seq<seq<T>>)
    ensures Flatten(a + b) == Flatten(a) + Flatten(b)
  {
    if a == [] {
      assert a + b == b;
    } else {
      assert (a + b)[1..] == a[1..] + b;
      FlattenAppend(a[1..], b);
    }
  }

  /** The bytes of a C string literal, its NUL included. */
  function CString(s: string): (b: seq<Byte>)
    requires forall i :: 0 <= i < |s| ==> s[i] < 128 as char
    ensures |b| == |s| + 1 && b[|s|] == 0 && forall i :: 0 <= i < |s| ==> b[i] == s[i] as int
  {
    seq<Byte>(|s| + 1, i requires 0 <= i <= |s| => if i < |s| then s[i] as int else 0)
  }

  lemma Assoc<T>(a: seq<T>, b: seq<T>, c: seq<T>)
    ensures (a + b) + c == a + (b + c)
  {
  }

  lemma DropFirst<T>(a: seq<T>, b: seq<T>, c: seq<T>)
    ensures (a + b + c)[|a|..] == b + c
  {
  }

  /** Moving the first n elements of b from the front of b to the end of a changes nothing. */
  lemma Shift<T>(a: seq<T>, b: seq<T>, n: nat, c: seq<T>)
    requires n <= |b|
    ensures (a + b[..n]) + (b[n..] + c) == a + (b + c)
  {
    assert b == b[..n] + b[n..];
  }

  lemma ShiftOne<T>(a: seq<T>, b: seq<T>, c: seq<T>)
    requires c != []
    ensures (a + (b + [c[0]])) + c[1..] == (a + b) + c
  {
  }

  lemma CancelPrefix<T>(a: seq<T>, b: seq<T>, d: seq<T>)
    ensures a + b <= a + d <==> b <= d
    ensures a + b == a + d <==> b == d
    ensures (a + b)[|a|..] == b
  {
    assert (a + b)[|a|..] == b && (a + d)[|a|..] == d;
    if a + b <= a + d {
      assert b == (a + d)[..|a + b|][|a|..] == d[..|b|];
    }
  }

  lemma PrefixOfPrefix<T>(a: seq<T>, b: seq<T>, s: seq<T>)
    requires a + b <= s
    ensures a <= s
  {
    assert a == (a + b)[..|a|] == s[..|a|];
  }

  lemma Reassociate<T>(a: seq<T>, b: seq<T>, c: seq<T>, s: seq<T>)
    requires a <= s && b + c == s[|a|..]
    ensures (a + b) + c == s
  {
    assert s == a + s[|a|..];
  }

  lemma SliceOf(a: array<Byte>, n: nat, from: nat, to: nat)
    requires from <= to <= n <= a.Length
    ensures a[from..to] == a[..n][from..to] && a[from..n] == a[..n][from..]
  {
  }

  /** memmove(a, a + from, len): shifts a block down to the front, in place. */
  method MoveDown(a: array<Byte>, from: nat, len: nat)
    requires from + len <= a.Length
    modifies a
    ensures a[..len] == old(a[from..from + len])
  {
    for i := 0 to len
      invariant forall k :: 0 <= k < i ==> a[k] == old(a[from + k])
      invariant forall k :: i <= k < a.Length ==> a[k] == old(a[k])
    {
      a[i] := a[from + i];
    }
  }

  /** memcpy(a + at, data, |data|). */
  method CopyIn(a: array<Byte>, at: nat, data: seq<Byte>)
    requires at + |data| <= a.Length
    modifies a
    ensures a[..at + |data|] == old(a[..at]) + data
  {
    for i := 0 to |data|
      invariant a[..at + i] == old(a[..at]) + data[..i]
    {
      a[at + i] := data[i];
    }
  }
}
