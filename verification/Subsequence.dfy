/** One byte string is left when bytes are taken out of another. */
module Subsequence {
  import opened Bytes

  predicate Within(a: seq<byte>, b: seq<byte>)
    decreases |b|
  {
    if b == [] then a == [] else Within(a, b[1..]) || (a != [] && a[0] == b[0] && Within(a[1..], b[1..]))
  }

  lemma {:induction false} WithinSelf(a: seq<byte>)
    ensures Within(a, a)
    decreases |a|
  {
    if a != [] { WithinSelf(a[1..]); }
  }

  lemma {:induction false} NothingWithin(b: seq<byte>)
    ensures Within([], b)
    decreases |b|
  {
    if b != [] { NothingWithin(b[1..]); }
  }

  lemma {:induction false} WithinAppend(a: seq<byte>, b: seq<byte>, c: seq<byte>, d: seq<byte>)
    requires Within(a, b) && Within(c, d)
    ensures Within(a + c, b + d)
    decreases |b|
  {
    if b == [] {
      assert a + c == c && b + d == d;
    } else {
      assert (b + d)[1..] == b[1..] + d;
      if Within(a, b[1..]) {
        WithinAppend(a, b[1..], c, d);
      } else {
        assert (a + c)[1..] == a[1..] + c;
        WithinAppend(a[1..], b[1..], c, d);
      }
    }
  }

  lemma {:induction false} WithinTransitive(a: seq<byte>, b: seq<byte>, c: seq<byte>)
    requires Within(a, b) && Within(b, c)
    ensures Within(a, c)
    decreases |c|
  {
    if c != [] {
      if Within(b, c[1..]) {
        WithinTransitive(a, b, c[1..]);
      } else if Within(a, b[1..]) {
        WithinTransitive(a, b[1..], c[1..]);
      } else {
        WithinTransitive(a[1..], b[1..], c[1..]);
      }
    }
  }

  /** Cutting a stretch out. */
  lemma CutWithin(b: seq<byte>, i: nat, n: nat)
    requires i + n <= |b|
    ensures Within(b[..i] + b[i + n..], b)
  {
    WithinSelf(b[..i]);
    NothingWithin(b[i..i + n]);
    WithinSelf(b[i + n..]);
    WithinAppend([], b[i..i + n], b[i + n..], b[i + n..]);
    WithinAppend(b[..i], b[..i], [] + b[i + n..], b[i..i + n] + b[i + n..]);
    Pieces(b, i, n);
  }

  lemma Pieces(b: seq<byte>, i: nat, n: nat)
    requires i + n <= |b|
    ensures b[..i] + (b[i..i + n] + b[i + n..]) == b && [] + b[i + n..] == b[i + n..]
  {
  }
}
