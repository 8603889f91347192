/** Value types standing in for the Java and vavr library types the core is written against. */
module Lang {

  /** A value that may be absent: vavr's Option, and also a Java reference that may be null. */
  datatype Option<+T> = None | Some(value: T)

  /** How a Java method call ends: it returns a value normally, or it throws an exception. */
  datatype Completion<+T, +E> = Normal(value: T) | Abrupt(exception: E)

  /** vavr's Try: the result of a computation, or the exception it captured, held as a value. */
  datatype Try<+T, +E> = Success(value: T) | Failure(cause: E)

  /** vavr's Validation: a validated value, or the reason it was refused. */
  datatype Validation<+E, +T> = Valid(value: T) | Invalid(error: E)

  /** Math.min on two integers. */
  function Min(a: int, b: int): (m: int)
    ensures m <= a && m <= b
    ensures m == a || m == b
  {
    if a <= b then a else b
  }

  /** vavr's List.takeRight: the last n elements, in their original order; nothing when n <= 0. */
  function TakeRight<T>(s: seq<T>, n: int): (r: seq<T>)
    ensures |r| == if n <= 0 then 0 else Min(n, |s|)
    ensures r == s[|s| - |r|..]
  {
    if n <= 0 then [] else if n >= |s| then s else s[|s| - n..]
  }

  /** The elements of s, last first. */
  function Reverse<T>(s: seq<T>): (r: seq<T>)
    ensures |r| == |s|
    ensures forall i :: 0 <= i < |s| ==> r[i] == s[|s| - 1 - i]
  {
    seq(|s|, i requires 0 <= i < |s| => s[|s| - 1 - i])
  }

  /** The first k elements of the reversal are the last k elements, reversed. */
  lemma ReversedPrefixIsReversedTail<T>(s: seq<T>, k: int)
    requires k >= 1
    ensures Reverse(s)[..Min(k, |s|)] == Reverse(TakeRight(s, k))
  {
    var m := Min(k, |s|);
    var tail := TakeRight(s, k);
    assert |tail| == m && tail == s[|s| - m..];
    ReversedPrefixIsReversedSuffix(s, m, tail);
  }

  lemma ReversedPrefixIsReversedSuffix<T>(s: seq<T>, m: nat, tail: seq<T>)
    requires m <= |s| && tail == s[|s| - m..]
    ensures Reverse(s)[..m] == Reverse(tail)
  {
    var rs := Reverse(s);
    var t := Reverse(tail);
    forall i | 0 <= i < m ensures rs[i] == t[i] {
      assert t[i] == tail[m - 1 - i] == s[|s| - 1 - i];
    }
  }

  lemma LastTwoReversed<T>(x: T, y: T, z: T)
    ensures Reverse(TakeRight([x, y, z], 2)) == [z, y]
  {
    assert TakeRight([x, y, z], 2) == [y, z];
  }
}
