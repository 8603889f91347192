/**
 * Zipping two sources element by element with a combining function: over iterables and
 * collections through an iterator that creates both underlying iterators on the first hasNext,
 * and over streams through a spliterator that advances the left side, then the right side.
 */
module StreamsSupplement {
  import opened Lang

  /** The exceptions the zip code lets escape. */
  datatype Thrown = NullPointer | NoSuchElement

  /** Characteristic bits of java.util.Spliterator. */
  const DISTINCT: bv32 := 0x1
  const SORTED: bv32 := 0x4
  const ORDERED: bv32 := 0x10
  const SIZED: bv32 := 0x40
  const NONNULL: bv32 := 0x100
  const CONCURRENT: bv32 := 0x1000
  const SUBSIZED: bv32 := 0x4000

  /** Long.MAX_VALUE: the estimate of a spliterator whose size is unknown. */
  const LONG_MAX_VALUE: int := 0x7FFF_FFFF_FFFF_FFFF

  /**
   * The zip of two sequences: f applied to the elements at the same index, for as many indices
   * as the shorter sequence has.
   */
  function Zip<T, U, R>(a: seq<T>, b: seq<U>, f: (T, U) -> R): (r: seq<R>)
    ensures |r| == Min(|a|, |b|)
    ensures forall i :: 0 <= i < |r| ==> r[i] == f(a[i], b[i])
  {
    if a == [] || b == [] then [] else [f(a[0], b[0])] + Zip(a[1..], b[1..], f)
  }

  class ZipIterator<T, U, R> {
    const lhs: seq<T>
    const rhs: seq<U>
    const zip: (T, U) -> R
    /** The positions of the two underlying iterators; None until the first hasNext creates them. */
    var t: Option<nat>
    var u: Option<nat>

    /**
     * Both iterators exist or neither does; they move in step, except that the left one may be
     * ahead once the right one is exhausted (a next that found no right element).
     */
    ghost predicate Valid()
      reads this
    {
      && (t.None? <==> u.None?)
      && (t.Some? ==>
            && t.value <= |lhs| && u.value <= |rhs|
            && u.value <= t.value
            && (u.value < t.value ==> u.value == |rhs|))
    }

    constructor (first: seq<T>, second: seq<U>, func: (T, U) -> R)
      ensures Valid()
      ensures lhs == first && rhs == second && zip == func
      ensures t.None? && u.None?
    {
      lhs := first;
      rhs := second;
      zip := func;
      t := None;
      u := None;
    }

    /** Create both underlying iterators, at their starts, unless they exist already. */
    method Init()
      requires Valid()
      modifies this
      ensures Valid() && t.Some?
      ensures old(t).None? ==> t == Some(0) && u == Some(0)
      ensures old(t).Some? ==> t == old(t) && u == old(u)
    {
      if t.None? && u.None? {
        t := Some(0);
        u := Some(0);
      }
    }

    /** True exactly when both underlying iterators have a next element; creates them first. */
    method HasNext() returns (b: bool)
      requires Valid()
      modifies this
      ensures Valid() && t.Some?
      ensures old(t).None? ==> t == Some(0) && u == Some(0)
      ensures old(t).Some? ==> t == old(t) && u == old(u)
      ensures b <==> t.value < |lhs| && u.value < |rhs|
    {
      Init();
      b := t.value < |lhs| && u.value < |rhs|;
    }

    /**
     * The next left element and the next right element, combined. Before any hasNext there is
     * no iterator and the call throws NullPointerException; an exhausted side throws
     * NoSuchElementException, and when only the right side is exhausted the left element has
     * been consumed already.
     */
    method Next() returns (r: Completion<R, Thrown>)
      requires Valid()
      modifies this
      ensures Valid()
      ensures old(t).None? ==> r == Abrupt(NullPointer) && t == old(t) && u == old(u)
      ensures old(t).Some? && old(t).value == |lhs| ==>
        r == Abrupt(NoSuchElement) && t == old(t) && u == old(u)
      ensures old(t).Some? && old(t).value < |lhs| && old(u).value == |rhs| ==>
        r == Abrupt(NoSuchElement) && t == Some(old(t).value + 1) && u == old(u)
      ensures old(t).Some? && old(t).value < |lhs| && old(u).value < |rhs| ==>
        && old(t) == old(u)
        && r == Normal(zip(lhs[old(t).value], rhs[old(u).value]))
        && t == Some(old(t).value + 1) && u == Some(old(u).value + 1)
    {
      if t.None? {
        return Abrupt(NullPointer);
      }
      if t.value == |lhs| {
        return Abrupt(NoSuchElement);
      }
      var left := lhs[t.value];
      t := Some(t.value + 1);
      if u.value == |rhs| {
        return Abrupt(NoSuchElement);
      }
      var right := rhs[u.value];
      u := Some(u.value + 1);
      r := Normal(zip(left, right));
    }
  }

  /**
   * What a stream does with a fresh zip iterator: hasNext, then next, until hasNext answers
   * false. It yields the zip of the two sources and never throws.
   */
  method DrainIterator<T, U, R>(it: ZipIterator<T, U, R>) returns (out: seq<R>)
    requires it.Valid() && it.t.None?
    modifies it
    ensures it.Valid()
    ensures out == Zip(it.lhs, it.rhs, it.zip)
  {
    out := [];
    var more := it.HasNext();
    while more
      invariant it.Valid() && it.t.Some? && it.t == it.u
      invariant more <==> it.t.value < |it.lhs| && it.u.value < |it.rhs|
      invariant |out| == it.t.value
      invariant forall i :: 0 <= i < |out| ==> out[i] == it.zip(it.lhs[i], it.rhs[i])
      decreases |it.lhs| - it.t.value
    {
      var r := it.Next();
      out := out + [r.value];
      more := it.HasNext();
    }
  }

  /** The spliterators the iterator factories hand out. */
  datatype IteratorSpliterator<T, U, R> =
    | OverIterator(zipped: ZipIterator<T, U, R>, characteristics: bv32, estimate: int)
    | EmptySpliterator
  {
    function Characteristics(): bv32 {
      if EmptySpliterator? then SIZED | SUBSIZED else characteristics
    }

    function EstimateSize(): int {
      if EmptySpliterator? then 0 else estimate
    }
  }

  /** Spliterators.spliteratorUnknownSize: the given characteristics without the size bits. */
  function SpliteratorUnknownSize<T, U, R>(it: ZipIterator<T, U, R>, characteristics: bv32): (s: IteratorSpliterator<T, U, R>)
    ensures s.OverIterator? && s.zipped == it
    ensures s.Characteristics() & (SIZED | SUBSIZED) == 0
    ensures s.Characteristics() | SIZED | SUBSIZED == characteristics | SIZED | SUBSIZED
    ensures s.EstimateSize() == LONG_MAX_VALUE
  {
    OverIterator(it, characteristics & !(SIZED | SUBSIZED), LONG_MAX_VALUE)
  }

  /** Spliterators.spliterator(iterator, size, characteristics): sized, unless concurrent. */
  function SpliteratorOfSize<T, U, R>(it: ZipIterator<T, U, R>, size: int, characteristics: bv32): (s: IteratorSpliterator<T, U, R>)
    ensures s.OverIterator? && s.zipped == it && s.EstimateSize() == size
    ensures characteristics & CONCURRENT == 0 ==> s.Characteristics() == characteristics | SIZED | SUBSIZED
    ensures characteristics & CONCURRENT != 0 ==> s.Characteristics() == characteristics
  {
    if characteristics & CONCURRENT == 0 then OverIterator(it, characteristics | SIZED | SUBSIZED, size)
    else OverIterator(it, characteristics, size)
  }

  /**
   * Zip two iterables: every argument must be non-null; the result is a non-null, ordered
   * spliterator of unknown size over a fresh zip iterator whose underlying iterators are not
   * created yet.
   */
  method FromIterables<T, U, R>(first: Option<seq<T>>, second: Option<seq<U>>, func: Option<(T, U) -> R>)
    returns (r: Completion<IteratorSpliterator<T, U, R>, Thrown>)
    ensures r.Normal? <==> first.Some? && second.Some? && func.Some?
    ensures r.Abrupt? ==> r.exception == NullPointer
    ensures r.Normal? ==>
      && r.value.OverIterator? && fresh(r.value.zipped)
      && r.value.zipped.Valid() && r.value.zipped.t.None?
      && r.value.zipped.lhs == first.value && r.value.zipped.rhs == second.value
      && r.value.zipped.zip == func.value
      && r.value.Characteristics() == NONNULL | ORDERED
      && r.value.EstimateSize() == LONG_MAX_VALUE
  {
    if first.None? || second.None? || func.None? {
      return Abrupt(NullPointer);
    }
    var it := new ZipIterator(first.value, second.value, func.value);
    r := Normal(SpliteratorUnknownSize(it, NONNULL | ORDERED));
  }

  /**
   * Zip two collections: both must be non-null; when either is empty the result is the empty
   * spliterator, even for a null function; otherwise the function must be non-null and the
   * result is a sized, non-null, ordered spliterator whose size is the length of the zip.
   */
  method FromCollections<T, U, R>(first: Option<seq<T>>, second: Option<seq<U>>, func: Option<(T, U) -> R>)
    returns (r: Completion<IteratorSpliterator<T, U, R>, Thrown>)
    ensures first.None? || second.None? ==> r == Abrupt(NullPointer)
    ensures first.Some? && second.Some? && (first.value == [] || second.value == []) ==> r == Normal(EmptySpliterator)
    ensures first.Some? && second.Some? && first.value != [] && second.value != [] ==>
      && (r.Normal? <==> func.Some?)
      && (r.Abrupt? ==> r.exception == NullPointer)
      && (r.Normal? ==>
            && r.value.OverIterator? && fresh(r.value.zipped)
            && r.value.zipped.Valid() && r.value.zipped.t.None?
            && r.value.zipped.lhs == first.value && r.value.zipped.rhs == second.value
            && r.value.zipped.zip == func.value
            && r.value.Characteristics() == NONNULL | ORDERED | SIZED | SUBSIZED
            && r.value.EstimateSize() == |Zip(first.value, second.value, func.value)|)
  {
    if first.None? || second.None? {
      return Abrupt(NullPointer);
    }
    var size := Min(|first.value|, |second.value|);
    if size == 0 {
      return Normal(EmptySpliterator);
    }
    if func.None? {
      return Abrupt(NullPointer);
    }
    var it := new ZipIterator(first.value, second.value, func.value);
    r := Normal(SpliteratorOfSize(it, size, NONNULL | ORDERED));
  }

  /** One side of a stream zip: its elements, how many it has handed out, its characteristics. */
  datatype Source<X> = Source(elems: seq<X>, pos: nat, characteristics: bv32)
  {
    predicate Valid() {
      pos <= |elems|
    }

    function Remaining(): seq<X>
      requires Valid()
    {
      elems[pos..]
    }

    /** The number of remaining elements when the source is SIZED, and -1 otherwise. */
    function GetExactSizeIfKnown(): (n: int)
      requires Valid()
      ensures characteristics & SIZED != 0 ==> n == |Remaining()|
      ensures characteristics & SIZED == 0 ==> n == -1
    {
      if characteristics & SIZED != 0 then |elems| - pos else -1
    }
  }

  /** The characteristics two sources share, without DISTINCT and SORTED. */
  function ZipCharacteristics(l: bv32, r: bv32): (c: bv32)
    ensures c & (DISTINCT | SORTED) == 0
    ensures c | DISTINCT | SORTED == (l & r) | DISTINCT | SORTED
  {
    l & r & !(DISTINCT | SORTED)
  }

  /** A characteristic other than DISTINCT and SORTED survives zipping exactly when both sides have it. */
  lemma ZipKeepsSharedCharacteristics(l: bv32, r: bv32)
    ensures (ZipCharacteristics(l, r) & SIZED != 0) <==> (l & SIZED != 0 && r & SIZED != 0)
    ensures (ZipCharacteristics(l, r) & ORDERED != 0) <==> (l & ORDERED != 0 && r & ORDERED != 0)
    ensures (ZipCharacteristics(l, r) & NONNULL != 0) <==> (l & NONNULL != 0 && r & NONNULL != 0)
    ensures ZipCharacteristics(l, r) & DISTINCT == 0 && ZipCharacteristics(l, r) & SORTED == 0
  {
  }

  class ZipSpliterator<T, U, R> {
    var lhs: Source<T>
    var rhs: Source<U>
    const func: (T, U) -> R
    /** Whether the right side advanced during the last left advance. */
    var advancedOnRight: bool

    ghost predicate Valid()
      reads this
    {
      lhs.Valid() && rhs.Valid()
    }

    constructor (lhs: Source<T>, rhs: Source<U>, func: (T, U) -> R)
      requires lhs.Valid() && rhs.Valid()
      ensures Valid()
      ensures this.lhs == lhs && this.rhs == rhs && this.func == func && !advancedOnRight
    {
      this.lhs := lhs;
      this.rhs := rhs;
      this.func := func;
      advancedOnRight := false;
    }

    /**
     * Advance the left side, and inside that the right side, passing the combined pair to the
     * action (`accepted`). True only when both advanced. When the left side is exhausted
     * nothing changes; when only the right side is, the left element is consumed, the action
     * is not called and the answer is false.
     */
    method TryAdvance() returns (advanced: bool, accepted: Option<R>)
      requires Valid()
      modifies this
      ensures Valid()
      ensures advanced <==> old(lhs.pos) < |lhs.elems| && old(rhs.pos) < |rhs.elems|
      ensures accepted.Some? <==> advanced
      ensures old(lhs.pos) == |old(lhs.elems)| ==>
        lhs == old(lhs) && rhs == old(rhs) && advancedOnRight == old(advancedOnRight)
      ensures old(lhs.pos) < |old(lhs.elems)| ==>
        && lhs == old(lhs).(pos := old(lhs.pos) + 1)
        && advancedOnRight == (old(rhs.pos) < |old(rhs.elems)|)
        && rhs == (if advancedOnRight then old(rhs).(pos := old(rhs.pos) + 1) else old(rhs))
      ensures advanced ==> accepted.value == func(old(lhs.elems)[old(lhs.pos)], old(rhs.elems)[old(rhs.pos)])
    {
      accepted := None;
      if lhs.pos == |lhs.elems| {
        return false, None;
      }
      var t := lhs.elems[lhs.pos];
      lhs := lhs.(pos := lhs.pos + 1);
      if rhs.pos == |rhs.elems| {
        advancedOnRight := false;
      } else {
        var u := rhs.elems[rhs.pos];
        rhs := rhs.(pos := rhs.pos + 1);
        accepted := Some(func(t, u));
        advancedOnRight := true;
      }
      advanced := advancedOnRight;
    }

    /** This spliterator never splits. */
    function TrySplit(): (r: Option<ZipSpliterator<T, U, R>>)
      ensures r == None
    {
      None
    }

    /** The sides' shared characteristics, losing DISTINCT and SORTED. */
    function Characteristics(): (c: bv32)
      reads this
      ensures c == ZipCharacteristics(lhs.characteristics, rhs.characteristics)
    {
      lhs.characteristics & rhs.characteristics & !(DISTINCT | SORTED)
    }

    /**
     * When both sides are SIZED, the number of pairs the spliterator still yields; otherwise
     * -1 (not the Long.MAX_VALUE the Spliterator contract asks for an unknown size).
     */
    function EstimateSize(): (n: int)
      requires Valid()
      reads this
      ensures lhs.characteristics & SIZED != 0 && rhs.characteristics & SIZED != 0 ==>
        n == |Zip(lhs.Remaining(), rhs.Remaining(), func)|
      ensures !(lhs.characteristics & SIZED != 0 && rhs.characteristics & SIZED != 0) ==> n == -1
    {
      ZipKeepsSharedCharacteristics(lhs.characteristics, rhs.characteristics);
      if Characteristics() & SIZED != 0 then Min(lhs.GetExactSizeIfKnown(), rhs.GetExactSizeIfKnown())
      else -1
    }
  }

  /** Wrap two spliterators: every argument must be non-null. */
  method From<T, U, R>(lefts: Option<Source<T>>, rights: Option<Source<U>>, func: Option<(T, U) -> R>)
    returns (r: Completion<ZipSpliterator<T, U, R>, Thrown>)
    requires lefts.Some? ==> lefts.value.Valid()
    requires rights.Some? ==> rights.value.Valid()
    ensures r.Normal? <==> lefts.Some? && rights.Some? && func.Some?
    ensures r.Abrupt? ==> r.exception == NullPointer
    ensures r.Normal? ==>
      && fresh(r.value) && r.value.Valid()
      && r.value.lhs == lefts.value && r.value.rhs == rights.value && r.value.func == func.value
      && !r.value.advancedOnRight
  {
    if lefts.None? || rights.None? || func.None? {
      return Abrupt(NullPointer);
    }
    var s := new ZipSpliterator(lefts.value, rights.value, func.value);
    r := Normal(s);
  }

  /**
   * Zip two streams, each given by the spliterator it hands out: a null stream or function
   * throws NullPointerException (when only the second stream is null, the first has already
   * handed out its spliterator); then as From.
   */
  method FromStreams<T, U, R>(first: Option<Source<T>>, second: Option<Source<U>>, func: Option<(T, U) -> R>)
    returns (r: Completion<ZipSpliterator<T, U, R>, Thrown>)
    requires first.Some? ==> first.value.Valid()
    requires second.Some? ==> second.value.Valid()
    ensures r.Normal? <==> first.Some? && second.Some? && func.Some?
    ensures r.Abrupt? ==> r.exception == NullPointer
    ensures r.Normal? ==>
      && fresh(r.value) && r.value.Valid()
      && r.value.lhs == first.value && r.value.rhs == second.value && r.value.func == func.value
  {
    if first.None? || second.None? {
      return Abrupt(NullPointer);
    }
    r := From(first, second, func);
  }

  /**
   * What a stream does with the zip spliterator: tryAdvance until it answers false. It yields
   * the zip of what remained on the two sides; when the left side had more, one extra left
   * element is consumed.
   */
  method DrainSpliterator<T, U, R>(s: ZipSpliterator<T, U, R>) returns (out: seq<R>)
    requires s.Valid()
    modifies s
    ensures s.Valid()
    ensures out == Zip(old(s.lhs.Remaining()), old(s.rhs.Remaining()), s.func)
    ensures s.rhs.pos == old(s.rhs.pos) + |out|
    ensures s.lhs.pos == old(s.lhs.pos) + |out| + (if |out| < |old(s.lhs.Remaining())| then 1 else 0)
  {
    ghost var a := s.lhs.Remaining();
    ghost var b := s.rhs.Remaining();
    ghost var l0 := s.lhs.pos;
    ghost var r0 := s.rhs.pos;
    out := [];
    while true
      invariant s.Valid()
      invariant s.lhs.elems == old(s.lhs.elems) && s.rhs.elems == old(s.rhs.elems)
      invariant s.lhs.pos == l0 + |out| && s.rhs.pos == r0 + |out|
      invariant |out| <= |a| && |out| <= |b|
      invariant forall i :: 0 <= i < |out| ==> out[i] == s.func(a[i], b[i])
      decreases |s.lhs.elems| - s.lhs.pos
    {
      var advanced, accepted := s.TryAdvance();
      if !advanced {
        break;
      }
      out := out + [accepted.value];
    }
  }
}
