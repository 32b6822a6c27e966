/** Model of packages/@glimmer/reference/lib/iterable-impl.ts: the `keyFor`
    lookup over iterable key definitions, and `NativeIteratorIterator`, the
    opaque iterator that wraps a one-shot native iterator and tags every
    value it hands out with a key and a memo. */
module IterableImpl {

  /** Computes the identity key of an item from the item and its index. */
  type KeyForFunction<-T> = (T, nat) -> string

  /** Builds a key function from a key path (used for paths that are not named). */
  type UnknownKeyForFunction<-T> = string -> KeyForFunction<T>

  /** The public `IterableKeyDefinitions`: key functions for named paths, and a
      `default` that is handed the path later by the caller. */
  datatype IterableKeyDefinitions<-T> =
    IterableKeyDefinitions(named: map<string, KeyForFunction<T>>, default: UnknownKeyForFunction<T>)

  /** The union `KeyFor | UnknownKeyFor` that `keyFor` returns. */
  datatype KeyForChoice<-T> =
    | Named(keyFor: KeyForFunction<T>)
    | Default(unknownKeyFor: UnknownKeyForFunction<T>)

  /** The named key function for `path` when there is one; otherwise the default
      entry itself, not applied to `path`. */
  function KeyFor<T>(path: string, definitions: IterableKeyDefinitions<T>): (r: KeyForChoice<T>)
    ensures r.Named? <==> path in definitions.named
    ensures r.Named? ==> r.keyFor == definitions.named[path]
    ensures r.Default? ==> r.unknownKeyFor == definitions.default
  {
    if path in definitions.named then Named(definitions.named[path]) else Default(definitions.default)
  }

  /** Registering a key function for one path changes the lookup of that path
      only; any other path resolves as before. */
  lemma KeyForDefine<T>(path: string, other: string, f: KeyForFunction<T>, definitions: IterableKeyDefinitions<T>)
    ensures KeyFor(path, definitions.(named := definitions.named[path := f])) == Named(f)
    ensures other != path ==>
      KeyFor(other, definitions.(named := definitions.named[path := f])) == KeyFor(other, definitions)
  {
  }

  /** The default entry is returned unapplied: every path without a named key
      function gets the very same result, whatever the path. */
  lemma KeyForDefaultIgnoresPath<T>(p: string, q: string, definitions: IterableKeyDefinitions<T>)
    requires p !in definitions.named && q !in definitions.named
    ensures KeyFor(p, definitions) == KeyFor(q, definitions) == Default(definitions.default)
  {
  }

  datatype Option<T> = None | Some(value: T)

  /** What `Iterator.next()` of the native iterator returns. */
  datatype IteratorResult<T> = Done | Yield(value: T)

  /** The native one-shot source iterator: the values it has still to yield,
      and how many times `next()` has been called on it. Once exhausted it
      keeps answering `Done`. */
  class SequenceIterator<T> {
    var remaining: seq<T>
    var consumed: nat

    constructor (items: seq<T>)
      ensures remaining == items && consumed == 0
    {
      remaining := items;
      consumed := 0;
    }

    method Next() returns (r: IteratorResult<T>)
      modifies this
      ensures consumed == old(consumed) + 1
      ensures old(remaining) == [] ==> r == Done && remaining == []
      ensures old(remaining) != [] ==> r == Yield(old(remaining)[0]) && remaining == old(remaining)[1..]
    {
      consumed := consumed + 1;
      if remaining == [] {
        r := Done;
      } else {
        r := Yield(remaining[0]);
        remaining := remaining[1..];
      }
    }
  }

  /** `IterationItem<unknown, number>`. */
  datatype IterationItem<T> = IterationItem(key: string, value: T, memo: nat)

  /** The `current` field: nothing to yield, a prefetched first value, or
      past the first value. */
  datatype Current<T> = Empty | First(value: T) | Progress

  function Min(a: nat, b: nat): nat { if a <= b then a else b }

  /** Reference answer of the `call`-th (0-based) `next()` on an iterator built
      over the values `s`. */
  function Response<T>(s: seq<T>, keyFor: KeyForFunction<T>, call: nat): (r: Option<IterationItem<T>>)
  {
    if call < |s| then Some(IterationItem(keyFor(s[call], call), s[call], call)) else None
  }

  /** The non-null answers of the first `calls` calls of `next()`, in order. */
  function Produced<T>(s: seq<T>, keyFor: KeyForFunction<T>, calls: nat): seq<IterationItem<T>>
    decreases calls
  {
    if calls == 0 then []
    else
      var r := Response(s, keyFor, calls - 1);
      Produced(s, keyFor, calls - 1) + (if r.Some? then [r.value] else [])
  }

  /** After `calls` calls exactly `min(calls, |s|)` items were produced, and the
      k-th of them is `{ key: keyFor(s[k], k), value: s[k], memo: k }`. */
  lemma {:induction false} ProducedItems<T>(s: seq<T>, keyFor: KeyForFunction<T>, calls: nat)
    ensures |Produced(s, keyFor, calls)| == Min(calls, |s|)
    ensures forall k :: 0 <= k < |Produced(s, keyFor, calls)| ==>
      Produced(s, keyFor, calls)[k] == IterationItem(keyFor(s[k], k), s[k], k)
    decreases calls
  {
    if calls > 0 {
      ProducedItems(s, keyFor, calls - 1);
    }
  }

  /** Exactly |s| items are ever produced: every call from the |s|-th on answers
      null, including every call on an empty source. */
  lemma {:induction false} ExhaustedAnswersNull<T>(s: seq<T>, keyFor: KeyForFunction<T>, calls: nat)
    requires calls >= |s|
    ensures Response(s, keyFor, calls) == None
    ensures Produced(s, keyFor, calls) == Produced(s, keyFor, |s|)
    ensures |Produced(s, keyFor, calls)| == |s|
    decreases calls
  {
    if calls > |s| {
      ExhaustedAnswersNull(s, keyFor, calls - 1);
    } else {
      ProducedItems(s, keyFor, calls);
    }
  }

  /** `NativeIteratorIterator`. The ghost fields record the values the wrapped
      iterator still had to yield when this object was built (`source`), the
      wrapped iterator's call count at that moment (`start`), how many times
      `next()` has been called here (`calls`) and the non-null items handed out
      so far (`produced`). */
  class NativeIteratorIterator<T> {
    const nativeIterator: SequenceIterator<T>
    const keyFor: KeyForFunction<T>
    var current: Current<T>
    var pos: nat
    ghost const source: seq<T>
    ghost const start: nat
    ghost var calls: nat
    ghost var produced: seq<IterationItem<T>>

    /** The part of the invariant about this object's own fields. */
    ghost predicate ValidState()
      reads this
    {
      (current.Empty? <==> source == []) &&
      (current.Empty? ==> calls == pos) &&
      (current.First? ==> pos == 0 && calls == 0 && current.value == source[0]) &&
      (current.Progress? ==> calls == pos + 1) &&
      produced == Produced(source, keyFor, calls)
    }

    ghost predicate Valid()
      reads this, nativeIterator
    {
      ValidState() &&
      nativeIterator.consumed == start + pos + 1 &&
      nativeIterator.remaining == source[Min(pos + 1, |source|)..]
    }

    /** Prefetches exactly one value from the wrapped iterator. */
    constructor (nativeIterator: SequenceIterator<T>, keyFor: KeyForFunction<T>)
      modifies nativeIterator
      ensures Valid()
      ensures this.nativeIterator == nativeIterator && this.keyFor == keyFor
      ensures source == old(nativeIterator.remaining) && start == old(nativeIterator.consumed)
      ensures nativeIterator.consumed == old(nativeIterator.consumed) + 1
      ensures current == if source == [] then Empty else First(source[0])
      ensures pos == 0 && calls == 0 && produced == []
    {
      ghost var values := nativeIterator.remaining;
      source := values;
      start := nativeIterator.consumed;
      var first := nativeIterator.Next();
      this.nativeIterator := nativeIterator;
      this.keyFor := keyFor;
      pos := 0;
      calls := 0;
      produced := [];
      if first.Done? {
        current := Empty;
        assert nativeIterator.remaining == values[0..];
      } else {
        current := First(first.value);
        assert nativeIterator.remaining == values[1..];
      }
      assert Produced(values, keyFor, 0) == [];
      new;
      assert Valid();
    }

    /** `isEmpty()`: true exactly when the source had no first value. */
    function IsEmpty(): (b: bool)
      reads this
      requires ValidState()
      ensures b <==> source == []
    {
      current.Empty?
    }

    /** `next()`: the first call hands back the prefetched value without touching
        the wrapped iterator; every other call advances the wrapped iterator and
        `pos`, then answers null once that iterator is done. */
    method Next() returns (r: Option<IterationItem<T>>)
      requires Valid()
      modifies this, nativeIterator
      ensures Valid()
      ensures r == Response(source, keyFor, old(calls))
      ensures r.Some? ==> r.value.memo == pos
      ensures calls == old(calls) + 1
      ensures produced == old(produced) + (if r.Some? then [r.value] else [])
      ensures IsEmpty() == old(IsEmpty())
      ensures current.Empty? == old(current).Empty?
      ensures old(current).First? ==>
        current == Progress && pos == old(pos) &&
        nativeIterator.consumed == old(nativeIterator.consumed) && nativeIterator.remaining == old(nativeIterator.remaining)
      ensures !old(current).First? ==>
        current == old(current) && pos == old(pos) + 1 && nativeIterator.consumed == old(nativeIterator.consumed) + 1
    {
      var value: T;
      if current.First? {
        value := current.value;
        current := Progress;
      } else {
        var next := nativeIterator.Next();
        pos := pos + 1;
        if next.Done? {
          r := None;
          calls := calls + 1;
          return;
        } else {
          value := next.value;
        }
      }
      var key := keyFor(value, pos);
      var memo := pos;
      r := Some(IterationItem(key, value, memo));
      calls := calls + 1;
      produced := produced + [r.value];
    }
  }
}
