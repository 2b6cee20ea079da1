/** An Iterable that converts each element of a wrapped Iterable on the way
    out: its iterator delegates hasNext, next and remove to a fresh iterator
    over the wrapped values, converting what next returns with a conversion
    service towards a fixed target type. */
module ConversionIterable {
  import opened Wrappers

  /** The exceptions java.util.Iterator operations raise. */
  datatype IteratorError =
    | NoSuchElement         // next on an exhausted iterator
    | IllegalState          // remove with no next since the last remove
    | UnsupportedOperation  // remove on an iterator that cannot remove

  /** An iterator over a sequence-backed collection. `cursor` is the index of
      the element next will return; `canRemove` holds when next has returned
      an element that has not been removed yet; `removable` says whether the
      collection supports removal through its iterator. `values` is the
      collection as it stands, removals included. */
  datatype SourceIterator<I> = SourceIterator(values: seq<I>, cursor: nat, canRemove: bool, removable: bool)
  {
    predicate Valid() {
      cursor <= |values| && (canRemove ==> cursor > 0)
    }
  }

  /** A fresh iterator over a collection, positioned before its first element. */
  function SourceIteratorOf<I>(values: seq<I>, removable: bool): (it: SourceIterator<I>)
    ensures it.Valid() && it.values == values && it.removable == removable
    ensures it.cursor == 0 && !it.canRemove
  {
    SourceIterator(values, 0, false, removable)
  }

  /** The wrapped iterator's hasNext: true exactly when next would return an
      element rather than throw. */
  function SourceHasNext<I>(it: SourceIterator<I>): (b: bool)
    requires it.Valid()
    ensures b <==> SourceNext(it).Success?
  {
    it.cursor < |it.values|
  }

  /** The wrapped iterator's next: the element at the cursor, and the
      iterator advanced by one; NoSuchElement once the collection is exhausted. */
  function SourceNext<I>(it: SourceIterator<I>): (r: Result<(I, SourceIterator<I>), IteratorError>)
    requires it.Valid()
    ensures r.Success? <==> it.cursor < |it.values|
    ensures r.Failure? ==> r.error == NoSuchElement
    ensures r.Success? ==>
              && r.value.0 == it.values[it.cursor]
              && r.value.1.Valid()
              && r.value.1.values == it.values
              && r.value.1.removable == it.removable
              && r.value.1.cursor == it.cursor + 1
              && r.value.1.canRemove
  {
    if it.cursor < |it.values| then
      Success((it.values[it.cursor], it.(cursor := it.cursor + 1, canRemove := true)))
    else
      Failure(NoSuchElement)
  }

  /** The wrapped iterator's remove: deletes from the collection the element
      the last next returned, so the cursor steps back over the gap. */
  function SourceRemove<I>(it: SourceIterator<I>): (r: Result<SourceIterator<I>, IteratorError>)
    requires it.Valid()
    ensures r.Success? <==> it.removable && it.canRemove
    ensures r.Failure? ==> r.error == (if it.removable then IllegalState else UnsupportedOperation)
    ensures r.Success? ==> r.value.Valid() && !r.value.canRemove && r.value.removable
    ensures r.Success? ==> 0 < it.cursor && r.value.cursor == it.cursor - 1
    ensures r.Success? ==> 0 < it.cursor && r.value.values == it.values[..it.cursor - 1] + it.values[it.cursor..]
  {
    if !it.removable then Failure(UnsupportedOperation)
    else if !it.canRemove then Failure(IllegalState)
    else
      var gap := it.cursor - 1;
      Success(SourceIterator(it.values[..gap] + it.values[it.cursor..], gap, false, true))
  }

  /** The adapter: the wrapped values, whether their iterators support
      removal, the target type, and the conversion service, taken as an
      uninterpreted total function of a value and a target type. */
  datatype Adapter<!I, !T, O> = Adapter(values: seq<I>, removable: bool, targetType: T, convert: (I, T) -> O)

  /** The anonymous iterator the adapter hands out: the wrapped iterator, and
      the target type and conversion service it captured from the adapter. */
  datatype ConvertingIterator<!I, !T, O> = ConvertingIterator(wrapped: SourceIterator<I>, targetType: T, convert: (I, T) -> O)

  /** The reference meaning of the adapter: every value converted, in order. */
  function MapConvert<I, T, O>(convert: (I, T) -> O, targetType: T, values: seq<I>): (r: seq<O>)
    ensures |r| == |values|
    ensures forall i :: 0 <= i < |values| ==> r[i] == convert(values[i], targetType)
  {
    if |values| == 0 then [] else [convert(values[0], targetType)] + MapConvert(convert, targetType, values[1..])
  }

  /** Each call starts a new wrapped iterator at the beginning of the values;
      it shares no position with any iterator handed out before. */
  function Iterator<I, T, O>(a: Adapter<I, T, O>): (it: ConvertingIterator<I, T, O>)
    ensures it.wrapped.Valid()
    ensures it.wrapped.values == a.values && it.wrapped.removable == a.removable
    ensures it.wrapped.cursor == 0 && !it.wrapped.canRemove
    ensures it.targetType == a.targetType && it.convert == a.convert
  {
    ConvertingIterator(SourceIteratorOf(a.values, a.removable), a.targetType, a.convert)
  }

  /** hasNext answers exactly what the wrapped iterator answers: whether
      unvisited values remain. */
  function HasNext<I, T, O>(it: ConvertingIterator<I, T, O>): (b: bool)
    requires it.wrapped.Valid()
    ensures b <==> it.wrapped.cursor < |it.wrapped.values|
  {
    SourceHasNext(it.wrapped)
  }

  /** next advances the wrapped iterator by one and returns its element
      converted to the target type; on an exhausted iterator it fails with the
      wrapped iterator's own exception. */
  function Next<I, T, O>(it: ConvertingIterator<I, T, O>): (r: Result<(O, ConvertingIterator<I, T, O>), IteratorError>)
    requires it.wrapped.Valid()
    ensures r.Success? <==> HasNext(it)
    ensures r.Failure? ==> r == Failure(SourceNext(it.wrapped).error)
    ensures r.Success? ==>
              && r.value.0 == it.convert(it.wrapped.values[it.wrapped.cursor], it.targetType)
              && r.value.1.wrapped == SourceNext(it.wrapped).value.1
              && r.value.1.targetType == it.targetType
              && r.value.1.convert == it.convert
  {
    var (element, wrapped') :- SourceNext(it.wrapped);
    Success((it.convert(element, it.targetType), it.(wrapped := wrapped')))
  }

  /** remove is the wrapped iterator's remove: it deletes the last source
      value returned, and fails exactly when and as the wrapped one does. */
  function Remove<I, T, O>(it: ConvertingIterator<I, T, O>): (r: Result<ConvertingIterator<I, T, O>, IteratorError>)
    requires it.wrapped.Valid()
    ensures r.Success? <==> SourceRemove(it.wrapped).Success?
    ensures r.Failure? ==> r.error == SourceRemove(it.wrapped).error
    ensures r.Success? ==>
              && r.value.wrapped == SourceRemove(it.wrapped).value
              && r.value.targetType == it.targetType
              && r.value.convert == it.convert
  {
    var wrapped' :- SourceRemove(it.wrapped);
    Success(it.(wrapped := wrapped'))
  }

  /** `it` iterates over the collection the adapter currently holds, with the
      adapter's target type and conversion service. */
  ghost predicate Over<I, T, O>(a: Adapter<I, T, O>, it: ConvertingIterator<I, T, O>) {
    && it.wrapped.Valid()
    && it.wrapped.values == a.values
    && it.wrapped.removable == a.removable
    && it.targetType == a.targetType
    && it.convert == a.convert
  }

  /** remove seen from the adapter's side: the adapter and its iterators share
      one collection, so a removal through an iterator leaves the adapter
      holding the collection without the removed value. */
  function RemoveShared<I, T, O>(a: Adapter<I, T, O>, it: ConvertingIterator<I, T, O>)
    : (r: Result<(Adapter<I, T, O>, ConvertingIterator<I, T, O>), IteratorError>)
    requires Over(a, it)
    ensures r.Success? <==> Remove(it).Success?
    ensures r.Failure? ==> r.error == Remove(it).error
    ensures r.Success? ==>
              && r.value.1 == Remove(it).value
              && Over(r.value.0, r.value.1)
              && |r.value.0.values| + 1 == |a.values|
  {
    var it' :- Remove(it);
    Success((a.(values := it'.wrapped.values), it'))
  }

  /** After next and remove through one iterator, an iterator the adapter
      hands out later runs over the reduced collection: it yields every value
      converted except the one removed. */
  lemma LaterIteratorSeesRemoval<I, T, O>(a: Adapter<I, T, O>, it: ConvertingIterator<I, T, O>)
    requires Over(a, it) && a.removable && HasNext(it)
    ensures var (_, advanced) := Next(it).value;
            var r := RemoveShared(a, advanced);
            var c := it.wrapped.cursor;
            && r.Success?
            && Remaining(Iterator(r.value.0))
               == MapConvert(a.convert, a.targetType, a.values[..c] + a.values[c + 1..])
  {
    var (_, advanced) := Next(it).value;
    var r := RemoveShared(a, advanced);
    var c := it.wrapped.cursor;
    assert r.value.0.values == a.values[..c] + a.values[c + 1..];
    FullIteration(r.value.0);
  }

  /** Everything the iterator still yields when next is called until it fails. */
  function Remaining<I, T, O>(it: ConvertingIterator<I, T, O>): seq<O>
    requires it.wrapped.Valid()
    decreases |it.wrapped.values| - it.wrapped.cursor
  {
    match Next(it)
    case Failure(_) => []
    case Success((o, it')) => [o] + Remaining(it')
  }

  /** What an iterator still yields is the conversion of the values from its
      cursor on, in order: nothing is filtered, buffered or skipped. */
  lemma {:induction false} RemainingIsConvertedSuffix<I, T, O>(it: ConvertingIterator<I, T, O>)
    requires it.wrapped.Valid()
    ensures Remaining(it) == MapConvert(it.convert, it.targetType, it.wrapped.values[it.wrapped.cursor..])
    decreases |it.wrapped.values| - it.wrapped.cursor
  {
    var values := it.wrapped.values;
    var c := it.wrapped.cursor;
    if c < |values| {
      var (o, it') := Next(it).value;
      RemainingIsConvertedSuffix(it');
      assert values[c..][1..] == values[c + 1..];
    }
  }

  /** A full iteration of a fresh iterator yields convert(values[i]) for every
      i, in source order, and exactly as many elements as there are values. */
  lemma FullIteration<I, T, O>(a: Adapter<I, T, O>)
    ensures Remaining(Iterator(a)) == MapConvert(a.convert, a.targetType, a.values)
    ensures |Remaining(Iterator(a))| == |a.values|
  {
    RemainingIsConvertedSuffix(Iterator(a));
    assert a.values[0..] == a.values;
  }

  /** Removing the element just returned deletes that source value from the
      collection and leaves what the iterator still yields unchanged. */
  lemma RemoveAfterNext<I, T, O>(it: ConvertingIterator<I, T, O>)
    requires it.wrapped.Valid() && it.wrapped.removable && HasNext(it)
    ensures var (_, advanced) := Next(it).value;
            var r := Remove(advanced);
            && r.Success?
            && r.value.wrapped.values
               == it.wrapped.values[..it.wrapped.cursor] + it.wrapped.values[it.wrapped.cursor + 1..]
            && Remaining(r.value) == Remaining(advanced)
  {
    var (_, advanced) := Next(it).value;
    var removed := Remove(advanced).value;
    var values := it.wrapped.values;
    var c := it.wrapped.cursor;
    assert removed.wrapped.values == removed.wrapped.values[..c] + removed.wrapped.values[c..];
    RemainingIsConvertedSuffix(advanced);
    RemainingIsConvertedSuffix(removed);
  }

  /** A second remove without a next in between fails with IllegalState. */
  lemma RemoveTwiceFails<I, T, O>(it: ConvertingIterator<I, T, O>)
    requires it.wrapped.Valid()
    requires Remove(it).Success?
    ensures Remove(Remove(it).value) == Failure(IllegalState)
  {
  }

  /** Drains an iterator of the adapter through hasNext and next, as a for-each
      loop over the adapter does. */
  method Drain<I, T, O>(a: Adapter<I, T, O>) returns (out: seq<O>)
    ensures |out| == |a.values|
    ensures forall i :: 0 <= i < |out| ==> out[i] == a.convert(a.values[i], a.targetType)
  {
    var it := Iterator(a);
    out := [];
    while HasNext(it)
      invariant it.wrapped.Valid()
      invariant it.wrapped.values == a.values
      invariant it.targetType == a.targetType && it.convert == a.convert
      invariant |out| == it.wrapped.cursor
      invariant forall i :: 0 <= i < |out| ==> out[i] == a.convert(a.values[i], a.targetType)
      decreases |it.wrapped.values| - it.wrapped.cursor
    {
      var r := Next(it);
      var (o, it') := r.value;
      out := out + [o];
      it := it';
    }
  }
}
