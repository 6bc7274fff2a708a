/** The view and accessor value types that simple functions receive for
    nested inputs: the index-based iterator, the lazy optional accessor
    (with its comparison protocol against other accessors and against plain
    optionals), `ArrayView` and `MapView` with its lazy key accessor and
    lock-step `Element`.

    Views are generic over the type `R` of the reader they point at; what
    they need from that reader (`isSet(i)` and `operator[](i)`) is passed in
    as a `ReaderOps` record, which plays the role of the C++ template
    parameter's interface. A null reader pointer (the default-constructed
    views) is `None`.
 */
module ComplexViews {
  import opened Common

  /** The part of a reader's interface the views call: `isSet` and `operator[]`. */
  datatype ReaderOps<!R, V> = ReaderOps(isSet: (R, nat) -> bool, read: (R, nat) -> V)

  // ---------------------------------------------------------------------
  // IndexBasedIterator
  // ---------------------------------------------------------------------

  /** What `IndexBasedIterator<T>` needs of `T`: `index()` and `incrementIndex()`. */
  datatype Indexing<!E> = Indexing(index: E -> nat, increment: E -> E)

  /** `incrementIndex()` moves an element exactly one position forward. */
  ghost predicate LawfulIndexing<E(!new)>(ix: Indexing<E>) {
    forall e :: ix.index(ix.increment(e)) == ix.index(e) + 1
  }

  /** An iterator is nothing but the element it wraps. */
  datatype IndexIterator<E> = IndexIterator(element: E)

  predicate IterEq<E>(ix: Indexing<E>, a: IndexIterator<E>, b: IndexIterator<E>) {
    ix.index(a.element) == ix.index(b.element)
  }

  /** `operator!=` is written separately in the source; it is the negation of `==`. */
  function IterNe<E>(ix: Indexing<E>, a: IndexIterator<E>, b: IndexIterator<E>): (r: bool)
    ensures r <==> !IterEq(ix, a, b)
  {
    ix.index(a.element) != ix.index(b.element)
  }

  predicate IterLt<E>(ix: Indexing<E>, a: IndexIterator<E>, b: IndexIterator<E>) {
    ix.index(a.element) < ix.index(b.element)
  }

  /** `operator*` */
  function Deref<E>(it: IndexIterator<E>): E {
    it.element
  }

  /** `++it`: the wrapped element is incremented in place. */
  function PreIncrement<E(!new)>(ix: Indexing<E>, it: IndexIterator<E>): (r: IndexIterator<E>)
    requires LawfulIndexing(ix)
    ensures ix.index(r.element) == ix.index(it.element) + 1
    ensures IterLt(ix, it, r) && IterNe(ix, it, r)
  {
    IndexIterator(ix.increment(it.element))
  }

  /** `it++`: returns the old iterator; the second component is `it` afterwards. */
  function PostIncrement<E(!new)>(ix: Indexing<E>, it: IndexIterator<E>): (r: (IndexIterator<E>, IndexIterator<E>))
    requires LawfulIndexing(ix)
    ensures r.0 == it
    ensures ix.index(r.1.element) == ix.index(it.element) + 1
  {
    (it, PreIncrement(ix, it))
  }

  /** Iterator identity is index identity: two iterators built independently
      over elements with the same index are equal, whatever else the
      elements hold, and the three comparisons are consistent. */
  lemma IteratorIdentityIsIndex<E>(ix: Indexing<E>, a: IndexIterator<E>, b: IndexIterator<E>)
    ensures IterEq(ix, a, b) <==> ix.index(a.element) == ix.index(b.element)
    ensures IterEq(ix, a, b) ==> !IterLt(ix, a, b) && !IterLt(ix, b, a)
    ensures IterNe(ix, a, b) <==> IterLt(ix, a, b) || IterLt(ix, b, a)
  {
  }

  /** The elements a range-for loop `for (it = begin; it != end; ++it)` visits. */
  function Walk<E(!new)>(ix: Indexing<E>, it: IndexIterator<E>, end: IndexIterator<E>): (es: seq<E>)
    requires LawfulIndexing(ix)
    requires ix.index(it.element) <= ix.index(end.element)
    ensures |es| == ix.index(end.element) - ix.index(it.element)
    ensures forall k :: 0 <= k < |es| ==> ix.index(es[k]) == ix.index(it.element) + k
    decreases ix.index(end.element) - ix.index(it.element)
  {
    if !IterNe(ix, it, end) then []
    else [Deref(it)] + Walk(ix, PreIncrement(ix, it), end)
  }

  // ---------------------------------------------------------------------
  // OptionalVectorValueAccessor
  // ---------------------------------------------------------------------

  /** A lazy handle on "the value at `index` of `reader`, possibly null". */
  datatype OptionalAccessor<R> = OptionalAccessor(reader: Option<R>, index: nat)

  function IncrementAccessor<R>(a: OptionalAccessor<R>): (r: OptionalAccessor<R>)
    ensures r.reader == a.reader && r.index == a.index + 1
  {
    a.(index := a.index + 1)
  }

  function AccessorIndexing<R(!new)>(): (ix: Indexing<OptionalAccessor<R>>)
    ensures LawfulIndexing(ix)
  {
    Indexing((a: OptionalAccessor<R>) => a.index, (a: OptionalAccessor<R>) => IncrementAccessor(a))
  }

  /** `has_value()` asks the reader's `isSet`. */
  predicate HasValue<R, V>(ops: ReaderOps<R, V>, a: OptionalAccessor<R>)
    requires a.reader.Some?
  {
    ops.isSet(a.reader.value, a.index)
  }

  /** `operator bool` */
  function AsBool<R, V>(ops: ReaderOps<R, V>, a: OptionalAccessor<R>): (r: bool)
    requires a.reader.Some?
    ensures r <==> ToOptional(ops, a).Some?
  {
    HasValue(ops, a)
  }

  /** `value()`; the DCHECK on `has_value()` is the precondition. */
  function Value<R, V>(ops: ReaderOps<R, V>, a: OptionalAccessor<R>): V
    requires a.reader.Some? && HasValue(ops, a)
  {
    ops.read(a.reader.value, a.index)
  }

  /** `operator*`, the same read as `value()`. */
  function Dereference<R, V>(ops: ReaderOps<R, V>, a: OptionalAccessor<R>): (v: V)
    requires a.reader.Some? && HasValue(ops, a)
    ensures v == Value(ops, a)
  {
    ops.read(a.reader.value, a.index)
  }

  /** `operator std::optional<element_t>()`: materialises the accessor. */
  function ToOptional<R, V>(ops: ReaderOps<R, V>, a: OptionalAccessor<R>): (o: Option<V>)
    requires a.reader.Some?
    ensures o.None? <==> !HasValue(ops, a)
    ensures o.Some? ==> o.value == Dereference(ops, a)
  {
    if !HasValue(ops, a) then None else Some(Value(ops, a))
  }

  /** Accessor `==`: presence must agree, and present values must be equal.
      This is exactly equality of the materialised optionals. */
  function AccessorEq<R, V(==)>(ops: ReaderOps<R, V>, a: OptionalAccessor<R>, b: OptionalAccessor<R>): (r: bool)
    requires a.reader.Some? && b.reader.Some?
    ensures r <==> ToOptional(ops, a) == ToOptional(ops, b)
  {
    if HasValue(ops, b) != HasValue(ops, a) then false
    else if HasValue(ops, a) then Value(ops, a) == Value(ops, b)
    else true
  }

  function AccessorNe<R, V(==)>(ops: ReaderOps<R, V>, a: OptionalAccessor<R>, b: OptionalAccessor<R>): (r: bool)
    requires a.reader.Some? && b.reader.Some?
    ensures r <==> ToOptional(ops, a) != ToOptional(ops, b)
  {
    !AccessorEq(ops, a, b)
  }

  /** Accessor equality is an equivalence: both absent is equal, one absent
      is unequal, and it is reflexive, symmetric and transitive. */
  lemma AccessorEqIsEquivalence<R, V>(ops: ReaderOps<R, V>, a: OptionalAccessor<R>, b: OptionalAccessor<R>, c: OptionalAccessor<R>)
    requires a.reader.Some? && b.reader.Some? && c.reader.Some?
    ensures !HasValue(ops, a) && !HasValue(ops, b) ==> AccessorEq(ops, a, b)
    ensures HasValue(ops, a) != HasValue(ops, b) ==> !AccessorEq(ops, a, b)
    ensures AccessorEq(ops, a, a)
    ensures AccessorEq(ops, a, b) <==> AccessorEq(ops, b, a)
    ensures AccessorEq(ops, a, b) && AccessorEq(ops, b, c) ==> AccessorEq(ops, a, c)
    ensures AccessorNe(ops, a, b) <==> !AccessorEq(ops, a, b)
  {
  }

  /** The free `operator==(const std::optional<T>&, const OptionalVectorValueAccessor<U>&)`. */
  function OptionalEqAccessor<R, V(==)>(ops: ReaderOps<R, V>, lhs: Option<V>, rhs: OptionalAccessor<R>): (r: bool)
    requires rhs.reader.Some?
    ensures r <==> lhs == ToOptional(ops, rhs)
  {
    if lhs.Some? != HasValue(ops, rhs) then false
    else if lhs.Some? then lhs.value == Value(ops, rhs)
    else true
  }

  /** The mirrored `operator==(accessor, optional)`, defined by swapping the arguments. */
  function AccessorEqOptional<R, V(==)>(ops: ReaderOps<R, V>, lhs: OptionalAccessor<R>, rhs: Option<V>): (r: bool)
    requires lhs.reader.Some?
    ensures r <==> ToOptional(ops, lhs) == rhs
  {
    OptionalEqAccessor(ops, rhs, lhs)
  }

  function OptionalNeAccessor<R, V(==)>(ops: ReaderOps<R, V>, lhs: Option<V>, rhs: OptionalAccessor<R>): (r: bool)
    requires rhs.reader.Some?
    ensures r <==> lhs != ToOptional(ops, rhs)
  {
    !OptionalEqAccessor(ops, lhs, rhs)
  }

  function AccessorNeOptional<R, V(==)>(ops: ReaderOps<R, V>, lhs: OptionalAccessor<R>, rhs: Option<V>): (r: bool)
    requires lhs.reader.Some?
    ensures r <==> ToOptional(ops, lhs) != rhs
  {
    !AccessorEqOptional(ops, lhs, rhs)
  }

  /** Comparing with a plain optional is symmetric, `!=` negates `==`, and an
      optional taken from the accessor compares equal to it. */
  lemma OptionalComparisonSymmetric<R, V>(ops: ReaderOps<R, V>, a: OptionalAccessor<R>, o: Option<V>)
    requires a.reader.Some?
    ensures OptionalEqAccessor(ops, o, a) <==> AccessorEqOptional(ops, a, o)
    ensures OptionalNeAccessor(ops, o, a) <==> !OptionalEqAccessor(ops, o, a)
    ensures AccessorNeOptional(ops, a, o) <==> !AccessorEqOptional(ops, a, o)
    ensures OptionalEqAccessor(ops, ToOptional(ops, a), a)
  {
  }

  // ---------------------------------------------------------------------
  // ArrayView
  // ---------------------------------------------------------------------

  /** An (offset, size) window into the element reader. */
  datatype ArrayView<R> = ArrayView(reader: Option<R>, offset: nat, size: nat)

  /** The default constructor used by the older `doLoad` protocol. */
  function DefaultArrayView<R(!new)>(): (v: ArrayView<R>)
    ensures v.reader.None? && v.size == 0
    ensures IterEq(AccessorIndexing(), ArrayBegin(v), ArrayEnd(v))
  {
    ArrayView(None, 0, 0)
  }

  function ArrayBegin<R>(v: ArrayView<R>): IndexIterator<OptionalAccessor<R>> {
    IndexIterator(OptionalAccessor(v.reader, v.offset))
  }

  function ArrayEnd<R>(v: ArrayView<R>): IndexIterator<OptionalAccessor<R>> {
    IndexIterator(OptionalAccessor(v.reader, v.offset + v.size))
  }

  /** `operator[](i)`: the element accessor at `offset + i` of the element reader. */
  function ArrayAt<R>(v: ArrayView<R>, i: nat): OptionalAccessor<R> {
    OptionalAccessor(v.reader, i + v.offset)
  }

  /** `at(i)` is defined as `(*this)[i]`; neither checks `i < size()`.
      Within the view it is the i-th accessor iteration visits. */
  function ArrayAtChecked<R(!new)>(v: ArrayView<R>, i: nat): (a: OptionalAccessor<R>)
    ensures i < v.size ==> a == ArrayElements(v)[i]
    ensures a.reader == v.reader && a.index == v.offset + i
  {
    ArrayIteration(v);
    ArrayAt(v, i)
  }

  /** `mayHaveNulls()` is hard-wired to false. */
  predicate ArrayMayHaveNulls<R>(v: ArrayView<R>) {
    false
  }

  /** The accessors a range-for over the view visits. */
  function ArrayElements<R(!new)>(v: ArrayView<R>): seq<OptionalAccessor<R>> {
    Walk(AccessorIndexing(), ArrayBegin(v), ArrayEnd(v))
  }

  /** Walking accessors from index `i` to `j` of one reader visits exactly the
      accessors at `i .. j-1` of that same reader. */
  lemma {:induction false} WalkAccessors<R(!new)>(reader: Option<R>, i: nat, j: nat)
    requires i <= j
    ensures Walk(AccessorIndexing(), IndexIterator(OptionalAccessor(reader, i)), IndexIterator(OptionalAccessor(reader, j)))
            == seq(j - i, k requires 0 <= k < j - i => OptionalAccessor(reader, i + k))
    decreases j - i
  {
    var ix := AccessorIndexing<R>();
    var it := IndexIterator(OptionalAccessor(reader, i));
    var end := IndexIterator(OptionalAccessor(reader, j));
    if i < j {
      WalkAccessors(reader, i + 1, j);
      assert PreIncrement(ix, it) == IndexIterator(OptionalAccessor(reader, i + 1));
    }
  }

  /** Iterating an array view yields exactly `size()` accessors, and the k-th
      is `operator[](k)`, at index `offset + k` of the element reader. */
  lemma ArrayIteration<R(!new)>(v: ArrayView<R>)
    ensures |ArrayElements(v)| == v.size
    ensures forall k :: 0 <= k < v.size ==> ArrayElements(v)[k] == ArrayAt(v, k)
    ensures forall k :: 0 <= k < v.size ==> ArrayElements(v)[k].index == v.offset + k
  {
    WalkAccessors(v.reader, v.offset, v.offset + v.size);
  }

  // ---------------------------------------------------------------------
  // MapView
  // ---------------------------------------------------------------------

  /** Lazy access to a key; keys are never null so it reads the value directly. */
  datatype LazyKeyAccessor<K> = LazyKeyAccessor(reader: Option<K>, index: nat)

  /** `operator key_element_t()` */
  function KeyValue<K, KV>(kops: ReaderOps<K, KV>, k: LazyKeyAccessor<K>): KV
    requires k.reader.Some?
  {
    kops.read(k.reader.value, k.index)
  }

  /** Key `==` compares the keys' values (written `other == this` in the source). */
  function KeyEq<K, KV(==)>(kops: ReaderOps<K, KV>, a: LazyKeyAccessor<K>, b: LazyKeyAccessor<K>): (r: bool)
    requires a.reader.Some? && b.reader.Some?
    ensures r <==> KeyValue(kops, a) == KeyValue(kops, b)
  {
    KeyValue(kops, b) == KeyValue(kops, a)
  }

  /** `MapView::Element`: the key accessor, the value accessor and its own index. */
  datatype MapElement<K, V> = MapElement(first: LazyKeyAccessor<K>, second: OptionalAccessor<V>, index: nat)

  /** The element constructor puts key, value and element at one child index. */
  function NewMapElement<K, V>(keyReader: Option<K>, valueReader: Option<V>, index: nat): (e: MapElement<K, V>)
    ensures Aligned(e) && e.index == index
    ensures e.first.reader == keyReader && e.second.reader == valueReader
  {
    MapElement(LazyKeyAccessor(keyReader, index), OptionalAccessor(valueReader, index), index)
  }

  /** Key i and value i share one child index. */
  predicate Aligned<K, V>(e: MapElement<K, V>) {
    e.first.index == e.index && e.second.index == e.index
  }

  /** `incrementIndex()` advances the element, the key and the value together. */
  function IncrementElement<K, V>(e: MapElement<K, V>): (r: MapElement<K, V>)
    ensures r.index == e.index + 1
    ensures Aligned(e) ==> Aligned(r)
    ensures r.first.reader == e.first.reader && r.second.reader == e.second.reader
  {
    MapElement(e.first.(index := e.first.index + 1), IncrementAccessor(e.second), e.index + 1)
  }

  function ElementIndexing<K(!new), V(!new)>(): (ix: Indexing<MapElement<K, V>>)
    ensures LawfulIndexing(ix)
  {
    Indexing((e: MapElement<K, V>) => e.index, (e: MapElement<K, V>) => IncrementElement(e))
  }

  /** Element `==` against another element: equal keys and equal values under
      the accessor rule. */
  function ElementEq<K, KV(==), V, VV(==)>(kops: ReaderOps<K, KV>, vops: ReaderOps<V, VV>, a: MapElement<K, V>, b: MapElement<K, V>): (r: bool)
    requires a.first.reader.Some? && a.second.reader.Some?
    requires b.first.reader.Some? && b.second.reader.Some?
    ensures r <==> KeyValue(kops, a.first) == KeyValue(kops, b.first)
                   && ToOptional(vops, a.second) == ToOptional(vops, b.second)
  {
    KeyEq(kops, a.first, b.first) && AccessorEq(vops, a.second, b.second)
  }

  /** Element `==` against a pair-like `(key, optional value)`. */
  function ElementEqPair<K, KV(==), V, VV(==)>(kops: ReaderOps<K, KV>, vops: ReaderOps<V, VV>, e: MapElement<K, V>, p: (KV, Option<VV>)): (r: bool)
    requires e.first.reader.Some? && e.second.reader.Some?
    ensures r <==> (KeyValue(kops, e.first), ToOptional(vops, e.second)) == p
  {
    KeyValue(kops, e.first) == p.0 && AccessorEqOptional(vops, e.second, p.1)
  }

  function ElementNePair<K, KV(==), V, VV(==)>(kops: ReaderOps<K, KV>, vops: ReaderOps<V, VV>, e: MapElement<K, V>, p: (KV, Option<VV>)): (r: bool)
    requires e.first.reader.Some? && e.second.reader.Some?
    ensures r <==> (KeyValue(kops, e.first), ToOptional(vops, e.second)) != p
  {
    !ElementEqPair(kops, vops, e, p)
  }

  /** An (offset, size) window shared by the key reader and the value reader. */
  datatype MapView<K, V> = MapView(keyReader: Option<K>, valueReader: Option<V>, offset: nat, size: nat)

  function DefaultMapView<K(!new), V(!new)>(): (v: MapView<K, V>)
    ensures v.keyReader.None? && v.valueReader.None? && v.size == 0
    ensures IterEq(ElementIndexing(), MapBegin(v), MapEnd(v)) && MapEntries(v) == []
  {
    MapView(None, None, 0, 0)
  }

  function MapBegin<K, V>(v: MapView<K, V>): IndexIterator<MapElement<K, V>> {
    IndexIterator(NewMapElement(v.keyReader, v.valueReader, 0 + v.offset))
  }

  function MapEnd<K, V>(v: MapView<K, V>): IndexIterator<MapElement<K, V>> {
    IndexIterator(NewMapElement(v.keyReader, v.valueReader, v.size + v.offset))
  }

  /** `operator[](i)` */
  function MapAt<K, V>(v: MapView<K, V>, i: nat): MapElement<K, V> {
    NewMapElement(v.keyReader, v.valueReader, i + v.offset)
  }

  /** The elements a range-for over the map view visits. */
  function MapEntries<K(!new), V(!new)>(v: MapView<K, V>): seq<MapElement<K, V>> {
    Walk(ElementIndexing(), MapBegin(v), MapEnd(v))
  }

  lemma {:induction false} WalkElements<K(!new), V(!new)>(kr: Option<K>, vr: Option<V>, i: nat, j: nat)
    requires i <= j
    ensures Walk(ElementIndexing(), IndexIterator(NewMapElement(kr, vr, i)), IndexIterator(NewMapElement(kr, vr, j)))
            == seq(j - i, k requires 0 <= k < j - i => NewMapElement(kr, vr, i + k))
    decreases j - i
  {
    var ix := ElementIndexing<K, V>();
    var it := IndexIterator(NewMapElement(kr, vr, i));
    if i < j {
      WalkElements(kr, vr, i + 1, j);
      assert PreIncrement(ix, it) == IndexIterator(NewMapElement(kr, vr, i + 1));
    }
  }

  /** Iterating a map view visits exactly `size()` entries in storage order:
      the k-th is `operator[](k)`, whose key and value both sit at child index
      `offset + k`. Nothing is sorted or de-duplicated. */
  lemma MapIteration<K(!new), V(!new)>(v: MapView<K, V>)
    ensures |MapEntries(v)| == v.size
    ensures forall k :: 0 <= k < v.size ==> MapEntries(v)[k] == MapAt(v, k)
    ensures forall k :: 0 <= k < v.size ==>
      Aligned(MapEntries(v)[k]) && MapEntries(v)[k].index == v.offset + k
  {
    WalkElements(v.keyReader, v.valueReader, v.offset, v.offset + v.size);
  }

  /** What a caller observes when it copies each visited entry into a plain
      `(key, std::optional<value>)` pair. */
  function MapContents<K(!new), KV, V(!new), VV>(kops: ReaderOps<K, KV>, vops: ReaderOps<V, VV>, v: MapView<K, V>): (ps: seq<(KV, Option<VV>)>)
    requires v.keyReader.Some? && v.valueReader.Some?
    ensures |ps| == v.size
    ensures forall k :: 0 <= k < v.size ==>
      ps[k] == (kops.read(v.keyReader.value, v.offset + k), ToOptional(vops, OptionalAccessor(v.valueReader, v.offset + k)))
  {
    MapIteration(v);
    var es := MapEntries(v);
    seq(|es|, k requires 0 <= k < |es| => (KeyValue(kops, es[k].first), ToOptional(vops, es[k].second)))
  }

  /** Comparing the keys of two map entries is comparing the keys a caller
      copies out of the two views. */
  lemma KeyEqComparesContents<K(!new), KV, V(!new), VV>(kops: ReaderOps<K, KV>, vops: ReaderOps<V, VV>,
                                                            v: MapView<K, V>, i: nat, w: MapView<K, V>, j: nat)
    requires v.keyReader.Some? && v.valueReader.Some? && i < v.size
    requires w.keyReader.Some? && w.valueReader.Some? && j < w.size
    ensures KeyEq(kops, MapAt(v, i).first, MapAt(w, j).first)
      <==> MapContents(kops, vops, v)[i].0 == MapContents(kops, vops, w)[j].0
  {
  }
}
