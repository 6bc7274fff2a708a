/** The type-driven `VectorReader` hierarchy and its null-presence protocol.

    A decoded column is abstracted as its logical rows, each carrying the
    physical index it maps to and whether it is null, plus the decoder's
    `mayHaveNulls()` and `mayHaveNullsRecursive()` flags. A reader is an
    immutable tree of such columns (`Reader`); the tri-state flags that
    `setChildrenMayHaveNulls()` fills in are kept in a separate tree of the
    same shape (`NullCache`): built with every flag unknown, then finalised.
 */
module VectorReaders {
  import opened Common
  import opened ComplexViews

  // ---------------------------------------------------------------------
  // Decoded columns
  // ---------------------------------------------------------------------

  /** One logical row: the physical row it maps to, and whether it is null. */
  datatype DecodedRow = DecodedRow(index: nat, isNull: bool)

  /** What a reader uses of a `DecodedVector`. */
  datatype Decoded = Decoded(rows: seq<DecodedRow>, mayHaveNulls: bool, mayHaveNullsRecursive: bool)

  function IsNullAt(d: Decoded, row: nat): bool
    requires row < |d.rows|
  {
    d.rows[row].isNull
  }

  /** `decoded.index(row)` */
  function DecodedIndex(d: Decoded, row: nat): nat
    requires row < |d.rows|
  {
    d.rows[row].index
  }

  /** The decoder's `mayHaveNulls()` may say yes spuriously, never no wrongly. */
  ghost predicate FlagCoversNulls(d: Decoded) {
    !d.mayHaveNulls ==> forall i :: 0 <= i < |d.rows| ==> !d.rows[i].isNull
  }

  // ---------------------------------------------------------------------
  // Readers
  // ---------------------------------------------------------------------

  /** One constructor per `VectorReader` specialisation. Array and map readers
      hold the per-physical-row offsets and lengths into their children. */
  datatype Reader =
    | ScalarReader(decoded: Decoded, base: seq<int>)
    | ArrayReader(decoded: Decoded, offsets: seq<nat>, lengths: seq<nat>, elements: Reader)
    | MapReader(decoded: Decoded, offsets: seq<nat>, lengths: seq<nat>, keys: Reader, values: Reader)
    | RowReader(decoded: Decoded, fields: seq<Reader>)
    | VariadicReader(args: seq<Reader>)
    | GenericReader(decoded: Decoded)

  /** The number of logical rows of a reader that has a decoded column. */
  function Size(r: Reader): nat
    requires !r.VariadicReader?
  {
    |r.decoded.rows|
  }

  /** Rows a reader may be asked about. A variadic reader answers for a row
      by asking every argument about that same row. */
  predicate InDomain(r: Reader, row: nat) {
    match r
    case VariadicReader(args) =>
      forall k :: 0 <= k < |args| ==> !args[k].VariadicReader? && row < Size(args[k])
    case _ => row < Size(r)
  }

  /** A half-open range `[start, end)` of rows in the reader's domain; an empty
      range is always allowed. */
  predicate RangeInDomain(r: Reader, start: nat, end: nat) {
    start >= end || InDomain(r, end - 1)
  }

  /** Structural well-formedness of a reader tree: decoded indices address the
      physical arrays, every (offset, length) window lies inside the child,
      and a variadic reader never nests. */
  predicate Valid(r: Reader)
    decreases r
  {
    match r
    case ScalarReader(d, base) =>
      forall i :: 0 <= i < |d.rows| ==> d.rows[i].index < |base|
    case ArrayReader(d, offsets, lengths, elements) =>
      && |offsets| == |lengths|
      && (forall i :: 0 <= i < |d.rows| ==> d.rows[i].index < |offsets|)
      && !elements.VariadicReader?
      && (forall b :: 0 <= b < |offsets| ==> offsets[b] + lengths[b] <= Size(elements))
      && Valid(elements)
    case MapReader(d, offsets, lengths, keys, values) =>
      && |offsets| == |lengths|
      && (forall i :: 0 <= i < |d.rows| ==> d.rows[i].index < |offsets|)
      && !keys.VariadicReader? && !values.VariadicReader?
      && (forall b :: 0 <= b < |offsets| ==> offsets[b] + lengths[b] <= Size(keys))
      && (forall b :: 0 <= b < |offsets| ==> offsets[b] + lengths[b] <= Size(values))
      && Valid(keys) && Valid(values)
    case RowReader(d, fields) =>
      forall k :: 0 <= k < |fields| ==>
        && !fields[k].VariadicReader?
        && Valid(fields[k])
        && (forall i :: 0 <= i < |d.rows| ==> d.rows[i].index < Size(fields[k]))
    case VariadicReader(args) =>
      forall k :: 0 <= k < |args| ==> !args[k].VariadicReader? && Valid(args[k])
    case GenericReader(_) => true
  }

  /** No generic reader anywhere in the tree. */
  predicate GenericFree(r: Reader)
    decreases r
  {
    match r
    case ScalarReader(_, _) => true
    case ArrayReader(_, _, _, elements) => GenericFree(elements)
    case MapReader(_, _, _, keys, values) => GenericFree(keys) && GenericFree(values)
    case RowReader(_, fields) => forall k :: 0 <= k < |fields| ==> GenericFree(fields[k])
    case VariadicReader(args) => forall k :: 0 <= k < |args| ==> GenericFree(args[k])
    case GenericReader(_) => false
  }

  /** The reference semantics: does the row, or anything reachable from it,
      hold a null? Array items, map keys and values, struct fields and
      variadic arguments are all visited. */
  ghost predicate BruteNull(r: Reader, row: nat)
    requires Valid(r) && InDomain(r, row)
    decreases r, 0
  {
    match r
    case ScalarReader(d, _) => IsNullAt(d, row)
    case ArrayReader(d, offsets, lengths, elements) =>
      var b := DecodedIndex(d, row);
      IsNullAt(d, row) || NullInRange(elements, offsets[b], offsets[b] + lengths[b])
    case MapReader(d, offsets, lengths, keys, values) =>
      var b := DecodedIndex(d, row);
      || IsNullAt(d, row)
      || NullInRange(keys, offsets[b], offsets[b] + lengths[b])
      || NullInRange(values, offsets[b], offsets[b] + lengths[b])
    case RowReader(d, fields) =>
      IsNullAt(d, row) || exists k :: 0 <= k < |fields| && BruteNull(fields[k], DecodedIndex(d, row))
    case VariadicReader(args) => exists k :: 0 <= k < |args| && BruteNull(args[k], row)
    case GenericReader(d) => IsNullAt(d, row)
  }

  /** Some row of `[start, end)` holds a null somewhere below it. */
  ghost predicate NullInRange(r: Reader, start: nat, end: nat)
    requires Valid(r) && RangeInDomain(r, start, end)
    decreases r, 1
  {
    exists i: nat :: start <= i < end && BruteNull(r, i)
  }

  /** What the model takes on trust from the decoder: its flags over-approximate.
      For a struct column, `mayHaveNullsRecursive()` false means no null in the
      column itself nor anywhere below any field. */
  ghost predicate Sound(r: Reader)
    requires Valid(r)
    decreases r
  {
    match r
    case ScalarReader(d, _) => FlagCoversNulls(d)
    case ArrayReader(d, _, _, elements) => FlagCoversNulls(d) && Sound(elements)
    case MapReader(d, _, _, keys, values) => FlagCoversNulls(d) && Sound(keys) && Sound(values)
    case RowReader(d, fields) =>
      && FlagCoversNulls(d)
      && (forall k :: 0 <= k < |fields| ==> Sound(fields[k]))
      && (!d.mayHaveNullsRecursive ==>
            && !d.mayHaveNulls
            && forall k, j :: 0 <= k < |fields| && 0 <= j < Size(fields[k]) ==> !BruteNull(fields[k], j))
    case VariadicReader(args) => forall k :: 0 <= k < |args| ==> Sound(args[k])
    case GenericReader(d) => FlagCoversNulls(d)
  }

  /** `prepareChildReaders(decodedArgs, startPosition)`: one reader per argument
      from `startPosition` on, in argument order. */
  function VariadicFrom(argReaders: seq<Reader>, startPosition: nat): (r: Reader)
    requires startPosition <= |argReaders|
    ensures r.VariadicReader? && |r.args| == |argReaders| - startPosition
    ensures forall k :: 0 <= k < |r.args| ==> r.args[k] == argReaders[startPosition + k]
  {
    VariadicReader(argReaders[startPosition..])
  }

  // ---------------------------------------------------------------------
  // Row access: isSet, operator[], readNullFree
  // ---------------------------------------------------------------------

  /** What `operator[]` hands to a function body. */
  datatype InputValue =
    | ScalarValue(v: int)
    | ArrayValue(arrayView: ArrayView<Reader>)
    | MapValue(mapView: MapView<Reader, Reader>)
    | RowValue(fields: seq<Reader>, index: nat)
    | VariadicValue(args: seq<Reader>, index: nat)
    | GenericValue(decoded: Decoded, index: nat)

  /** `isSet(row)`: a variadic group is never null itself. */
  predicate IsSet(r: Reader, row: nat)
    requires InDomain(r, row)
  {
    match r
    case VariadicReader(_) => true
    case _ => !IsNullAt(r.decoded, row)
  }

  /** `operator[](row)`. Nested readers hand out a view over the physical row
      `decoded.index(row)`; a variadic reader passes the row through. */
  function Read(r: Reader, row: nat): InputValue
    requires Valid(r) && InDomain(r, row)
  {
    match r
    case ScalarReader(d, base) => ScalarValue(base[DecodedIndex(d, row)])
    case ArrayReader(d, offsets, lengths, elements) =>
      var b := DecodedIndex(d, row);
      ArrayValue(ArrayView(Some(elements), offsets[b], lengths[b]))
    case MapReader(d, offsets, lengths, keys, values) =>
      var b := DecodedIndex(d, row);
      MapValue(MapView(Some(keys), Some(values), offsets[b], lengths[b]))
    case RowReader(d, fields) => RowValue(fields, DecodedIndex(d, row))
    case VariadicReader(args) => VariadicValue(args, row)
    case GenericReader(d) => GenericValue(d, DecodedIndex(d, row))
  }

  /** `readNullFree(row)` builds the same value as `operator[]`. */
  function ReadNullFree(r: Reader, row: nat): (v: InputValue)
    requires Valid(r) && InDomain(r, row)
    ensures v == Read(r, row)
  {
    match r
    case ScalarReader(d, base) => ScalarValue(base[DecodedIndex(d, row)])
    case ArrayReader(d, offsets, lengths, elements) =>
      var b := DecodedIndex(d, row);
      ArrayValue(ArrayView(Some(elements), offsets[b], lengths[b]))
    case MapReader(d, offsets, lengths, keys, values) =>
      var b := DecodedIndex(d, row);
      MapValue(MapView(Some(keys), Some(values), offsets[b], lengths[b]))
    case RowReader(d, fields) => RowValue(fields, DecodedIndex(d, row))
    case VariadicReader(args) => VariadicValue(args, row)
    case GenericReader(d) => Read(r, row)
  }

  /** An array row's view has the row's stored length, and every element it
      visits is a row of the element reader. */
  lemma ArrayViewOfRow(r: Reader, row: nat)
    requires Valid(r) && InDomain(r, row) && r.ArrayReader?
    ensures Read(r, row).ArrayValue?
    ensures Read(r, row).arrayView.size == r.lengths[DecodedIndex(r.decoded, row)]
    ensures Read(r, row).arrayView.offset == r.offsets[DecodedIndex(r.decoded, row)]
    ensures Read(r, row).arrayView.reader == Some(r.elements)
    ensures forall k :: 0 <= k < Read(r, row).arrayView.size ==>
      InDomain(r.elements, ArrayElements(Read(r, row).arrayView)[k].index)
  {
    ArrayIteration(Read(r, row).arrayView);
  }

  /** A map row's view has the row's stored length, and every entry it visits
      addresses a row of both the key reader and the value reader. */
  lemma MapViewOfRow(r: Reader, row: nat)
    requires Valid(r) && InDomain(r, row) && r.MapReader?
    ensures Read(r, row).MapValue?
    ensures Read(r, row).mapView.size == r.lengths[DecodedIndex(r.decoded, row)]
    ensures Read(r, row).mapView.offset == r.offsets[DecodedIndex(r.decoded, row)]
    ensures Read(r, row).mapView.keyReader == Some(r.keys) && Read(r, row).mapView.valueReader == Some(r.values)
    ensures forall k :: 0 <= k < Read(r, row).mapView.size ==>
      InDomain(r.keys, MapEntries(Read(r, row).mapView)[k].index)
      && InDomain(r.values, MapEntries(Read(r, row).mapView)[k].index)
  {
    MapIteration(Read(r, row).mapView);
  }

  /** The `isSet`/`operator[]` interface of a scalar reader, as the views use
      it. Rows outside the reader are undefined behaviour in the source; the
      model answers "null" and 0 there. */
  function ScalarOps(): ReaderOps<Reader, int> {
    ReaderOps(
      (r: Reader, i: nat) => r.ScalarReader? && i < |r.decoded.rows| && !r.decoded.rows[i].isNull,
      (r: Reader, i: nat) =>
        if r.ScalarReader? && i < |r.decoded.rows| && r.decoded.rows[i].index < |r.base|
        then r.base[r.decoded.rows[i].index] else 0)
  }

  /** On a well-formed scalar reader the view interface agrees with `isSet` and
      `operator[]`. */
  lemma ScalarOpsAgree(r: Reader, i: nat)
    requires r.ScalarReader? && Valid(r) && InDomain(r, i)
    ensures ScalarOps().isSet(r, i) == IsSet(r, i)
    ensures ScalarOps().read(r, i) == Read(r, i).v
  {
  }

  /** An accessor over a scalar reader is true exactly when the row is set,
      and its optional holds what `operator[]` reads there. */
  lemma ScalarAccessorReadsReader(r: Reader, i: nat)
    requires r.ScalarReader? && Valid(r) && InDomain(r, i)
    ensures AsBool(ScalarOps(), OptionalAccessor(Some(r), i)) <==> IsSet(r, i)
    ensures ToOptional(ScalarOps(), OptionalAccessor(Some(r), i))
      == if IsSet(r, i) then Some(Read(r, i).v) else None
  {
    ScalarOpsAgree(r, i);
  }

  // ---------------------------------------------------------------------
  // The null-presence cache
  // ---------------------------------------------------------------------

  /** The `std::optional<bool>` flags of the array and map readers, in a tree
      that mirrors the reader tree. */
  datatype NullCache =
    | NoCache                                  // scalar and generic readers keep no flag
    | ArrayCache(valuesMayHaveNulls: Option<bool>, elementsCache: NullCache)
    | MapCache(keysMayHaveNulls: Option<bool>, valuesMayHaveNulls: Option<bool>, keysCache: NullCache, valuesCache: NullCache)
    | ChildrenCache(children: seq<NullCache>)  // struct fields, variadic arguments

  /** The cache tree has the reader tree's shape. */
  predicate Fits(r: Reader, c: NullCache)
    decreases r
  {
    match r
    case ScalarReader(_, _) => c.NoCache?
    case ArrayReader(_, _, _, elements) => c.ArrayCache? && Fits(elements, c.elementsCache)
    case MapReader(_, _, _, keys, values) => c.MapCache? && Fits(keys, c.keysCache) && Fits(values, c.valuesCache)
    case RowReader(_, fields) =>
      c.ChildrenCache? && |c.children| == |fields| && forall k :: 0 <= k < |fields| ==> Fits(fields[k], c.children[k])
    case VariadicReader(args) =>
      c.ChildrenCache? && |c.children| == |args| && forall k :: 0 <= k < |args| ==> Fits(args[k], c.children[k])
    case GenericReader(_) => c.NoCache?
  }

  /** The state right after construction: every flag unknown. */
  function Build(r: Reader): (c: NullCache)
    ensures Fits(r, c)
    ensures r.ArrayReader? || r.MapReader? ==> !FlagsSet(r, c)
    decreases r
  {
    match r
    case ScalarReader(_, _) => NoCache
    case ArrayReader(_, _, _, elements) => ArrayCache(None, Build(elements))
    case MapReader(_, _, _, keys, values) => MapCache(None, None, Build(keys), Build(values))
    case RowReader(_, fields) => ChildrenCache(seq(|fields|, k requires 0 <= k < |fields| => Build(fields[k])))
    case VariadicReader(args) => ChildrenCache(seq(|args|, k requires 0 <= k < |args| => Build(args[k])))
    case GenericReader(_) => NoCache
  }

  /** The DCHECKs of `mayHaveNullsRecursive()`: the reader's own flags are known
      (for a variadic reader: every argument's). */
  predicate FlagsSet(r: Reader, c: NullCache)
    requires Fits(r, c)
    decreases r
  {
    match r
    case ArrayReader(_, _, _, _) => c.valuesMayHaveNulls.Some?
    case MapReader(_, _, _, _, _) => c.keysMayHaveNulls.Some? && c.valuesMayHaveNulls.Some?
    case VariadicReader(args) => forall k :: 0 <= k < |args| ==> FlagsSet(args[k], c.children[k])
    case _ => true
  }

  /** The DCHECKs every `containsNull` below this reader may reach: all flags
      in the subtree are known. */
  predicate CachesSet(r: Reader, c: NullCache)
    requires Fits(r, c)
    decreases r
  {
    && FlagsSet(r, c)
    && match r
       case ArrayReader(_, _, _, elements) => CachesSet(elements, c.elementsCache)
       case MapReader(_, _, _, keys, values) => CachesSet(keys, c.keysCache) && CachesSet(values, c.valuesCache)
       case RowReader(_, fields) => forall k :: 0 <= k < |fields| ==> CachesSet(fields[k], c.children[k])
       case VariadicReader(args) => forall k :: 0 <= k < |args| ==> CachesSet(args[k], c.children[k])
       case _ => true
  }

  const kGenericNullFree := "Calling callNullFree with Generic arguments is not yet supported."

  /** Asks a sequence of readers in order, as the short-circuiting loops and
      fold expressions do: the first error or the first `true` ends the scan. */
  function OrderedAny(rs: seq<Result<bool>>): (r: Result<bool>)
    ensures r == Success(false) <==> forall k :: 0 <= k < |rs| ==> rs[k] == Success(false)
    ensures r == Success(true) ==> exists k :: 0 <= k < |rs| && rs[k] == Success(true)
    ensures (forall k :: 0 <= k < |rs| ==> rs[k].Success?) ==> r.Success?
    ensures r.Failure? ==> exists k :: 0 <= k < |rs| && rs[k].Failure?
  {
    if |rs| == 0 then Success(false)
    else match rs[0]
      case Failure(e) => Failure(e)
      case Success(true) => Success(true)
      case Success(false) =>
        var rest := OrderedAny(rs[1..]);
        assert forall k :: 1 <= k < |rs| ==> rs[k] == rs[1..][k - 1];
        rest
  }

  /** A scan whose every answer is known finds `true` as soon as one answer is `true`. */
  lemma OrderedAnyFinds(rs: seq<Result<bool>>, k: nat)
    requires forall j :: 0 <= j < |rs| ==> rs[j].Success?
    requires k < |rs| && rs[k] == Success(true)
    ensures OrderedAny(rs) == Success(true)
  {
    assert !(forall j :: 0 <= j < |rs| ==> rs[j] == Success(false)) by {
      assert rs[k] != Success(false);
    }
    var r := OrderedAny(rs);
    assert r == Success(r.value);
    assert r.value;
  }

  /** The first error of a sequence of results, or all of their values. */
  function Collect<T>(rs: seq<Result<T>>): (r: Result<seq<T>>)
    ensures r.Success? <==> forall k :: 0 <= k < |rs| ==> rs[k].Success?
    ensures r.Success? ==> |r.value| == |rs| && forall k :: 0 <= k < |rs| ==> r.value[k] == rs[k].value
  {
    if |rs| == 0 then Success([])
    else match rs[0]
      case Failure(e) => Failure(e)
      case Success(v) =>
        match Collect(rs[1..])
        case Failure(e) =>
          assert exists k :: 1 <= k < |rs| && !rs[k].Success? by {
            var k' :| 0 <= k' < |rs[1..]| && !rs[1..][k'].Success?;
            assert rs[k' + 1] == rs[1..][k'];
          }
          Failure(e)
        case Success(vs) => Success([v] + vs)
  }

  /** `mayHaveNullsRecursive()`. Arrays and maps answer from their cached
      flags, a struct from its decoder, a variadic reader from its arguments. */
  function MayHaveNullsRecursive(r: Reader, c: NullCache): Result<bool>
    requires Fits(r, c) && FlagsSet(r, c)
    decreases r
  {
    match r
    case ScalarReader(d, _) => Success(d.mayHaveNulls)
    case ArrayReader(d, _, _, _) => Success(d.mayHaveNulls || c.valuesMayHaveNulls.value)
    case MapReader(d, _, _, _, _) =>
      Success(d.mayHaveNulls || c.keysMayHaveNulls.value || c.valuesMayHaveNulls.value)
    case RowReader(d, _) => Success(d.mayHaveNullsRecursive)
    case VariadicReader(args) =>
      OrderedAny(seq(|args|, k requires 0 <= k < |args| => MayHaveNullsRecursive(args[k], c.children[k])))
    case GenericReader(_) => Failure(Unsupported(kGenericNullFree))
  }

  /** The flags hold exactly what `setChildrenMayHaveNulls()` stores: each
      cached flag is its child's `mayHaveNullsRecursive()`. */
  predicate Finalized(r: Reader, c: NullCache)
    decreases r
  {
    && Fits(r, c)
    && CachesSet(r, c)
    && match r
       case ArrayReader(_, _, _, elements) =>
         && Finalized(elements, c.elementsCache)
         && MayHaveNullsRecursive(elements, c.elementsCache) == Success(c.valuesMayHaveNulls.value)
       case MapReader(_, _, _, keys, values) =>
         && Finalized(keys, c.keysCache) && Finalized(values, c.valuesCache)
         && MayHaveNullsRecursive(keys, c.keysCache) == Success(c.keysMayHaveNulls.value)
         && MayHaveNullsRecursive(values, c.valuesCache) == Success(c.valuesMayHaveNulls.value)
       case RowReader(_, fields) => forall k :: 0 <= k < |fields| ==> Finalized(fields[k], c.children[k])
       case VariadicReader(args) => forall k :: 0 <= k < |args| ==> Finalized(args[k], c.children[k])
       case GenericReader(_) => false
       case ScalarReader(_, _) => true
  }

  /** `setChildrenMayHaveNulls()`: finalise the children first, then cache
      their answers. It ignores whatever the flags held before. A generic
      reader anywhere below raises Unsupported. */
  function SetChildrenMayHaveNulls(r: Reader): (res: Result<NullCache>)
    ensures res.Success? ==> Finalized(r, res.value)
    decreases r
  {
    match r
    case ScalarReader(_, _) => Success(NoCache)
    case ArrayReader(_, _, _, elements) =>
      var ec :- SetChildrenMayHaveNulls(elements);
      var flag :- MayHaveNullsRecursive(elements, ec);
      Success(ArrayCache(Some(flag), ec))
    case MapReader(_, _, _, keys, values) =>
      var kc :- SetChildrenMayHaveNulls(keys);
      var vc :- SetChildrenMayHaveNulls(values);
      var kflag :- MayHaveNullsRecursive(keys, kc);
      var vflag :- MayHaveNullsRecursive(values, vc);
      Success(MapCache(Some(kflag), Some(vflag), kc, vc))
    case RowReader(_, fields) =>
      var cs :- Collect(seq(|fields|, k requires 0 <= k < |fields| => SetChildrenMayHaveNulls(fields[k])));
      Success(ChildrenCache(cs))
    case VariadicReader(args) =>
      var cs :- Collect(seq(|args|, k requires 0 <= k < |args| => SetChildrenMayHaveNulls(args[k])));
      Success(ChildrenCache(cs))
    case GenericReader(_) => Failure(Unsupported(kGenericNullFree))
  }

  /** `containsNull(row)`: the row is null, or a flagged child holds a null in
      the row's window (arrays, maps), or some field holds one at the physical
      row (structs), or some argument holds one at the row (variadic). */
  function ContainsNull(r: Reader, c: NullCache, row: nat): Result<bool>
    requires Valid(r) && Fits(r, c) && CachesSet(r, c) && InDomain(r, row)
    decreases r, 0
  {
    match r
    case ScalarReader(d, _) => Success(IsNullAt(d, row))
    case ArrayReader(d, offsets, lengths, elements) =>
      var b := DecodedIndex(d, row);
      if IsNullAt(d, row) then Success(true)
      else if !c.valuesMayHaveNulls.value then Success(false)
      else ContainsNullRange(elements, c.elementsCache, offsets[b], offsets[b] + lengths[b])
    case MapReader(d, offsets, lengths, keys, values) =>
      var b := DecodedIndex(d, row);
      if IsNullAt(d, row) then Success(true)
      else OrderedAny([
        if c.keysMayHaveNulls.value then ContainsNullRange(keys, c.keysCache, offsets[b], offsets[b] + lengths[b])
        else Success(false),
        if c.valuesMayHaveNulls.value then ContainsNullRange(values, c.valuesCache, offsets[b], offsets[b] + lengths[b])
        else Success(false)])
    case RowReader(d, fields) =>
      if IsNullAt(d, row) then Success(true)
      else OrderedAny(seq(|fields|, k requires 0 <= k < |fields| =>
        ContainsNull(fields[k], c.children[k], DecodedIndex(d, row))))
    case VariadicReader(args) =>
      OrderedAny(seq(|args|, k requires 0 <= k < |args| => ContainsNull(args[k], c.children[k], row)))
    case GenericReader(_) => Failure(Unsupported(kGenericNullFree))
  }

  /** `containsNull(startIndex, endIndex)`: the rows of `[start, end)` in order
      (for a variadic reader: each argument over the whole range, in order). */
  function ContainsNullRange(r: Reader, c: NullCache, start: nat, end: nat): Result<bool>
    requires Valid(r) && Fits(r, c) && CachesSet(r, c) && RangeInDomain(r, start, end)
    decreases r, 2
  {
    match r
    case VariadicReader(args) => OrderedAny(ArgumentScan(r, c, start, end))
    case GenericReader(_) => Failure(Unsupported(kGenericNullFree))
    case _ => if start >= end then Success(false) else OrderedAny(RowScan(r, c, start, end))
  }

  /** The answers of `containsNull(row)` for the rows of `[start, end)`, in order. */
  function RowScan(r: Reader, c: NullCache, start: nat, end: nat): seq<Result<bool>>
    requires Valid(r) && Fits(r, c) && CachesSet(r, c) && RangeInDomain(r, start, end)
    requires !r.VariadicReader? && start < end
    decreases r, 1
  {
    seq(end - start, i requires 0 <= i < end - start => ContainsNull(r, c, start + i))
  }

  /** The answers of each argument's `containsNull(start, end)`, in argument order. */
  function ArgumentScan(r: Reader, c: NullCache, start: nat, end: nat): seq<Result<bool>>
    requires Valid(r) && Fits(r, c) && CachesSet(r, c) && RangeInDomain(r, start, end)
    requires r.VariadicReader?
    decreases r, 1
  {
    seq(|r.args|, k requires 0 <= k < |r.args| => ContainsNullRange(r.args[k], c.children[k], start, end))
  }

  // ---------------------------------------------------------------------
  // Properties of the protocol
  // ---------------------------------------------------------------------

  /** Finalisation fails exactly when a generic reader sits somewhere in the tree. */
  lemma {:induction false} SetChildrenFailsIffGeneric(r: Reader)
    ensures SetChildrenMayHaveNulls(r).Failure? <==> !GenericFree(r)
    decreases r
  {
    match r
    case ScalarReader(_, _) =>
    case ArrayReader(_, _, _, elements) =>
      SetChildrenFailsIffGeneric(elements);
      if GenericFree(elements) {
        MayHaveNullsSucceeds(elements, SetChildrenMayHaveNulls(elements).value);
      }
    case MapReader(_, _, _, keys, values) =>
      SetChildrenFailsIffGeneric(keys);
      SetChildrenFailsIffGeneric(values);
      if GenericFree(keys) && GenericFree(values) {
        MayHaveNullsSucceeds(keys, SetChildrenMayHaveNulls(keys).value);
        MayHaveNullsSucceeds(values, SetChildrenMayHaveNulls(values).value);
      }
    case RowReader(_, fields) =>
      forall k | 0 <= k < |fields| {
        SetChildrenFailsIffGeneric(fields[k]);
      }
    case VariadicReader(args) =>
      forall k | 0 <= k < |args| {
        SetChildrenFailsIffGeneric(args[k]);
      }
    case GenericReader(_) =>
  }

  /** Without generic readers, `mayHaveNullsRecursive()` never raises. */
  lemma {:induction false} MayHaveNullsSucceeds(r: Reader, c: NullCache)
    requires Fits(r, c) && FlagsSet(r, c) && GenericFree(r)
    ensures MayHaveNullsRecursive(r, c).Success?
    decreases r
  {
    match r
    case VariadicReader(args) =>
      forall k | 0 <= k < |args| {
        MayHaveNullsSucceeds(args[k], c.children[k]);
      }
    case _ =>
  }

  /** Running `setChildrenMayHaveNulls()` again changes nothing: a cache is a
      fixed point of finalisation exactly when it is finalised, so the second
      call stores the very flags the first one did. */
  lemma {:induction false} FinalizedIsFixedPoint(r: Reader, c: NullCache)
    requires Finalized(r, c)
    ensures SetChildrenMayHaveNulls(r) == Success(c)
    decreases r
  {
    match r
    case ScalarReader(_, _) =>
    case ArrayReader(_, _, _, elements) =>
      FinalizedIsFixedPoint(elements, c.elementsCache);
    case MapReader(_, _, _, keys, values) =>
      FinalizedIsFixedPoint(keys, c.keysCache);
      FinalizedIsFixedPoint(values, c.valuesCache);
    case RowReader(_, fields) =>
      var rs := seq(|fields|, k requires 0 <= k < |fields| => SetChildrenMayHaveNulls(fields[k]));
      forall k | 0 <= k < |fields| {
        FinalizedIsFixedPoint(fields[k], c.children[k]);
      }
      assert Collect(rs).value == c.children;
    case VariadicReader(args) =>
      var rs := seq(|args|, k requires 0 <= k < |args| => SetChildrenMayHaveNulls(args[k]));
      forall k | 0 <= k < |args| {
        FinalizedIsFixedPoint(args[k], c.children[k]);
      }
      assert Collect(rs).value == c.children;
    case GenericReader(_) =>
  }

  /** Idempotence: the finalised flags are unique. A cache is what
      `setChildrenMayHaveNulls()` stores exactly when it is finalised, so a
      second call, whatever the flags held after the first, stores the same
      flags again, and two finalised caches of one reader are equal. */
  lemma {:induction false} SetChildrenIdempotent(r: Reader)
    ensures forall c :: Finalized(r, c) <==> SetChildrenMayHaveNulls(r) == Success(c)
    ensures forall c1, c2 :: Finalized(r, c1) && Finalized(r, c2) ==> c1 == c2
  {
    forall c | Finalized(r, c)
      ensures SetChildrenMayHaveNulls(r) == Success(c)
    {
      FinalizedIsFixedPoint(r, c);
    }
  }

  /** The fast-path flag never hides a null: once finalised, a reader whose
      `mayHaveNullsRecursive()` is false holds no null at any row. */
  lemma {:induction false} MayHaveNullsIsSound(r: Reader, c: NullCache)
    requires Valid(r) && Sound(r) && Finalized(r, c)
    requires MayHaveNullsRecursive(r, c) == Success(false)
    ensures forall j :: InDomain(r, j) ==> !BruteNull(r, j)
    decreases r
  {
    match r
    case ScalarReader(_, _) =>
    case ArrayReader(d, offsets, lengths, elements) =>
      MayHaveNullsIsSound(elements, c.elementsCache);
      forall j | InDomain(r, j)
        ensures !BruteNull(r, j)
      {
        var b := DecodedIndex(d, j);
        assert !NullInRange(elements, offsets[b], offsets[b] + lengths[b]);
      }
    case MapReader(d, offsets, lengths, keys, values) =>
      MayHaveNullsIsSound(keys, c.keysCache);
      MayHaveNullsIsSound(values, c.valuesCache);
      forall j | InDomain(r, j)
        ensures !BruteNull(r, j)
      {
        var b := DecodedIndex(d, j);
        assert !NullInRange(keys, offsets[b], offsets[b] + lengths[b]);
        assert !NullInRange(values, offsets[b], offsets[b] + lengths[b]);
      }
    case RowReader(_, _) =>
    case VariadicReader(args) =>
      var rs := seq(|args|, k requires 0 <= k < |args| => MayHaveNullsRecursive(args[k], c.children[k]));
      forall k | 0 <= k < |args|
        ensures forall j :: InDomain(args[k], j) ==> !BruteNull(args[k], j)
      {
        assert rs[k] == Success(false);
        MayHaveNullsIsSound(args[k], c.children[k]);
      }
    case GenericReader(_) =>
  }

  /** The array case: a non-null row contains a null exactly when its window
      of elements does; a clear cached flag stands for "no element is null". */
  lemma {:induction false} ArrayRowIsBruteForce(r: Reader, c: NullCache, row: nat)
    requires Valid(r) && Sound(r) && Finalized(r, c) && InDomain(r, row) && r.ArrayReader?
    ensures ContainsNull(r, c, row) == Success(BruteNull(r, row))
    decreases r, 0
  {
    var ArrayReader(d, offsets, lengths, elements) := r;
    var b := DecodedIndex(d, row);
    if !IsNullAt(d, row) {
      if c.valuesMayHaveNulls.value {
        ContainsNullRangeIsBruteForce(elements, c.elementsCache, offsets[b], offsets[b] + lengths[b]);
      } else {
        MayHaveNullsIsSound(elements, c.elementsCache);
        assert !NullInRange(elements, offsets[b], offsets[b] + lengths[b]);
      }
    }
  }

  /** The map case: keys first, then values, each consulted only when its
      cached flag is set. */
  lemma {:induction false} MapRowIsBruteForce(r: Reader, c: NullCache, row: nat)
    requires Valid(r) && Sound(r) && Finalized(r, c) && InDomain(r, row) && r.MapReader?
    ensures ContainsNull(r, c, row) == Success(BruteNull(r, row))
    decreases r, 0
  {
    var MapReader(d, offsets, lengths, keys, values) := r;
    var b := DecodedIndex(d, row);
    if !IsNullAt(d, row) {
      var keyScan :=
        if c.keysMayHaveNulls.value then ContainsNullRange(keys, c.keysCache, offsets[b], offsets[b] + lengths[b])
        else Success(false);
      var valueScan :=
        if c.valuesMayHaveNulls.value then ContainsNullRange(values, c.valuesCache, offsets[b], offsets[b] + lengths[b])
        else Success(false);
      if c.keysMayHaveNulls.value {
        ContainsNullRangeIsBruteForce(keys, c.keysCache, offsets[b], offsets[b] + lengths[b]);
      } else {
        MayHaveNullsIsSound(keys, c.keysCache);
        assert !NullInRange(keys, offsets[b], offsets[b] + lengths[b]);
      }
      if c.valuesMayHaveNulls.value {
        ContainsNullRangeIsBruteForce(values, c.valuesCache, offsets[b], offsets[b] + lengths[b]);
      } else {
        MayHaveNullsIsSound(values, c.valuesCache);
        assert !NullInRange(values, offsets[b], offsets[b] + lengths[b]);
      }
      assert keyScan == Success(NullInRange(keys, offsets[b], offsets[b] + lengths[b]));
      assert valueScan == Success(NullInRange(values, offsets[b], offsets[b] + lengths[b]));
      assert ContainsNull(r, c, row) == OrderedAny([keyScan, valueScan]);
    }
  }

  /** The struct case: a non-null row holds a null exactly when some field
      holds one at the row's physical index. */
  lemma {:induction false} StructRowIsBruteForce(r: Reader, c: NullCache, row: nat)
    requires Valid(r) && Sound(r) && Finalized(r, c) && InDomain(r, row) && r.RowReader?
    ensures ContainsNull(r, c, row) == Success(BruteNull(r, row))
    decreases r, 0
  {
    var d, fields := r.decoded, r.fields;
    if !IsNullAt(d, row) {
      var rs := seq(|fields|, k requires 0 <= k < |fields| =>
        ContainsNull(fields[k], c.children[k], DecodedIndex(d, row)));
      assert ContainsNull(r, c, row) == OrderedAny(rs);
      forall k | 0 <= k < |fields|
        ensures rs[k] == Success(BruteNull(fields[k], DecodedIndex(d, row)))
      {
        ContainsNullIsBruteForce(fields[k], c.children[k], DecodedIndex(d, row));
      }
      if exists k :: 0 <= k < |fields| && BruteNull(fields[k], DecodedIndex(d, row)) {
        var k :| 0 <= k < |fields| && BruteNull(fields[k], DecodedIndex(d, row));
        OrderedAnyFinds(rs, k);
      }
    }
  }

  /** The variadic case: the row holds a null exactly when some argument
      holds one at the same row. */
  lemma {:induction false} VariadicRowIsBruteForce(r: Reader, c: NullCache, row: nat)
    requires Valid(r) && Sound(r) && Finalized(r, c) && InDomain(r, row) && r.VariadicReader?
    ensures ContainsNull(r, c, row) == Success(BruteNull(r, row))
    decreases r, 0
  {
    var args := r.args;
    var rs := seq(|args|, k requires 0 <= k < |args| => ContainsNull(args[k], c.children[k], row));
    assert ContainsNull(r, c, row) == OrderedAny(rs);
    forall k | 0 <= k < |args|
      ensures rs[k] == Success(BruteNull(args[k], row))
    {
      ContainsNullIsBruteForce(args[k], c.children[k], row);
    }
    if exists k :: 0 <= k < |args| && BruteNull(args[k], row) {
      var k :| 0 <= k < |args| && BruteNull(args[k], row);
      OrderedAnyFinds(rs, k);
    }
  }

  /** The cached fast path agrees with the brute-force scan: after
      finalisation, `containsNull(row)` is exactly "something reachable from
      the row is null". */
  lemma {:induction false} ContainsNullIsBruteForce(r: Reader, c: NullCache, row: nat)
    requires Valid(r) && Sound(r) && Finalized(r, c) && InDomain(r, row)
    ensures ContainsNull(r, c, row) == Success(BruteNull(r, row))
    decreases r, 1
  {
    match r
    case ScalarReader(_, _) =>
    case ArrayReader(_, _, _, _) => ArrayRowIsBruteForce(r, c, row);
    case MapReader(_, _, _, _, _) => MapRowIsBruteForce(r, c, row);
    case RowReader(_, _) => StructRowIsBruteForce(r, c, row);
    case VariadicReader(_) => VariadicRowIsBruteForce(r, c, row);
    case GenericReader(_) =>
  }

  /** The row-by-row scan of a non-variadic reader finds a null exactly
      when some row of the range holds one. */
  lemma {:induction false} RowScanIsBruteForce(r: Reader, c: NullCache, start: nat, end: nat)
    requires Valid(r) && Sound(r) && Finalized(r, c) && RangeInDomain(r, start, end)
    requires !r.VariadicReader? && start < end
    ensures OrderedAny(RowScan(r, c, start, end)) == Success(NullInRange(r, start, end))
    decreases r, 2
  {
    var rs := RowScan(r, c, start, end);
    forall i | 0 <= i < end - start
      ensures rs[i] == Success(BruteNull(r, start + i))
    {
      ContainsNullIsBruteForce(r, c, start + i);
    }
    assert NullInRange(r, start, end) <==> exists i: nat :: start <= i < end && BruteNull(r, i);
    if NullInRange(r, start, end) {
      var i: nat :| start <= i < end && BruteNull(r, i);
      OrderedAnyFinds(rs, i - start);
    } else {
      forall i | 0 <= i < end - start
        ensures rs[i] == Success(false)
      {
        assert !BruteNull(r, start + i);
      }
    }
  }

  /** The variadic range case: each argument's range answer, in argument
      order, finds a null exactly when some argument holds one in the range. */
  lemma {:induction false} ArgumentScanIsBruteForce(r: Reader, c: NullCache, start: nat, end: nat)
    requires Valid(r) && Sound(r) && Finalized(r, c) && RangeInDomain(r, start, end) && r.VariadicReader?
    ensures OrderedAny(ArgumentScan(r, c, start, end)) == Success(NullInRange(r, start, end))
    decreases r, 0
  {
    var args := r.args;
    var rs := ArgumentScan(r, c, start, end);
    forall k | 0 <= k < |args|
      ensures rs[k] == Success(NullInRange(args[k], start, end))
    {
      ContainsNullRangeIsBruteForce(args[k], c.children[k], start, end);
    }
    assert NullInRange(r, start, end) <==> exists i: nat :: start <= i < end && BruteNull(r, i);
    if NullInRange(r, start, end) {
      var i: nat :| start <= i < end && BruteNull(r, i);
      var k :| 0 <= k < |args| && BruteNull(args[k], i);
      assert NullInRange(args[k], start, end);
      OrderedAnyFinds(rs, k);
    } else {
      forall k | 0 <= k < |args|
        ensures rs[k] == Success(false)
      {
        forall i: nat | start <= i < end
          ensures !BruteNull(args[k], i)
        {
          assert !BruteNull(r, i);
        }
        assert NullInRange(args[k], start, end) <==> exists i: nat :: start <= i < end && BruteNull(args[k], i);
      }
    }
  }

  /** The range form is "some row of `[start, end)` contains a null"; an empty
      range gives false. */
  lemma {:induction false} ContainsNullRangeIsBruteForce(r: Reader, c: NullCache, start: nat, end: nat)
    requires Valid(r) && Sound(r) && Finalized(r, c) && RangeInDomain(r, start, end)
    ensures ContainsNullRange(r, c, start, end) == Success(NullInRange(r, start, end))
    decreases r, 3
  {
    if r.VariadicReader? {
      ArgumentScanIsBruteForce(r, c, start, end);
    } else if start < end {
      RowScanIsBruteForce(r, c, start, end);
    }
  }

  /** End to end: build, finalise, then query. Without generic readers the
      finalisation succeeds and every row's answer is the brute-force one. */
  lemma FinalisedQueriesAreExact(r: Reader, row: nat)
    requires Valid(r) && Sound(r) && GenericFree(r) && InDomain(r, row)
    ensures SetChildrenMayHaveNulls(r).Success?
    ensures ContainsNull(r, SetChildrenMayHaveNulls(r).value, row) == Success(BruteNull(r, row))
  {
    SetChildrenFailsIffGeneric(r);
    ContainsNullIsBruteForce(r, SetChildrenMayHaveNulls(r).value, row);
  }

  /** A null row always contains a null; for a scalar reader `containsNull`
      is exactly "not set". */
  lemma NullRowContainsNull(r: Reader, c: NullCache, row: nat)
    requires Valid(r) && Fits(r, c) && CachesSet(r, c) && InDomain(r, row)
    requires !r.VariadicReader? && !r.GenericReader?
    ensures !IsSet(r, row) ==> ContainsNull(r, c, row) == Success(true)
    ensures r.ScalarReader? ==> ContainsNull(r, c, row) == Success(!IsSet(r, row))
  {
  }

  /** The generic reader refuses the whole null protocol. */
  lemma GenericIsUnsupported(d: Decoded, c: NullCache, row: nat, start: nat, end: nat)
    requires row < |d.rows| && c.NoCache? && RangeInDomain(GenericReader(d), start, end)
    ensures SetChildrenMayHaveNulls(GenericReader(d)).Failure?
    ensures MayHaveNullsRecursive(GenericReader(d), c).Failure?
    ensures ContainsNull(GenericReader(d), c, row).Failure?
    ensures ContainsNullRange(GenericReader(d), c, start, end).Failure?
  {
  }
}
