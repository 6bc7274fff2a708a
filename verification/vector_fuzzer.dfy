/** The deterministic skeleton of the vector fuzzer: container layout,
    map-key normalisation, dictionary indices, random characters and the
    random type generator.

    The random engine is an oracle: `Rng(next, pos)` answers draw number
    `pos` with `next(pos)`, and every draw reduces that answer to the range of
    the requested type, so every property below holds for every sequence of
    random choices. A key's hash is an arbitrary function of the key.
 */
module VectorFuzzer {
  import opened Common

  // ---------------------------------------------------------------------
  // The random source
  // ---------------------------------------------------------------------

  datatype Rng = Rng(next: nat -> nat, pos: nat)

  const TwoTo31: nat := 0x8000_0000
  const TwoTo32: nat := 0x1_0000_0000

  /** `rand<uint32_t>`: the full range `[0, 2^32)`. */
  function DrawU32(g: Rng): (r: (nat, Rng))
    ensures r.0 < TwoTo32
    ensures r.1.next == g.next && r.1.pos == g.pos + 1
  {
    (g.next(g.pos) % TwoTo32, g.(pos := g.pos + 1))
  }

  /** `rand<int32_t>`: a default-constructed integer distribution spans
      `[0, INT32_MAX]`, so the draw is never negative. */
  function DrawI32(g: Rng): (r: (nat, Rng))
    ensures r.0 < TwoTo31
    ensures r.1.next == g.next && r.1.pos == g.pos + 1
  {
    (g.next(g.pos) % TwoTo31, g.(pos := g.pos + 1))
  }

  /** `rand<bool>`: a draw from `{0, 1}`. */
  function DrawBool(g: Rng): (r: (bool, Rng))
    ensures r.1.next == g.next && r.1.pos == g.pos + 1
  {
    (g.next(g.pos) % 2 == 1, g.(pos := g.pos + 1))
  }

  // ---------------------------------------------------------------------
  // getElementsVectorLength
  // ---------------------------------------------------------------------

  /** The container options that size the child vectors. */
  datatype ContainerOptions = ContainerOptions(variableLength: bool, containerLength: nat, complexElementsMaxSize: nat)

  /** The number of child elements for `size` containers: the requested
      total, capped at the maximum, and an error when a fixed length cannot
      be honoured under the cap. */
  function ElementsVectorLength(opts: ContainerOptions, size: nat): (r: Result<nat>)
    ensures r.Failure? <==> !opts.variableLength && size * opts.containerLength > opts.complexElementsMaxSize
    ensures r.Failure? ==> r.error.UserError?
    ensures r.Success? ==> r.value <= opts.complexElementsMaxSize && r.value <= size * opts.containerLength
    ensures r.Success? ==> r.value == size * opts.containerLength || r.value == opts.complexElementsMaxSize
  {
    var wanted := size * opts.containerLength;
    if !opts.variableLength && wanted > opts.complexElementsMaxSize then
      Result<nat>.Failure(UserError("Requested fixed opts.containerVariableLength can't be satisfied: "
        + "increase opts.complexElementsMaxSize, reduce opts.containerLength"
        + " or make opts.containerVariableLength=true"))
    else if wanted <= opts.complexElementsMaxSize then Success(wanted)
    else Success(opts.complexElementsMaxSize)
  }

  // ---------------------------------------------------------------------
  // fuzzOffsetsAndSizes
  // ---------------------------------------------------------------------

  /** `max(elementsSize / size, 1)` */
  function AverageLength(elementsSize: nat, size: nat): (avg: nat)
    requires size > 0
    ensures avg >= 1 && (elementsSize >= size ==> avg * size <= elementsSize)
  {
    if elementsSize / size >= 1 then elementsSize / size else 1
  }

  /** A container layout over a child of `elementsSize` elements: each
      container starts where the previous one ended, the first at 0, and
      none reaches past the child. */
  ghost predicate Layout(offsets: seq<nat>, sizes: seq<nat>, elementsSize: nat) {
    && |offsets| == |sizes|
    && (|offsets| > 0 ==> offsets[0] == 0)
    && (forall i :: 0 <= i < |offsets| - 1 ==> offsets[i + 1] == offsets[i] + sizes[i])
    && (forall i :: 0 <= i < |offsets| ==> offsets[i] + sizes[i] <= elementsSize)
  }

  /** `fuzzOffsetsAndSizes`: each container draws a length (variable mode:
      below twice the average; fixed mode: the average) and gets it if it
      still fits, otherwise it is empty. */
  method FuzzOffsetsAndSizes(g: Rng, elementsSize: nat, size: nat, variableLength: bool)
    returns (offsets: seq<nat>, sizes: seq<nat>, g': Rng)
    requires size > 0
    ensures |offsets| == size && Layout(offsets, sizes, elementsSize)
    ensures forall i :: 0 <= i < size ==> sizes[i] < 2 * AverageLength(elementsSize, size)
    ensures !variableLength ==> forall i :: 0 <= i < size ==>
      (sizes[i] == AverageLength(elementsSize, size) <==> offsets[i] + AverageLength(elementsSize, size) <= elementsSize)
    ensures !variableLength ==> forall i :: 0 <= i < size ==> sizes[i] == 0 || sizes[i] == AverageLength(elementsSize, size)
    ensures g'.next == g.next && g'.pos == g.pos + (if variableLength then size else 0)
  {
    var avg := AverageLength(elementsSize, size);
    var childSize := 0;
    offsets, sizes, g' := [], [], g;
    var i := 0;
    while i < size
      invariant 0 <= i <= size && |offsets| == i
      invariant Layout(offsets, sizes, elementsSize)
      invariant childSize <= elementsSize
      invariant i > 0 ==> childSize == offsets[i - 1] + sizes[i - 1]
      invariant i == 0 ==> childSize == 0
      invariant forall k :: 0 <= k < i ==> sizes[k] < 2 * avg
      invariant !variableLength ==> forall k :: 0 <= k < i ==>
        (sizes[k] == avg <==> offsets[k] + avg <= elementsSize)
      invariant !variableLength ==> forall k :: 0 <= k < i ==> sizes[k] == 0 || sizes[k] == avg
      invariant g'.next == g.next && g'.pos == g.pos + (if variableLength then i else 0)
    {
      var length;
      if variableLength {
        var draw := DrawU32(g');
        g' := draw.1;
        length := draw.0 % (avg * 2);
      } else {
        length := avg;
      }
      if childSize + length > elementsSize {
        length := 0;
      }
      offsets := offsets + [childSize];
      sizes := sizes + [length];
      childSize := childSize + length;
      i := i + 1;
    }
  }

  /** The containers together use at most the whole child. */
  lemma {:induction false} LayoutFits(offsets: seq<nat>, sizes: seq<nat>, elementsSize: nat, n: nat)
    requires Layout(offsets, sizes, elementsSize) && n <= |offsets|
    ensures n > 0 ==> offsets[n - 1] + sizes[n - 1] == Sum(sizes[..n])
    ensures Sum(sizes[..n]) <= elementsSize
  {
    if n > 0 {
      LayoutFits(offsets, sizes, elementsSize, n - 1);
      assert sizes[..n] == sizes[..n - 1] + [sizes[n - 1]];
      SumAppend(sizes[..n - 1], sizes[n - 1]);
    }
  }

  function Sum(xs: seq<nat>): nat {
    if |xs| == 0 then 0 else Sum(xs[..|xs| - 1]) + xs[|xs| - 1]
  }

  lemma SumAppend(xs: seq<nat>, x: nat)
    ensures Sum(xs + [x]) == Sum(xs) + x
  {
    assert (xs + [x])[..|xs|] == xs;
  }

  // ---------------------------------------------------------------------
  // normalizeMapKeys
  // ---------------------------------------------------------------------

  /** No two positions of `hs` hold the same hash. */
  predicate DistinctHashes(hs: seq<nat>) {
    forall a, b :: 0 <= a < b < |hs| ==> hs[a] != hs[b]
  }

  /** `n` is where `normalizeMapKeys` cuts a map with key hashes `hs`: the
      first `n` hashes are distinct and, unless the whole map is kept, hash
      `n` repeats one of them. */
  predicate IsCut(hs: seq<nat>, n: nat) {
    n <= |hs| && DistinctHashes(hs[..n]) && (n < |hs| ==> hs[n] in hs[..n])
  }

  /** No longer prefix than a cut is free of repeated hashes. */
  lemma CutIsLongest(hs: seq<nat>, n: nat)
    requires IsCut(hs, n)
    ensures forall m :: n < m <= |hs| ==> !DistinctHashes(hs[..m])
  {
    if n < |hs| {
      var j :| 0 <= j < n && hs[..n][j] == hs[n];
      forall m | n < m <= |hs|
        ensures !DistinctHashes(hs[..m])
      {
        assert hs[..m][j] == hs[..m][n];
      }
    }
  }

  /** A map has exactly one cut. */
  lemma CutIsUnique(hs: seq<nat>, n: nat, m: nat)
    requires IsCut(hs, n) && IsCut(hs, m)
    ensures n == m
  {
    CutIsLongest(hs, n);
    CutIsLongest(hs, m);
  }

  /** Normalising a normalised map keeps it whole. */
  lemma CutIsIdempotent(hs: seq<nat>, n: nat)
    requires IsCut(hs, n)
    ensures IsCut(hs[..n], n)
    ensures forall m :: IsCut(hs[..n], m) ==> m == n
  {
    assert hs[..n][..n] == hs[..n];
    forall m | IsCut(hs[..n], m)
      ensures m == n
    {
      CutIsUnique(hs[..n], n, m);
    }
  }

  /** The inner loop of `normalizeMapKeys`: scan the hashes with a set of
      those seen so far and stop at the first repeat. */
  method DistinctPrefix(hs: seq<nat>) returns (n: nat)
    ensures IsCut(hs, n)
  {
    var seen: set<nat> := {};
    var j := 0;
    while j < |hs|
      invariant 0 <= j <= |hs|
      invariant seen == set k | 0 <= k < j :: hs[k]
      invariant DistinctHashes(hs[..j])
    {
      if hs[j] in seen {
        return j;
      }
      seen := seen + {hs[j]};
      j := j + 1;
    }
    return |hs|;
  }

  /** The keys of map `i`. */
  function Window<K>(keys: seq<K>, offset: nat, size: nat): seq<K>
    requires offset + size <= |keys|
  {
    keys[offset..offset + size]
  }

  function Hashes<K>(hash: K -> nat, ks: seq<K>): (hs: seq<nat>)
    ensures |hs| == |ks| && forall j :: 0 <= j < |ks| ==> hs[j] == hash(ks[j])
  {
    seq(|ks|, j requires 0 <= j < |ks| => hash(ks[j]))
  }

  /** `normalizeMapKeys`: a null key is an error; otherwise every map is cut
      at its first repeated key hash. Offsets are not touched. */
  method NormalizeMapKeys<K>(keys: seq<Option<K>>, hash: K -> nat, offsets: seq<nat>, sizes: seq<nat>)
    returns (r: Result<seq<nat>>)
    requires |offsets| == |sizes|
    requires forall i :: 0 <= i < |sizes| ==> offsets[i] + sizes[i] <= |keys|
    ensures r.Failure? <==> exists k :: 0 <= k < |keys| && keys[k].None?
    ensures r.Failure? ==> r.error.CheckFailed?
    ensures r.Success? ==> |r.value| == |sizes|
    ensures r.Success? ==> forall i :: 0 <= i < |sizes| ==>
      IsCut(Hashes(hash, KeyValues(keys)[offsets[i]..offsets[i] + sizes[i]]), r.value[i])
  {
    if exists k :: 0 <= k < |keys| && keys[k].None? {
      return Failure(CheckFailed("Map keys cannot be null when opt.normalizeMapKeys is true"));
    }
    var values := KeyValues(keys);
    var newSizes: seq<nat> := [];
    var i := 0;
    while i < |sizes|
      invariant 0 <= i <= |sizes| && |newSizes| == i
      invariant forall m :: 0 <= m < i ==> IsCut(Hashes(hash, values[offsets[m]..offsets[m] + sizes[m]]), newSizes[m])
    {
      var n := DistinctPrefix(Hashes(hash, values[offsets[i]..offsets[i] + sizes[i]]));
      newSizes := newSizes + [n];
      i := i + 1;
    }
    return Success(newSizes);
  }

  /** The key values of a column without nulls. */
  function KeyValues<K>(keys: seq<Option<K>>): (vs: seq<K>)
    requires forall k :: 0 <= k < |keys| ==> keys[k].Some?
    ensures |vs| == |keys| && forall k :: 0 <= k < |keys| ==> vs[k] == keys[k].value
  {
    seq(|keys|, k requires 0 <= k < |keys| => keys[k].value)
  }

  // ---------------------------------------------------------------------
  // fuzzIndices and fuzzDictionary
  // ---------------------------------------------------------------------

  /** `fuzzIndices`: `size` draws, each reduced modulo the base size. */
  method FuzzIndices(g: Rng, size: nat, baseVectorSize: nat) returns (indices: seq<nat>, g': Rng)
    requires size == 0 || baseVectorSize > 0
    ensures |indices| == size
    ensures forall i :: 0 <= i < size ==> indices[i] < baseVectorSize
    ensures forall i :: 0 <= i < size ==> indices[i] == g.next(g.pos + i) % TwoTo31 % baseVectorSize
    ensures g'.next == g.next && g'.pos == g.pos + size
  {
    indices, g' := [], g;
    var i := 0;
    while i < size
      invariant 0 <= i <= size && |indices| == i
      invariant forall k :: 0 <= k < i ==> indices[k] < baseVectorSize
      invariant forall k :: 0 <= k < i ==> indices[k] == g.next(g.pos + k) % TwoTo31 % baseVectorSize
      invariant g'.next == g.next && g'.pos == g.pos + i
    {
      var draw := DrawI32(g');
      g' := draw.1;
      indices := indices + [draw.0 % baseVectorSize];
      i := i + 1;
    }
  }

  /** The index buffer of `fuzzDictionary`: a non-empty dictionary over an
      empty base vector is refused. */
  method FuzzDictionaryIndices(g: Rng, vectorSize: nat, size: nat) returns (r: Result<seq<nat>>, g': Rng)
    ensures r.Failure? <==> vectorSize == 0 && size > 0
    ensures r.Failure? ==> r.error.CheckFailed?
    ensures r.Success? ==> |r.value| == size && forall i :: 0 <= i < size ==> r.value[i] < vectorSize
  {
    if !(vectorSize > 0 || size == 0) {
      return Failure(CheckFailed("Cannot build a non-empty dictionary on an empty underlying vector")), g;
    }
    var indices;
    indices, g' := FuzzIndices(g, size, vectorSize);
    return Success(indices), g';
  }

  // ---------------------------------------------------------------------
  // getRandomChar
  // ---------------------------------------------------------------------

  /** A half-open code-unit range `[first, second)`. */
  type CharRange = (nat, nat)

  predicate WellFormedCharSet(charSet: seq<CharRange>) {
    |charSet| > 0 && forall k :: 0 <= k < |charSet| ==> charSet[k].0 < charSet[k].1 <= 0x1_0000
  }

  /** The four character sets, indexed like the encoding enum: ASCII,
      case-sensitive Unicode, extended Unicode, mathematical symbols. */
  const UtfCharSets: seq<seq<CharRange>> := [
    [(33, 127)],
    [(0x20, 0x7F), (0x400, 0x4FF)],
    [(0x3F0, 0x3FF), (0x100, 0x17F), (0x600, 0x6FF), (0x900, 0x97F), (0x600, 0x6FF),
     (0x3040, 0x309F), (0x2000, 0x206F), (0x2070, 0x209F), (0x20A0, 0x20CF)],
    [(0x2200, 0x22FF), (0x2150, 0x218F), (0x25A0, 0x25FF), (0x27C0, 0x27EF), (0x2A00, 0x2AFF)]
  ]

  lemma UtfCharSetsWellFormed()
    ensures forall e :: 0 <= e < |UtfCharSets| ==> WellFormedCharSet(UtfCharSets[e])
  {
  }

  /** `getRandomChar`: pick a range (no draw when there is only one), then
      an offset below the range's width. */
  function GetRandomChar(g: Rng, charSet: seq<CharRange>): (r: (nat, Rng))
    requires WellFormedCharSet(charSet)
    ensures exists k :: 0 <= k < |charSet| && charSet[k].0 <= r.0 < charSet[k].1
    ensures r.0 < 0x1_0000
    ensures r.1.next == g.next && r.1.pos == g.pos + (if |charSet| == 1 then 1 else 2)
  {
    var (k, g1) := if |charSet| == 1 then (0, g) else var (d, g1) := DrawU32(g); (d % |charSet|, g1);
    var chars := charSet[k];
    var (d, g2) := DrawU32(g1);
    (chars.0 + d % (chars.1 - chars.0), g2)
  }

  // ---------------------------------------------------------------------
  // randType and randRowType
  // ---------------------------------------------------------------------

  datatype ScalarKind =
    | Boolean | TinyInt | SmallInt | Integer | BigInt | Real | Double
    | Varchar | Varbinary | Timestamp | Date | IntervalDayTime

  datatype Type =
    | ScalarType(kind: ScalarKind)
    | MapType(key: Type, value: Type)
    | ArrayType(element: Type)
    | RowType(names: seq<string>, fields: seq<Type>)

  /** The scalar types the generator picks from by default. */
  const DefaultScalarTypes: seq<Type> := [
    ScalarType(Boolean), ScalarType(TinyInt), ScalarType(SmallInt), ScalarType(Integer),
    ScalarType(BigInt), ScalarType(Real), ScalarType(Double), ScalarType(Varchar),
    ScalarType(Varbinary), ScalarType(Timestamp), ScalarType(Date), ScalarType(IntervalDayTime)
  ]

  /** Nesting depth; a scalar has depth 1. */
  function Depth(t: Type): (d: nat)
    ensures d >= 1
  {
    match t
    case ScalarType(_) => 1
    case MapType(k, v) => 1 + Max(Depth(k), Depth(v))
    case ArrayType(e) => 1 + Depth(e)
    case RowType(_, fs) => 1 + MaxDepth(fs)
  }

  function MaxDepth(fs: seq<Type>): nat {
    if |fs| == 0 then 0 else Max(Depth(fs[0]), MaxDepth(fs[1..]))
  }

  function Max(a: nat, b: nat): nat {
    if a >= b then a else b
  }

  /** The decimal digits of `n`, as `fmt::format("{}", n)` writes them. */
  function Decimal(n: nat): (s: string)
    ensures |s| >= 1 && forall i :: 0 <= i < |s| ==> '0' <= s[i] <= '9'
    ensures n < 10 ==> s == [('0' as int + n) as char]
  {
    if n < 10 then [('0' as int + n) as char] else Decimal(n / 10) + [('0' as int + n % 10) as char]
  }

  /** What every generated type satisfies: leaves come from the scalar list,
      map keys are scalars, and a row has 1 to 7 fields named `f0`, `f1`, ... */
  predicate Generated(t: Type, scalarTypes: seq<Type>) {
    match t
    case ScalarType(_) => t in scalarTypes
    case MapType(k, v) => k in scalarTypes && Generated(v, scalarTypes)
    case ArrayType(e) => Generated(e, scalarTypes)
    case RowType(names, fs) =>
      && 1 <= |fs| <= 7 && |names| == |fs|
      && (forall i :: 0 <= i < |fs| ==> names[i] == "f" + Decimal(i))
      && (forall i :: 0 <= i < |fs| ==> Generated(fs[i], scalarTypes))
  }

  predicate ScalarList(scalarTypes: seq<Type>) {
    |scalarTypes| > 0 && forall i :: 0 <= i < |scalarTypes| ==> scalarTypes[i].ScalarType?
  }

  function Clamp(d: int): nat {
    if d < 0 then 0 else d
  }

  /** `randType(rng, scalarTypes, maxDepth)`. With depth to spare a coin
      decides between a scalar and a container; maps draw a scalar key first,
      then the value. */
  function RandType(g: Rng, scalarTypes: seq<Type>, maxDepth: int): (r: (Type, Rng))
    requires ScalarList(scalarTypes)
    ensures Generated(r.0, scalarTypes)
    ensures Depth(r.0) <= Max(Clamp(maxDepth), 1)
    ensures maxDepth <= 1 ==> r.0.ScalarType? && r.1.pos == g.pos + 1
    ensures r.1.next == g.next && r.1.pos > g.pos
    decreases Clamp(maxDepth), 0, 0
  {
    var (coin, g1) := if maxDepth <= 1 then (true, g) else DrawBool(g);
    if coin then
      var (d, g2) := DrawU32(g1);
      (scalarTypes[d % |scalarTypes|], g2)
    else
      var (choice, g2) := DrawU32(g1);
      if choice % 3 == 0 then
        var (key, g3) := RandType(g2, scalarTypes, 0);
        var (value, g4) := RandType(g3, scalarTypes, maxDepth - 1);
        (MapType(key, value), g4)
      else if choice % 3 == 1 then
        var (element, g3) := RandType(g2, scalarTypes, maxDepth - 1);
        (ArrayType(element), g3)
      else
        RandRowType(g2, scalarTypes, maxDepth - 1)
  }

  /** `randRowType`: between 1 and 7 fields, each a `randType` of the same depth. */
  function RandRowType(g: Rng, scalarTypes: seq<Type>, maxDepth: int): (r: (Type, Rng))
    requires ScalarList(scalarTypes)
    ensures r.0.RowType? && Generated(r.0, scalarTypes)
    ensures Depth(r.0) <= 1 + Max(Clamp(maxDepth), 1)
    ensures r.1.next == g.next && r.1.pos > g.pos
    decreases Clamp(maxDepth), 2, 0
  {
    var (d, g1) := DrawU32(g);
    var numFields := 1 + d % 7;
    var (names, fields, g2) := RandFields(g1, scalarTypes, maxDepth, 0, numFields);
    (RowType(names, fields), g2)
  }

  /** Fields `i .. n-1` of a random row, in order. */
  function RandFields(g: Rng, scalarTypes: seq<Type>, maxDepth: int, i: nat, n: nat)
    : (r: (seq<string>, seq<Type>, Rng))
    requires ScalarList(scalarTypes) && i <= n
    ensures |r.0| == n - i && |r.1| == n - i
    ensures forall k :: 0 <= k < n - i ==> r.0[k] == "f" + Decimal(i + k)
    ensures forall k :: 0 <= k < n - i ==> Generated(r.1[k], scalarTypes)
    ensures MaxDepth(r.1) <= Max(Clamp(maxDepth), 1)
    ensures r.2.next == g.next && r.2.pos >= g.pos
    decreases Clamp(maxDepth), 1, n - i
  {
    if i == n then ([], [], g)
    else
      var (t, g1) := RandType(g, scalarTypes, maxDepth);
      var (names, fields, g2) := RandFields(g1, scalarTypes, maxDepth, i + 1, n);
      assert ([t] + fields)[1..] == fields;
      (["f" + Decimal(i)] + names, [t] + fields, g2)
  }
}
