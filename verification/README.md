# Velox simple-function inputs, URL codec and fuzzer skeleton in Dafny

This project models four sequential pieces of the Velox execution engine:

- **`velox/expression/ComplexViewTypes.h`** (`complex_views.dfy`, module
  `ComplexViews`). These are the value types a simple function receives for
  nested inputs:
  - the index-based iterator, whose identity is its element's index;
  - the lazy optional accessor, with its comparisons against other
    accessors and against plain optionals;
  - `ArrayView`;
  - `MapView`, with its lazy key accessor and lock-step `Element`.

  The views are generic over the reader type. The reader's `isSet` and
  `operator[]` are passed in as a `ReaderOps` record.
- **`velox/expression/VectorReaders.h`** (`vector_readers.dfy`, module
  `VectorReaders`). This is the reader hierarchy: scalar, array, map, struct
  (`Row`), variadic and generic readers over decoded columns, and their
  null-presence protocol (`isSet`, `operator[]`, `readNullFree`, both
  `containsNull` overloads, `mayHaveNullsRecursive`,
  `setChildrenMayHaveNulls`).
  - The tri-state flags that `setChildrenMayHaveNulls` fills in are a
    separate `NullCache` tree. `Build` creates it with every flag unknown.
  - The `VELOX_DCHECK`s that the flags are set become preconditions.
  - A generic reader's `VELOX_UNSUPPORTED` becomes `Failure(Unsupported(..))`.
  - The reference semantics is `BruteNull`, a recursive scan of everything
    reachable from a row. The central result, `FinalisedQueriesAreExact`,
    says that after finalisation the cached fast path answers exactly as the
    brute-force scan does.
- **`velox/functions/prestosql/URLFunctions.h`** (`url_escaping.dfy`, module
  `UrlEscaping`). This covers `toHex`, `charEscape`, `urlEscape`,
  `urlUnescape` and the `isValidURI` pre-check, over byte strings.
  - Percent-encoding follows section 2.1 of RFC 3986.
  - The encoder is the application/x-www-form-urlencoded serializer.
  - The two bytes after `%` are checked with `strtol(buf, &endptr, 16)`, and
    that check is modelled exactly (`StrtolHexPair`).
- **`velox/vector/fuzzer/VectorFuzzer.cpp`** (`vector_fuzzer.dfy`, module
  `VectorFuzzer`). This is the deterministic skeleton of the vector fuzzer:
  - the elements-length rule;
  - container offset/size layout;
  - map-key normalisation;
  - dictionary indices;
  - random characters from the UTF-16 ranges;
  - the random type generator.

  The random engine is an oracle `Rng(next, pos)`, so every property holds
  for every sequence of random choices. The key hash is an arbitrary
  function.

`common.dfy` holds `Option`, `Result` and the error kinds. `map_view_scenario.dfy`
replays the map column of `velox/expression/tests/MapViewTest.cpp` through
the reader and view model.

## Model

| member | source | states |
|---|---|---|
| ComplexViews.IterEq | velox/expression/ComplexViewTypes.h:40-42 | iterator `==` compares the elements' indices; `IteratorIdentityIsIndex` relates it to `!=` and `<` |
| ComplexViews.IterNe | velox/expression/ComplexViewTypes.h:36-42 | iterator `!=` is exactly the negation of `==` |
| ComplexViews.IterLt | velox/expression/ComplexViewTypes.h:52-54 | iterator `<` compares the elements' indices; `IteratorIdentityIsIndex` proves it consistent with `==` and `!=` |
| ComplexViews.IteratorIdentityIsIndex | velox/expression/ComplexViewTypes.h:25-54 | iterators are equal iff their elements' indices are equal, whatever else the elements hold; equal iterators are not `<` either way, and unequal ones are ordered one way |
| ComplexViews.PreIncrement | velox/expression/ComplexViewTypes.h:63-67 | `++it` moves the index by exactly one, so the result is greater than and unequal to the original |
| ComplexViews.PostIncrement | velox/expression/ComplexViewTypes.h:56-61 | `it++` returns the iterator unchanged, and the advanced iterator has index one higher |
| ComplexViews.Walk | velox/expression/ComplexViewTypes.h:25-27 | a loop from `begin` while `!= end` visits `end - begin` elements, and the k-th has index `begin + k` |
| ComplexViews.IncrementAccessor | velox/expression/ComplexViewTypes.h:132-134 | an accessor's increment keeps the reader and adds one to the index |
| ComplexViews.AccessorIndexing | velox/expression/ComplexViewTypes.h:132-138 | the accessor satisfies the iterator's index/increment contract |
| ComplexViews.AsBool | velox/expression/ComplexViewTypes.h:86-96 | `operator bool` is true exactly when the conversion to `std::optional` holds a value; over a scalar reader that is `isSet(row)` (`VectorReaders.ScalarAccessorReadsReader`) |
| ComplexViews.HasValue | velox/expression/ComplexViewTypes.h:118-120 | `has_value()` asks the reader's `isSet(index)`; `ToOptional` and `AsBool` are stated in terms of it |
| ComplexViews.Value | velox/expression/ComplexViewTypes.h:122-125 | `value()` reads the reader at the accessor's index, defined only under `has_value()`; `Dereference` is proved to read the same value |
| ComplexViews.Dereference | velox/expression/ComplexViewTypes.h:122-130 | `operator*` reads the same value as `value()`; both require `has_value()` |
| ComplexViews.ToOptional | velox/expression/ComplexViewTypes.h:90-96 | converting to an optional gives none iff the accessor is false, and otherwise the dereferenced value |
| ComplexViews.AccessorEq | velox/expression/ComplexViewTypes.h:102-112 | two accessors are equal iff their materialised optionals are equal |
| ComplexViews.AccessorNe | velox/expression/ComplexViewTypes.h:114-116 | accessor `!=` holds iff the materialised optionals differ |
| ComplexViews.AccessorEqIsEquivalence | velox/expression/ComplexViewTypes.h:102-116 | both absent means equal and exactly one absent means unequal; the relation is reflexive, symmetric and transitive; `!=` negates `==` |
| ComplexViews.OptionalEqAccessor | velox/expression/ComplexViewTypes.h:146-163 | `optional == accessor` iff the optional equals the accessor's materialised optional |
| ComplexViews.AccessorEqOptional | velox/expression/ComplexViewTypes.h:165-173 | `accessor == optional` iff the materialised optional equals the optional |
| ComplexViews.OptionalNeAccessor | velox/expression/ComplexViewTypes.h:175-183 | `optional != accessor` iff they differ as optionals |
| ComplexViews.AccessorNeOptional | velox/expression/ComplexViewTypes.h:185-193 | `accessor != optional` iff they differ as optionals |
| ComplexViews.OptionalComparisonSymmetric | velox/expression/ComplexViewTypes.h:146-193 | comparing with a plain optional is symmetric, each `!=` negates its `==`, and an accessor equals its own conversion |
| ComplexViews.DefaultArrayView | velox/expression/ComplexViewTypes.h:205-207 | the default view has no reader, size 0, and `begin() == end()` |
| ComplexViews.ArrayAt | velox/expression/ComplexViewTypes.h:226-228 | `operator[](i)` is the accessor at `offset + i`; `ArrayIteration` proves the k-th visited accessor is `operator[](k)` |
| ComplexViews.ArrayMayHaveNulls | velox/expression/ComplexViewTypes.h:220-224 | `mayHaveNulls()` on a view is always false, whatever its elements hold; null presence is asked through the reader's `containsNull` |
| ComplexViews.ArrayAtChecked | velox/expression/ComplexViewTypes.h:226-232 | for `i < size()`, `at(i)` is the i-th accessor that iterating the view visits; at any `i` it reads the element reader at `offset + i`, unchecked |
| ComplexViews.ArrayIteration | velox/expression/ComplexViewTypes.h:212-236 | iterating a view yields exactly `size()` accessors, and the k-th is `operator[](k)`, at child index `offset + k` |
| ComplexViews.KeyValue | velox/expression/ComplexViewTypes.h:271-273 | converting a key accessor reads the key reader at its index; `MapContents` states what the copied keys are |
| ComplexViews.KeyEqComparesContents | velox/expression/ComplexViewTypes.h:271-277 | two entries' key accessors compare equal iff the keys a caller copies out of the two views (`MapContents`) are equal |
| ComplexViews.NewMapElement | velox/expression/ComplexViewTypes.h:294-298 | a new element puts its key, its value and itself at the same child index |
| ComplexViews.IncrementElement | velox/expression/ComplexViewTypes.h:317-321 | incrementing an element advances it, its key and its value together, so they stay aligned |
| ComplexViews.ElementIndexing | velox/expression/ComplexViewTypes.h:317-325 | the map element satisfies the iterator's index/increment contract |
| ComplexViews.ElementEq | velox/expression/ComplexViewTypes.h:302-304 | elements are equal iff their keys are equal and their values are equal as optionals |
| ComplexViews.ElementEqPair | velox/expression/ComplexViewTypes.h:306-310 | an element equals a `(key, optional)` pair iff its key and materialised value equal the pair |
| ComplexViews.ElementNePair | velox/expression/ComplexViewTypes.h:312-315 | element `!=` pair is the negation of `==` |
| ComplexViews.DefaultMapView | velox/expression/ComplexViewTypes.h:263-264 | the default map view has no readers and size 0, `begin() == end()`, and iterating it visits nothing |
| ComplexViews.MapAt | velox/expression/ComplexViewTypes.h:341-343 | `operator[](i)` is the element at child index `offset + i`; `MapIteration` proves the k-th visited entry is `operator[](k)` |
| ComplexViews.MapIteration | velox/expression/ComplexViewTypes.h:331-347 | iterating a map view visits exactly `size()` entries in storage order; the k-th is `operator[](k)`, with key and value aligned at `offset + k` |
| ComplexViews.MapContents | velox/expression/ComplexViewTypes.h:331-347 | copying the entries out gives `size()` pairs, and pair k is the key at `offset + k` with the optional value at `offset + k` |
| VectorReaders.VariadicFrom | velox/expression/VectorReaders.h:360-431 | a variadic reader holds `decodedArgs.size() - startPosition` argument readers, in argument order |
| VectorReaders.ReadNullFree | velox/expression/VectorReaders.h:53-59 | `readNullFree(row)` produces the same value as `operator[](row)` for every reader kind |
| VectorReaders.ArrayViewOfRow | velox/expression/VectorReaders.h:218-230 | an array row reads as a view over the element reader, with the offset and length stored for `decoded.index(row)`; every visited element is a valid child row |
| VectorReaders.MapViewOfRow | velox/expression/VectorReaders.h:131-143 | a map row reads as a view over both child readers, with the stored offset and length; every entry addresses valid key and value rows |
| VectorReaders.ScalarOpsAgree | velox/expression/VectorReaders.h:53-63 | the interface the views call is the scalar reader's `isSet` (not null) and `operator[]` (value at `decoded.index(row)`) |
| VectorReaders.ScalarAccessorReadsReader | velox/expression/VectorReaders.h:53-63 | an optional accessor over a scalar reader is true iff `isSet(row)`, and its optional holds `operator[](row)` when set |
| VectorReaders.IsSet | velox/expression/VectorReaders.h:61-63 | `isSet(row)` is "not null at `row`" for every reader but the variadic one, which is always set (line 376); `NullRowContainsNull` ties it to `containsNull` |
| VectorReaders.Read | velox/expression/VectorReaders.h:131-139 | `operator[](row)` reads `decoded.index(row)`: a scalar value, or a view over the stored window; `ArrayViewOfRow`, `MapViewOfRow` and `ReadNullFree` state its shape |
| VectorReaders.MayHaveNullsRecursive | velox/expression/VectorReaders.h:173-178 | the decoder's flag or a cached child flag, the struct decoder's recursive flag, any argument's flag for variadics; soundness is `MayHaveNullsIsSound`, and `MayHaveNullsSucceeds` says it never raises without generic readers |
| VectorReaders.ContainsNull | velox/expression/VectorReaders.h:145-161 | `containsNull(row)` for each reader kind; `ContainsNullIsBruteForce` proves it equals the brute-force scan `BruteNull` |
| VectorReaders.ContainsNullRange | velox/expression/VectorReaders.h:163-171 | `containsNull(start, end)` scans the range (variadic: each argument over the range); `ContainsNullRangeIsBruteForce` proves it equals `NullInRange` |
| VectorReaders.Build | velox/expression/VectorReaders.h:115-129 | a freshly built reader tree has a flag slot for each reader, and its own flags are still unknown |
| VectorReaders.OrderedAny | velox/expression/VectorReaders.h:163-171 | an ordered short-circuit scan answers false iff every answer is false, true only if some answer is true, and fails only if some answer fails |
| VectorReaders.SetChildrenMayHaveNulls | velox/expression/VectorReaders.h:181-187 | a successful finalisation leaves every flag set, and each cached flag equals its child's `mayHaveNullsRecursive()` |
| VectorReaders.SetChildrenFailsIffGeneric | velox/expression/VectorReaders.h:483-488 | finalisation fails iff a generic reader sits somewhere in the tree |
| VectorReaders.MayHaveNullsSucceeds | velox/expression/VectorReaders.h:476-481 | without generic readers, `mayHaveNullsRecursive()` never raises |
| VectorReaders.FinalizedIsFixedPoint | velox/expression/VectorReaders.h:181-187 | finalising an already-finalised tree stores exactly the flags it already has |
| VectorReaders.SetChildrenIdempotent | velox/expression/VectorReaders.h:181-187 | the finalised flags are unique: a cache is what `setChildrenMayHaveNulls()` stores iff it is finalised, so a second call stores the flags of the first, and two finalised caches of one reader are equal |
| VectorReaders.MayHaveNullsIsSound | velox/expression/VectorReaders.h:173-178 | once finalised, `mayHaveNullsRecursive()` false means no null is reachable from any row |
| VectorReaders.ArrayRowIsBruteForce | velox/expression/VectorReaders.h:232-244 | array `containsNull(row)`: the row is null, or the flag is set and the row's element window holds a null, which is exactly the brute-force answer |
| VectorReaders.MapRowIsBruteForce | velox/expression/VectorReaders.h:145-161 | map `containsNull(row)`: the row is null, or the keys or values window holds a null, which is exactly the brute-force answer |
| VectorReaders.StructRowIsBruteForce | velox/expression/VectorReaders.h:308-322 | struct `containsNull(row)`: the row is null, or some field holds a null at `decoded.index(row)` |
| VectorReaders.VariadicRowIsBruteForce | velox/expression/VectorReaders.h:382-390 | variadic `containsNull(row)`: some argument reader holds a null at the row |
| VectorReaders.ContainsNullIsBruteForce | velox/expression/VectorReaders.h:73-75 | after finalisation, `containsNull(row)` equals the brute-force recursive null scan for every reader kind |
| VectorReaders.RowScanIsBruteForce | velox/expression/VectorReaders.h:77-87 | the row-by-row range scan finds a null iff some row of `[start, end)` holds one |
| VectorReaders.ArgumentScanIsBruteForce | velox/expression/VectorReaders.h:392-400 | the variadic range form finds a null iff some argument holds one in the range |
| VectorReaders.ContainsNullRangeIsBruteForce | velox/expression/VectorReaders.h:246-254 | `containsNull(start, end)` is "some row of the range contains a null", and false on an empty range |
| VectorReaders.FinalisedQueriesAreExact | velox/expression/VectorReaders.h:145-187 | build, finalise, query: without generic readers finalisation succeeds and every row's answer is exact |
| VectorReaders.NullRowContainsNull | velox/expression/VectorReaders.h:61-75 | a row that is not set always contains a null; for a scalar reader `containsNull` is exactly "not set" |
| VectorReaders.GenericIsUnsupported | velox/expression/VectorReaders.h:460-488 | the generic reader raises on both `containsNull` forms, on `mayHaveNullsRecursive` and on `setChildrenMayHaveNulls` |
| MapViewScenario.TestMapsWellFormed | velox/expression/tests/MapViewTest.cpp:29-37 | the test map column is well formed, with sound decoder flags and no generic reader |
| MapViewScenario.TestMapsReadBack | velox/expression/tests/MapViewTest.cpp:46-119 | each test map iterates to its entries in storage order, duplicates and nulls included |
| MapViewScenario.TestMapComparisons | velox/expression/tests/MapViewTest.cpp:122-197 | the key, value-accessor and element comparisons, and the conversions to optional, that the tests check |
| MapViewScenario.TestMapsContainNulls | velox/expression/tests/MapViewTest.cpp:29-37 | after finalisation the empty map holds no null and the other two maps do |
| UrlEscaping.HexDigitValue | velox/functions/prestosql/URLFunctions.h:187 | a byte is a base-16 digit in either case iff it has a value, and that value is below 16 |
| UrlEscaping.ToHex | velox/functions/prestosql/URLFunctions.h:91-93 | a nibble is written as the uppercase hex digit that reads back as it |
| UrlEscaping.CharEscape | velox/functions/prestosql/URLFunctions.h:95-99 | an escape is `%` followed by hex digits for the high and the low nibble |
| UrlEscaping.EscapeByte | velox/functions/prestosql/URLFunctions.h:119-131 | unreserved bytes are kept, space becomes `+`, and every other byte becomes `%XX` |
| UrlEscaping.UrlEscape | velox/functions/prestosql/URLFunctions.h:110-134 | output length is the input length plus two per escaped byte, so at most three times the input |
| UrlEscaping.UrlEscapeAppend | velox/functions/prestosql/URLFunctions.h:119-132 | escaping works byte by byte: it distributes over concatenation |
| UrlEscaping.StrtolHexPair | velox/functions/prestosql/URLFunctions.h:184-191 | `strtol` consumes both buffer bytes iff the second is a hex digit and the first is a hex digit, a blank or a sign; the value is in -15..255 |
| UrlEscaping.ParseEscape | velox/functions/prestosql/URLFunctions.h:184-191 | the strict parser accepts exactly two hex digits |
| UrlEscaping.ParsersAgreeOnHexPairs | velox/functions/prestosql/URLFunctions.h:187-189 | on two hex digits both parsers give the two-digit value |
| UrlEscaping.ByteOf | velox/functions/prestosql/URLFunctions.h:189 | the `(char)` cast keeps byte values and wraps negative values by 256 |
| UrlEscaping.Unescape | velox/functions/prestosql/URLFunctions.h:168-203 | the decoded output is never longer than the input, and every failure is a user error; when it fails and with which message is `UnescapeFailsAtBadEscape` |
| UrlEscaping.UnescapeAppend | velox/functions/prestosql/URLFunctions.h:178-200 | the decoder works token by token: a prefix whose escapes all parse decodes on its own, and decoding it followed by anything is that decoding followed by the rest's, or the rest's error |
| UrlEscaping.UnescapeSucceedsIffEscapesParse | velox/functions/prestosql/URLFunctions.h:178-200 | on every input, decoding succeeds iff every `%` the scan reaches has two bytes after it whose pair the escape check accepts |
| UrlEscaping.FailureHasBadEscape | velox/functions/prestosql/URLFunctions.h:181-197 | a failing decode stops at a `%` that follows a prefix which decodes, and that `%` has fewer than two bytes after it or an unparsed pair |
| UrlEscaping.UnescapeFailsAtBadEscape | velox/functions/prestosql/URLFunctions.h:183-197 | decoding fails iff the scan reaches a bad `%`; the error is "Incomplete trailing escape" when fewer than two bytes follow it, and otherwise "Illegal hex characters" followed by the two characters of the pair |
| UrlEscaping.UnescapeErrorExamples | velox/functions/prestosql/URLFunctions.h:183-197 | a lone `%` and `a%4` raise the incomplete-escape error, and `%zz` raises the illegal-hex error naming `zz` |
| UrlEscaping.UrlUnescape | velox/functions/prestosql/URLFunctions.h:168-203 | `urlUnescape` as written never lengthens its input |
| UrlEscaping.UrlUnescapeStrict | velox/functions/prestosql/URLFunctions.h:183-197 | the decoder with the two-hex-digit check never lengthens its input |
| UrlEscaping.UnescapeEscapedByte | velox/functions/prestosql/URLFunctions.h:181-199 | decoding an escaped byte followed by any text gives the byte followed by the text's decoding |
| UrlEscaping.UnescapeOfEscape | velox/functions/prestosql/URLFunctions.h:110-203 | decoding an escaped string gives back the original bytes, with either parser |
| UrlEscaping.UrlRoundTrip | velox/functions/prestosql/URLFunctions.h:110-203 | `urlUnescape(urlEscape(s)) == s` for every byte string |
| UrlEscaping.StrictRefinesAsWritten | velox/functions/prestosql/URLFunctions.h:183-197 | whatever the strict decoder accepts, the decoder as written accepts with the same output |
| UrlEscaping.SignedEscapeAccepted | velox/functions/prestosql/URLFunctions.h:184-190 | `%-1` decodes to byte 0xFF and `% 5` to 0x05 as written, while the strict decoder rejects both |
| UrlEscaping.IsValidUri | velox/functions/prestosql/URLFunctions.h:139-165 | `isValidURI`: no whitespace outside escapes and every escape passes the `strtol` check; `ValidUriDecodes`, `ValidUriIffDecodes` and `EscapedIsValidUri` relate it to the codec |
| UrlEscaping.ValidUriDecodes | velox/functions/prestosql/URLFunctions.h:139-165 | a string that passes `isValidURI` decodes without error |
| UrlEscaping.ValidUriIffDecodes | velox/functions/prestosql/URLFunctions.h:145-161 | on strings without whitespace, `isValidURI` holds iff `urlUnescape` succeeds |
| UrlEscaping.WhitespaceDecodesButIsNotValid | velox/functions/prestosql/URLFunctions.h:146-148 | whitespace fails the pre-check although the decoder copies it |
| UrlEscaping.EscapedIsValidUri | velox/functions/prestosql/URLFunctions.h:110-165 | every escaped string passes the pre-check |
| VectorFuzzer.DrawU32 | velox/vector/fuzzer/VectorFuzzer.cpp:106-109 | a `uint32_t` draw is below 2^32 and consumes one draw |
| VectorFuzzer.DrawI32 | velox/vector/fuzzer/VectorFuzzer.cpp:81-84 | an `int32_t` draw lies in `[0, 2^31)` and consumes one draw |
| VectorFuzzer.DrawBool | velox/vector/fuzzer/VectorFuzzer.cpp:101-104 | a boolean draw consumes one draw |
| VectorFuzzer.ElementsVectorLength | velox/vector/fuzzer/VectorFuzzer.cpp:135-146 | fails with a user error iff fixed length is requested and `size * containerLength` exceeds the cap; otherwise returns the product capped at the maximum |
| VectorFuzzer.AverageLength | velox/vector/fuzzer/VectorFuzzer.cpp:589 | the average container length is at least 1, and average times count never exceeds the child when the child has enough elements |
| VectorFuzzer.FuzzOffsetsAndSizes | velox/vector/fuzzer/VectorFuzzer.cpp:579-612 | containers are contiguous from offset 0 and never reach past the child; each size is below twice the average; in fixed mode a size is the average exactly when it fits, else 0 |
| VectorFuzzer.LayoutFits | velox/vector/fuzzer/VectorFuzzer.cpp:593-611 | the sizes add up to the end of the last container, so all containers together use at most the whole child |
| VectorFuzzer.CutIsLongest | velox/vector/fuzzer/VectorFuzzer.cpp:647-665 | no prefix longer than the cut has distinct key hashes |
| VectorFuzzer.CutIsUnique | velox/vector/fuzzer/VectorFuzzer.cpp:647-665 | a map has exactly one cut point |
| VectorFuzzer.CutIsIdempotent | velox/vector/fuzzer/VectorFuzzer.cpp:647-665 | normalising an already-normalised map keeps it whole |
| VectorFuzzer.DistinctPrefix | velox/vector/fuzzer/VectorFuzzer.cpp:649-664 | the set-based scan stops at the first repeated hash: the prefix before it has distinct hashes, and the next hash repeats one of them |
| VectorFuzzer.NormalizeMapKeys | velox/vector/fuzzer/VectorFuzzer.cpp:629-667 | fails iff some key is null; otherwise each new size is that map's cut, never longer than the old size, and offsets are left alone |
| VectorFuzzer.FuzzIndices | velox/vector/fuzzer/VectorFuzzer.cpp:772-783 | `size` indices, each below the base vector size, each the next `int32_t` draw modulo the base |
| VectorFuzzer.FuzzDictionaryIndices | velox/vector/fuzzer/VectorFuzzer.cpp:566-577 | a non-empty dictionary over an empty base is refused; otherwise every index addresses the base |
| VectorFuzzer.UtfCharSetsWellFormed | velox/vector/fuzzer/VectorFuzzer.cpp:162-192 | every character set is non-empty, and each range is a non-empty range of UTF-16 code units |
| VectorFuzzer.GetRandomChar | velox/vector/fuzzer/VectorFuzzer.cpp:194-204 | the character lies in `[first, second)` of one of the set's ranges; a one-range set costs one draw, otherwise two |
| VectorFuzzer.RandType | velox/vector/fuzzer/VectorFuzzer.cpp:1022-1041 | leaves come from the scalar list, map keys are scalars, rows are well formed; depth is at most `max(maxDepth, 1)`; `maxDepth <= 1` gives a scalar in one draw |
| VectorFuzzer.RandRowType | velox/vector/fuzzer/VectorFuzzer.cpp:1047-1059 | a row type of 1 to 7 fields named `f0`, `f1`, ..., each a generated type |
| VectorFuzzer.RandFields | velox/vector/fuzzer/VectorFuzzer.cpp:1053-1057 | field i is named `f` followed by i in decimal and is a generated type no deeper than the bound |

## Left out

- `DecodedVector` internals, `detail::decode`/`getDecoded`, and reader ownership (`unique_ptr`). A decoded column is taken as its rows (physical index and null bit) plus the decoder's two flags. `Sound` states what the model trusts about those flags.
- The generic reader's `castReaders_`/`castType_` cache and `GenericView`: their code is not part of this model. `operator[]` on a generic reader returns only the decoded index.
- VectorReaders.SetChildrenMayHaveNulls: on a generic reader the source raises after it has already finalised earlier siblings. The model returns the error and not the partly finalised cache.
- The thread-safety of the null cache. Nothing in this layer is concurrent.
- The conversion machinery (`enable_if`, the deleted `operator B`) becomes explicit comparison and conversion functions. The float comparisons of the map-view tests are left out.
- 32-bit `vector_size_t` and `size_t` arithmetic: the model uses unbounded naturals, so offset and size overflow is not modelled.
- Out-of-range `operator[]` on a view (`at(i)` does not check `i < size()`) is undefined behaviour in the source. `ScalarOps` answers "null" and 0 there.
- The boost-regex URL decomposition (`parse`, the URL extraction functions) and the `to<int64_t>` conversion: they follow the regex and conversion libraries' semantics.
- UrlEscaping.IsAsciiWhiteSpace: `stringImpl::isAsciiWhiteSpace` is in `StringImpl.h`, which is not part of this model. It is taken to be the C `isspace` set (tab, newline, vertical tab, form feed, carriage return, space).
- UTF-8 conversion before `urlEscape`: the codec works on byte strings.
- The random engine and the boost distributions: each draw is modelled as the engine's next value reduced modulo the type's range. This is uniform only up to that abstraction, and the bias of `%` on draws is not modelled.
- Fuzzer value generation: random scalars, strings, timestamps, decimals, nulls, lazy and encoding-preserving wrappers, and `ScopedOptions`. These are buffer plumbing and floating point around the skeleton.
- VectorFuzzer.FuzzOffsetsAndSizes: requires `size > 0`. The source computes `elementsSize / size` before its loop with no guard (line 589), and `fuzzArray`/`fuzzMap` pass their container count straight through. A nested container whose `getElementsVectorLength` is 0 (`containerLength` or `complexElementsMaxSize` 0) therefore reaches an integer division by zero, which is undefined behaviour; the model does not say what happens then.
- VectorFuzzer.AverageLength: requires `size > 0` for the same division.
- UrlEscaping.EscapeErrorAt: the illegal-hex message carries both bytes of the pair. The source formats the NUL-terminated buffer, so a NUL byte in the pair would cut the message short there.
- VectorFuzzer.FuzzIndices: requires a positive base when `size > 0`, because `% baseVectorSize` by zero is undefined behaviour in the source. Its caller `fuzzDictionary` checks this, as `FuzzDictionaryIndices` shows.
- VectorFuzzer.RandType: C++ does not fix the order in which the two `randType` arguments of `MAP` are evaluated. The model draws the key first.

## Findings

| source | as written | input that shows it | evidently intended | confidence | as-written member | corrected member |
|---|---|---|---|---|---|---|
| velox/functions/prestosql/URLFunctions.h:184-190 | the escape check is "`strtol` in base 16 consumed both characters"; `strtol` skips a leading blank and accepts a sign, so `%-1` decodes to byte 0xFF and `% 5` to 0x05 | `%-1`, `% 5` | an escape is `%` followed by exactly two hex digits (section 2.1 of RFC 3986); anything else is "Illegal hex characters" | not executed | UrlEscaping.SignedEscapeAccepted | UrlEscaping.StrictRefinesAsWritten |

`UrlEscaping.UrlUnescape` models the decoder as written. `UrlEscaping.UrlUnescapeStrict` is the corrected decoder:
- it agrees with the original on every input it accepts (`StrictRefinesAsWritten`);
- it inverts `urlEscape` (`UrlRoundTrip`);
- it rejects both inputs above (`SignedEscapeAccepted`).

`isValidURI` has the same check (lines 150-161), so it too lets these escapes through (`ValidUriDecodes`).
