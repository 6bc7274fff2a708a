/** The map column of the map-view unit tests, read through the reader and
    view model: three maps of `bigint -> bigint`, the empty map, one with a
    null value, and one with repeated keys and two null values.
 */
module MapViewScenario {
  import opened Common
  import opened ComplexViews
  import opened VectorReaders

  /** A flat column: logical row i is physical row i. */
  function FlatRows(nulls: seq<bool>): (rows: seq<DecodedRow>)
    ensures |rows| == |nulls|
    ensures forall i :: 0 <= i < |rows| ==> rows[i].index == i && rows[i].isNull == nulls[i]
  {
    seq(|nulls|, i requires 0 <= i < |nulls| => DecodedRow(i, nulls[i]))
  }

  const KeyReader: Reader :=
    ScalarReader(Decoded(FlatRows([false, false, false, false, false, false, false, false]), false, false),
                 [1, 3, 4, 10, 4, 1, 10, 10])

  /** Null values sit at child rows 2, 4 and 7; their stored payload is irrelevant. */
  const ValueReader: Reader :=
    ScalarReader(Decoded(FlatRows([false, false, true, false, true, false, false, true]), true, true),
                 [4, 3, 0, 10, 0, 4, 4, 0])

  /** Maps {}, {1: 4, 3: 3, 4: null}, {10: 10, 4: null, 1: 4, 10: 4, 10: null}. */
  const TestMaps: Reader :=
    MapReader(Decoded(FlatRows([false, false, false]), false, false), [0, 0, 3], [0, 3, 5], KeyReader, ValueReader)

  const MapsData: seq<seq<(int, Option<int>)>> := [
    [],
    [(1, Some(4)), (3, Some(3)), (4, None)],
    [(10, Some(10)), (4, None), (1, Some(4)), (10, Some(4)), (10, None)]
  ]

  /** The view `reader[i]` of the test column. */
  function MapRow(i: nat): (v: MapView<Reader, Reader>)
    requires i < 3
    ensures v.keyReader == Some(KeyReader) && v.valueReader == Some(ValueReader)
    ensures v.size == |MapsData[i]|
  {
    assert Valid(TestMaps);
    Read(TestMaps, i).mapView
  }

  /** The test column is well formed, its decoder flags are sound, and no
      generic reader is involved. */
  lemma TestMapsWellFormed()
    ensures Valid(TestMaps) && Sound(TestMaps) && GenericFree(TestMaps)
  {
    assert Valid(KeyReader) && Valid(ValueReader);
    assert Sound(KeyReader) && Sound(ValueReader);
  }

  /** The (key, optional value) pair a caller copies out of entry k of row i. */
  function Entry(i: nat, k: nat): (int, Option<int>)
    requires i < 3
  {
    var child := MapRow(i).offset + k;
    (ScalarOps().read(KeyReader, child), ToOptional(ScalarOps(), OptionalAccessor(Some(ValueReader), child)))
  }

  lemma EntriesOfSecondMap()
    ensures Entry(1, 0) == (1, Some(4)) && Entry(1, 1) == (3, Some(3)) && Entry(1, 2) == (4, None)
  {
    assert MapRow(1).offset == 0;
  }

  lemma EntriesOfThirdMap()
    ensures Entry(2, 0) == (10, Some(10)) && Entry(2, 1) == (4, None) && Entry(2, 2) == (1, Some(4))
    ensures Entry(2, 3) == (10, Some(4)) && Entry(2, 4) == (10, None)
  {
    assert MapRow(2).offset == 3;
  }

  lemma SecondMapReadsBack()
    ensures MapContents(ScalarOps(), ScalarOps(), MapRow(1)) == MapsData[1]
  {
    var v := MapRow(1);
    assert v.offset == 0 && v.size == 3;
    EntriesOfSecondMap();
    var ps := MapContents(ScalarOps(), ScalarOps(), v);
    var expected := MapsData[1];
    assert ps[0] == expected[0] && ps[1] == expected[1] && ps[2] == expected[2];
  }

  lemma ThirdMapReadsBack()
    ensures MapContents(ScalarOps(), ScalarOps(), MapRow(2)) == MapsData[2]
  {
    var v := MapRow(2);
    assert v.offset == 3 && v.size == 5;
    EntriesOfThirdMap();
    var ps := MapContents(ScalarOps(), ScalarOps(), v);
    var expected := MapsData[2];
    assert ps[0] == expected[0] && ps[1] == expected[1] && ps[2] == expected[2];
    assert ps[3] == expected[3] && ps[4] == expected[4];
  }

  /** Iterating every map yields its entries in insertion order, duplicates
      and nulls included, with `size()` entries. */
  lemma TestMapsReadBack(i: nat)
    requires i < 3
    ensures MapContents(ScalarOps(), ScalarOps(), MapRow(i)) == MapsData[i]
  {
    if i == 1 {
      SecondMapReadsBack();
    } else if i == 2 {
      ThirdMapReadsBack();
    }
  }

  /** The key, value and element comparisons of the map-view tests. */
  lemma TestMapComparisons()
    ensures KeyValue(ScalarOps(), MapAt(MapRow(1), 0).first) == 1
    ensures KeyEq(ScalarOps(), MapAt(MapRow(2), 2).first, MapAt(MapRow(1), 0).first)
    ensures !KeyEq(ScalarOps(), MapAt(MapRow(2), 2).first, MapAt(MapRow(1), 1).first)
    ensures KeyValue(ScalarOps(), MapAt(MapRow(2), 1).first) == Value(ScalarOps(), MapAt(MapRow(1), 0).second)
    ensures KeyValue(ScalarOps(), MapAt(MapRow(2), 2).first) != Value(ScalarOps(), MapAt(MapRow(1), 1).second)
    ensures AccessorEqOptional(ScalarOps(), MapAt(MapRow(2), 2).second, Some(4))
    ensures AccessorNeOptional(ScalarOps(), MapAt(MapRow(2), 2).second, Some(8))
    ensures OptionalEqAccessor(ScalarOps(), Some(4), MapAt(MapRow(2), 2).second)
    ensures AccessorEq(ScalarOps(), MapAt(MapRow(2), 2).second, MapAt(MapRow(2), 3).second)
    ensures AccessorNe(ScalarOps(), MapAt(MapRow(2), 2).second, MapAt(MapRow(2), 0).second)
    ensures AccessorNe(ScalarOps(), MapAt(MapRow(2), 1).second, MapAt(MapRow(2), 2).second)
    ensures AccessorEq(ScalarOps(), MapAt(MapRow(2), 1).second, MapAt(MapRow(2), 4).second)
    ensures !ElementEq(ScalarOps(), ScalarOps(), MapAt(MapRow(2), 2), MapAt(MapRow(2), 1))
    ensures ElementEq(ScalarOps(), ScalarOps(), MapAt(MapRow(1), 0), MapAt(MapRow(2), 2))
    ensures ToOptional(ScalarOps(), MapAt(MapRow(2), 2).second) == Some(4)
    ensures ToOptional(ScalarOps(), MapAt(MapRow(2), 1).second) == None
  {
    TestMapsReadBack(1);
    TestMapsReadBack(2);
    assert MapContents(ScalarOps(), ScalarOps(), MapRow(2))[2] == (1, Some(4));
  }

  /** After finalisation the empty map holds no null and the two others do
      (each has a null value). */
  lemma TestMapsContainNulls()
    ensures SetChildrenMayHaveNulls(TestMaps).Success?
    ensures ContainsNull(TestMaps, SetChildrenMayHaveNulls(TestMaps).value, 0) == Success(false)
    ensures ContainsNull(TestMaps, SetChildrenMayHaveNulls(TestMaps).value, 1) == Success(true)
    ensures ContainsNull(TestMaps, SetChildrenMayHaveNulls(TestMaps).value, 2) == Success(true)
  {
    TestMapsWellFormed();
    FinalisedQueriesAreExact(TestMaps, 0);
    FinalisedQueriesAreExact(TestMaps, 1);
    FinalisedQueriesAreExact(TestMaps, 2);
    assert !NullInRange(KeyReader, 0, 0) && !NullInRange(ValueReader, 0, 0);
    assert BruteNull(ValueReader, 2) && NullInRange(ValueReader, 0, 3);
    assert BruteNull(ValueReader, 4) && NullInRange(ValueReader, 3, 8);
  }
}
