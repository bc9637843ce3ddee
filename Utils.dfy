/** Record utilities (src/logic/Utils.ts). A `Record<string, string>` is a finite map. */
module Utils {

  lemma {:induction false} SubsetSize<K>(a: set<K>, b: set<K>)
    requires a <= b
    ensures |a| <= |b|
    decreases a
  {
    if a != {} {
      var y :| y in a;
      SubsetSize(a - {y}, b - {y});
    }
  }

  /** A key set that is contained in another of the same size is equal to it. */
  lemma SubsetOfSameSize<K>(a: set<K>, b: set<K>)
    requires a <= b && |a| == |b|
    ensures a == b
  {
    if a != b {
      var x :| x in b && x !in a;
      SubsetSize(a, b - {x});
    }
  }

  /**
   * `areRecordsEqual`: false when the key counts differ; otherwise true exactly when
   * every key of `record1` is a key of `record2` with the same value (a missing key
   * reads as `undefined`, which no string equals).
   */
  function AreRecordsEqual<K, V(==)>(record1: map<K, V>, record2: map<K, V>): (equal: bool)
    ensures |record1| != |record2| ==> !equal
    ensures equal <==> record1 == record2
  {
    if |record1| != |record2| then false
    else
      var sameValues := forall key :: key in record1 ==> key in record2 && record1[key] == record2[key];
      if sameValues then
        SubsetOfSameSize(record1.Keys, record2.Keys);
        true
      else false
  }

  /** Equality of records is reflexive, and two empty records are equal. */
  lemma AreRecordsEqualReflexive<K, V>(record: map<K, V>)
    ensures AreRecordsEqual(record, record)
    ensures AreRecordsEqual<K, V>(map[], map[])
  {
  }
}
