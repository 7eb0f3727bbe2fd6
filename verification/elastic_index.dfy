/** The collaborators the read context works through: the elastic index
    (hash -> row), the table's rows, and the surgeon's index-range cursor,
    row delete and delete-notification suppression. */
module ElasticIndex {
  import opened Int64Text
  import opened HashRangeText

  type RowId = nat

  /** One index entry: the partition hash of a row and the row it names. */
  datatype Entry = Entry(hash: Int64, row: RowId)

  /** Whether a hash lies in a range.  The exact bounds and the wrap-around
      of a hash range are the index's business, so every operation that
      needs the test takes it as a parameter. */
  type RangeTest = (HashRange, Int64) -> bool

  /** The index entries a range cursor yields, in index order. */
  function Covered(index: seq<Entry>, range: HashRange, covers: RangeTest): (r: seq<Entry>)
    ensures |r| <= |index|
    ensures forall e :: e in r ==> e in index && covers(range, e.hash)
  {
    if |index| == 0 then []
    else
      (if covers(range, index[0].hash) then [index[0]] else [])
      + Covered(index[1..], range, covers)
  }

  /** The index after the range has been erased from it. */
  function Uncovered(index: seq<Entry>, range: HashRange, covers: RangeTest): (r: seq<Entry>)
    ensures |r| <= |index|
    ensures forall e :: e in r ==> e in index && !covers(range, e.hash)
  {
    if |index| == 0 then []
    else
      (if covers(range, index[0].hash) then [] else [index[0]])
      + Uncovered(index[1..], range, covers)
  }

  /** A range cursor yields each in-range entry as often as the index holds
      it, and never an entry outside the range. */
  lemma {:induction false} CoveredCount(index: seq<Entry>, range: HashRange, covers: RangeTest, e: Entry)
    ensures multiset(Covered(index, range, covers))[e]
            == if covers(range, e.hash) then multiset(index)[e] else 0
  {
    if |index| > 0 {
      CoveredCount(index[1..], range, covers, e);
      assert index == [index[0]] + index[1..];
    }
  }

  /** The cursor's entries and the entries left after erasing the range
      together make up the index: nothing is lost or invented. */
  lemma {:induction false} CoveredUncoveredPartition(index: seq<Entry>, range: HashRange, covers: RangeTest)
    ensures multiset(Covered(index, range, covers)) + multiset(Uncovered(index, range, covers))
            == multiset(index)
  {
    if |index| > 0 {
      CoveredUncoveredPartition(index[1..], range, covers);
      var head := [index[0]];
      assert index == head + index[1..];
      assert multiset(index) == multiset(head) + multiset(index[1..]);
      if covers(range, index[0].hash) {
        assert Covered(index, range, covers) == head + Covered(index[1..], range, covers);
        assert Uncovered(index, range, covers) == Uncovered(index[1..], range, covers);
      } else {
        assert Covered(index, range, covers) == Covered(index[1..], range, covers);
        assert Uncovered(index, range, covers) == head + Uncovered(index[1..], range, covers);
      }
    }
  }

  /** Once the range is erased a cursor over it yields nothing. */
  lemma {:induction false} ErasedRangeIsEmpty(index: seq<Entry>, range: HashRange, covers: RangeTest)
    ensures Covered(Uncovered(index, range, covers), range, covers) == []
  {
    var rest := Uncovered(index, range, covers);
    if |rest| > 0 {
      assert rest[0] in rest;
      NothingCovered(rest, range, covers);
    }
  }

  lemma {:induction false} NothingCovered(index: seq<Entry>, range: HashRange, covers: RangeTest)
    requires forall e :: e in index ==> !covers(range, e.hash)
    ensures Covered(index, range, covers) == []
  {
    if |index| > 0 {
      assert index[0] in index;
      assert forall e :: e in index[1..] ==> e in index;
      NothingCovered(index[1..], range, covers);
    }
  }

  /** The rows a sequence of entries names. */
  function RowIds(entries: seq<Entry>): set<RowId> {
    set e | e in entries :: e.row
  }

  /** The table and index state the surgeon exposes.  `suppressed` is set
      while a bulk-delete token is held; `notified` records the rows whose
      delete notification went out (other streams would be told of them). */
  datatype Store = Store(
    index: seq<Entry>,
    rows: set<RowId>,
    hasIndex: bool,
    indexingComplete: bool,
    suppressed: bool,
    notified: seq<RowId>)

  predicate IndexReady(store: Store) {
    store.hasIndex && store.indexingComplete
  }

  /** The surgeon's single-row delete: the row leaves the table and a delete
      notification goes out unless notifications are suppressed.  The
      elastic index is not touched here. */
  function DeleteTuple(store: Store, row: RowId): Store {
    store.(rows := store.rows - {row},
           notified := if store.suppressed then store.notified else store.notified + [row])
  }

  /** A range cursor: the range it is bound to and how many of the range's
      entries it has handed out. */
  datatype Cursor = Cursor(range: HashRange, pos: nat)
}
