/** One concrete rebalance: range "0:100", an index of five rows of which
    three hash into the range, a sink that yields after two rows. */
module RebalanceScenario {
  import opened Optional
  import opened Int64Text
  import opened HashRangeText
  import opened ElasticIndex
  import opened ReadContext

  /** A half-open reading of a hash range, used only for this example. */
  function HalfOpen(range: HashRange, hash: Int64): bool {
    range.lo <= hash < range.hi
  }

  /** A sink with room for two rows per call. */
  function TwoRowsPerCall(written: seq<Entry>): bool {
    |written| >= 2
  }

  const Index: seq<Entry> := [Entry(5, 1), Entry(150, 2), Entry(20, 3), Entry(-7, 4), Entry(99, 5)]

  const Table: Store := Store(Index, {1, 2, 3, 4, 5}, true, true, false, [])

  const Range: HashRange := HashRange(0, 100)
  const InRangeEntries: seq<Entry> := [Entry(5, 1), Entry(20, 3), Entry(99, 5)]
  const Out: seq<Sink> := [Sink(0, [])]

  function ReadCtx(pos: nat, materialized: bool): Context {
    Context(["0:100"], materialized, Some(Cursor(Range, pos)))
  }

  /** The predicate "0:100" is the range (0, 100). */
  lemma ScenarioRange()
    ensures ParseHashRange(["0:100"]) == Some(HashRange(0, 100))
  {
    ParseZero();
    ParseHundred();
    assert "0:100" == "0" + ":" + "100";
    ParseJoinedLiterals("0", "100");
  }

  lemma ParseZero()
    ensures ParseInt64("0") == Some(0)
  {
    assert "0"[..0] == "";
  }

  lemma ParseHundred()
    ensures ParseInt64("100") == Some(100)
  {
    assert DigitsValue("1") == 1 by {
      assert "1"[..0] == "";
    }
    assert DigitsValue("10") == 10 by {
      assert "10"[..1] == "1";
    }
    assert DigitsValue("100") == 100 by {
      assert "100"[..2] == "10";
    }
  }

  /** Rows 1, 3 and 5 hash into the range, in that index order. */
  lemma ScenarioCovered()
    ensures Covered(Index, Range, HalfOpen) == InRangeEntries
  {
    CoveredLiteral();
  }

  lemma CoveredLiteral()
    ensures Covered(Index, HashRange(0, 100), HalfOpen) == [Entry(5, 1), Entry(20, 3), Entry(99, 5)]
  {
    CoveredFive(Entry(5, 1), Entry(150, 2), Entry(20, 3), Entry(-7, 4), Entry(99, 5), HashRange(0, 100), HalfOpen);
  }

  /** Five entries of which the first, third and fifth are in range,
      peeled one entry at a time. */
  lemma CoveredFive(a: Entry, b: Entry, c: Entry, d: Entry, e: Entry, range: HashRange, covers: RangeTest)
    requires covers(range, a.hash) && !covers(range, b.hash) && covers(range, c.hash)
    requires !covers(range, d.hash) && covers(range, e.hash)
    ensures Covered([a, b, c, d, e], range, covers) == [a, c, e]
  {
    CoveredFour(b, c, d, e, range, covers);
    assert [a, b, c, d, e][1..] == [b, c, d, e];
    assert [a] + [c, e] == [a, c, e];
  }

  lemma CoveredFour(b: Entry, c: Entry, d: Entry, e: Entry, range: HashRange, covers: RangeTest)
    requires !covers(range, b.hash) && covers(range, c.hash)
    requires !covers(range, d.hash) && covers(range, e.hash)
    ensures Covered([b, c, d, e], range, covers) == [c, e]
  {
    CoveredThree(c, d, e, range, covers);
    assert [b, c, d, e][1..] == [c, d, e];
  }

  lemma CoveredThree(c: Entry, d: Entry, e: Entry, range: HashRange, covers: RangeTest)
    requires covers(range, c.hash) && !covers(range, d.hash) && covers(range, e.hash)
    ensures Covered([c, d, e], range, covers) == [c, e]
  {
    CoveredTwo(d, e, range, covers);
    assert [c, d, e][1..] == [d, e];
    assert [c] + [e] == [c, e];
  }

  lemma CoveredTwo(d: Entry, e: Entry, range: HashRange, covers: RangeTest)
    requires !covers(range, d.hash) && covers(range, e.hash)
    ensures Covered([d, e], range, covers) == [e]
  {
    assert [e][1..] == [];
    assert [d, e][1..] == [e];
  }

  /** Before the pass, the clear is refused; the read then binds a cursor
      at the start of the range. */
  lemma ClearRefusedThenRead()
    ensures Activate(Create(["0:100"]), Table, HalfOpen, IndexClear, false)
            == Activation(Failed, Create(["0:100"]), Table)
    ensures Activate(Create(["0:100"]), Table, HalfOpen, IndexRead, false)
            == Activation(Succeeded, ReadCtx(0, false), Table)
  {
    ScenarioRange();
  }

  /** The first call writes the first two in-range rows and yields. */
  lemma FirstCall(positions: seq<int>)
    ensures var st := StreamMore(ReadCtx(0, false), Table, HalfOpen, Out, TwoRowsPerCall, positions);
            st.remaining == 1 && st.written == InRangeEntries[..2] && st.ctx == ReadCtx(2, false)
  {
    ScenarioCovered();
    FirstBatch();
    assert Covered(Table.index, Range, HalfOpen) == InRangeEntries;
  }

  lemma FirstBatch()
    ensures WriteBatch(InRangeEntries, 0, 0, TwoRowsPerCall) == Batch(InRangeEntries[..2], true)
  {
    assert !TwoRowsPerCall(InRangeEntries[0..1]);
    assert TwoRowsPerCall(InRangeEntries[0..2]);
  }

  /** The second call writes the last in-range row, runs out and returns 0. */
  lemma SecondCall(positions: seq<int>)
    ensures var st := StreamMore(ReadCtx(2, false), Table, HalfOpen, Out, TwoRowsPerCall, positions);
            st.remaining == 0 && st.written == InRangeEntries[2..] && st.ctx == ReadCtx(3, true)
  {
    ScenarioCovered();
    SecondBatch();
    assert Covered(Table.index, Range, HalfOpen) == InRangeEntries;
  }

  lemma SecondBatch()
    ensures WriteBatch(InRangeEntries, 2, 0, TwoRowsPerCall) == Batch(InRangeEntries[2..], false)
  {
    assert !TwoRowsPerCall(InRangeEntries[2..3]);
  }

  /** A further call on the exhausted cursor writes nothing and returns 0
      again. */
  lemma ThirdCall(positions: seq<int>)
    ensures var st := StreamMore(ReadCtx(3, true), Table, HalfOpen, Out, TwoRowsPerCall, positions);
            st.remaining == 0 && st.written == [] && st.ctx == ReadCtx(3, true)
  {
    ScenarioCovered();
    assert Covered(Table.index, Range, HalfOpen) == InRangeEntries;
  }

  /** After the pass the clear removes rows 1, 3 and 5 and keeps 2 and 4,
      with no per-row delete notification. */
  lemma ClearCall()
    ensures Activate(ReadCtx(3, true), Table, HalfOpen, IndexClear, false).store.rows
            == {2, 4}
    ensures Activate(ReadCtx(3, true), Table, HalfOpen, IndexClear, false).store.notified
            == []
  {
    ScenarioCovered();
    InRangeRows();
    SetArithmetic();
  }

  lemma InRangeRows()
    ensures RowIds(InRangeEntries) == {1, 3, 5}
  {
    forall x | x in RowIds(InRangeEntries)
      ensures x in {1, 3, 5}
    {
      var e :| e in InRangeEntries && e.row == x;
    }
    assert InRangeEntries[0] in InRangeEntries && InRangeEntries[1] in InRangeEntries && InRangeEntries[2] in InRangeEntries;
  }

  lemma SetArithmetic()
    ensures {1, 2, 3, 4, 5} - {1, 3, 5} == {2, 4}
  {
    var d: set<RowId> := {1, 2, 3, 4, 5} - {1, 3, 5};
    forall x | x in d ensures x in {2, 4} { }
  }
}
