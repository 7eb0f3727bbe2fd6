/** The read/clear context driven from outside, as the rebalance caller
    drives it: activate a read, pump until the code is 0, activate a
    clear.  The properties here are about whole sequences of calls. */
module Rebalance {
  import opened Optional
  import opened HashRangeText
  import opened ElasticIndex
  import opened ReadContext

  /** The caller's pump loop: one call per oracle (a fresh sink each call),
      stopping after the first call that returns 0. */
  datatype PumpRun = PumpRun(ctx: Context, codes: seq<int>, emitted: seq<Entry>)

  function Pumps(ctx: Context, store: Store, covers: RangeTest, sink: Sink, oracles: seq<YieldOracle>): (r: PumpRun)
    requires ctx.Valid() && ctx.cursor.Some?
    decreases |oracles|
    ensures r.ctx.Valid() && r.ctx.cursor.Some? && r.ctx.cursor.value.range == ctx.cursor.value.range
  {
    if |oracles| == 0 then PumpRun(ctx, [], [])
    else
      var step := StreamMore(ctx, store, covers, [sink], oracles[0], []);
      if step.remaining == 0 then PumpRun(step.ctx, [0], step.written)
      else
        var rest := Pumps(step.ctx, store, covers, sink, oracles[1..]);
        PumpRun(rest.ctx, [step.remaining] + rest.codes, step.written + rest.emitted)
  }

  /** What a pump sequence starting at cursor position `from` over `rows`
      has done: written consecutive entries in index order up to its final
      position, returned 1 on every call before the last, and, if the last
      returned 0, written the whole rest of the range and set the flag. */
  ghost predicate EmitsConsecutive(r: PumpRun, rows: seq<Entry>, from: nat) {
    && r.ctx.cursor.Some?
    && from <= r.ctx.cursor.value.pos <= |rows|
    && r.emitted == rows[from..r.ctx.cursor.value.pos]
    && (forall i :: 0 <= i < |r.codes| - 1 ==> r.codes[i] == 1)
    && (0 < |r.codes| && r.codes[|r.codes| - 1] == 0 ==> r.emitted == rows[from..] && r.ctx.materialized)
  }

  /** One pump from a position inside the range moves forward within the
      range, writes the entries it passes and never fails. */
  lemma PumpOnce(ctx: Context, store: Store, covers: RangeTest, sink: Sink, yieldAt: YieldOracle)
    requires ctx.Valid() && ctx.cursor.Some?
    requires ctx.cursor.value.pos <= |Covered(store.index, ctx.cursor.value.range, covers)|
    ensures var step := StreamMore(ctx, store, covers, [sink], yieldAt, []);
            var rows := Covered(store.index, ctx.cursor.value.range, covers);
            && step.remaining != -1
            && step.ctx.Valid() && step.ctx.cursor.Some?
            && step.ctx.cursor.value.range == ctx.cursor.value.range
            && ctx.cursor.value.pos <= step.ctx.cursor.value.pos <= |rows|
            && step.written == rows[ctx.cursor.value.pos..step.ctx.cursor.value.pos]
            && (step.remaining == 0 ==> step.ctx.cursor.value.pos == |rows| && step.ctx.materialized)
  {
  }

  lemma ConcatSlices(rows: seq<Entry>, from: nat, mid: nat, to: nat)
    requires from <= mid <= to <= |rows|
    ensures rows[from..to] == rows[from..mid] + rows[mid..to]
  {
  }

  lemma {:induction false} PumpsEmitConsecutive(ctx: Context, store: Store, covers: RangeTest, sink: Sink,
                                                oracles: seq<YieldOracle>)
    requires ctx.Valid() && ctx.cursor.Some?
    decreases |oracles|
    requires ctx.cursor.value.pos <= |Covered(store.index, ctx.cursor.value.range, covers)|
    ensures EmitsConsecutive(Pumps(ctx, store, covers, sink, oracles),
                             Covered(store.index, ctx.cursor.value.range, covers), ctx.cursor.value.pos)
  {
    var rows := Covered(store.index, ctx.cursor.value.range, covers);
    var from := ctx.cursor.value.pos;
    if |oracles| == 0 {
      assert rows[from..from] == [];
    } else {
      var step := StreamMore(ctx, store, covers, [sink], oracles[0], []);
      PumpOnce(ctx, store, covers, sink, oracles[0]);
      var mid := step.ctx.cursor.value.pos;
      if step.remaining == 0 {
        assert rows[from..] == rows[from..mid];
      } else {
        PumpsEmitConsecutive(step.ctx, store, covers, sink, oracles[1..]);
        var rest := Pumps(step.ctx, store, covers, sink, oracles[1..]);
        var to := rest.ctx.cursor.value.pos;
        ConcatSlices(rows, from, mid, to);
        ConcatSlices(rows, from, mid, |rows|);
        assert Pumps(ctx, store, covers, sink, oracles)
               == PumpRun(rest.ctx, [step.remaining] + rest.codes, step.written + rest.emitted);
      }
    }
  }

  /** A full pass from a freshly bound cursor that ends with 0 emits exactly
      the in-range entries: each as many times as the index holds it (once,
      for an index without duplicates), none from outside the range. */
  lemma FullPassEmitsRangeOnce(ctx: Context, store: Store, covers: RangeTest, sink: Sink,
                               oracles: seq<YieldOracle>, e: Entry)
    requires ctx.Valid() && ctx.cursor.Some? && ctx.cursor.value.pos == 0
    requires var r := Pumps(ctx, store, covers, sink, oracles);
             0 < |r.codes| && r.codes[|r.codes| - 1] == 0
    ensures var r := Pumps(ctx, store, covers, sink, oracles);
            && r.emitted == Covered(store.index, ctx.cursor.value.range, covers)
            && multiset(r.emitted)[e]
               == if covers(ctx.cursor.value.range, e.hash) then multiset(store.index)[e] else 0
  {
    var rows := Covered(store.index, ctx.cursor.value.range, covers);
    PumpsEmitConsecutive(ctx, store, covers, sink, oracles);
    assert EmitsConsecutive(Pumps(ctx, store, covers, sink, oracles), rows, 0);
    assert rows[0..] == rows;
    CoveredCount(store.index, ctx.cursor.value.range, covers, e);
  }

  /** The calls the caller can make. */
  datatype Event =
    | ActivateEvent(kind: StreamType, reactivate: bool)
    | PumpEvent(sinks: seq<Sink>, yieldAt: YieldOracle)

  /** The context and store, with what the caller has seen so far: the
      position list it handed to every pump, every pump's code, and every
      row shipped by a pump. */
  datatype System = System(ctx: Context, store: Store, positions: seq<int>, codes: seq<int>, shipped: seq<Entry>)

  function Start(predicates: seq<string>, store: Store): System {
    System(Create(predicates), store, [], [], [])
  }

  function Step(sys: System, covers: RangeTest, ev: Event): (r: System)
    requires sys.ctx.Valid()
    ensures r.ctx.Valid()
    ensures r.ctx.predicates == sys.ctx.predicates
    ensures sys.ctx.materialized ==> r.ctx.materialized
  {
    match ev
    case ActivateEvent(kind, reactivate) =>
      var a := Activate(sys.ctx, sys.store, covers, kind, reactivate);
      sys.(ctx := a.ctx, store := a.store)
    case PumpEvent(sinks, yieldAt) =>
      var s := StreamMore(sys.ctx, sys.store, covers, sinks, yieldAt, sys.positions);
      sys.(ctx := s.ctx, positions := s.positions, codes := sys.codes + [s.remaining],
           shipped := sys.shipped + s.written)
  }

  function Run(sys: System, covers: RangeTest, events: seq<Event>): (r: System)
    requires sys.ctx.Valid()
    decreases |events|
  {
    if |events| == 0 then sys else Run(Step(sys, covers, events[0]), covers, events[1..])
  }

  ghost predicate PrefixShipped(rows: seq<Entry>, pos: nat, shipped: seq<Entry>) {
    forall i :: 0 <= i < |rows| && i < pos ==> rows[i] in shipped
  }

  ghost predicate AllShipped(rows: seq<Entry>, shipped: seq<Entry>) {
    forall e :: e in rows ==> e in shipped
  }

  /** The ship-before-delete invariant, relative to the store `store0` the
      context started on. */
  ghost predicate Shipping(sys: System, store0: Store, covers: RangeTest) {
    && sys.ctx.Valid()
    // A bound cursor is always bound to the context's own parsed range.
    && (sys.ctx.cursor.Some? ==> ParseHashRange(sys.ctx.predicates) == Some(sys.ctx.cursor.value.range))
    // Every entry the cursor has passed has been shipped.
    && (sys.ctx.cursor.Some? ==>
          PrefixShipped(Covered(sys.store.index, sys.ctx.cursor.value.range, covers),
                        sys.ctx.cursor.value.pos, sys.shipped))
    // Once materialized, every entry of the range has been shipped.
    && (sys.ctx.materialized ==>
          AllShipped(Covered(sys.store.index, sys.ctx.cursor.value.range, covers), sys.shipped))
    // Every row gone from the table was shipped first.
    && store0.rows - sys.store.rows <= RowIds(sys.shipped)
    // Nothing changes in the store before the range is materialized ...
    && (!sys.ctx.materialized ==> sys.store == store0)
    // ... and it is materialized only after some pump returned 0.
    && (sys.ctx.materialized ==> 0 in sys.codes)
  }

  lemma ShippingAtStart(predicates: seq<string>, store: Store, covers: RangeTest)
    ensures Shipping(Start(predicates, store), store, covers)
  {
  }

  lemma RowIdsMonotone(a: seq<Entry>, b: seq<Entry>)
    requires forall e :: e in a ==> e in b
    ensures RowIds(a) <= RowIds(b)
  {
  }

  lemma {:induction false} ActivateKeepsShipping(sys: System, store0: Store, covers: RangeTest,
                                                 kind: StreamType, reactivate: bool)
    requires Shipping(sys, store0, covers)
    ensures Shipping(Step(sys, covers, ActivateEvent(kind, reactivate)), store0, covers)
  {
    var a := Activate(sys.ctx, sys.store, covers, kind, reactivate);
    var next := Step(sys, covers, ActivateEvent(kind, reactivate));
    if a.code == Succeeded && kind == IndexClear {
      var c := sys.ctx.cursor.value;
      var rows := Covered(sys.store.index, c.range, covers);
      RowIdsMonotone(rows, sys.shipped);
      assert Covered(next.store.index, c.range, covers) == [];
      assert store0.rows - next.store.rows <= (store0.rows - sys.store.rows) + RowIds(rows);
    }
  }

  /** Shipping the entries from `from` to `to` extends a shipped prefix of
      `rows` to the prefix ending at `to`. */
  lemma ExtendShippedPrefix(rows: seq<Entry>, shipped: seq<Entry>, written: seq<Entry>, from: nat, to: nat)
    requires from <= to <= |rows| && written == rows[from..to]
    requires PrefixShipped(rows, from, shipped)
    ensures PrefixShipped(rows, to, shipped + written)
  {
    forall i | 0 <= i < |rows| && i < to
      ensures rows[i] in shipped + written
    {
      if i < from {
        assert rows[i] in shipped;
      } else {
        assert (shipped + written)[|shipped| + (i - from)] == rows[i];
      }
    }
  }

  lemma PumpKeepsShipping(sys: System, store0: Store, covers: RangeTest,
                           sinks: seq<Sink>, yieldAt: YieldOracle)
    requires Shipping(sys, store0, covers)
    ensures Shipping(Step(sys, covers, PumpEvent(sinks, yieldAt)), store0, covers)
  {
    var s := StreamMore(sys.ctx, sys.store, covers, sinks, yieldAt, sys.positions);
    if s.remaining == -1 {
      var next := Step(sys, covers, PumpEvent(sinks, yieldAt));
      assert next.ctx == sys.ctx && next.store == sys.store && next.shipped == sys.shipped;
    } else {
      PumpSuccessKeepsShipping(sys, store0, covers, sinks, yieldAt);
    }
  }

  /** A whole shipped prefix is the whole range shipped. */
  lemma PrefixShippedAll(rows: seq<Entry>, pos: nat, shipped: seq<Entry>)
    requires PrefixShipped(rows, pos, shipped) && |rows| <= pos
    ensures AllShipped(rows, shipped)
  {
    forall e | e in rows
      ensures e in shipped
    {
      var i :| 0 <= i < |rows| && rows[i] == e;
    }
  }

  lemma ShippedGrows(rows: seq<Entry>, pos: nat, shipped: seq<Entry>, more: seq<Entry>)
    ensures PrefixShipped(rows, pos, shipped) ==> PrefixShipped(rows, pos, shipped + more)
    ensures AllShipped(rows, shipped) ==> AllShipped(rows, shipped + more)
  {
  }

  /** How a successful pump moves the cursor over `rows`: from `from` to
      `to`, writing exactly the entries in between. */
  ghost predicate Advanced(rows: seq<Entry>, from: nat, to: nat, written: seq<Entry>) {
    && from <= to
    && (from < |rows| ==> to <= |rows| && written == rows[from..to])
    && (|rows| <= from ==> to == from && written == [])
  }

  /** `next` is `sys` after a successful pump that returned `code` and
      wrote `written`. */
  ghost predicate PumpedFrom(sys: System, next: System, covers: RangeTest, written: seq<Entry>, code: int) {
    && sys.ctx.cursor.Some?
    && next.ctx.Valid() && next.ctx.predicates == sys.ctx.predicates
    && next.ctx.cursor.Some? && next.ctx.cursor.value.range == sys.ctx.cursor.value.range
    && next.store == sys.store && next.shipped == sys.shipped + written
    && next.codes == sys.codes + [code]
    && (next.ctx.materialized <==> sys.ctx.materialized || code == 0)
    && var rows := Covered(sys.store.index, sys.ctx.cursor.value.range, covers);
       && Advanced(rows, sys.ctx.cursor.value.pos, next.ctx.cursor.value.pos, written)
       && (code == 0 ==> |rows| <= next.ctx.cursor.value.pos)
  }

  /** A pump that does not fail advances the cursor and ships what it
      passed. */
  lemma PumpAdvances(sys: System, covers: RangeTest, sinks: seq<Sink>, yieldAt: YieldOracle)
    requires sys.ctx.Valid()
    requires StreamMore(sys.ctx, sys.store, covers, sinks, yieldAt, sys.positions).remaining != -1
    ensures var s := StreamMore(sys.ctx, sys.store, covers, sinks, yieldAt, sys.positions);
            PumpedFrom(sys, Step(sys, covers, PumpEvent(sinks, yieldAt)), covers, s.written, s.remaining)
  {
  }

  /** The invariant survives any successor state that advances the cursor
      and ships what it passed, whatever call produced it. */
  lemma ShippingAfterAdvance(sys: System, next: System, store0: Store, covers: RangeTest,
                             written: seq<Entry>, code: int)
    requires Shipping(sys, store0, covers)
    requires PumpedFrom(sys, next, covers, written, code)
    ensures Shipping(next, store0, covers)
  {
    var c := sys.ctx.cursor.value;
    var rows := Covered(sys.store.index, c.range, covers);
    var pos' := next.ctx.cursor.value.pos;
    RowIdsMonotone(sys.shipped, next.shipped);
    ShippedGrows(rows, c.pos, sys.shipped, written);
    ShippedGrows(rows, pos', sys.shipped, written);
    assert PrefixShipped(rows, pos', next.shipped) by {
      if c.pos < |rows| {
        ExtendShippedPrefix(rows, sys.shipped, written, c.pos, pos');
      }
    }
    if next.ctx.materialized && !sys.ctx.materialized {
      PrefixShippedAll(rows, pos', next.shipped);
    }
  }

  lemma PumpSuccessKeepsShipping(sys: System, store0: Store, covers: RangeTest,
                                 sinks: seq<Sink>, yieldAt: YieldOracle)
    requires Shipping(sys, store0, covers)
    requires StreamMore(sys.ctx, sys.store, covers, sinks, yieldAt, sys.positions).remaining != -1
    ensures Shipping(Step(sys, covers, PumpEvent(sinks, yieldAt)), store0, covers)
  {
    var s := StreamMore(sys.ctx, sys.store, covers, sinks, yieldAt, sys.positions);
    var next := Step(sys, covers, PumpEvent(sinks, yieldAt));
    PumpAdvances(sys, covers, sinks, yieldAt);
    ShippingAfterAdvance(sys, next, store0, covers, s.written, s.remaining);
  }

  lemma {:induction false} RunKeepsShipping(sys: System, store0: Store, covers: RangeTest, events: seq<Event>)
    requires Shipping(sys, store0, covers)
    decreases |events|
    ensures Shipping(Run(sys, covers, events), store0, covers)
  {
    if |events| > 0 {
      match events[0] {
        case ActivateEvent(kind, reactivate) => ActivateKeepsShipping(sys, store0, covers, kind, reactivate);
        case PumpEvent(sinks, yieldAt) => PumpKeepsShipping(sys, store0, covers, sinks, yieldAt);
      }
      RunKeepsShipping(Step(sys, covers, events[0]), store0, covers, events[1..]);
    }
  }

  /** Ship before delete: over any sequence of activations and pumps, with
      no other writer to the table or index, a row leaves the table only
      after it was shipped by a pump, and the store is untouched until some
      pump has returned 0. */
  lemma ShipBeforeDelete(predicates: seq<string>, store: Store, covers: RangeTest, events: seq<Event>)
    ensures var r := Run(Start(predicates, store), covers, events);
            && store.rows - r.store.rows <= RowIds(r.shipped)
            && (r.store != store ==> r.ctx.materialized && 0 in r.codes)
  {
    ShippingAtStart(predicates, store, covers);
    RunKeepsShipping(Start(predicates, store), store, covers, events);
  }
}
