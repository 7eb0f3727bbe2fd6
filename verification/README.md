# Elastic index read/clear context — a Dafny model

During elastic rebalancing, VoltDB moves the rows of a partition whose hash
lies in a given range. The execution engine's `ElasticIndexReadContext`
handles this in two stream phases:

1. **Index read.** An index-read stream binds a range cursor over the
   elastic index. The caller then pumps the context. Each pump writes rows
   in index order into a single output stream, until the stream asks to
   yield or the cursor runs dry. A pump returns 1 (the stream yielded;
   rows may remain), 0 (the cursor ran dry; the context is now
   *materialized*) or -1 (error). A stream that yields on the range's last
   row gets 1; the next pump then finds the cursor empty and returns 0.
   Only a pump that returns 0 sets the materialized flag.
2. **Index clear.** An index-clear stream is accepted only once the context
   is materialized. It deletes every row of the range from the table while
   delete notifications are suppressed, then erases the range from the
   index.

The range comes from a single predicate string `"<lower>:<upper>"` of two
signed 64-bit decimals.

The model is functional. The context is an immutable record:

- the predicate strings;
- the materialized flag;
- an optional cursor, which is a range plus the number of in-range entries
  already handed out.

The table side is a `Store`:

- the elastic index, as a sequence of (hash, row) entries;
- the set of live rows;
- the two readiness flags;
- a delete-notification suppression flag;
- the log of delete notifications sent.

Some inputs are parameters:

- **The range test** (`covers`). Whether a hash lies in a range belongs to
  the index, so it is an abstract function.
- **The yield decision** (`yieldAt`). The output stream's decision to yield
  is an oracle. It is asked after every row, with the rows written since
  the stream was opened in the current call.

Files:

- `optional.dfy`: `Option`.
- `int64_text.dfy`: 64-bit integers and their decimal text. The parser has
  a printer as its round-trip partner.
- `hash_range.dfy`: the range predicate parser.
- `elastic_index.dfy`: entries, the cursor's view of the index, and the
  store.
- `read_context.dfy`: construction, activation, deactivation, the
  streaming call (as a function and as the loop the source runs), and the
  bulk delete.
- `rebalance.dfy`: properties of whole call sequences.
  - Pump sequences emit the range once, in order.
  - Ship before delete: over any sequence of activations and pumps, with
    no other writer to the table or index, a row leaves the table only
    after a pump shipped it.
- `scenario.dfy`: a worked example. The range is 0:100, the index has five
  rows of which three are in range, and the stream yields after two rows.

Two facts about the code that the model keeps:

- **A -1 return never sets the flag.** The `remaining <= 0` test that sets
  the materialized flag sits inside the non-error branch.
  `ReadContext.StreamMore` states that the flag is set exactly by a call
  returning 0.
- **The worked example returns 1, then 0.** With three in-range rows and a
  stream that yields after two, the first call writes two rows and returns
  1. The second call writes the third row, finds the cursor empty and
  returns 0. A further call returns 0 and writes nothing. See
  `RebalanceScenario.FirstCall`, `SecondCall` and `ThirdCall`.

## Model

| member | source | states |
|---|---|---|
| Int64Text.ParseInt64 | src/ee/storage/ElasticIndexReadContext.cpp:195-196 | Accepted text is non-empty and consists of decimal digits, with an optional sign only in first position; `ParseSignedDigits` gives the converse and the value for every such text. |
| Int64Text.ParseSignedDigits | src/ee/storage/ElasticIndexReadContext.cpp:195-202 | An optional `+` or `-` followed by any non-empty run of digits, leading zeros included, converts to the signed value of the digits when it lies in the signed 64-bit range and fails otherwise. |
| Int64Text.ParseSignedPadded | src/ee/storage/ElasticIndexReadContext.cpp:195-196 | Every text of an optional sign, any number of leading zeros and the digits of an in-range magnitude is accepted: `"+5"` gives 5, `"007"` gives 7, `"-0…0"` followed by 2^63 gives INT64_MIN. |
| Int64Text.ZerosValue | src/ee/storage/ElasticIndexReadContext.cpp:195-196 | Leading zeros do not change the value of a run of digits. |
| Int64Text.ParseFormatRoundTrip | src/ee/storage/ElasticIndexReadContext.cpp:195-196 | Every signed 64-bit value's decimal text converts back to that value, across the full range including the minimum. |
| Int64Text.DigitsValueOfDigits | src/ee/storage/ElasticIndexReadContext.cpp:195-196 | Reading back the decimal digits of a natural number gives the number (induction on the digits). |
| Int64Text.OverflowRejected | src/ee/storage/ElasticIndexReadContext.cpp:195-202 | A magnitude above INT64_MAX, or above 2^63 after a minus sign, fails the conversion; it is never wrapped. |
| Int64Text.MalformedRejected | src/ee/storage/ElasticIndexReadContext.cpp:195-202 | The empty string, a lone sign and text ending in a non-digit fail the conversion. |
| Int64Text.ParsedHasNoColon | src/ee/storage/ElasticIndexReadContext.cpp:192-196 | Text the conversion accepts never contains the ':' separator. |
| HashRangeText.SplitToTwo | src/ee/storage/ElasticIndexReadContext.cpp:192-193 | Splitting gives two parts exactly when the separator occurs; the parts rebuild the string around the first separator; otherwise the one part is the whole string. |
| HashRangeText.SplitJoined | src/ee/storage/ElasticIndexReadContext.cpp:192-193 | Two strings joined by one separator split back into the same two strings when the first has no separator. |
| HashRangeText.ParseHashRange | src/ee/storage/ElasticIndexReadContext.cpp:182-206 | Soundness: a range comes only from exactly one string with exactly one ':', whose two sides convert to the lower and upper bound. |
| HashRangeText.ParseJoinedLiterals | src/ee/storage/ElasticIndexReadContext.cpp:186-197 | Completeness: one string made of two accepted 64-bit literals around ':' parses to the range of those two values. |
| HashRangeText.ParseFormatRange | src/ee/storage/ElasticIndexReadContext.cpp:182-206 | Printing any range and parsing the text back gives the same range. |
| HashRangeText.ParseHashRangeFailures | src/ee/storage/ElasticIndexReadContext.cpp:187-193 | A predicate count other than one, a string without ':' and a string with two or more ':' each give no range. |
| HashRangeText.ParseHashRangeAccepts | src/ee/storage/ElasticIndexReadContext.cpp:182-206 | "10:20" parses to the range (10, 20). |
| HashRangeText.ParseHashRangeRejects | src/ee/storage/ElasticIndexReadContext.cpp:182-206 | "10", "10:20:30", "a:20", no strings and two strings are all rejected. |
| ElasticIndex.Covered | src/ee/storage/ElasticIndexReadContext.cpp:217-221 | The cursor yields only index entries whose hash is in the range. |
| ElasticIndex.Uncovered | src/ee/storage/ElasticIndexReadContext.cpp:224 | Erasing the range leaves only index entries whose hash is outside it. |
| ElasticIndex.CoveredCount | src/ee/storage/ElasticIndexReadContext.cpp:217-221 | The cursor yields each in-range entry exactly as often as the index holds it, and no out-of-range entry. |
| ElasticIndex.CoveredUncoveredPartition | src/ee/storage/ElasticIndexReadContext.cpp:217-224 | The cursor's entries plus the entries left after erasing make up the index as a multiset: nothing is lost or invented. |
| ElasticIndex.ErasedRangeIsEmpty | src/ee/storage/ElasticIndexReadContext.cpp:224 | After the range is erased, a cursor over it yields nothing. |
| ReadContext.Create | src/ee/storage/ElasticIndexReadContext.cpp:32-41 | A new context keeps its predicate strings, is not materialized and has no cursor. |
| ReadContext.DeleteRows | src/ee/storage/ElasticIndexReadContext.cpp:218-221 | The delete loop removes exactly the rows of the entries it walks. With notifications suppressed it sends none. It does not touch the index. |
| ReadContext.DeleteStreamedTuples | src/ee/storage/ElasticIndexReadContext.cpp:211-225 | The table loses exactly the rows of in-range entries and keeps every other row. The index keeps exactly the out-of-range entries. No delete notification goes out. The suppression flag is back to its prior value. |
| ReadContext.UncoveredMembership | src/ee/storage/ElasticIndexReadContext.cpp:224 | An entry survives the erase exactly when it was in the index and is outside the range. |
| ReadContext.Activate | src/ee/storage/ElasticIndexReadContext.cpp:52-89 | Checks run in order: reactivated read, then index readiness, then type. Read succeeds exactly when the range parses, binding a cursor at its start. Clear fails unless materialized, else deletes the range. Other types are unsupported. Only a successful clear changes the store. A failure changes nothing. |
| ReadContext.ClearDeletesRangeAtClearTime | src/ee/storage/ElasticIndexReadContext.cpp:214-221 | The clear's delete (the store a successful clear activation produces) removes the row of every entry the index holds in the range at the moment of the clear, whether or not any pump shipped it. |
| ReadContext.Deactivate | src/ee/storage/ElasticIndexReadContext.cpp:94-108 | The context is kept alive after a read and released after a clear. |
| ReadContext.WriteBatchShape | src/ee/storage/ElasticIndexReadContext.cpp:150-161 | One call's batch is a run of consecutive cursor rows. It ends where the stream yielded, or at the last row when it did not. |
| ReadContext.WriteBatchFirstYield | src/ee/storage/ElasticIndexReadContext.cpp:150-161 | The write loop stops at the first row after which the stream yields. |
| ReadContext.StreamMore | src/ee/storage/ElasticIndexReadContext.cpp:114-177 | -1 exactly without a cursor or with other than one stream; then nothing changes and no position is appended. Otherwise 0 or 1, with exactly one position appended. An empty cursor gives 0 and writes nothing. Otherwise rows are written in order from the cursor, which advances past them. The code is 1 exactly when the stream yielded on the rows written, including a yield on the range's last row; 0 means the cursor ran dry with no yield. The flag is set exactly by a 0. |
| ReadContext.YieldOnLastRow | src/ee/storage/ElasticIndexReadContext.cpp:150-173 | A stream that first yields on the range's last row gets 1, with the cursor at the end of the range and the flag unchanged; the next call then returns 0. |
| ReadContext.WriteRows | src/ee/storage/ElasticIndexReadContext.cpp:150-161 | The source's write loop computes exactly the batch `WriteBatch` defines, and its stream ends one position further per row written. |
| ReadContext.StreamMoreLoop | src/ee/storage/ElasticIndexReadContext.cpp:114-177 | The streaming call written as the source's loop returns exactly the code, context, streams, positions and rows that `StreamMore` defines. |
| Rebalance.Pumps | src/ee/storage/ElasticIndexReadContext.cpp:114-177 | A pump sequence keeps the cursor bound to its range. |
| Rebalance.PumpsEmitConsecutive | src/ee/storage/ElasticIndexReadContext.cpp:133-173 | Across calls, a pump sequence writes consecutive in-range entries, each once, in index order. Every call before the last returns 1. A final 0 means the whole rest of the range was written and the flag is set. |
| Rebalance.FullPassEmitsRangeOnce | src/ee/storage/ElasticIndexReadContext.cpp:133-173 | A pass from a fresh cursor that ends with 0 writes exactly the in-range entries, each as often as the index holds it. |
| Rebalance.Step | src/ee/storage/ElasticIndexReadContext.cpp:171-173 | No call ever clears the materialized flag or changes the predicates. |
| Rebalance.ShippingAtStart | src/ee/storage/ElasticIndexReadContext.cpp:32-41 | A new context satisfies the ship-before-delete invariant. |
| Rebalance.ActivateKeepsShipping | src/ee/storage/ElasticIndexReadContext.cpp:52-89 | Any activation preserves the ship-before-delete invariant. |
| Rebalance.PumpKeepsShipping | src/ee/storage/ElasticIndexReadContext.cpp:114-177 | Any streaming call preserves the ship-before-delete invariant. |
| Rebalance.RunKeepsShipping | src/ee/storage/ElasticIndexReadContext.cpp:52-177 | Any sequence of activations and pumps preserves the ship-before-delete invariant. |
| Rebalance.ShipBeforeDelete | src/ee/storage/ElasticIndexReadContext.cpp:79-83 | Over any sequence of activations and pumps, with no other writer to the table or index, every row gone from the table was shipped by a pump first. The store stays untouched until the context is materialized and some pump has returned 0. |
| RebalanceScenario.ClearRefusedThenRead | src/ee/storage/ElasticIndexReadContext.cpp:67-82 | In the example, a clear before any read is refused and changes nothing. A read of "0:100" binds a cursor at the start of (0, 100). |
| RebalanceScenario.FirstCall | src/ee/storage/ElasticIndexReadContext.cpp:150-161 | The first call writes the first two in-range rows and returns 1. |
| RebalanceScenario.SecondCall | src/ee/storage/ElasticIndexReadContext.cpp:150-173 | The second call writes the third in-range row, returns 0 and sets the flag. |
| RebalanceScenario.ThirdCall | src/ee/storage/ElasticIndexReadContext.cpp:136-138 | A further call writes nothing and returns 0. |
| RebalanceScenario.ClearCall | src/ee/storage/ElasticIndexReadContext.cpp:211-225 | The clear then removes rows 1, 3 and 5, keeps rows 2 and 4, and sends no delete notification. |

## Left out

- **Byte-level serialization.** The model leaves out the byte-level tuple
  serialization and the row-count headers. It also leaves out the byte
  budget behind the output stream's yield, which is an oracle here. A
  stream's position advances by one per row.
- **Range bounds and wrap-around.** The exact bounds and wrap-around of
  `ElasticIndexHashRange` are not modelled. The in-range test is an
  abstract parameter.
- **Cursor and token implementations.** The iterator implementation of the
  range cursor is not modelled. `BulkDeleteToken` is modelled as a
  suppression flag that is set for the whole delete and then restored.
- **The library conversions.** `boost::lexical_cast<int64_t>` and
  `MiscUtil::splitToTwoString` are library code and are not part of this
  model. They are specified here:
  - The conversion accepts an optional sign and decimal digits in range,
    leading zeros included. Leading and trailing whitespace are rejected.
  - The split divides at the first ':' and returns the whole string when
    there is none.
- **The `(int)` position cast.** The `(int)` cast of the stream position is
  not modelled. Positions are unbounded integers, so a position beyond
  the 32-bit range is not truncated here.
- ReadContext.Deactivate: any stream type other than read or clear is a
  precondition violation. The source treats it as a fatal exception.
- **Logging.** `VOLT_ERROR` logging is a side effect only.
- **Concurrent change.** Transactions running between pumps, or between
  the last pump and the clear, could change the index or the table. From
  the read activation until the clear, the model changes the store only
  through the clear itself. `Rebalance.ShipBeforeDelete` holds only under
  that assumption: the clear deletes whatever is in range at that moment
  (`ReadContext.ClearDeletesRangeAtClearTime`), so a row inserted into the
  range behind the cursor or after the last pump would be deleted without
  having been shipped.
- **Other repository files.** The catalog context, the trace writer, the
  application-update procedures and the geospatial benchmark client are not
  part of this model. They are orchestration, I/O and threads around code
  outside the engine's streaming core.
- **Full-run scenario.** The worked example is stated call by call, not as
  one run of `Rebalance.Run`.
