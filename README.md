# Section iteration protocol of wasmparser

This project models the iteration protocol that every section decoder in
wasmparser builds on (`src/readers/section_reader.rs`). It has three parts.

- The `SectionReader` capability is an abstract cursor over one section. It offers `read`, `eof`,
  `original_position` and `skip_to_end`, plus the default `ensure_end`. The separate
  `SectionWithLimitedItems::get_count` gives the declared item count.
- `SectionIterator` yields read results until the end of the section. It stops
  after the first error.
- `SectionIteratorLimited` yields at most the declared number of items. After
  that it reports bytes left over with one trailing-data error.

Modules, one per component:

- `Reader` (`reader.dfy`) holds the error and result datatypes, the `u32` counter type and the
  class `SectionReader`. No concrete decoder is modelled. A read's outcome is the constant function
  `decode` of the cursor position, because the section buffer is immutable. The trait
  assumptions the iterators rely on are explicit. `Progressive` says a successful read moves
  strictly forward and stays inside the section, and a failed one leaves the cursor inside it.
  `SkipToEnd` establishes `Eof()`. The progress assumption matters: a reader whose successful
  `read` did not advance would make `SectionIterator::next` yield forever, while the counted
  iterator would still stop through `left`. A ghost counter `readCalls` records how often `Read` ran.
- `Unbounded` (`section_iterator.dfy`) holds the class `SectionIterator` and its specification
  `UnboundedTrace`. That function lists every result the iterator will still yield from a cursor
  position.
- `Limited` (`section_iterator_limited.dfy`) holds the class `SectionIteratorLimited` and its
  specification `LimitedTrace`. It also holds the lemmas that relate the counted iterator to the
  unbounded one.

Each iterator's abstract state is `Remaining()`, the trace from its current state. `Next`
is proved to pop exactly the head of that trace: `old(Remaining()) == [r.value] + Remaining()`,
or `None` when the trace is empty. So every property proved of the traces holds for every
run of the iterator.

The counter `left` is a `u32`, so the proof of `left := left - 1` is the proof that it
never underflows. The only path that decrements it is guarded by `left != 0`.

Under the default `ensure_end`, the `Ok(()) => None` arm of `SectionIteratorLimited::next`
(`src/readers/section_reader.rs:103`) cannot be reached. `eof()` was false just above it, so
`ensure_end` always fails there. `SectionIteratorLimited.Next` states this: with `left == 0`
and bytes remaining it always yields the trailing-data error. The arm matters only for a reader that
overrides `ensure_end`.

The code keeps no explicit state. It stops after an error because `skip_to_end` makes `eof()`
true, and the model does the same.

The declared count is checked only from above. If the section ends after fewer than
`get_count()` items, all decoded successfully, `SectionIteratorLimited::next` returns `None`
at the `eof()` check (`src/readers/section_reader.rs:98-100`) with `left > 0` and reports no
error. `Limited.UndercountEndsWithoutError` states this.

## Model

| member | source | states |
|---|---|---|
| `Reader.SectionReader.constructor` | src/readers/section_reader.rs:18-23 | A reader over the section bytes from `start` to `end` (each read's outcome set by `decode`, `count` declared items) that satisfies the trait assumptions. No read has happened yet. |
| `Reader.SectionReader.Eof` | src/readers/section_reader.rs:21 | `eof()` holds exactly when the cursor `original_position()` equals the end of the section (`pos == end`). |
| `Reader.SectionReader.OriginalPosition` | src/readers/section_reader.rs:22 | `original_position()` is the cursor `pos`, which never lies beyond the end of the section. |
| `Reader.SectionReader.GetCount` | src/readers/section_reader.rs:35-37 | `get_count` is the header-declared count. It is a `u32`, fixed for the reader's lifetime. |
| `Reader.SectionReader.EnsureEnd` | src/readers/section_reader.rs:24-32 | Succeeds exactly when `eof()` holds. Otherwise the error has the message "Unexpected data at the end of the section" and its offset is `original_position()`. |
| `Reader.SectionReader.Read` | src/readers/section_reader.rs:20 | Called only before the end. It returns the item or error decoded at the cursor and moves the cursor as that decode does: strictly forward on success, staying inside the section. |
| `Reader.SectionReader.SkipToEnd` | src/readers/section_reader.rs:23 | Makes `eof()` true. It is idempotent: at the end already, nothing changes. |
| `Unbounded.UnboundedTrace` | src/readers/section_reader.rs:61-70 | The results still to be yielded. The trace is empty exactly at the end of the section, has at most as many results as bytes remain, and only its last result can be an error. |
| `Unbounded.PosAfter` | src/readers/section_reader.rs:65-69 | The cursor position after `k` further pulls. It stays within the section. It is before the end exactly while results remain, and at the end once they are exhausted. |
| `Unbounded.UnboundedStopsAtFirstError` | src/readers/section_reader.rs:62-69 | The `k`-th result is the decode at the position reached after `k` pulls. If that decode fails, it is the last result: `k` items, then the error, then nothing. |
| `Unbounded.SectionIterator.constructor` | src/readers/section_reader.rs:50-52 | Wraps the reader without touching it. The iterator will yield the reader's whole trace. |
| `Unbounded.SectionIterator.Next` | src/readers/section_reader.rs:61-70 | Pops the head of the remaining trace. At `eof()` it returns `None` without a read or any change. Otherwise it makes exactly one read. A failed read leaves the reader at `eof()`, so the next call returns `None`. The position never decreases. |
| `Limited.LimitedTrace` | src/readers/section_reader.rs:97-118 | The results still to be yielded with `left` items expected. The trace is empty exactly at the end of the section, and only its last result can be an error. |
| `Limited.LimitedIsTruncatedUnbounded` | src/readers/section_reader.rs:97-118 | The counted trace equals the unbounded trace when that has at most `left` results. Otherwise it is the first `left` results followed by one trailing-data error at the position reached after them. |
| `Limited.LimitedYieldBound` | src/readers/section_reader.rs:101-117 | At most `left` successful items and at most `left + 1` results are yielded. |
| `Limited.ExactCountYieldsAllItems` | src/readers/section_reader.rs:98-103 | When exactly `left` items decode back to back up to the end, all are yielded and no error is. |
| `Limited.UndercountEndsWithoutError` | src/readers/section_reader.rs:98-100 | When the section ends, with every item decoded, before `left` items were read, the counted trace equals the unbounded one and contains no error. The shortfall is not reported. |
| `Limited.TrailingDataReportedOnce` | src/readers/section_reader.rs:101-109 | When more than `left` results would follow, the first `left` are successful items. They are followed by exactly one error, the trailing-data error at the offset right after the last item, which lies inside the section. |
| `Limited.SectionIteratorLimited.constructor` | src/readers/section_reader.rs:85-88 | `left` starts at `get_count()` and the reader is not touched. The iterator will yield the counted trace for the declared count. |
| `Limited.SectionIteratorLimited.SizeHint` | src/readers/section_reader.rs:120-123 | Returns `(get_count(), Some(get_count()))`. Its frame is empty, so it cannot depend on `left`, the cursor or earlier errors. |
| `Limited.SectionIteratorLimited.Next` | src/readers/section_reader.rs:97-118 | Pops the head of the remaining trace. At `eof()` it returns `None` with nothing changed. With `left == 0` it never reads and yields the `ensure_end` error once, leaving the reader at `eof()`. Otherwise it makes exactly one read. A success yields the item and decrements `left` by exactly one. A failure yields the error, sets `left` to 0 and leaves the reader at `eof()`. |
| `Limited.FreshIteratorBounds` | src/readers/section_reader.rs:85-117 | A freshly created counted iterator yields at most `get_count()` successful items and at most `get_count() + 1` results in all. Only the last of them can be an error. |

## Left out

- Concrete section readers and the decoding of individual items are not modelled. Their behaviour is the `decode` function of the abstract reader. So a reader whose `read` depends on state other than the cursor position is not covered.
- The real definitions of `BinaryReaderError` and `Result` come from the parent module and are not part of this model. The error is modelled as a message and an offset.
- Only the default `ensure_end` is modelled. A reader that overrides it can reach the `Ok(()) => None` arm of `SectionIteratorLimited::next`, and that case is not covered.
- Rust generics, trait objects, ownership of the reader by the iterator, and the rest of the `Iterator` protocol beyond `next` and `size_hint` are left out. Each iterator is a class holding a reference to its reader.
- `Limited.SectionIteratorLimited.SizeHint`: the `u32` to `usize` cast is left out. Both sides are naturals below 2^32.
- Where a failed `read` leaves the cursor is kept (`stop`). It is never observable, because both iterators call `skip_to_end` right after a failure.
