# TickDB timeline, modelled in Dafny

TickDB keeps one `Timeline` per series. It is the in-memory index of that
series and holds two containers that must agree:

- a vector of timestamps, strictly ascending;
- a hash map from each timestamp to its opaque row.

`get` is a plain map lookup, and `at` and `index_range` index the vector
directly. The comparison queries, the shift queries, the time-window query
and both deletions locate positions with a five-mode bisection search. The
modes are EQ, GT, GE, LT and LE, and the search can take an optional lower
bound on the positions it returns. The queries are:

- point queries: `get`, `at` (negative positions count from the end), `gt`,
  `ge`, `lt`, `le` and `get_index_by_time`;
- window queries: `shift_left`, `shift_right`, `index_range` and
  `time_range`, which append rows to an output vector only when they succeed;
- mutators: the upsert `insert`, the point deletion `del(ts)` and the range
  deletion `del(start, end)`.

The model has two modules.

- `Util` (util.dfy) holds the search and the sorted insertion the timeline
  relies on:
  - `Search` is a pure specification built on the recursive bisection
    `Bisect`;
  - `BinarySearch` is a loop proved to compute `Search`;
  - `SortInsert` is the sorted insertion;
  - `Keep` and `Within` are reference definitions: order-preserving filters
    saying which entries a comparison query or an inclusive range is meant
    to find;
  - lemmas connect the searches to those filters.
- `TickDB` (timeline.dfy) holds the class `Timeline<Row>`:
  - the field `index: seq<nat>` is the timestamp vector and
    `data: map<nat, Row>` is the row map;
  - `Valid()` states that the index is strictly ascending and that its
    entries are exactly the keys of the map;
  - `insert` and both deletions are methods that change the two fields;
  - the read-only point queries are functions over the state;
  - the window queries are methods. Each takes the caller's vector `rows`
    and returns `ok` together with the new contents `out` of that vector.

Rows are a type parameter, and every query returns row values where the
source returns `const Slice*`.

## Model

| member | source | states |
|---|---|---|
| Util.Bisect | db/timeline.cpp:136-137 | For GT or GE over positions [lo, hi) of an ascending index: the result lies in [lo, hi], no position before it qualifies, and every position from it to hi qualifies. |
| Util.Search | db/timeline.cpp:44-58 | The search contract the call sites rely on. GT/GE give the smallest qualifying position at or above `lo`, or the size when none qualifies. LT/LE/EQ give the largest qualifying position at or above `lo`, or -1 when none qualifies. |
| Util.BinarySearch | db/timeline.cpp:140 | A loop over a shrinking window that returns exactly what `Search` specifies, in every mode and for every lower bound. |
| Util.BisectUnique | db/timeline.cpp:136-141 | Only one position splits a range into failing and qualifying entries, so any bisection that finds such a split agrees with `Bisect`. |
| Util.SortInsert | db/timeline.cpp:19 | Sorted insertion keeps the index ascending and adds exactly the new timestamp. A timestamp already present leaves the index unchanged. Otherwise the new timestamp is spliced in at one position. |
| Util.InsertAscending | db/timeline.cpp:19 | Placing a timestamp between the entries below it and those above it keeps the sequence ascending and adds only that timestamp. |
| Util.Keep | db/timeline.cpp:99-129 | The reference filter for a comparison query: every kept entry is in the index and qualifies, and nothing is added. |
| Util.KeepMembers | db/timeline.cpp:99-129 | An entry is kept if and only if it is in the index and qualifies. |
| Util.KeepAscending | db/timeline.cpp:99-129 | Filtering an ascending index keeps it ascending. |
| Util.KeepBounds | db/timeline.cpp:99-129 | The first kept entry is the least qualifying entry and the last kept entry the greatest. Nothing is kept exactly when no entry qualifies. |
| Util.KeepNone | db/timeline.cpp:73-75 | When no entry qualifies, the filter is empty. |
| Util.KeepBySearch | db/timeline.cpp:99-129 | A GT/GE search result is where the qualifying suffix starts, and an LT/LE result is where the qualifying prefix ends. This ties `gt`/`ge`/`lt`/`le` to the filter. |
| Util.Within | db/timeline.cpp:183-201 | The reference filter for an inclusive range: every entry lies in [a, b] and in the index. |
| Util.WithinMembers | db/timeline.cpp:183-201 | An entry is in the range filter if and only if it is in the index and within [a, b]. On an ascending index the result is ascending. |
| Util.WithinBySearch | db/timeline.cpp:187-194 | The GE search for `start`, then the LE search for `end` bounded below by it, find exactly the window of entries in [start, end]. Either failure sentinel means that window is empty. |
| Util.WithinInverted | db/timeline.cpp:184-186 | An inverted range (start > end) holds no entry. |
| Util.KeepWindow | db/timeline.cpp:191-192 | When the entries from `ps` on that are at most `b` are exactly those up to `pe`, filtering the suffix leaves the window ps..pe. |
| Util.LeSplit | db/timeline.cpp:140 | From `ps` on, an entry is at most `b` exactly when its position is at most the bounded LE result. |
| Util.CutWithin | db/timeline.cpp:151 | Erasing the found window of a range keeps the index ascending. The erased entries are exactly those within the range, and the entries that remain are exactly those outside it. |
| Util.LastOfPrefix | db/timeline.cpp:77-81 | The last `n` entries up to `pos` are the window starting at max(0, pos-n+1). |
| Util.FirstOfSuffix | db/timeline.cpp:92-96 | The first `n` entries from `pos` on are the window ending at min(size-1, pos+n-1). |
| Util.BelowWindow | db/timeline.cpp:73-81 | With an LT anchor at `pos`, some entry lies below `ts`. The last `n` entries below `ts` are exactly the clamped window `shift_left` extracts. |
| Util.AboveWindow | db/timeline.cpp:88-96 | With a GT anchor at `pos`, some entry lies above `ts`. The first `n` entries above `ts` are exactly the clamped window `shift_right` extracts. |
| Util.AscendingUnique | db/timeline.cpp:131-164 | An ascending sequence is determined by its members. The membership postconditions of the deletions therefore pin down the new index exactly. |
| Util.CutDetermined | db/timeline.cpp:151 | Any ascending sequence holding exactly the entries outside a cut equals the cut index. |
| Util.CutOne | db/timeline.cpp:160 | Erasing one position keeps the index ascending, shortens it by one, and loses exactly that entry. |
| Util.CutAscending | db/timeline.cpp:151 | Erasing positions [p, q) keeps the index ascending and removes exactly the entries of the cut. |
| TickDB.Timeline.constructor | db/timeline.cpp:8 | A new timeline is empty and valid. |
| TickDB.Timeline.Insert | db/timeline.cpp:12-20 | Insert is an upsert: the row map gets the new row and the containers stay in agreement. A present timestamp leaves the index unchanged. An absent one is spliced in at one position, so the size grows by one. Afterwards `Get(ts)` returns the row. |
| TickDB.Timeline.Get | db/timeline.cpp:22-25 | A row is found exactly when the timestamp is in the index, and that row is the mapped one. |
| TickDB.Timeline.At | db/timeline.cpp:27-40 | A position in [0, size) gives the row of that entry. A position in [-size, 0) gives the row of entry size+i. Any other position gives nothing. |
| TickDB.Timeline.AtFromEnd | db/timeline.cpp:27-40 | For every valid position i, `at(i - size)` equals `at(i)` and is found. |
| TickDB.Timeline.GetIndexByTime | db/timeline.cpp:42-67 | The result is -1 or a valid position, never the size. A valid position holds a qualifying entry, and it is the first qualifying entry for GT/GE and the last for LT/LE. The result is -1 exactly when nothing qualifies. For EQ a position is found exactly when the timestamp is present. |
| TickDB.Timeline.Gt | db/timeline.cpp:99-105 | The row of the smallest entry above `ts`, or nothing when there is none. |
| TickDB.Timeline.Ge | db/timeline.cpp:107-113 | The row of the smallest entry at or above `ts`, or nothing when there is none. |
| TickDB.Timeline.Lt | db/timeline.cpp:115-121 | The row of the largest entry below `ts`, or nothing when there is none. |
| TickDB.Timeline.Le | db/timeline.cpp:123-129 | The row of the largest entry at or below `ts`, or nothing when there is none. |
| TickDB.Timeline.AppendRows | db/timeline.cpp:176-178 | The copy loop appends the rows of positions lo..hi, in ascending order, after the rows already there. |
| TickDB.Timeline.IndexRange | db/timeline.cpp:166-181 | Each negative bound is shifted by the size on its own. Success means that 0 <= start <= end < size after the shift. On success exactly the rows of positions start..end are appended in order. On failure the output is unchanged. |
| TickDB.Timeline.Locate | db/timeline.cpp:183-194 | The position lookup of a time range finds a window exactly when some entry lies in [start, end], and that window is exactly those entries. |
| TickDB.Timeline.TimeRange | db/timeline.cpp:183-201 | Success means that some entry lies in [start, end]. On success exactly the rows of those entries are appended, in ascending order. On failure the output is unchanged. |
| TickDB.Timeline.ShiftLeft | db/timeline.cpp:69-82 | n <= 0 succeeds and appends nothing. Otherwise success means that some entry lies below `ts`, and the rows of the last min(n, count) such entries are appended in ascending order. |
| TickDB.Timeline.ShiftRight | db/timeline.cpp:84-97 | n <= 0 succeeds and appends nothing. Otherwise success means that some entry lies above `ts`, and the rows of the first min(n, count) such entries are appended in ascending order. |
| TickDB.Timeline.TakeRows | db/timeline.cpp:147-150 | The deletion loop collects the rows of positions ps..pe in order and erases exactly those keys from the row map. The rows of other keys are unchanged. |
| TickDB.Timeline.CutWindow | db/timeline.cpp:147-151 | Erasing positions ps..pe from both containers keeps them in agreement. It returns the erased rows in order and leaves the index cut at exactly that window. |
| TickDB.Timeline.DelRange | db/timeline.cpp:131-154 | Exactly the entries in [start, end] are removed from both containers, and their rows are returned in ascending order. Every other entry keeps its row. The size drops by the number removed. An inverted or empty range changes nothing and returns nothing. |
| TickDB.Timeline.Del | db/timeline.cpp:156-164 | Only `ts` is removed from both containers. The size drops by one if `ts` was present and is unchanged otherwise. Afterwards `Get(ts)` finds nothing. |

## Left out

- The implementations of `Util::binary_search` and `Util::sort_insert` are
  not visible and are not modelled. `Search`, `BinarySearch` and
  `SortInsert` are written from what the call sites in db/timeline.cpp rely
  on, not from their code.
- EQ with a lower bound is never used by a caller. `Search` lets EQ respect
  the bound like the other modes.
- A lower bound beyond the end of the index is treated as an empty suffix.
- `Slice` rows are a type parameter. The pointers the queries return become
  row values.
- View and pointer lifetimes are not modelled. `del(start, end)` returns
  pointers into map entries it then erases, which would dangle. The model
  returns the row values instead.
- Hash-map and vector internals are not modelled: iterator invalidation,
  rehashing, and the `find` iterator compared after `operator[]` in `insert`.
- Machine widths are not modelled. Timestamps are `nat` rather than
  `uint64_t`, and positions are unbounded integers. The index is assumed to
  hold fewer than 2^31 entries: with more, the `unsigned int len` of `at`
  (db/timeline.cpp:28) truncates, the `int` search results cannot hold every
  position, and the `++i` of the copy and deletion loops (db/timeline.cpp:147,
  :176, :196) overflows. Under that assumption the one `int` expression that
  can overflow is `pos + n - 1` in `shift_right` (db/timeline.cpp:92), when
  `n` is close to `INT_MAX`. On the usual wrap-around the negative
  `index_end` is compared as unsigned against `size()` at db/timeline.cpp:93
  and clamped to `size() - 1`, which is the result the model computes; the
  model does not represent the wrap itself. `pos - n + 1` in `shift_left`
  cannot overflow, since `pos` is a valid position and `n` is positive. The
  other comparisons against `size()` give the same results as on
  mathematical integers, except at db/timeline.cpp:63: there a -1 from LT,
  LE or EQ compares as `SIZE_MAX` and is reset to -1, the same value, so the
  result is still the one the model computes.
- The destructor and concurrency are left out: the class has no locking.
- The `default` branch of `get_index_by_time` (db/timeline.cpp:60-61), which
  gives -1 for any other `QueryOP` value, is not modelled: `Mode` has exactly
  the five cases.
- The loops of `index_range`, `time_range` and `del(start, end)` are
  factored into the helper methods `AppendRows` and `TakeRows`. The position
  lookup shared by `time_range` and `del(start, end)` is the method `Locate`.
