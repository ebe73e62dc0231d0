# Reel runtime core in Dafny

This project models the runtime of Reel, the per-trail aggregation engine that runs over a TrailDB. It covers three C files:

- `reel_std.c` holds the operations a compiled script calls on its variables:
  - the scalar operations increment, set and unset, with 64-bit wrap-around;
  - the table operations: element-wise increment, and set, read or clear of the slot the current event selects;
  - the truth-valued tests (`if_*`, `within_time`, `if_greater`);
  - binding a table to a field;
  - name resolution;
  - the fork engine. A root context keeps a set of keys forked in the current trail and a map from key to child context. A key forks at most once per trail, and the children can be listed in ascending key order.
- `reel_io.c` is the CSV serialiser. It writes a header row, the root context's row, then one row per child in key order. Everything goes into a character buffer that doubles whenever a text does not fit.
- `reel_util.c` has two parts:
  - the event snapshot buffer, which copies every event of a trail back to back into one byte buffer and records where each event starts;
  - the texts of the error codes.

## Layout

- `reel.dfy` (module `Reel`) holds the shared types of `reel.h`:
  - the 64-bit word type;
  - the variable record `Var`, the `Event` record and the error codes;
  - the parts of the TrailDB the runtime consults (`Db`), given as data and functions;
  - the `Context` class;
  - the ascending key order of a Judy array (`SortedKeys`).
- `growth.dfy` (module `Growth`) holds three things:
  - the growth policy both buffers share: `GrownSize` doubles a capacity until the content fits strictly below it;
  - allocation that may fail: `Malloc`, `Calloc` and `Realloc` succeed or fail nondeterministically;
  - the facts about both.
- `reel_std.dfy`, `reel_io.dfy` and `reel_util.dfy` each model one source file.

### Design

**Variables and tables.** Scalars are fields of the context's `vars` sequence, and the methods reassign that sequence. A table is an `array<u64>` that variables point to, so a forked child shares its parent's tables exactly as the C `memcpy` makes it.

**Judy arrays.**
- The per-trail key set is a `set<u64>`.
- The child map is a `map<u64, Context?>`; a null entry stands for a failed child allocation.
- `JLF`/`JLN` are `JudyFirst`/`JudyNext`. They are proved to visit `SortedKeys` in order.

**CSV.** The serialiser is specified by pure text functions: `HeaderText`, `RowText` and `CsvText`. These work over the values of the table slots, so that a row's text does not depend on the heap. The writing methods are proved to append exactly those texts.

**Event buffer.** `EventBuffer` is a class with a byte array and an index array, plus the recorded capacity of each. `Fill` is proved against `Serialized` (the events' bytes back to back) and `EventOffset` (where event `i` starts). A decoder, `DecodeEvent`, is proved to read every stored entry back as its event.

## Model

| member | source | states |
|---|---|---|
| ReelStd.Add64 | reel_std.c:7 | `+=` on a 64-bit word: the sum, less 2^64 when it overflows |
| ReelStd.Sub64 | reel_std.c:132 | unsigned subtraction: the difference, plus 2^64 when it would be negative |
| ReelStd.IncUint | reel_std.c:6-8 | `inc` adds to variable `i` modulo 2^64 and changes no other variable |
| ReelStd.SetValue | reel_std.c:27-29 | `set` of a UINT (and of an ITEM, lines 35-37) writes the value into variable `i` only |
| ReelStd.CopyValue | reel_std.c:31-33 | `set` from another variable (UINT, and ITEM at lines 39-41) copies variable `j`'s value into variable `i` only |
| ReelStd.UnsetValue | reel_std.c:80-86 | `unset` of a UINT or ITEM zeroes variable `i` only |
| ReelStd.IncTable | reel_std.c:10-23 | when both tables hold UINTs of the same field, every destination slot gains the source slot modulo 2^64, and a distinct source is unchanged; otherwise the context records TABLE_MISMATCH and no slot changes |
| ReelStd.SetTableItem | reel_std.c:43-51 | a UINT table bound to a field gets `rval` in exactly the slot the event's item selects, and every other slot is unchanged; an unbound table is untouched; a non-UINT table records TABLE_MISMATCH |
| ReelStd.SetUintFromTableItem | reel_std.c:53-62 | the variable takes the selected slot, or 0 from an unbound table; a non-UINT table records TABLE_MISMATCH and leaves the variable alone |
| ReelStd.UnsetTable | reel_std.c:66-71 | a bound table has all `table_length` slots zeroed; an unbound one is untouched |
| ReelStd.UnsetTableItem | reel_std.c:73-78 | a bound table has exactly the selected slot zeroed; an unbound one is untouched |
| ReelStd.IfNonZero | reel_std.c:90-96 | yields 1 exactly when the item or number is nonzero, else 0 (also `if_uint`/`if_uintptr`, lines 110-116) |
| ReelStd.IfEqual | reel_std.c:98-108 | yields 1 exactly when the two words are equal (also lines 118-124) |
| ReelStd.WithinTime | reel_std.c:128-133 | yields 1 exactly when `timestamp <= lval < timestamp + rval`; no subtraction wraps |
| ReelStd.IfGreater | reel_std.c:137-139 | yields 1 exactly when `lval > rval` |
| ReelStd.InitTable | reel_std.c:143-155 | an unknown field gives value, field and length 0 and success; a known field sets the field and the lexicon size, then either gives a fresh all-zero table and 0, or -1 when allocation fails |
| ReelStd.ResolveField | reel_std.c:232-238 | a known name gives its field's id and an unknown name gives 0, so a nonzero result is always the named field's id |
| ReelStd.ResolveItemLiteral | reel_std.c:224-230 | an unknown field gives item 0; otherwise the store's item for the value text in that field |
| ReelStd.Fork | reel_std.c:159-182 | see the note below the table |
| ReelStd.ForkOnVar | reel_std.c:159-194 | forking on a variable is forking on its value, with all four outcomes of `Fork`: a repeated key returns 0 and changes nothing; an existing child becomes the active child with result 1; otherwise a fresh copy of the context is stored under the key and activated; a failed allocation records FORK_FAILED, maps the key to null and returns 0 (`fork_item`/`fork_uint` at lines 184-190 call `Fork` directly) |
| ReelStd.ForkResetActive | reel_std.c:196-199 | the evaluated set becomes empty and the child map is kept |
| ReelStd.MarkedIsUnion | reel_std.c:162 | forking a sequence of keys marks exactly those keys |
| ReelStd.MarkedSnoc | reel_std.c:162 | one more fork extends the fold by its key, exactly as `Fork` extends the root's evaluated set, so the fold is the evaluated set after a trail's forks |
| ReelStd.ForkAtMostOncePerTrail | reel_std.c:159-165 | within one trail, the fork of `keys[j]` can return 1 exactly when that key was not evaluated at the trail's start and no earlier fork used it |
| Reel.SortedKeysMembers | reel_std.c:214-218 | the key order visits every key of the Judy array and only those |
| Reel.SortedKeysAscending | reel_std.c:214-218 | the key order is strictly ascending |
| ReelStd.FirstInKeyOrder | reel_std.c:214 | the least key is the first in key order |
| ReelStd.NextInKeyOrder | reel_std.c:217 | the least key above the `n`th is the `n+1`st; there is none exactly after the last |
| ReelStd.JudyFirst | reel_std.c:214 | JLF finds a key exactly when the map is nonempty, and that key is the first in key order |
| ReelStd.JudyNext | reel_std.c:217 | JLN after the `n`th key finds the `n+1`st, or nothing after the last |
| ReelStd.ChildAt | reel_std.c:216 | the `n`th child in key order is the child stored under the `n`th key |
| ReelStd.GetForks | reel_std.c:201-220 | returns the number of children and stores them in ascending key order at the front of the array; later elements are unchanged |
| Reel.Context.CopyOf | reel_std.c:174-176 | the child is a byte copy of the forking context (same variables, hence the same table arrays) with an empty child map and evaluated set |
| Growth.GrownSize | reel_util.c:57-58 | the grown capacity is at least the old one and strictly above what it must hold |
| Growth.GrownSizeIsMinimalDoubling | reel_io.c:30-35 | growing only doubles, and stops at the first capacity that fits |
| Growth.GrownSizeCompose | reel_util.c:57-58 | growing for `a` and then for `b >= a` gives the same capacity as growing for `b` |
| Growth.Realloc | reel_util.c:59-62 | either null, or a fresh block of the new size that starts with the old contents |
| Growth.Malloc | reel_io.c:106-107 | either null or a fresh block of the requested size |
| Growth.Calloc | reel_std.c:151-152 | either null or a fresh block of zero words |
| ReelIo.Decimal | reel_io.c:71 | the PRIu64 text is a nonempty string of digits with no leading zero, and "0" for 0 |
| ReelIo.DecimalRoundTrip | reel_io.c:71 | the decimal text of a number reads back as that number |
| ReelIo.DecimalInjective | reel_io.c:85 | different numbers have different decimal texts |
| ReelIo.JoinSnoc | reel_io.c:66-68 | one more column appends the delimiter and the column, except after no column |
| ReelIo.JoinCount | reel_io.c:81-86 | joining `n > 0` cells adds exactly `n - 1` delimiters |
| ReelIo.NoDigitDelimiter | reel_io.c:85 | a non-digit delimiter never occurs in a decimal |
| ReelIo.ViewsAgree | reel_io.c:80-85 | the slot values the row text is stated over are those the tables hold |
| ReelIo.HeaderParts | reel_io.c:123-129 | a table has one header column per slot |
| ReelIo.TableCellCounts | reel_io.c:79-86 | a table's header cell and its row cell hold the same number of delimiters |
| ReelIo.CellCounts | reel_io.c:69-88 | the header cell and the row cell of any column hold the same number of delimiters |
| ReelIo.CellsCounts | reel_io.c:62-68 | header and row have as many visible cells and delimiters, because the same visibility filter is applied to both |
| ReelIo.UnboundTableCells | reel_io.c:79-86 | a visible table left unbound for an unknown field (null pointer, length 0, as reel_init_table leaves it) can be written: it has no slots, and its header cell (lines 122-130) and row cell are empty |
| ReelIo.HeaderMatchesRow | reel_io.c:110-133 | the header line and every row of a context of the same struct have the same number of delimiters (columns), provided no name, value text or item text contains the delimiter |
| ReelIo.RowsOfRepresents | reel_io.c:142-143 | each child's row is that child's variables, store and current slot values |
| ReelIo.ChildrenInValues | reel_io.c:140-145 | every child met in key order is a child of the map |
| ReelIo.ChildrenInKeyOrderReadable | reel_io.c:140-145 | when every child can be written, so can each child met in key order |
| ReelIo.Vsnprintf | reel_io.c:27 | writes what fits of the text, then a NUL, leaves earlier characters unchanged, and returns the full length |
| ReelIo.StrAppend | reel_io.c:16-44 | on success the text follows the old contents, a NUL follows the text, the offset advances by the text's length, and the size is the old size doubled until the new offset fits strictly below it; null when realloc fails |
| ReelIo.StrAdd | reel_io.c:46 | the same, keeping the capacity the one reached by doubling from the first size |
| ReelIo.JoinAppend | reel_io.c:66-68 | writing a delimiter before every column but the first writes the joined columns |
| ReelIo.JoinStep | reel_io.c:81-86 | the same, one column of a list at a time |
| ReelIo.RowCellsStep | reel_io.c:62-65 | a variable adds a row cell exactly when it is visible |
| ReelIo.HeaderCellsStep | reel_io.c:110-113 | a variable adds a header cell exactly when it is visible |
| ReelIo.ConcatStep | reel_io.c:141-146 | each row written follows those before it |
| ReelIo.StrAddCell | reel_io.c:66-68 | appends the delimiter unless this is the first column, then the cell |
| ReelIo.OutputTableSlots | reel_io.c:80-86 | appends the table's slots in decimal, joined with the delimiter; a table of length 0 may have a null pointer, which is never read |
| ReelIo.OutputRowCell | reel_io.c:66-88 | appends the separator and the cell of one visible variable: a UINT in decimal, an ITEM's value text (nothing for 0), or a table's slots |
| ReelIo.FindHide | reel_io.c:58-60 | the result is true exactly when some variable named `_HIDE` holds a nonzero word |
| ReelIo.OutputRowCells | reel_io.c:62-89 | appends the cells of the visible variables in declaration order, joined with the delimiter |
| ReelIo.OutputCsvCtx | reel_io.c:48-92 | appends the context's row text and a newline; a hidden context leaves buffer, offset and size unchanged |
| ReelIo.OutputHeaderParts | reel_io.c:123-129 | appends `Name:value` for every slot, joined with the delimiter |
| ReelIo.OutputHeaderCell | reel_io.c:114-131 | appends the separator, then the name of a UINT or ITEM, or the `Name:value` columns of a table |
| ReelIo.OutputHeader | reel_io.c:109-133 | appends the header line: the visible columns joined with the delimiter, then a newline |
| ReelIo.CsvParts | reel_io.c:94-148 | the whole text is the header, then the root's row, then the children's row texts |
| ReelIo.OutputChildRow | reel_io.c:143 | appends one child's row |
| ReelIo.OutputChildren | reel_io.c:139-146 | appends the rows of the children in ascending key order |
| ReelIo.OutputRows | reel_io.c:135-146 | appends the root's row, then its children's rows |
| ReelIo.OutputCsv | reel_io.c:94-148 | returns a fresh buffer holding exactly the CSV text of the tree, NUL-terminated, whose size is CSV_BUFFER_SIZE doubled until the text fits; null when an allocation fails |
| ReelUtil.LittleEndianRoundTrip | reel_util.c:65 | a word stored in memory byte order reads back as the word |
| ReelUtil.EventBytes | reel_util.c:54 | an event takes 16 header bytes plus 8 per item |
| ReelUtil.ItemsRoundTrip | reel_util.c:65 | the item words of an event read back as its items, whatever follows them |
| ReelUtil.EventRoundTrip | reel_util.c:65 | the bytes of an event read back as that event, whatever follows them |
| ReelUtil.DecodeEvent | reel_util.c:54 | a decoded event fits in the bytes it was read from |
| ReelUtil.Serialized | reel_util.c:64-67 | the trail's bytes take exactly the events' sizes together |
| ReelUtil.EventOffsetStep | reel_util.c:50 | the first event starts at 0 and each next one where the previous one ends |
| ReelUtil.EventOffsetMonotone | reel_util.c:67 | event offsets grow with the index |
| ReelUtil.OffsetsStep | reel_util.c:66-67 | storing one more event appends its offset |
| ReelUtil.SerializedStep | reel_util.c:65-67 | copying one more event appends its bytes and its size |
| ReelUtil.Advance | reel_util.c:65-67 | the same, stated for the count after the increment |
| ReelUtil.SerializedPrefix | reel_util.c:64-67 | the bytes of the first `n` events are a prefix of the trail's bytes |
| ReelUtil.EntryBytes | reel_util.c:65-66 | entry `i` of a filled buffer is a byte copy of event `i` |
| ReelUtil.EntryIsEvent | reel_util.c:65-66 | the bytes from entry `i`'s offset on read back as event `i` |
| ReelUtil.DecodeAt | reel_util.c:65-66 | bytes that hold an encoded event at some offset decode, from that offset on, as that event |
| ReelUtil.EventBuffer.constructor | reel_util.c:12-17 | the recorded capacities are those of the two blocks |
| ReelUtil.EventBuffer.CopyEvent | reel_util.c:65 | the event's bytes land at the offset, and the bytes before it are unchanged |
| ReelUtil.EventBuffer.GrowBuffer | reel_util.c:57-63 | on success the buffer keeps its first `offset` bytes and its capacity is the old one doubled until `offset + size` fits strictly below it; false when realloc fails |
| ReelUtil.EventBuffer.PushEntry | reel_util.c:66-75 | records the offset as the next entry and keeps the earlier ones; the index capacity is doubled when the count reaches it, so the count stays below it |
| ReelUtil.EventBuffer.Append | reel_util.c:54-76 | one event: makes room, copies it after the bytes in use and records its offset |
| ReelUtil.EventBuffer.Fill | reel_util.c:45-79 | see the note below the table |
| ReelUtil.NewEventBuffer | reel_util.c:19-35 | either null, or a fresh buffer of INITIAL_BUFFER_SIZE bytes with an index of INITIAL_EVENTS_SIZE entries |
| ReelUtil.ErrorStr | reel_util.c:81-92 | the text is "Unknown error" exactly for codes other than OUT_OF_MEMORY, TABLE_MISMATCH and FORK_FAILED (so also for SETPOS_OUT_OF_BOUNDS) |
| ReelUtil.ErrorStrDistinct | reel_util.c:81-92 | the three runtime errors have three different texts |
| ReelUtil.ParseErrorStr | reel_util.c:94-113 | the text is "Unknown error" exactly for codes outside the seven parse codes |
| ReelUtil.ParseErrorStrDistinct | reel_util.c:94-113 | each of the seven parse codes has a text of its own |

Two rows need more than a table cell.

**`ReelStd.Fork`.**
- The key ends up in the evaluated set.
- A key already in the set returns 0 and changes nothing else.
- Otherwise there are three outcomes:
  - The key already has a child: that child becomes active and the call returns 1.
  - The key has no child, and the allocation succeeds: a fresh copy of the context is stored under the key, becomes active, and the call returns 1.
  - The key has no child, and the allocation fails: FORK_FAILED is recorded, the key maps to null, and the call returns 0.

**`ReelUtil.EventBuffer.Fill`.** On success:
- the event count is the number of events in the trail;
- the buffer starts with the events' bytes back to back;
- entry `i` of the index is event `i`'s offset;
- each capacity is its old one doubled until what it holds fits strictly below it.

It returns null when a realloc fails.

## Where the code and its description differ

The model follows the code in each case:

- **Forking an already evaluated key.** The intended behaviour, as described for the project, is that forking a key already evaluated in the trail activates that key's child. The code returns 0 and leaves the active child as it was (reel_std.c:162-164).
- **What a new child starts with.** The description calls a new child a deep clone whose owned tables start at zero. The code copies the context byte for byte (reel_std.c:174), so the child shares the parent's table arrays and holds its current scalar values.
- **What a child is copied from.** The child is a copy of the forking context, which may itself be a child, and not of the root.

## Left out

- `reel_parse_var` (reel_io.c:11-14) is an empty function and is not modelled.
- reel_query.c and reel_cli.c are not part of this model. They are command-line plumbing: option parsing, file reading, process exit, and the per-trail evaluation loop that calls generated code.
- Merging and reducing trees, shards and threads, and the position-jump loop are not part of this model. They are not in the modelled files.
- TrailDB and Judy internals are abstract:
  - the lexicon, item values, item texts and item lookup are fields of `Db`;
  - the cursor is an input sequence of events;
  - Judy arrays are sets and maps.
- Freeing memory is not modelled: `reel_event_buffer_free`, the `free` on a failed `reel_str_append`, and the release of a half-built event buffer. Leaks are not modelled either.
- Failure of the `calloc` of the event buffer struct itself is not modelled. `NewEventBuffer` models only the two block allocations.
- ReelStd.GetForks requires an array that already holds every child. When the array is too small, the source reallocates into a local pointer (reel_std.c:208), so the caller never receives the grown array. The model does not reproduce that path or its -1 result.
- ReelStd.SetTableItem, ReelStd.SetUintFromTableItem and ReelStd.UnsetTableItem require two things of the event, as the source does without checking: it has an item for the table's field, and that item's value index is below the table length.
- ReelUtil.EventBuffer.Fill stores each entry as a byte offset into the buffer, not as a pointer. The source's pointers go stale when a later realloc moves the buffer (reel_util.c:59 and reel_util.c:66).
- ReelUtil.EventBuffer.Fill leaves the state after a failed realloc unspecified (event count, sizes and contents). In the source the recorded size has already doubled although the block has not grown, and its caller exits at once (reel_query.c:37-42).
- ReelUtil.EventBytes lays out the 64-bit words of an event least significant byte first. The C code copies the host's representation.
- ReelUtil.EventBuffer.Fill, ReelIo.StrAppend and ReelIo.OutputCsv treat offsets and sizes as unbounded naturals. The 64-bit overflow of `offset + size`, of `*size *= 2` and of the `int` returned by `vsnprintf` is not modelled.
- ReelIo.Vsnprintf takes the already formatted text. Formatting is the `Decimal` function, the ITEM value text from `Db`, and the name with `:` and the lexicon value. The texts are taken as NUL-free, so `%s` stops at the end of the text.
- ReelIo.OutputCsv states the text of the tree as it stood at the call. Only the output buffer is written, so that is also the tree at the end.
- ReelIo.Visible tests for ASCII `A`-`Z`, which is what `isupper` does in the C locale.
- ReelIo.OutputCsv requires every child in the map to be present. A failed fork allocation leaves its key mapped to null (reel_std.c:167-172); the C writer would then dereference that null child (reel_io.c:142-143). This state arises only when a FORK_FAILED error is ignored.
- ReelIo.OutputCsv requires every visible table that has slots to have its array. A table whose `calloc` failed keeps its length with a null pointer (reel_std.c:150-152); `reel_init_table` reports this with -1, and the C writer would dereference that null pointer. Unbound tables (length 0) are accepted.
