# CustomStringBuilder in Dafny

A model of `CustomStringBuilder`, a hand-written mutable character buffer with
a linear undo history. The builder keeps three pieces of state:

- a `char` array whose length is the capacity;
- a logical `size`, the number of characters in use at the front of the array;
- a stack of snapshots, one copy of the whole content per edit.

`insert`, `delete` and `replace` check their indices, shift characters within
the array and update `size`. `append` grows the array if needed and copies the
new characters in at the end. `reverse` swaps characters in place and keeps
`size`. Every edit pushes a snapshot. `undo` pops the top snapshot and rebuilds the array from the one
beneath it.

The model is a Dafny class with the same three fields (`value: array<char>`,
`size: nat`, `history: seq<string>`). Its object invariant `Valid()` says:

- `size <= value.Length`;
- the capacity is at least 16 (`DefaultCapacity`);
- the history is non-empty;
- the top of the history is the current content `value[..size]`.

Every method that models a public operation of the class requires `Valid()`,
and every one that changes state re-establishes it. The helpers `SaveState`,
`SwapMirroredPairs` and `SpliceStorage` and the function `ToString` need only
`size <= value.Length`: they run at points where the top snapshot and the
content differ. Each mutator's `ensures`
ties the new content to a sequence-level function of the old content:

- `Splice` for insert, delete and replace;
- `Reversed` for reverse;
- `+` for append.

Lemmas about those functions state the laws the builder promises:

- deleting a range and re-inserting it restores the content;
- inserting at the end is appending;
- reversing twice is the identity;
- `N` edits followed by `N` undos restore the constructed content.

Files, one module each:

- `wrappers.dfy` (`Wrappers`): `Option` for a nullable Java `String`, `Result`
  for `StringIndexOutOfBoundsException`, and `Math.min`/`Math.max`.
- `text.dfy` (`Text`): what each edit does to the content, and the lemmas about it.
- `history.dfy` (`History`): the snapshot stack as a sequence, one undo step, and
  repeated undo.
- `arrays.dfy` (`Arrays`): `String.toCharArray`, as a fresh array built with an
  initialiser, and `System.arraycopy`, written out as loops. `ArrayCopy` works even when the source and the destination are the
  same array and the ranges overlap: a rightward move within one array copies
  from the high end down.
- `builder.dfy` (`StringBuilder`): the class `CustomStringBuilder`.

Java `null` string arguments become `None` and are normalised to `"null"` by
`Normalize`. Thrown `StringIndexOutOfBoundsException`s become the
`IndexOutOfBounds` result. On that path the method's contract says the array
contents, `size` and `history` are unchanged. Java's `x >> 1` in `reverse` is
written as Dafny's `x / 2`: for a positive divisor both are floor division,
including for the negative values that occur when the size is 0 or 1.

Edge cases the model follows exactly as the code has them:

- `undo` reallocates the array to `max(16, |snapshot|)`, not to the exact fit.
- `indexOf("")` returns 0 for every content, including the empty one.
- `delete`/`replace` clamp `end` to the size but reject `start > size`.

## Model

| member | source | states |
|---|---|---|
| `Wrappers.Min` | src/CustomStringBuilder.java:58 | `Math.min`: the result is one of the arguments and no larger than either (used to clamp `end` in delete and replace). |
| `Wrappers.Max` | src/CustomStringBuilder.java:26 | `Math.max`: the result is one of the arguments and no smaller than either (used for the new capacity and the default minimum). |
| `Text.SpliceAt` | src/CustomStringBuilder.java:104-106 | The content after splicing `t` over `[start, end)`: its length is `|s| - (end - start) + |t|`, the prefix is kept, `t` follows, and the suffix is moved by `|t| - (end - start)`. |
| `Text.InsertAtEndIsAppend` | src/CustomStringBuilder.java:79-92 | `insert(size, t)` yields the same content as `append(t)`. |
| `Text.DeleteThenInsertRestores` | src/CustomStringBuilder.java:54-64 | For `start <= end <= size`, deleting `[start, end)` and then inserting the removed text at `start` restores the original content. |
| `Text.ReplaceIsDeleteThenInsert` | src/CustomStringBuilder.java:94-109 | `replace(start, end, t)` gives the same content as deleting `[start, end)` and then inserting `t` at `start`. |
| `Text.ReversedAt` | src/CustomStringBuilder.java:66-77 | The reversed content has the same length, and its `k`-th character is the `k`-th from the end of the original. |
| `Text.ReversedLength` | src/CustomStringBuilder.java:66-77 | Reversing never changes the size. |
| `Text.ReversedTwice` | src/CustomStringBuilder.java:66-77 | Reversing twice gives back the original content. |
| `Text.EmptyMatchesAtZero` | src/CustomStringBuilder.java:143-151 | The empty pattern occurs at index 0 of every content, so `indexOf("")` is 0. |
| `History.Top` | src/CustomStringBuilder.java:117 | `history.peek()`: the most recent snapshot, the last element of the history sequence. |
| `History.UndoStep` | src/CustomStringBuilder.java:111-121 | One undo succeeds exactly when the history holds more than one snapshot. On success it removes exactly the top snapshot; otherwise the history is unchanged. |
| `History.UndoTimes` | src/CustomStringBuilder.java:111-122 | `n` undos in a row: one result per call, in order. |
| `History.UndoTimesHistory` | src/CustomStringBuilder.java:111-122 | `n` undos leave a prefix of the history, `n` snapshots shorter but never shorter than the initial snapshot. |
| `History.UndoTimesResults` | src/CustomStringBuilder.java:111-122 | Of `n` undos in a row, call `i` returns true exactly when `i < |h| - 1`: one success per snapshot above the initial one, then only failures. |
| `History.UndoAfterPushes` | src/CustomStringBuilder.java:111-122 | After `N` snapshots are pushed onto a history, `N` undos all succeed and leave the earlier history; any further undos behave exactly as they would on it. |
| `History.UndoAtInitial` | src/CustomStringBuilder.java:111-114 | With only the initial snapshot left, every undo returns false and nothing changes. |
| `History.UndoAllThenStop` | src/CustomStringBuilder.java:9-22 | From a new builder, `N` recorded edits and `N` undos return true `N` times and restore the constructed content; the next undo returns false. |
| `Arrays.ToCharArray` | src/CustomStringBuilder.java:19 | `toCharArray` gives a fresh array holding exactly the string's characters. |
| `Arrays.ArrayCopy` | src/CustomStringBuilder.java:87 | `System.arraycopy`: the destination range receives what the source range held before the call, even when both are the same array and the ranges overlap. The rest of the destination is unchanged. |
| `StringBuilder.DefaultCapacity` | src/CustomStringBuilder.java:7 | `DEFAULT_CAPACITY`: 16. |
| `StringBuilder.Normalize` | src/CustomStringBuilder.java:38 | A `null` argument becomes `"null"`, any other string is kept. `append`, `insert`, `replace` and `indexOf` substitute it the same way (lines 38, 82, 97, 140). |
| `StringBuilder.BadRange` | src/CustomStringBuilder.java:55 | The guard of `delete` and `replace` (lines 55 and 95) rejects exactly the `start`/`end` pairs for which `0 <= start <= min(end, size)` fails. |
| `StringBuilder.GrownCapacity` | src/CustomStringBuilder.java:24-31 | The new capacity never shrinks and fits the minimum. It is unchanged when the minimum already fits. Otherwise it is at least double the old capacity, and is either double or the minimum. |
| `StringBuilder.ShiftThenFill` | src/CustomStringBuilder.java:104-105 | Moving the suffix `[end, size)` to `start + |s|` and then writing `s` at `start` leaves the splice of the old content in the first `size - (end - start) + |s|` cells. |
| `StringBuilder.CustomStringBuilder.Valid` | src/CustomStringBuilder.java:4-7 | The object invariant: `size` fits the storage, the capacity is at least 16, and the history holds at least one snapshot, whose top is the current content. |
| `StringBuilder.CustomStringBuilder.ToString` | src/CustomStringBuilder.java:128-131 | The content has exactly `size` characters (the first `size` cells of the storage). |
| `StringBuilder.CustomStringBuilder.constructor` | src/CustomStringBuilder.java:9-14 | A new builder is valid, empty, has capacity 16, and has the single snapshot `""`. |
| `StringBuilder.CustomStringBuilder.FromString` | src/CustomStringBuilder.java:16-22 | A builder seeded from `str` is valid, holds `str`, has capacity `max(16, |str|)`, and has the single snapshot `str`. |
| `StringBuilder.CustomStringBuilder.EnsureCapacity` | src/CustomStringBuilder.java:24-31 | The capacity becomes `GrownCapacity(old, minimum)`. The array is the same or a fresh one. Content, size and history are preserved, and the invariant still holds. |
| `StringBuilder.CustomStringBuilder.SaveState` | src/CustomStringBuilder.java:33-35 | Pushes exactly one snapshot, equal to the current content; nothing else changes. |
| `StringBuilder.CustomStringBuilder.Append` | src/CustomStringBuilder.java:37-45 | Never fails. The content becomes `old + Normalize(str)`, so the size grows by its length. One new snapshot equal to the new content is pushed, and the capacity is `GrownCapacity(old, size + len)`. |
| `StringBuilder.CustomStringBuilder.AppendChar` | src/CustomStringBuilder.java:47-52 | The content becomes `old + [c]` and one snapshot is pushed. The capacity is `GrownCapacity(old, size + 1)`. |
| `StringBuilder.CustomStringBuilder.Delete` | src/CustomStringBuilder.java:54-64 | Fails exactly when `start < 0`, `start > size` or `start > end`, and then changes nothing. Otherwise the content becomes `old[..start] + old[min(end, size)..]`, one snapshot is pushed, and the same array is kept. |
| `StringBuilder.CustomStringBuilder.Reverse` | src/CustomStringBuilder.java:66-77 | The content becomes the reverse of the old content, in the same array. One snapshot is pushed. |
| `StringBuilder.CustomStringBuilder.SwapMirroredPairs` | src/CustomStringBuilder.java:67-74 | The swap loop, with `j` from `(size - 2) >> 1` down to 0 paired with `(size - 1) - j`, leaves the reverse of the old content in the first `size` cells (no swap for sizes 0 and 1). |
| `StringBuilder.CustomStringBuilder.SpliceStorage` | src/CustomStringBuilder.java:87-88 | The two array copies of insert and replace leave `Splice(old content, start, end, s)` in the first `size - (end - start) + |s|` cells. |
| `StringBuilder.CustomStringBuilder.Insert` | src/CustomStringBuilder.java:79-92 | Fails exactly when `offset < 0` or `offset > size`, and then changes nothing. Otherwise the content becomes `old[..offset] + Normalize(str) + old[offset..]`, one snapshot is pushed, and the capacity is grown to fit. |
| `StringBuilder.CustomStringBuilder.Replace` | src/CustomStringBuilder.java:94-109 | Fails exactly when `start < 0`, `start > size` or `start > end`, and then changes nothing. Otherwise, with `e = min(end, size)`, the content becomes `old[..start] + Normalize(str) + old[e..]`. The new size is `size - (e - start) + |str|`, one snapshot is pushed, and the capacity is `GrownCapacity(old, new size)`. |
| `StringBuilder.CustomStringBuilder.Undo` | src/CustomStringBuilder.java:111-122 | History and result follow `UndoStep`. On success the content is the new top snapshot, in a fresh array of capacity `max(16, size)`. On failure the array and size are unchanged. The invariant holds either way. |
| `StringBuilder.CustomStringBuilder.Length` | src/CustomStringBuilder.java:124-126 | The length is the number of characters of `toString()`. |
| `StringBuilder.CustomStringBuilder.CharAt` | src/CustomStringBuilder.java:133-137 | Succeeds exactly when `0 <= index < size` and then returns the character at `index` of the content. |
| `StringBuilder.CustomStringBuilder.IndexOf` | src/CustomStringBuilder.java:139-154 | Returns the least `i` at which `Normalize(str)` occurs in the content, or -1 exactly when it occurs nowhere. For the empty pattern it returns 0. The body asserts that the scan never reads at or past `size`. It changes no state. |

## Left out

- Java `int` arithmetic: sizes and capacities are unbounded. The 32-bit overflows of `size + len` and `value.length * 2` near `Integer.MAX_VALUE` are not modelled; they make the Java code throw or misbehave.
- `CustomStringBuilder(null)` throws a `NullPointerException` (src/CustomStringBuilder.java:17); `FromString` takes a non-null string and does not model it.
- The mutators return `this` for call chaining in Java. The model returns nothing (append, reverse) or a `Result<()>` that carries the index error.
- `Arrays.ArrayCopy` requires in-range positions. The builder never calls it out of range, so `System.arraycopy`'s own `IndexOutOfBoundsException` is not modelled.
- `ToCharArray` builds the array with an initialiser rather than a loop. `toCharArray` is a library call whose internals the source does not show.
- Repeated undo is stated on the history sequence (`History.UndoTimes`) rather than as a run of method calls, because Dafny lemmas cannot call methods. The class is tied to it by two contracts: `Undo` follows `UndoStep`, and every mutator pushes exactly one snapshot equal to its new content.
- `char` is an opaque Dafny `char`: there is no UTF-16 surrogate or Unicode handling.
- The time and space cost of taking one full snapshot per edit is not modelled.
- `src/Main.java`, the console demo, is not part of this model. Its comment at src/Main.java:20 expects `indexOf("World")` to return 6 after `reverse()`, but the reversed content `"dlroW lufituaeB olleH"` does not contain `"World"`, so the code returns -1.
