# Bookmark store

A Dafny model of the in-memory bookmark store of the Pythonista "bookmarks" script.
`BookmarksManager` in `bookmark.py` keeps an ordered list of `{name, path}` records.
The list is built by `add` and edited in place by `delete`, `set_name` and `move`.
It has three queries: `count`, `get_path` (the path with everything up to the last cut at the `~/Documents/` directory removed, for display; see below) and `get_name` (the stored name, or the last path segment when the name is empty).

The model has three modules:

- `Text` (text.dfy) models Python's `str.split(sep)` for a non-empty separator.
  `Split` scans left to right and cuts at each occurrence of `sep`, resuming after it, so occurrences never overlap. `LastPiece` is `split(sep)[-1]`.
- `Lists` (lists.dfy) models the Python list edits the manager makes.
  It covers indexing and `pop` with negative indices (`Resolve`), `insert` with its clamping (`InsertionPoint`), and the sequences they leave (`RemoveAt`, `InsertAt`, `Moved`).
  It also holds the algebra of `move`.
- `Bookmarks` (bookmarks.dfy) holds the record datatype `Bookmark(name, path)` and the class `BookmarksManager`.
  The class has a `seq<Bookmark>` field that its methods reassign.
  The module also has a model of a session of calls (`Op`, `Apply`, `Run`), used to state how the count evolves.

The manager's methods are specified by the pure functions of `Lists` and by `Renamed`.
The properties of those functions are proved as their `ensures` clauses and as lemmas.

The model follows the code as written, including these behaviours:

- `add` appends the record even when the path does not exist; the existence check only raises an alert (bookmark.py:80-85).
- Indices follow Python: `delete`, `set_name`, `get_name`, `get_path` and the `pop` in `move` accept `-n <= i < n`.
  The `insert` in `move` clamps any index, so `move(0, -1)` places the first entry second to last.
- `get_path` uses `split(homepath)[-1]`.
  This is the text after the last occurrence of `homepath` found by a left-to-right scan that skips overlapping matches.
  It differs from "after the rightmost occurrence" only when `homepath` overlaps itself in the path.
  For example, with home `/D/` the path `/D/D/x` displays as `D/x`, not `x` (`Text.OverlappingSeparator`, `Bookmarks.DisplayPathAfterFirstCut`).

## Model

| member | source | states |
|---|---|---|
| `Text.LastPiece` | bookmark.py:111 | `s.split(sep)[-1]` is a suffix of `s` that contains no `sep`. It is the whole of `s` exactly when `sep` does not occur in `s`. Otherwise it is immediately preceded by an occurrence of `sep`. |
| `Text.Split` | bookmark.py:105-111 | `s.split(sep)` for a non-empty separator always has at least one piece; `Text.SplitFirstCut` fixes the pieces, and `Text.JoinSplit` and `Text.SplitPiecesFree` state that they rejoin to `s` and contain no `sep` |
| `Text.SplitFirstCut` | bookmark.py:105-111 | the first piece of `s.split(sep)` is `s` up to the leftmost occurrence of `sep`, and no occurrence starts earlier. With no occurrence, the split is `[s]`, and this happens exactly when `sep` does not occur in `s`. Otherwise the remaining pieces are the split of what follows that occurrence, so the pieces are fixed even when `sep` overlaps itself |
| `Text.LastPieceAfterFirstCut` | bookmark.py:111 | `s.split(sep)[-1]` equals the last piece of the text after the leftmost occurrence of `sep` |
| `Text.OverlappingSeparator` | bookmark.py:111 | for any directory letter `d`, the separator `/d/` occurs in `/d/d/x` at positions 0 and 2, which overlap, and `"/d/d/x".split("/d/")[-1]` is `"d/x"` |
| `Text.JoinSplit` | bookmark.py:111 | joining the pieces of `s.split(sep)` with `sep` gives back `s` |
| `Text.SplitPiecesFree` | bookmark.py:111 | no piece of `s.split(sep)` contains `sep` |
| `Text.StripsLeadingSeparator` | bookmark.py:111 | for a path made of the home directory followed by a rest that does not contain the home directory, the last split piece is that rest |
| `Text.LastSegment` | bookmark.py:105 | `s.split('/')[-1]` is a suffix of `s` with no `/` in it, and it is either all of `s` or preceded by `/` in `s` |
| `Lists.ValidIndex` | bookmark.py:96-115 | Python's `pop(i)` and `s[i]` accept exactly `-n <= i < n`, and any other index raises `IndexError`; in particular no index is accepted on an empty list |
| `Lists.Resolve` | bookmark.py:98 | an accepted index `-n <= i < n` denotes position `i mod n`, which is below `n` |
| `Lists.InsertionPoint` | bookmark.py:119 | `insert(i, x)` on a list of length `n` places `x` at `i` when `0 <= i <= n`, at `i mod n` for `-n <= i < 0`, at `0` below `-n` and at `n` above `n` |
| `Lists.RemoveAt` | bookmark.py:98 | after `pop(k)` the length drops by one, entries before `k` keep their positions, entries after `k` shift down by one in order, and the multiset loses exactly the popped entry |
| `Lists.InsertAt` | bookmark.py:119 | after `insert(k, x)` the length grows by one, `x` is at `k`, entries before `k` stay and entries from `k` on shift up by one, and the multiset gains exactly `x` |
| `Lists.RemoveInserted` | bookmark.py:119 | popping at the position just inserted at gives the list back |
| `Lists.InsertRemoved` | bookmark.py:119 | inserting the popped entry back where it was gives the list back |
| `Lists.Moved` | bookmark.py:117-119 | `insert(to, pop(from))` keeps the length and is a permutation. The entry from `from` sits at the insertion point. Removing it there leaves the same list as removing it at `from`, so the other entries keep their relative order. |
| `Lists.MovedAt` | bookmark.py:117-119 | for in-range indices, every position of the moved list is given explicitly. The moved entry is at `to`, entries strictly between the two positions shift by one toward `from`, and all others stay put. |
| `Lists.MovedSelf` | bookmark.py:117-119 | for `0 <= i < n`, `move(i, i)` leaves the list unchanged |
| `Lists.MovedBack` | bookmark.py:117-119 | for `0 <= i, j < n`, `move(i, j)` followed by `move(j, i)` restores the original list |
| `Lists.MovedToMinusOne` | bookmark.py:119 | because `insert` counts negative indices before the last element, `move(0, -1)` puts the first entry second to last and leaves the last entry last |
| `Lists.MovedFirstOfThree` | bookmark.py:117-119 | `move(0, 2)` on `[A, B, C]` gives `[B, C, A]` |
| `Bookmarks.Renamed` | bookmark.py:113-115 | setting the name at `k` makes that name the new one and keeps that entry's path. Every other entry and the length are unchanged. |
| `Bookmarks.RenamedTwice` | bookmark.py:113-115 | two renames of the same entry leave only the second name |
| `Bookmarks.RenamedSame` | bookmark.py:113-115 | renaming an entry to its current name changes nothing |
| `Bookmarks.BookmarksManager.constructor` | bookmark.py:36-44 | the manager starts from the given list when it is non-empty, and otherwise from the list `load_file` set (the file's contents, or `[]` when the file holds no JSON); it keeps the home directory for display |
| `Bookmarks.BookmarksManager.Count` | bookmark.py:136-137 | the count is the number of stored records |
| `Bookmarks.BookmarksManager.Add` | bookmark.py:69-85 | the list becomes the old list with `{name, path}` appended. The count grows by exactly one, the new last entry is the record, and all earlier entries are unchanged. This holds whether or not the path exists. |
| `Bookmarks.BookmarksManager.Delete` | bookmark.py:96-98 | the list becomes `RemoveAt` of the old list at the resolved index, and the count drops by one |
| `Bookmarks.BookmarksManager.SetName` | bookmark.py:113-115 | the list becomes `Renamed` of the old list at the resolved index, and the count is unchanged |
| `Bookmarks.BookmarksManager.Move` | bookmark.py:117-119 | the list becomes `Moved` of the old list. The count is unchanged and the contents are a permutation of the old ones. |
| `Bookmarks.BookmarksManager.GetPath` | bookmark.py:108-111 | the display path is a suffix of the stored path that contains no occurrence of the home directory, and it is either the whole path or immediately preceded by an occurrence of the home directory. It equals the stored path exactly when the home directory does not occur in it. |
| `Bookmarks.BookmarksManager.GetName` | bookmark.py:100-106 | a non-empty stored name is returned as is. For an empty name, the result is the final `/` segment of the display path: a suffix with no `/`, either the whole display path or preceded by `/`. |
| `Bookmarks.DisplayPathUnderHome` | bookmark.py:108-111 | a path stored as home directory plus a rest not containing the home directory is displayed as that rest |
| `Bookmarks.DisplayPathAfterFirstCut` | bookmark.py:108-111 | the display path is the display of what follows the leftmost occurrence of the home directory in the stored path, which fixes it when the home directory overlaps itself |
| `Bookmarks.Apply` | bookmark.py:69-119 | one call of a session on a manager whose list is set: `add` always succeeds and grows the list by one. `delete` and `set_name` fail exactly on an index Python rejects, and so does `move` on its source index. On success, `delete` shrinks the list by one and the others keep its length. |
| `Bookmarks.BookmarksManager.Perform` | bookmark.py:69-119 | performing one call through the manager's methods leaves exactly the list `Bookmarks.Apply` gives, so the session model describes the manager |
| `Bookmarks.Run` | bookmark.py:69-119 | a session of calls applied in order, stopping at the first that raises; a session made only of `add` calls never raises and grows the list by the number of calls |
| `Bookmarks.RunCount` | bookmark.py:136-137 | after a session in which no call raised, the count is the starting count plus the number of adds minus the number of deletes, and so differs from the starting count by at most the number of calls |

## Left out

- Persistence: `load_file` and `update_file` (bookmark.py:50-62) read and write JSON through the `json` library. They are not part of this model. The constructor takes the list `load_file` sets as a parameter.
- `os.path.expanduser('~/Documents/')` is environment-dependent, so the constructor takes the expanded home directory as a parameter. It is non-empty, as `str.split` requires of its separator.
- Filesystem and UI queries: `is_file`, `is_dir` and `get_icon` (bookmark.py:121-134) depend on `os.path.isfile` and `ui.Image`, and are left out.
- Editor calls: `open` (bookmark.py:22-23, 64-67) and `opens_new_tab` (bookmark.py:47-48) are left out.
- Side effects of `add`: the existence alert, the `update_file()` save and the confirmation HUD (bookmark.py:80-82, 88, 94) are left out. Only the append is modelled.
- `add` with `path=None`: a `None` path is not modelled; paths are strings.
- The table view classes, `main` and the `__main__` block are presentation and entry-point code, and are left out.
- `BookmarkItem` (bookmark.py:15-30) is unused by the manager. Its two fields are the `Bookmark` datatype, and its accessors are that datatype's destructors.
- Bookmarks.BookmarksManager.Delete: out-of-range indices, which raise `IndexError` in Python, are excluded by a precondition rather than modelled. The session model `Bookmarks.Apply` returns `None` for them instead.
- Bookmarks.BookmarksManager.constructor: when no list is given and `.bookmarks.json` does not exist, `load_file` (bookmark.py:50-58) never assigns `self.bookmarks`, and every later call (`count`, the `append` in `add` at bookmark.py:85) raises `AttributeError`; the model always starts from a list, so this unset state is not represented. A given list is also kept by reference (bookmark.py:42), so later edits are visible to the caller's list; the model copies values.
- Bookmarks.BookmarksManager.SetName: out-of-range indices, which raise `IndexError` in Python, are excluded by a precondition; `Bookmarks.Apply` returns `None` for them instead.
- Bookmarks.BookmarksManager.Move: an out-of-range source index, on which `pop` raises `IndexError`, is excluded by a precondition; `Bookmarks.Apply` returns `None` for it instead.
- Bookmarks.BookmarksManager.GetPath: out-of-range indices, which raise `IndexError` in Python, are excluded by a precondition, and this error path is not modelled elsewhere.
- Bookmarks.BookmarksManager.GetName: out-of-range indices, which raise `IndexError` in Python, are excluded by a precondition, and this error path is not modelled elsewhere.
- Bookmarks.BookmarksManager.SetName: records are values. If the initial list held the same dictionary object twice, Python's in-place field update would change both entries; the model changes only the indexed entry.
