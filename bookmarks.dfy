/** The in-memory bookmark store of `BookmarksManager`: an ordered list of
    `{name, path}` records edited in place, and the two display queries. */
module Bookmarks {
  import opened Text
  import opened Lists

  /** One bookmark record, the `{'name': ..., 'path': ...}` dictionary. */
  datatype Bookmark = Bookmark(name: string, path: string)

  /** The list after `bookmarks[k]['name'] = name`. */
  function Renamed(s: seq<Bookmark>, k: nat, name: string): (r: seq<Bookmark>)
    requires k < |s|
    ensures |r| == |s|
    ensures r[k].name == name && r[k].path == s[k].path
    ensures forall j :: 0 <= j < |s| && j != k ==> r[j] == s[j]
  {
    s[k := s[k].(name := name)]
  }

  /** Renaming twice at the same position keeps only the second name. */
  lemma RenamedTwice(s: seq<Bookmark>, k: nat, first: string, second: string)
    requires k < |s|
    ensures Renamed(Renamed(s, k, first), k, second) == Renamed(s, k, second)
  {
  }

  /** Renaming an entry to the name it already has changes nothing. */
  lemma RenamedSame(s: seq<Bookmark>, k: nat)
    requires k < |s|
    ensures Renamed(s, k, s[k].name) == s
  {
  }

  class BookmarksManager {
    /** The ordered bookmark list; order is the user's order. */
    var bookmarks: seq<Bookmark>
    /** The expanded `~/Documents/` directory, stripped from paths for display. */
    const homepath: string

    ghost predicate Valid() {
      |homepath| > 0
    }

    /** Starts from the given list when it is non-empty, and otherwise from
        `loaded`, the list the persistence layer read back. */
    constructor (given: seq<Bookmark>, loaded: seq<Bookmark>, home: string)
      requires |home| > 0
      ensures Valid()
      ensures homepath == home
      ensures bookmarks == if given != [] then given else loaded
    {
      homepath := home;
      if given != [] {
        bookmarks := given;
      } else {
        bookmarks := loaded;
      }
    }

    /** The number of stored bookmarks. */
    function Count(): (n: nat)
      reads this
      ensures n == |bookmarks|
    {
      |bookmarks|
    }

    /** Appends `{name, path}`. Whether `path` exists only decides whether an
        alert is shown; the record is appended either way. */
    method Add(name: string, path: string)
      modifies this
      ensures bookmarks == old(bookmarks) + [Bookmark(name, path)]
      ensures Count() == old(Count()) + 1
      ensures bookmarks[Count() - 1] == Bookmark(name, path)
      ensures forall j :: 0 <= j < old(Count()) ==> bookmarks[j] == old(bookmarks[j])
    {
      bookmarks := bookmarks + [Bookmark(name, path)];
    }

    /** `bookmarks.pop(index)`. */
    method Delete(index: int)
      requires ValidIndex(index, |bookmarks|)
      modifies this
      ensures bookmarks == RemoveAt(old(bookmarks), Resolve(index, old(|bookmarks|)))
      ensures Count() == old(Count()) - 1
    {
      bookmarks := RemoveAt(bookmarks, Resolve(index, |bookmarks|));
    }

    /** `bookmarks[index]['name'] = name`. */
    method SetName(index: int, name: string)
      requires ValidIndex(index, |bookmarks|)
      modifies this
      ensures bookmarks == Renamed(old(bookmarks), Resolve(index, old(|bookmarks|)), name)
      ensures Count() == old(Count())
    {
      var k := Resolve(index, |bookmarks|);
      bookmarks := bookmarks[k := bookmarks[k].(name := name)];
    }

    /** `bookmarks.insert(newIndex, bookmarks.pop(oldIndex))`. */
    method Move(oldIndex: int, newIndex: int)
      requires ValidIndex(oldIndex, |bookmarks|)
      modifies this
      ensures bookmarks == Moved(old(bookmarks), oldIndex, newIndex)
      ensures Count() == old(Count())
      ensures multiset(bookmarks) == multiset(old(bookmarks))
    {
      var k := Resolve(oldIndex, |bookmarks|);
      var item := bookmarks[k];
      bookmarks := RemoveAt(bookmarks, k);
      bookmarks := InsertAt(bookmarks, InsertionPoint(newIndex, |bookmarks|), item);
    }

    /** Performs one call of a session by dispatching to the method that
        implements it; its effect on the list is the one `Apply` gives. */
    method Perform(op: Op)
      requires Apply(bookmarks, op).Some?
      modifies this
      ensures Some(bookmarks) == Apply(old(bookmarks), op)
    {
      match op
      case AddOp(name, path) => Add(name, path);
      case DeleteOp(i) => Delete(i);
      case SetNameOp(i, name) => SetName(i, name);
      case MoveOp(from, to) => Move(from, to);
    }

    /** The stored path with everything up to the last cut at the home directory removed:
        `path.split(homepath)[-1]`. */
    function GetPath(index: int): (r: string)
      reads this
      requires Valid()
      requires ValidIndex(index, |bookmarks|)
      ensures var path := bookmarks[Resolve(index, |bookmarks|)].path;
        && IsSuffix(r, path)
        && Free(r, homepath)
        && AfterSeparator(r, path, homepath)
        && (r == path <==> Free(path, homepath))
    {
      LastPiece(bookmarks[Resolve(index, |bookmarks|)].path, homepath)
    }

    /** The stored name, or, when it is empty, the last `/`-separated segment
        of the display path: `get_path(index).split('/')[-1]`. */
    function GetName(index: int): (r: string)
      reads this
      requires Valid()
      requires ValidIndex(index, |bookmarks|)
      ensures var name := bookmarks[Resolve(index, |bookmarks|)].name;
        name != "" ==> r == name
      ensures var name := bookmarks[Resolve(index, |bookmarks|)].name;
        var shown := GetPath(index);
        name == "" ==>
          && IsSuffix(r, shown)
          && '/' !in r
          && (r == shown || shown[|shown| - |r| - 1] == '/')
    {
      var name := bookmarks[Resolve(index, |bookmarks|)].name;
      if name == "" then
        var shown := GetPath(index);
        LastSegment(shown);
        LastPiece(shown, "/")
      else
        name
    }
  }

  /** With a home directory that does not occur again later in the path, the
      display path is the part of the path after the home directory. */
  lemma DisplayPathUnderHome(m: BookmarksManager, index: int, relative: string)
    requires m.Valid()
    requires ValidIndex(index, |m.bookmarks|)
    requires m.bookmarks[Resolve(index, |m.bookmarks|)].path == m.homepath + relative
    requires Free(relative, m.homepath)
    ensures m.GetPath(index) == relative
  {
    StripsLeadingSeparator(m.homepath, relative);
  }

  /** The display path is cut at the leftmost occurrence of the home
      directory and then taken from what follows it; this decides the result
      when the home directory overlaps itself in the path. */
  lemma DisplayPathAfterFirstCut(m: BookmarksManager, index: int, path: string, k: nat)
    requires m.Valid()
    requires ValidIndex(index, |m.bookmarks|)
    requires m.bookmarks[Resolve(index, |m.bookmarks|)].path == path
    requires OccursAt(path, m.homepath, k)
    requires forall j: nat :: j < k ==> !OccursAt(path, m.homepath, j)
    ensures m.GetPath(index) == LastPiece(path[k + |m.homepath|..], m.homepath)
  {
    var home := m.homepath;
    LastPieceAfterFirstCut(path, home, k);
    var shown := LastPiece(path, home);
    assert m.GetPath(index) == shown;
  }

  datatype Option<T> = None | Some(value: T)

  /** One call a user session makes on the manager. */
  datatype Op =
    | AddOp(name: string, path: string)
    | DeleteOp(index: int)
    | SetNameOp(index: int, newName: string)
    | MoveOp(from: int, to: int)

  /** The list after one call, or `None` when the call raises `IndexError`. */
  function Apply(s: seq<Bookmark>, op: Op): (r: Option<seq<Bookmark>>)
    ensures op.AddOp? ==> r.Some?
    ensures op.DeleteOp? || op.SetNameOp? ==> (r.Some? <==> ValidIndex(op.index, |s|))
    ensures op.MoveOp? ==> (r.Some? <==> ValidIndex(op.from, |s|))
    ensures r.Some? ==> |r.value| == |s| + (if op.AddOp? then 1 else if op.DeleteOp? then -1 else 0)
  {
    match op
    case AddOp(name, path) => Some(s + [Bookmark(name, path)])
    case DeleteOp(i) =>
      if ValidIndex(i, |s|) then Some(RemoveAt(s, Resolve(i, |s|))) else None
    case SetNameOp(i, name) =>
      if ValidIndex(i, |s|) then Some(Renamed(s, Resolve(i, |s|), name)) else None
    case MoveOp(from, to) =>
      if ValidIndex(from, |s|) then Some(Moved(s, from, to)) else None
  }

  /** The list after a session of calls; the first call that raises ends the
      session with `None`. */
  function Run(s: seq<Bookmark>, ops: seq<Op>): (r: Option<seq<Bookmark>>)
    ensures (forall k :: 0 <= k < |ops| ==> ops[k].AddOp?) ==> r.Some? && |r.value| == |s| + |ops|
    decreases |ops|
  {
    if ops == [] then Some(s)
    else match Apply(s, ops[0])
      case None => None
      case Some(t) => Run(t, ops[1..])
  }

  /** The number of `add` calls in a session. */
  function Adds(ops: seq<Op>): (r: nat)
    ensures r <= |ops|
  {
    if ops == [] then 0 else (if ops[0].AddOp? then 1 else 0) + Adds(ops[1..])
  }

  /** The number of `delete` calls in a session. */
  function Deletes(ops: seq<Op>): (r: nat)
    ensures r <= |ops|
  {
    if ops == [] then 0 else (if ops[0].DeleteOp? then 1 else 0) + Deletes(ops[1..])
  }

  /** After a session in which no call raised, the count is the starting count
      plus the adds minus the deletes. */
  lemma {:induction false} RunCount(s: seq<Bookmark>, ops: seq<Op>)
    requires Run(s, ops).Some?
    ensures |Run(s, ops).value| + Deletes(ops) == |s| + Adds(ops)
    ensures |s| <= |Run(s, ops).value| + |ops| && |Run(s, ops).value| <= |s| + |ops|
    decreases |ops|
  {
    if ops != [] {
      var t := Apply(s, ops[0]).value;
      RunCount(t, ops[1..]);
    }
  }
}
