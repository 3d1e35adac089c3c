/** The edits the bookmark manager makes to its Python list: indexing and
    `pop` with Python's negative indices, and `insert` with its clamping. */
module Lists {

  /** An index Python's `s[i]` and `s.pop(i)` accept on a list of length `n`
      (any other index raises `IndexError`). */
  predicate ValidIndex(i: int, n: nat)
    ensures ValidIndex(i, n) ==> n > 0
  {
    0 <= i + n && i < n
  }

  /** The position an accepted index denotes: negative indices count from the end. */
  function Resolve(i: int, n: nat): (k: nat)
    requires ValidIndex(i, n)
    ensures k < n
    ensures k == i % n
  {
    if i < 0 then i + n else i
  }

  /** The position at which `s.insert(i, x)` places `x` in a list of length `n`:
      negative indices count from the end, and indices beyond either end are clamped. */
  function InsertionPoint(i: int, n: nat): (k: nat)
    ensures k <= n
    ensures 0 <= i <= n ==> k == i
    ensures i > n ==> k == n
    ensures 0 <= i + n && i < 0 ==> k < n && k == i % n
    ensures i + n < 0 ==> k == 0
  {
    if i < 0 then (if i + n < 0 then 0 else i + n)
    else if i > n then n
    else i
  }

  /** `s` without its element at `k`: the list left by `s.pop(k)`. */
  function RemoveAt<T>(s: seq<T>, k: nat): (r: seq<T>)
    requires k < |s|
    ensures |r| == |s| - 1
    ensures forall j :: 0 <= j < k ==> r[j] == s[j]
    ensures forall j :: k <= j < |r| ==> r[j] == s[j + 1]
    ensures multiset(r) + multiset{s[k]} == multiset(s)
  {
    assert s == s[..k] + [s[k]] + s[k + 1..];
    s[..k] + s[k + 1..]
  }

  /** `s` with `x` placed at position `k`: the list left by `s.insert(k, x)`. */
  function InsertAt<T>(s: seq<T>, k: nat, x: T): (r: seq<T>)
    requires k <= |s|
    ensures |r| == |s| + 1
    ensures r[k] == x
    ensures forall j :: 0 <= j < k ==> r[j] == s[j]
    ensures forall j :: k < j < |r| ==> r[j] == s[j - 1]
    ensures multiset(r) == multiset(s) + multiset{x}
  {
    assert s == s[..k] + s[k..];
    s[..k] + [x] + s[k..]
  }

  /** Removing what was just inserted gives the list back. */
  lemma RemoveInserted<T>(s: seq<T>, k: nat, x: T)
    requires k <= |s|
    ensures RemoveAt(InsertAt(s, k, x), k) == s
  {
    var r := RemoveAt(InsertAt(s, k, x), k);
    assert forall j :: 0 <= j < |s| ==> r[j] == s[j];
  }

  /** Putting back what was just removed gives the list back. */
  lemma InsertRemoved<T>(s: seq<T>, k: nat)
    requires k < |s|
    ensures InsertAt(RemoveAt(s, k), k, s[k]) == s
  {
    var r := InsertAt(RemoveAt(s, k), k, s[k]);
    assert forall j :: 0 <= j < |s| ==> r[j] == s[j];
  }

  /** `s.insert(to, s.pop(from))`: the element at `from` taken out and put
      back at `to`, with Python's index rules for both calls. */
  function Moved<T>(s: seq<T>, from: int, to: int): (r: seq<T>)
    requires ValidIndex(from, |s|)
    ensures |r| == |s|
    ensures multiset(r) == multiset(s)
    ensures r[InsertionPoint(to, |s| - 1)] == s[Resolve(from, |s|)]
    ensures RemoveAt(r, InsertionPoint(to, |s| - 1)) == RemoveAt(s, Resolve(from, |s|))
  {
    var k := Resolve(from, |s|);
    var item := s[k];
    var rest := RemoveAt(s, k);
    RemoveInserted(rest, InsertionPoint(to, |rest|), item);
    InsertAt(rest, InsertionPoint(to, |rest|), item)
  }

  /** Within range, the element formerly at `from` ends up at `to`, and every
      other element keeps its relative order (it shifts by one only when it
      lies between the two positions). */
  lemma MovedAt<T>(s: seq<T>, from: nat, to: nat, p: nat)
    requires from < |s| && to < |s| && p < |s|
    ensures Moved(s, from, to)[p] ==
      if p == to then s[from]
      else if from < to && from <= p < to then s[p + 1]
      else if to < from && to < p <= from then s[p - 1]
      else s[p]
  {
    var rest := RemoveAt(s, from);
    assert Moved(s, from, to) == InsertAt(rest, to, s[from]);
  }

  /** Moving an element onto its own position changes nothing. */
  lemma MovedSelf<T>(s: seq<T>, i: nat)
    requires i < |s|
    ensures Moved(s, i, i) == s
  {
    InsertRemoved(s, i);
  }

  /** Moving from `i` to `j` and then from `j` back to `i` restores the list. */
  lemma MovedBack<T>(s: seq<T>, i: nat, j: nat)
    requires i < |s| && j < |s|
    ensures Moved(Moved(s, i, j), j, i) == s
  {
    var t := Moved(s, i, j);
    assert t[j] == s[i] && RemoveAt(t, j) == RemoveAt(s, i);
    assert Moved(t, j, i) == InsertAt(RemoveAt(s, i), i, s[i]);
    InsertRemoved(s, i);
  }

  /** Python's clamping: `s.insert(-1, s.pop(0))` puts the first element
      second to last, not last. */
  lemma MovedToMinusOne<T>(s: seq<T>)
    requires |s| >= 2
    ensures Moved(s, 0, -1)[|s| - 2] == s[0]
    ensures Moved(s, 0, -1)[|s| - 1] == s[|s| - 1]
  {
    var rest := RemoveAt(s, 0);
    assert InsertionPoint(-1, |rest|) == |s| - 2;
  }

  /** Moving the first of three entries to position 2 turns `[A, B, C]` into `[B, C, A]`. */
  lemma MovedFirstOfThree<T>(s: seq<T>)
    requires |s| == 3
    ensures Moved(s, 0, 2) == [s[1], s[2], s[0]]
  {
    MovedAt(s, 0, 2, 0);
    MovedAt(s, 0, 2, 1);
    MovedAt(s, 0, 2, 2);
  }
}
