/** What the model sees of Foundation and UIKit: optional values, index paths,
    the calls the library makes on a table view (kept as an event log), the
    positional sequence edits that Swift's Array.insert(_:at:) and
    Array.remove(at:) perform, and the index guard used by the removal, reload
    and lookup operations. */
module TableView {

  datatype Option<+T> = None | Some(value: T)

  /** Foundation's IndexPath as the table uses it: a row inside a section. */
  datatype IndexPath = IndexPath(row: int, section: int)

  /** The two UITableView.RowAnimation cases the library passes. */
  datatype RowAnimation = Automatic | NoAnimation

  /** A call made on the UIKit table view. `IndexSet(integer: k)` becomes the
      single section number `k`. */
  datatype TableEvent =
    | InsertRows(paths: seq<IndexPath>, animation: RowAnimation)
    | DeleteRows(paths: seq<IndexPath>, animation: RowAnimation)
    | ReloadRows(paths: seq<IndexPath>, animation: RowAnimation)
    | InsertSections(section: int, animation: RowAnimation)
    | DeleteSections(section: int, animation: RowAnimation)
    | ReloadSections(section: int, animation: RowAnimation)
    | ReloadData
    | BeginUpdates
    | EndUpdates

  /** No object occurs twice. */
  ghost predicate Distinct<T>(s: seq<T>) {
    forall i, j :: 0 <= i < j < |s| ==> s[i] != s[j]
  }

  /** `Array.insert(x, at: k)`: `x` lands at position `k`, later elements move up one. */
  function Inserted<T>(s: seq<T>, k: int, x: T): (r: seq<T>)
    requires 0 <= k <= |s|
    ensures |r| == |s| + 1 && r[k] == x
    ensures forall i :: 0 <= i < k ==> r[i] == s[i]
    ensures forall i :: k < i < |r| ==> r[i] == s[i - 1]
    ensures multiset(r) == multiset(s) + multiset{x}
  {
    assert s == s[..k] + s[k..];
    s[..k] + [x] + s[k..]
  }

  /** `Array.remove(at: k)`: position `k` disappears, later elements move down one. */
  function Removed<T>(s: seq<T>, k: int): (r: seq<T>)
    requires 0 <= k < |s|
    ensures |r| == |s| - 1
    ensures forall i :: 0 <= i < k ==> r[i] == s[i]
    ensures forall i :: k <= i < |r| ==> r[i] == s[i + 1]
    ensures multiset(r) + multiset{s[k]} == multiset(s)
  {
    assert s == s[..k] + [s[k]] + s[k + 1..];
    s[..k] + s[k + 1..]
  }

  /** Removing at the position just inserted at gives the original sequence back. */
  lemma RemovedInserted<T>(s: seq<T>, k: int, x: T)
    requires 0 <= k <= |s|
    ensures Removed(Inserted(s, k, x), k) == s
  {
  }

  /** Inserting keeps a sequence free of repeats exactly when the new element is new. */
  lemma InsertedDistinct<T>(s: seq<T>, k: int, x: T)
    requires 0 <= k <= |s|
    ensures Distinct(Inserted(s, k, x)) <==> Distinct(s) && x !in s
  {
    var r := Inserted(s, k, x);
    if Distinct(r) {
      forall i, j | 0 <= i < j < |s| ensures s[i] != s[j] {
        var i', j' := if i < k then i else i + 1, if j < k then j else j + 1;
        assert r[i'] == s[i] && r[j'] == s[j];
      }
      forall i | 0 <= i < |s| ensures s[i] != x {
        var i' := if i < k then i else i + 1;
        assert r[i'] == s[i] && r[k] == x && i' != k;
      }
    }
    if Distinct(s) && x !in s {
      forall i, j | 0 <= i < j < |r| ensures r[i] != r[j] {
        if i != k && j != k {
          var i', j' := if i < k then i else i - 1, if j < k then j else j - 1;
          assert r[i] == s[i'] && r[j] == s[j'];
        } else if i == k {
          assert r[j] == s[j - 1];
        } else {
          assert r[i] == s[i];
        }
      }
    }
  }

  /** Removing from a sequence without repeats leaves one without repeats. */
  lemma RemovedDistinct<T>(s: seq<T>, k: int)
    requires 0 <= k < |s| && Distinct(s)
    ensures Distinct(Removed(s, k))
    ensures s[k] !in Removed(s, k)
  {
  }

  /** The guard the removal, reload and lookup operations evidently intend:
      `index` names an existing position. */
  predicate InRange(index: int, count: int) {
    0 <= index < count
  }

  /** The guard as the source writes it, `index < count`. */
  predicate GuardAsWritten(index: int, count: int) {
    index < count
  }

  /** `section(at:)` as written: `guard index < count else { return nil }`
      and then the subscript. The outer None is the trap of subscripting with
      a negative index, which the guard lets through. */
  function LookupAsWritten<T>(s: seq<T>, index: int): (r: Option<Option<T>>)
    ensures r.None? <==> index < 0
    ensures r.Some? ==> (r.value.None? <==> index >= |s|)
    ensures r.Some? && r.value.Some? ==> 0 <= index < |s| && r.value.value == s[index]
  {
    if !GuardAsWritten(index, |s|) then Some(None)
    else if index < 0 then None
    else Some(Some(s[index]))
  }

  /** `removeSection`/`removeCell` as written: `guard index < count else
      { return }` and then `remove(at:)`. None is the trap of removing at a
      negative index; on every other index the result is what the corrected
      guard gives. */
  function RemoveAtAsWritten<T>(s: seq<T>, index: int): (r: Option<seq<T>>)
    ensures r.None? <==> index < 0
    ensures r.Some? ==> r.value == if InRange(index, |s|) then Removed(s, index) else s
  {
    if !GuardAsWritten(index, |s|) then Some(s)
    else if index < 0 then None
    else Some(Removed(s, index))
  }
}
