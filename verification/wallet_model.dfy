/** The wallet's entry list (`WalletModel`): the entry names of the password
    folder, kept in the order the view shows them. Calls into the wallet
    report success or failure through boolean parameters. */
module WalletModel {
  import opened Strings
  import opened Wrappers

  type EntryList = seq<string>

  /** A model index: invalid, or a row of the list. */
  datatype ModelIndex = Invalid | Row(row: nat)

  /** Qt's display, edit and user roles, and the wallet content role
      (`Qt::UserRole + 1`). */
  const DISPLAY_ROLE: int := 0
  const EDIT_ROLE: int := 2
  const USER_ROLE: int := 0x0100
  const WALLET_CONTENT_ROLE: int := USER_ROLE + 1

  /** `find`: the row of the first occurrence, or an invalid index. */
  function Find(list: EntryList, e: string): (r: ModelIndex)
    ensures r.Invalid? <==> e !in list
    ensures r.Row? ==> r.row < |list| && list[r.row] == e && e !in list[..r.row]
  {
    var k := IndexOf(list, e);
    if k < 0 then Invalid else Row(k)
  }

  /** `hasEntry`. */
  function HasEntry(list: EntryList, e: string): (r: bool)
    ensures r <==> e in list
  {
    Find(list, e).Row?
  }

  /** `findNext`: the first row whose entry compares above `e` by more than
      one, or one past the end. */
  function FindNext(list: EntryList, e: string): (r: nat)
    ensures r <= |list|
    ensures forall i :: 0 <= i < r ==> Compare(list[i], e) <= 1
    ensures r < |list| ==> Compare(list[r], e) > 1
  {
    FirstAbove(list, e, 1)
  }

  /** Counted in UTF-16 units, a supplementary character puts "a" two above
      "a" followed by it, so `findNext` stops in front of that entry. */
  lemma FindNextCountsCodeUnits()
    ensures FindNext(["a\U{1D11E}"], "a") == 0
  {
    CompareByCodeUnits();
  }

  /** `insert`: at the given row, or at the end for an invalid index. */
  function Insert(list: EntryList, e: string, at: ModelIndex): (r: (EntryList, nat))
    requires at.Row? ==> at.row <= |list|
    ensures r.1 == (if at.Row? then at.row else |list|)
    ensures |r.0| == |list| + 1 && r.0[r.1] == e
    ensures r.0[..r.1] == list[..r.1] && r.0[r.1 + 1..] == list[r.1..]
  {
    var row := if at.Row? then at.row else |list|;
    (InsertAt(list, row, e), row)
  }

  /** `remove`: drops the indexed row. */
  function Remove(list: EntryList, row: nat): (r: EntryList)
    requires row < |list|
    ensures |r| == |list| - 1
    ensures r[..row] == list[..row] && r[row..] == list[row + 1..]
  {
    RemoveAt(list, row)
  }

  /** `rename`: the indexed row takes the new name. */
  function Rename(list: EntryList, row: nat, name: string): (r: EntryList)
    requires row < |list|
    ensures |r| == |list| && r[row] == name
    ensures forall i :: 0 <= i < |list| && i != row ==> r[i] == list[i]
  {
    list[row := name]
  }

  /** `addEntry`: the row of an existing entry, or insertion at `findNext`.
      The wallet side (an empty content record) is not part of the list. */
  function AddEntry(list: EntryList, e: string): (r: (EntryList, nat))
    ensures e in list ==> r.0 == list && Find(list, e) == Row(r.1)
    ensures r.1 < |r.0| && r.0[r.1] == e
    ensures e !in list ==> r.1 == FindNext(list, e) && RemoveAt(r.0, r.1) == list
    ensures multiset(r.0) == if e in list then multiset(list) else multiset(list) + multiset{e}
  {
    match Find(list, e)
    case Row(k) => (list, k)
    case Invalid =>
      var (l, k) := Insert(list, e, Row(FindNext(list, e)));
      assert l == InsertAt(list, k, e);
      RemoveInsertAt(list, k, e);
      (l, k)
  }

  /** Removing what was inserted gives the list back. */
  lemma RemoveInsertAt(list: EntryList, k: nat, e: string)
    requires k <= |list|
    ensures RemoveAt(InsertAt(list, k, e), k) == list
  {
    var l := InsertAt(list, k, e);
    assert RemoveAt(l, k) == l[..k] + l[k + 1..];
    assert list == list[..k] + list[k..];
  }

  /** A second add of the same name changes nothing. */
  lemma AddEntryIdempotent(list: EntryList, e: string)
    ensures AddEntry(AddEntry(list, e).0, e) == AddEntry(list, e)
  {
    var (l, k) := AddEntry(list, e);
    if e !in list {
      assert l[..k] == list[..k];
      IndexOfFirst(l, e, k);
    }
  }

  /** `findNext`'s threshold of one lets an entry land after a name that
      sorts above it: "a" added to the sorted list ["b"] ends up last. */
  lemma AddEntryBreaksOrder()
    ensures Sorted(["b"]) && !Sorted(AddEntry(["b"], "a").0)
  {
    assert Compare("b", "a") == 1;
    assert AddEntry(["b"], "a").0 == ["b", "a"];
  }

  /** `addEntry` with the insertion point the sorted order needs: before
      the first entry that compares above the new one. */
  function AddEntrySorted(list: EntryList, e: string): (r: (EntryList, nat))
    ensures e in list ==> r.0 == list && Find(list, e) == Row(r.1)
    ensures r.1 < |r.0| && r.0[r.1] == e
    ensures e !in list ==> RemoveAt(r.0, r.1) == list
    ensures multiset(r.0) == if e in list then multiset(list) else multiset(list) + multiset{e}
  {
    match Find(list, e)
    case Row(k) => (list, k)
    case Invalid =>
      var k := FirstAbove(list, e, 0);
      RemoveInsertAt(list, k, e);
      (InsertAt(list, k, e), k)
  }

  /** Adding with the corrected insertion point keeps a sorted list sorted. */
  lemma AddEntrySortedKeepsOrder(list: EntryList, e: string)
    requires Sorted(list)
    ensures Sorted(AddEntrySorted(list, e).0)
  {
    if e !in list {
      InsertBeforeGreaterKeepsSorted(list, e);
    }
  }

  /** `removeEntry(index)`: nothing for an invalid index or when the wallet
      refuses, otherwise the row goes. */
  function RemoveEntryAt(list: EntryList, at: ModelIndex, walletOk: bool): (r: EntryList)
    requires at.Row? ==> at.row < |list|
    ensures at.Invalid? || !walletOk ==> r == list
    ensures at.Row? && walletOk ==>
      |r| == |list| - 1 && r[..at.row] == list[..at.row] && r[at.row..] == list[at.row + 1..]
  {
    if at.Row? && walletOk then Remove(list, at.row) else list
  }

  /** `removeEntry(name)`: the first row holding the name goes, when there is
      one and the wallet agrees. */
  function RemoveEntryNamed(list: EntryList, e: string, walletOk: bool): (r: EntryList)
    ensures e !in list || !walletOk ==> r == list
    ensures e in list && walletOk ==> multiset(r) == multiset(list) - multiset{e}
    ensures e in list && walletOk ==>
      var k := IndexOf(list, e); r == list[..k] + list[k + 1..]
  {
    var at := Find(list, e);
    if at.Row? && walletOk then Remove(list, at.row) else list
  }

  /** Entry names are distinct, so a removed name is gone from the list. */
  lemma RemoveEntryNamedRemoves(list: EntryList, e: string)
    requires Distinct(list) && e in list
    ensures e !in RemoveEntryNamed(list, e, true)
    ensures |RemoveEntryNamed(list, e, true)| == |list| - 1
  {
    var k := IndexOf(list, e);
    DistinctRemove(list, k);
  }

  /** `setData` on a valid row. Display and edit roles rename the entry when
      the new name is non-empty, differs, and the wallet rename succeeds; the
      content role stores the row's content in the wallet and leaves the list
      alone. The result pairs the return value with the new list. */
  function SetData(list: EntryList, at: ModelIndex, value: string, role: int, renameOk: bool)
    : (r: (bool, EntryList))
    requires at.Row? ==> at.row < |list|
    ensures at.Invalid? ==> r == (false, list)
    ensures at.Row? && (role == DISPLAY_ROLE || role == EDIT_ROLE) ==>
      && (r.0 <==> value != "" && value != list[at.row] && renameOk)
      && (r.0 ==> r.1 == Rename(list, at.row, value))
      && (!r.0 ==> r.1 == list)
    ensures at.Row? && role == WALLET_CONTENT_ROLE ==> r == (true, list)
    ensures role != DISPLAY_ROLE && role != EDIT_ROLE && role != WALLET_CONTENT_ROLE ==>
      r == (false, list)
  {
    if at.Invalid? then (false, list)
    else if (role == DISPLAY_ROLE || role == EDIT_ROLE) && value != "" && value != list[at.row] && renameOk then
      (true, Rename(list, at.row, value))
    else if role == WALLET_CONTENT_ROLE then (true, list)
    else (false, list)
  }

  /** `data` for the display and edit roles: the row's name. The content
      role reads the wallet and is not part of the list. */
  function Data(list: EntryList, at: ModelIndex, role: int): (r: Option<string>)
    requires at.Row? ==> at.row < |list|
    ensures r.Some? <==> at.Row? && (role == DISPLAY_ROLE || role == EDIT_ROLE)
    ensures r.Some? ==> r.value == list[at.row]
  {
    if at.Row? && (role == DISPLAY_ROLE || role == EDIT_ROLE) then Some(list[at.row]) else None
  }

  /** A successful rename shows the new name at the row, and every other row
      shows what it showed before. */
  lemma SetDataThenData(list: EntryList, row: nat, value: string, role: int, renameOk: bool, other: nat)
    requires row < |list| && other < |list|
    requires role == DISPLAY_ROLE || role == EDIT_ROLE
    ensures var (ok, l) := SetData(list, Row(row), value, role, renameOk);
      && |l| == |list|
      && (ok ==> Data(l, Row(row), role) == Some(value))
      && (other != row ==> Data(l, Row(other), role) == Data(list, Row(other), role))
  {
  }

  /** `rowCount`. */
  function RowCount(list: EntryList): nat {
    |list|
  }

  /** `entryList`: a copy of the list. */
  function Entries(list: EntryList): EntryList {
    list
  }

  /** `rowCount` follows the edits: adding a new name adds a row, adding a
      present one adds none, and a removal the wallet accepts drops one. */
  lemma RowCountFollowsEdits(list: EntryList, e: string, at: ModelIndex, walletOk: bool)
    requires at.Row? ==> at.row < |list|
    ensures RowCount(AddEntry(list, e).0) == RowCount(list) + if e in list then 0 else 1
    ensures RowCount(RemoveEntryAt(list, at, walletOk)) == RowCount(list) - if at.Row? && walletOk then 1 else 0
  {
    var r := AddEntry(list, e).0;
    if e !in list {
      assert |RemoveAt(r, AddEntry(list, e).1)| == |r| - 1;
    }
  }

  /** `entryList` is what the view shows: one name per row, the name the
      display role gives there, and a name is listed exactly when `hasEntry`
      finds it. */
  lemma EntriesAreRows(list: EntryList, e: string)
    ensures |Entries(list)| == RowCount(list)
    ensures forall i :: 0 <= i < RowCount(list) ==> Data(list, Row(i), DISPLAY_ROLE) == Some(Entries(list)[i])
    ensures e in Entries(list) <==> HasEntry(list, e)
  {
  }

  lemma PrefixExtend(a: EntryList, b: EntryList, i: nat)
    requires i < |a| && i < |b| && a[..i] == b[..i] && a[i] == b[i]
    ensures a[..i + 1] == b[..i + 1]
  {
    assert a[..i + 1] == a[..i] + [a[i]];
    assert b[..i + 1] == b[..i] + [b[i]];
  }

  /** The first loop of `load`: walk the list and the sorted wallet names
      in step; a smaller wallet name is inserted, a larger one removes the
      list's row, equal names are kept. It stops at the end of either. */
  method Merge(list: EntryList, sorted: seq<string>) returns (r: EntryList, i: nat)
    ensures i <= |sorted| && i <= |r| && (i == |sorted| || i == |r|)
    ensures r[..i] == sorted[..i]
  {
    r := list;
    i := 0;
    while i < |sorted| && i < |r|
      invariant i <= |sorted| && i <= |r|
      invariant r[..i] == sorted[..i]
      decreases (|sorted| - i) + (|r| - i)
    {
      var cmp := Compare(sorted[i], r[i]);
      if cmp < 0 {
        r := InsertAt(r, i, sorted[i]);
        PrefixExtend(r, sorted, i);
        i := i + 1;
      } else if cmp > 0 {
        r := Remove(r, i);
      } else {
        CompareZeroIffEqual(sorted[i], r[i]);
        PrefixExtend(r, sorted, i);
        i := i + 1;
      }
    }
  }

  /** The second loop: append the wallet names left over. */
  method AppendRest(list: EntryList, sorted: seq<string>, from: nat) returns (r: EntryList)
    requires from <= |sorted| && from <= |list| && (from == |sorted| || from == |list|)
    requires list[..from] == sorted[..from]
    ensures |sorted| <= |r| && r[..|sorted|] == sorted
    ensures from < |sorted| ==> |r| == |sorted|
    ensures from == |sorted| ==> r == list
  {
    r := list;
    var i := from;
    while i < |sorted|
      invariant from <= i <= |sorted| && i <= |r|
      invariant from < |sorted| ==> |r| == i
      invariant from == |sorted| ==> r == list
      invariant r[..i] == sorted[..i]
    {
      var (l, _) := Insert(r, sorted[i], Invalid);
      r := l;
      PrefixExtend(r, sorted, i);
      i := i + 1;
    }
    assert sorted[..i] == sorted;
  }

  /** The third loop: remove the rows past the wallet's names. */
  method DropRest(list: EntryList, n: nat) returns (r: EntryList)
    requires n <= |list|
    ensures r == list[..n]
  {
    r := list;
    while n < |r|
      invariant n <= |r| && r[..n] == list[..n]
      decreases |r|
    {
      r := Remove(r, n);
    }
    assert r == r[..n];
  }

  /** `load`: bring the list in line with the wallet's entries sorted by
      `compare`, whatever the list held. */
  method Load(list: EntryList, wallet: seq<string>) returns (r: EntryList)
    ensures r == Sort(wallet)
    ensures Sorted(r) && multiset(r) == multiset(wallet)
    ensures RowCount(r) == |wallet| && Entries(r) == Sort(wallet)
  {
    var sorted := Sort(wallet);
    var merged, i := Merge(list, sorted);
    var appended := AppendRest(merged, sorted, i);
    r := DropRest(appended, |sorted|);
  }
}
