/** The row editor of the wallet tab (`WalletWidget`): one row of user name
    and password fields per saved password of the selected entry. Each row's
    pane is identified by the number it was created with; the list selection
    is a flag. */
module WalletWidget {
  import opened Wrappers
  import opened Strings

  /** A saved password of an entry (`WalletContent`). */
  datatype Content = Content(username: string, password: string)

  /** A row of fields: its pane's number, the two texts and whether the pane
      is visible. */
  datatype Row = Row(pane: nat, username: string, password: string, visible: bool)

  /** The rows (`fieldsList`), `fieldsVisible`, whether an entry is
      selected in the list, and whether the wallet page holding the panes is
      itself on screen. A row's `visible` is its pane's own show flag;
      `isVisible` is true only when the page is shown as well. */
  datatype Widget = Widget(rows: seq<Row>, fieldsVisible: int, selected: bool, pageShown: bool)

  const BLANK: Content := Content("", "")

  /** Panes are numbered by position, and `fieldsVisible` never passes the
      rows there are. */
  ghost predicate Valid(w: Widget) {
    && 0 <= w.fieldsVisible <= |w.rows|
    && forall i :: 0 <= i < |w.rows| ==> w.rows[i].pane == i
  }

  predicate Blank(r: Row) {
    r.username == "" && r.password == ""
  }

  function TextOf(r: Row): Content {
    Content(r.username, r.password)
  }

  /** The texts the rows show, in order. */
  function Texts(rows: seq<Row>): seq<Content> {
    seq(|rows|, i requires 0 <= i < |rows| => TextOf(rows[i]))
  }

  /** `fillData`: show the pane with the content's texts. */
  function Fill(row: Row, c: Content): (r: Row)
    ensures TextOf(r) == c && r.visible && r.pane == row.pane
  {
    row.(username := c.username, password := c.password, visible := true)
  }

  /** `copyDataFrom`: take the other row's texts; the pane keeps its
      visibility. */
  function CopyText(row: Row, from: Row): (r: Row)
    ensures TextOf(r) == TextOf(from) && r.pane == row.pane && r.visible == row.visible
  {
    row.(username := from.username, password := from.password)
  }

  /** `clearData`: empty both texts and hide the pane. */
  function Clear(row: Row): (r: Row)
    ensures Blank(r) && !r.visible && r.pane == row.pane
  {
    row.(username := "", password := "", visible := false)
  }

  /** Clearing a pane forgets whatever was filled into it, and filling a
      cleared pane shows exactly the content. */
  lemma ClearForgetsFill(row: Row, c: Content)
    ensures Clear(Fill(row, c)) == Clear(row)
    ensures Fill(Clear(row), c) == Fill(row, c)
  {
  }

  /** `fields(pos)`: rows are created, numbered in order, until row `pos`
      exists. A new pane is blank and not yet shown. */
  function Fields(rows: seq<Row>, pos: nat): (r: seq<Row>)
    ensures |r| == if pos < |rows| then |rows| else pos + 1
    ensures r[..|rows|] == rows
    ensures forall i :: |rows| <= i < |r| ==> r[i] == Row(i, "", "", false)
    decreases pos + 1 - |rows|
  {
    if pos < |rows| then rows
    else Fields(rows + [Row(|rows|, "", "", false)], pos)
  }

  /** Growing the rows keeps panes numbered by position. */
  lemma FieldsKeepsNumbering(rows: seq<Row>, pos: nat)
    requires forall i :: 0 <= i < |rows| ==> rows[i].pane == i
    ensures var r := Fields(rows, pos);
      forall i :: 0 <= i < |r| ==> r[i].pane == i
  {
    var r := Fields(rows, pos);
    forall i | 0 <= i < |r|
      ensures r[i].pane == i
    {
      if i < |rows| {
        assert r[i] == r[..|rows|][i];
      }
    }
  }

  /** `getPanePos`: the position of the row owning the pane, or -1. */
  function GetPanePos(rows: seq<Row>, pane: nat): (r: int)
    ensures -1 <= r < |rows|
    ensures r == -1 <==> forall i :: 0 <= i < |rows| ==> rows[i].pane != pane
    ensures r >= 0 ==> rows[r].pane == pane && forall i :: 0 <= i < r ==> rows[i].pane != pane
  {
    if |rows| == 0 then -1
    else if rows[0].pane == pane then 0
    else
      var k := GetPanePos(rows[1..], pane);
      if k < 0 then -1 else k + 1
  }

  /** With panes numbered by position, a pane's position is its number. */
  lemma GetPanePosIsNumber(w: Widget, pane: nat)
    requires Valid(w)
    ensures GetPanePos(w.rows, pane) == if pane < |w.rows| then pane else -1
  {
    var k := GetPanePos(w.rows, pane);
    if pane < |w.rows| {
      assert w.rows[pane].pane == pane;
    }
  }

  /** The contents worth keeping: visible rows with some text, in row order. */
  function Saved(rows: seq<Row>): seq<Content> {
    if |rows| == 0 then []
    else
      var last := rows[|rows| - 1];
      Saved(rows[..|rows| - 1]) + if last.visible && !Blank(last) then [TextOf(last)] else []
  }

  /** What `saveEntryContent` collects: the saved rows while the page is on
      screen, and nothing while it is hidden, since no pane is then visible. */
  function Collected(w: Widget): seq<Content> {
    if w.pageShown then Saved(w.rows) else []
  }

  /** `saveEntryContent`: nothing without a selection, otherwise the visible
      rows with a user name or a password, in order, go to the wallet. */
  method SaveEntryContent(w: Widget) returns (saved: Option<seq<Content>>)
    ensures !w.selected ==> saved == None
    ensures w.selected && w.pageShown ==> saved == Some(Saved(w.rows))
    ensures w.selected && !w.pageShown ==> saved == Some([])
  {
    if !w.selected {
      return None;
    }
    var list := [];
    var i := 0;
    while i < |w.rows|
      invariant 0 <= i <= |w.rows|
      invariant list == if w.pageShown then Saved(w.rows[..i]) else []
    {
      assert w.rows[..i + 1][..i] == w.rows[..i];
      var f := w.rows[i];
      if w.pageShown && f.visible && (f.username != "" || f.password != "") {
        list := list + [Content(f.username, f.password)];
      }
      i := i + 1;
    }
    assert w.rows[..i] == w.rows;
    saved := Some(list);
  }

  /** Every saved content comes from a visible row with some text. */
  lemma {:induction false} SavedFromRows(rows: seq<Row>)
    ensures |Saved(rows)| <= |rows|
    ensures forall c :: c in Saved(rows) ==>
      c != BLANK && exists i :: 0 <= i < |rows| && rows[i].visible && TextOf(rows[i]) == c
  {
    if |rows| > 0 {
      var init := rows[..|rows| - 1];
      SavedFromRows(init);
      forall c | c in Saved(init)
        ensures exists i :: 0 <= i < |rows| && rows[i].visible && TextOf(rows[i]) == c
      {
        var i :| 0 <= i < |init| && init[i].visible && TextOf(init[i]) == c;
        assert rows[i] == init[i];
      }
    }
  }

  /** The rows after deleting the texts at `pos`: later rows move their
      texts up one, and the last row is cleared and hidden. */
  function Shifted(rows: seq<Row>, pos: nat): (r: seq<Row>)
    requires pos < |rows|
    ensures |r| == |rows|
  {
    seq(|rows|, i requires 0 <= i < |rows| =>
      if i < pos then rows[i]
      else if i < |rows| - 1 then CopyText(rows[i], rows[i + 1])
      else Clear(rows[i]))
  }

  /** Shifting is deleting the texts at `pos` and appending blank texts. */
  lemma ShiftedIsDeleteAppend(rows: seq<Row>, pos: nat)
    requires pos < |rows|
    ensures Texts(Shifted(rows, pos)) == RemoveAt(Texts(rows), pos) + [BLANK]
  {
    var t := Texts(rows);
    var left := Texts(Shifted(rows, pos));
    var right := t[..pos] + t[pos + 1..] + [BLANK];
    forall i | 0 <= i < |left|
      ensures left[i] == right[i]
    {
      ShiftedTextAt(rows, pos, i);
    }
    assert left == right;
  }

  lemma ShiftedTextAt(rows: seq<Row>, pos: nat, i: nat)
    requires pos < |rows| && i < |rows|
    ensures var t := Texts(rows);
      Texts(Shifted(rows, pos))[i] == (t[..pos] + t[pos + 1..] + [BLANK])[i]
  {
    var t := Texts(rows);
    var right := t[..pos] + t[pos + 1..] + [BLANK];
    if i < pos {
      assert right[i] == t[i];
    } else if i < |rows| - 1 {
      assert right[i] == t[pos + 1..][i - pos] == t[i + 1];
    } else {
      assert right[i] == BLANK;
    }
  }

  /** Panes keep their numbers and, except the last, their visibility. */
  lemma ShiftedKeepsPanes(rows: seq<Row>, pos: nat)
    requires pos < |rows|
    ensures forall i :: 0 <= i < |rows| ==> Shifted(rows, pos)[i].pane == rows[i].pane
    ensures forall i :: 0 <= i < |rows| - 1 ==> Shifted(rows, pos)[i].visible == rows[i].visible
    ensures !Shifted(rows, pos)[|rows| - 1].visible
  {
  }

  /** The copy loop of `removePassword` and the clearing of the last row. */
  method ShiftRows(rows: seq<Row>, pos: nat) returns (r: seq<Row>)
    requires pos < |rows|
    ensures r == Shifted(rows, pos)
  {
    ghost var target := Shifted(rows, pos);
    r := rows;
    var i := pos;
    while i < |r| - 1
      invariant pos <= i <= |rows| - 1 && |r| == |rows|
      invariant r[..i] == target[..i]
      invariant r[i..] == rows[i..]
    {
      assert r[i] == rows[i] && r[i + 1] == rows[i + 1];
      assert target[i] == CopyText(rows[i], rows[i + 1]);
      r := r[i := CopyText(r[i], r[i + 1])];
      assert r[..i + 1] == target[..i + 1];
      i := i + 1;
    }
    assert r[i] == rows[i] && target[i] == Clear(rows[i]);
    r := r[i := Clear(r[i])];
    assert r == r[..i] + [r[i]] && target == target[..i] + [target[i]];
  }

  /** `removePassword(pos)`: nothing for -1; a row with text needs the
      user's confirmation. Then the texts below move up one row, the last row
      is cleared and hidden, and the content is saved. `fieldsVisible` stays. */
  method RemovePassword(w: Widget, pos: int, confirm: bool)
    returns (r: Widget, saved: Option<seq<Content>>)
    requires pos < |w.rows|
    ensures pos < 0 || (!Blank(w.rows[pos]) && !confirm) ==> r == w && saved == None
    ensures 0 <= pos && (Blank(w.rows[pos]) || confirm) ==>
      && r == w.(rows := Shifted(w.rows, pos))
      && saved == (if w.selected then Some(Collected(r)) else None)
  {
    if pos < 0 {
      return w, None;
    }
    if (w.rows[pos].username != "" || w.rows[pos].password != "") && !confirm {
      return w, None;
    }
    var rows := ShiftRows(w.rows, pos);
    r := w.(rows := rows);
    saved := SaveEntryContent(r);
  }

  /** `loadContent`: an invalid index changes nothing; otherwise the first
      rows are filled with the contents and shown, `fieldsVisible` becomes
      their number, and every further row is cleared and hidden. */
  function LoadContent(w: Widget, contents: seq<Content>, indexValid: bool): (r: Widget)
    ensures !indexValid ==> r == w
    ensures indexValid ==>
      && r.selected == w.selected && r.fieldsVisible == |contents|
      && |r.rows| == (if |contents| <= |w.rows| then |w.rows| else |contents|)
      && (forall i :: 0 <= i < |contents| ==> r.rows[i].visible && TextOf(r.rows[i]) == contents[i])
      && (forall i :: |contents| <= i < |r.rows| ==> !r.rows[i].visible && Blank(r.rows[i]))
    ensures indexValid ==> forall i :: 0 <= i < |w.rows| ==> r.rows[i].pane == w.rows[i].pane
  {
    if !indexValid then w
    else
      var k := |contents|;
      var grown := if k == 0 then w.rows else Fields(w.rows, k - 1);
      assert forall i :: 0 <= i < |w.rows| ==> grown[i] == grown[..|w.rows|][i];
      var rows := seq(|grown|, i requires 0 <= i < |grown| =>
        if i < k then Fill(grown[i], contents[i]) else Clear(grown[i]));
      w.(rows := rows, fieldsVisible := k)
  }

  /** `appendPasswordFields`: make sure row `fieldsVisible` exists, count
      it, and show it. */
  function AppendPasswordFields(w: Widget): (r: Widget)
    requires w.fieldsVisible >= 0
    ensures r.fieldsVisible == w.fieldsVisible + 1 && r.selected == w.selected
    ensures |r.rows| == if w.fieldsVisible < |w.rows| then |w.rows| else w.fieldsVisible + 1
    ensures r.rows[w.fieldsVisible].visible
    ensures forall i :: 0 <= i < |r.rows| && i != w.fieldsVisible ==>
      r.rows[i] == if i < |w.rows| then w.rows[i] else Row(i, "", "", false)
    ensures w.fieldsVisible < |w.rows| ==>
      TextOf(r.rows[w.fieldsVisible]) == TextOf(w.rows[w.fieldsVisible])
  {
    var rows := Fields(w.rows, w.fieldsVisible);
    assert forall i :: 0 <= i < |w.rows| ==> rows[i] == rows[..|w.rows|][i];
    var pos := w.fieldsVisible;
    w.(rows := rows[pos := rows[pos].(visible := true)], fieldsVisible := pos + 1)
  }

  /** Loading keeps the rows well formed. */
  lemma LoadContentKeepsValid(w: Widget, contents: seq<Content>, indexValid: bool)
    requires Valid(w)
    ensures Valid(LoadContent(w, contents, indexValid))
  {
    if indexValid && |contents| > 0 {
      FieldsKeepsNumbering(w.rows, |contents| - 1);
    }
  }

  /** Appending keeps the rows well formed. */
  lemma AppendKeepsValid(w: Widget)
    requires Valid(w)
    ensures Valid(AppendPasswordFields(w))
  {
  }

  /** Removing keeps the rows well formed. */
  lemma ShiftedKeepsValid(w: Widget, pos: nat)
    requires Valid(w) && pos < |w.rows|
    ensures Valid(w.(rows := Shifted(w.rows, pos)))
  {
    ShiftedKeepsPanes(w.rows, pos);
  }

  lemma {:induction false} SavedFilled(rows: seq<Row>, contents: seq<Content>)
    requires |contents| <= |rows|
    requires forall c :: c in contents ==> c != BLANK
    requires forall i :: 0 <= i < |contents| ==> rows[i].visible && TextOf(rows[i]) == contents[i]
    requires forall i :: |contents| <= i < |rows| ==> !rows[i].visible
    ensures Saved(rows) == contents
  {
    if |rows| > 0 {
      var init := rows[..|rows| - 1];
      var last := rows[|rows| - 1];
      if |contents| == |rows| {
        var prefix := contents[..|rows| - 1];
        assert contents[|rows| - 1] in contents;
        assert forall c :: c in prefix ==> c in contents;
        assert forall i :: 0 <= i < |prefix| ==> init[i] == rows[i] && prefix[i] == contents[i];
        SavedFilled(init, prefix);
        assert contents == contents[..|rows| - 1] + [TextOf(last)];
      } else {
        assert forall i :: 0 <= i < |rows| - 1 ==> init[i] == rows[i];
        SavedFilled(init, contents);
      }
    }
  }

  /** Saving right after loading gives back the loaded contents, when none
      of them is blank and the page is on screen. */
  lemma LoadThenSave(w: Widget, contents: seq<Content>)
    requires forall c :: c in contents ==> c != BLANK
    ensures Saved(LoadContent(w, contents, true).rows) == contents
    ensures w.pageShown ==> Collected(LoadContent(w, contents, true)) == contents
  {
    SavedFilled(LoadContent(w, contents, true).rows, contents);
  }
}
