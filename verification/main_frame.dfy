/** The generator panel of the main window (`MainFrame`): the four character
    classes with their toggles, texts and minimum spinners, the length
    spinner and its label, the most-recently-used ordering of the class
    combo boxes, and the named presets with their serialised records. */
module MainFrame {
  import opened Wrappers
  import opened Strings
  import opened Stock
  import opened ComboBox
  import Assembly
  import Keystream

  const CHAR_CLASSES: nat := 4

  /** `Qt::Unchecked`; a check box is checked in every other state. */
  const UNCHECKED: int := 0

  /** One character class: its toggle's check state, its combo box and its
      minimum spinner. */
  datatype CharClass = CharClass(state: int, combo: Combo, minLength: int)

  /** The panel: lower, upper, numbers and special classes in that order,
      the length spinner, `minimumPasswordLength`, and the number the length
      label shows. */
  datatype Panel = Panel(classes: seq<CharClass>, length: int, minimum: int, shown: int)

  predicate Checked(c: CharClass) {
    c.state != UNCHECKED
  }

  /** `Qt::Checked`. */
  const CHECKED: int := 2

  /** Four classes, valid combo boxes, and toggles in one of the three
      states `checkState` reports. */
  predicate WellFormed(p: Panel) {
    && |p.classes| == CHAR_CLASSES
    && CombosValid(p.classes)
    && forall i :: 0 <= i < |p.classes| ==> UNCHECKED <= p.classes[i].state <= CHECKED
  }

  predicate CombosValid(classes: seq<CharClass>) {
    forall i :: 0 <= i < |classes| ==> ComboBox.Valid(classes[i].combo)
  }

  /** The length spinner is at least the minimum the checked classes need. */
  predicate LengthCovered(p: Panel) {
    p.minimum == MinimumOf(p.classes) && p.length >= p.minimum
  }

  /** The sum of the minimum spinners of the checked classes. */
  function MinimumOf(classes: seq<CharClass>): int {
    if |classes| == 0 then 0
    else
      var last := classes[|classes| - 1];
      MinimumOf(classes[..|classes| - 1]) + (if Checked(last) then last.minLength else 0)
  }

  /** `handleMinSpinnerChange`: recompute the minimum and raise the length
      spinner to it when it is below; raising the spinner runs the length
      handler, which shows the minimum. */
  function HandleMinSpinnerChange(p: Panel): (r: Panel)
    ensures r.classes == p.classes
    ensures r.minimum == MinimumOf(p.classes)
    ensures p.length < r.minimum ==> r.length == r.minimum && r.shown == r.minimum
    ensures p.length >= r.minimum ==> r.length == p.length && r.shown == p.shown
    ensures LengthCovered(r)
  {
    var m := MinimumOf(p.classes);
    if p.length < m then p.(minimum := m, length := m, shown := m) else p.(minimum := m)
  }

  /** `handlePasswordLengthChange(value)`, run for the spinner's new value.
      A value below the minimum is raised to it; setting the spinner runs the
      handler again with the minimum, which then is shown. */
  function HandlePasswordLengthChange(p: Panel): (r: Panel)
    ensures r.classes == p.classes && r.minimum == p.minimum
    ensures r.length == if p.length < p.minimum then p.minimum else p.length
    ensures r.length >= r.minimum && r.shown == r.length
  {
    if p.length < p.minimum then p.(length := p.minimum, shown := p.minimum)
    else p.(shown := p.length)
  }

  /** Either handler leaves the length covering the minimum of the checked
      classes, once the minimum is current. */
  lemma HandlersCoverMinimum(p: Panel)
    requires p.minimum == MinimumOf(p.classes)
    ensures LengthCovered(HandlePasswordLengthChange(p))
    ensures LengthCovered(HandleMinSpinnerChange(p))
  {
  }

  /** The stock the checked classes describe, in class order: each checked
      class contributes its current text and its minimum. */
  function StockOf(classes: seq<CharClass>): CharacterStock
    requires CombosValid(classes)
  {
    if |classes| == 0 then []
    else
      var last := classes[|classes| - 1];
      var init := StockOf(classes[..|classes| - 1]);
      if Checked(last) then Add(init, CurrentText(last.combo), last.minLength) else init
  }

  /** The stock needs exactly the minimum the panel shows. */
  lemma {:induction false} StockMinimum(classes: seq<CharClass>)
    requires CombosValid(classes)
    ensures MinSum(StockOf(classes)) == MinimumOf(classes)
  {
    if |classes| > 0 {
      var init := classes[..|classes| - 1];
      StockMinimum(init);
      var last := classes[|classes| - 1];
      if Checked(last) {
        var t := Add(StockOf(init), CurrentText(last.combo), last.minLength);
        assert t[..|t| - 1] == StockOf(init);
      }
    }
  }

  /** Non-negative minimum spinners give a stock without negative minimums. */
  lemma {:induction false} StockNonNegative(classes: seq<CharClass>)
    requires CombosValid(classes)
    requires forall i :: 0 <= i < |classes| ==> classes[i].minLength >= 0
    ensures NonNegative(StockOf(classes))
  {
    if |classes| > 0 {
      StockNonNegative(classes[..|classes| - 1]);
    }
  }

  /** Populating a box never changes the text it shows. */
  lemma PopulateKeepsCurrentText(c: Combo)
    requires ComboBox.Valid(c)
    ensures CurrentText(Populate(c)) == CurrentText(c)
  {
  }

  /** The stock-building loop of `handleGeneratePressed`: every checked
      class's box is populated, then its current text and minimum are added
      to the stock. */
  method BuildStock(classes: seq<CharClass>) returns (updated: seq<CharClass>, stock: CharacterStock)
    requires CombosValid(classes)
    ensures stock == StockOf(classes)
    ensures |updated| == |classes|
    ensures forall i :: 0 <= i < |classes| ==>
      updated[i] == if Checked(classes[i]) then classes[i].(combo := Populate(classes[i].combo)) else classes[i]
  {
    updated := classes;
    stock := [];
    var i := 0;
    while i < |classes|
      invariant 0 <= i <= |classes| && |updated| == |classes|
      invariant stock == StockOf(classes[..i])
      invariant forall k :: 0 <= k < i ==>
        updated[k] == if Checked(classes[k]) then classes[k].(combo := Populate(classes[k].combo)) else classes[k]
      invariant updated[i..] == classes[i..]
    {
      assert classes[..i + 1][..i] == classes[..i];
      if Checked(classes[i]) {
        var c := Populate(classes[i].combo);
        PopulateKeepsCurrentText(classes[i].combo);
        updated := updated[i := classes[i].(combo := c)];
        stock := Add(stock, CurrentText(c), classes[i].minLength);
      }
      i := i + 1;
    }
    assert classes[..i] == classes;
  }

  /** The stock lists the checked classes in class order: it distributes
      over concatenation, and one class contributes its item exactly when it
      is checked. */
  lemma {:induction false} StockOfConcat(a: seq<CharClass>, b: seq<CharClass>)
    requires CombosValid(a) && CombosValid(b)
    ensures CombosValid(a + b) && StockOf(a + b) == StockOf(a) + StockOf(b)
    decreases |b|
  {
    var ab := a + b;
    assert CombosValid(ab) by {
      forall i | 0 <= i < |ab|
        ensures ComboBox.Valid(ab[i].combo)
      {
        if i >= |a| {
          assert ab[i] == b[i - |a|];
        }
      }
    }
    if |b| == 0 {
      assert ab == a;
    } else {
      var init := b[..|b| - 1];
      StockOfConcat(a, init);
      assert ab[..|ab| - 1] == a + init;
    }
  }

  lemma StockOfSingle(c: CharClass)
    requires ComboBox.Valid(c.combo)
    ensures StockOf([c]) == if Checked(c) then [Item(CurrentText(c.combo), c.minLength)] else []
  {
    assert [c][..0] == [];
  }

  /** With every toggle unchecked the stock is empty. */
  lemma {:induction false} StockOfUnchecked(classes: seq<CharClass>)
    requires CombosValid(classes)
    requires forall i :: 0 <= i < |classes| ==> !Checked(classes[i])
    ensures StockOf(classes) == []
    decreases |classes|
  {
    if |classes| > 0 {
      StockOfUnchecked(classes[..|classes| - 1]);
    }
  }

  /** A checked class puts its text and minimum into the stock. */
  lemma {:induction false} StockOfChecked(classes: seq<CharClass>, i: nat)
    requires CombosValid(classes) && i < |classes| && Checked(classes[i])
    ensures Item(CurrentText(classes[i].combo), classes[i].minLength) in StockOf(classes)
    decreases |classes|
  {
    var n := |classes| - 1;
    if i < n {
      StockOfChecked(classes[..n], i);
    }
  }

  /** As written, `handleGeneratePressed` on a panel with every toggle
      unchecked asks for a request that is not generable: the fill divides
      by the size of the empty pool, or for a length of zero or less the
      shuffle divides by the size of the empty password. */
  lemma UncheckedPanelCannotGenerate(classes: seq<CharClass>, length: int)
    requires CombosValid(classes)
    requires forall i :: 0 <= i < |classes| ==> !Checked(classes[i])
    ensures !Assembly.Generable(StockOf(classes), length)
  {
    StockOfUnchecked(classes);
  }

  /** As written, a checked class with an empty text and a positive minimum
      makes the minimum pass divide by the size of the empty text. */
  lemma EmptyClassCannotGenerate(classes: seq<CharClass>, i: nat, length: int)
    requires CombosValid(classes) && i < |classes| && Checked(classes[i])
    requires CurrentText(classes[i].combo) == "" && classes[i].minLength > 0
    ensures !Assembly.Generable(StockOf(classes), length)
  {
    StockOfChecked(classes, i);
  }

  /** `handleGeneratePressed` with the corrected `generate`: build the stock
      from the checked classes, then ask for the spinner's length. A request
      that would divide by zero is refused; otherwise, with non-negative
      minimums and the length covering them, the password has the length the
      spinner shows. */
  method HandleGeneratePressed(p: Panel, g: Keystream.Generator, enc: Keystream.Cipher, rnd: Keystream.WordSupply)
    returns (updated: seq<CharClass>, password: Option<string>, r: Keystream.Generator)
    requires WellFormed(p) && Keystream.Valid(g)
    ensures |updated| == |p.classes| && CombosValid(updated)
    ensures forall i :: 0 <= i < |p.classes| ==> CurrentText(updated[i].combo) == CurrentText(p.classes[i].combo)
    ensures password.None? <==> !Assembly.Generable(StockOf(p.classes), p.length)
    ensures password.None? ==> r == g
    ensures password.Some? ==> Assembly.FromPool(password.value, Pool(StockOf(p.classes)))
    ensures password.Some? ==> Assembly.MeetsMinimums(password.value, StockOf(p.classes))
    ensures password.Some? && LengthCovered(p) && (forall i :: 0 <= i < |p.classes| ==> p.classes[i].minLength >= 0) ==>
      |password.value| == p.length
  {
    var stock;
    updated, stock := BuildStock(p.classes);
    forall i | 0 <= i < |p.classes|
      ensures CurrentText(updated[i].combo) == CurrentText(p.classes[i].combo)
    {
      if Checked(p.classes[i]) {
        PopulateKeepsCurrentText(p.classes[i].combo);
      }
    }
    password, r := Assembly.GenerateOrFail(g, enc, rnd, stock, p.length);
    if password.Some? && LengthCovered(p) && (forall i :: 0 <= i < |p.classes| ==> p.classes[i].minLength >= 0) {
      StockMinimum(p.classes);
      StockNonNegative(p.classes);
    }
  }

  /** With non-negative minimums and the length covering the minimum, the
      generator is asked for exactly the length the spinner shows. */
  lemma GeneratedLengthIsShown(p: Panel)
    requires LengthCovered(p) && CombosValid(p.classes)
    requires forall i :: 0 <= i < |p.classes| ==> p.classes[i].minLength >= 0
    ensures var stock := StockOf(p.classes);
      Drawn(stock) + Assembly.Max(0, p.length - MinSum(stock)) == p.length
  {
    StockMinimum(p.classes);
    StockNonNegative(p.classes);
    DrawnIsMinSum(StockOf(p.classes));
  }

  /** `handleComboboxChange`: move the text to the front, dropping its first
      earlier copy. */
  function MoveToFront(items: seq<string>, text: string): (r: seq<string>)
    ensures |r| > 0 && r[0] == text
    ensures text !in items ==> r[1..] == items
    ensures text in items ==> r[1..] == RemoveAt(items, IndexOf(items, text))
    ensures multiset(r) == if text in items then multiset(items) else multiset(items) + multiset{text}
  {
    var idx := IndexOf(items, text);
    var rest := if idx != -1 then RemoveAt(items, idx) else items;
    assert multiset([text] + rest) == multiset{text} + multiset(rest);
    [text] + rest
  }

  /** Choosing the front text again changes nothing. */
  lemma MoveToFrontIdempotent(items: seq<string>, text: string)
    ensures MoveToFront(MoveToFront(items, text), text) == MoveToFront(items, text)
  {
    var r := MoveToFront(items, text);
    assert IndexOf(r, text) == 0;
    assert RemoveAt(r, 0) == r[1..];
  }

  /** A list of distinct texts stays distinct. */
  lemma MoveToFrontKeepsDistinct(items: seq<string>, text: string)
    requires Distinct(items)
    ensures Distinct(MoveToFront(items, text))
  {
    var r := MoveToFront(items, text);
    var rest := r[1..];
    if text in items {
      var k := IndexOf(items, text);
      DistinctRemove(items, k);
      DistinctRemoveKeeps(items, k);
    }
    DistinctInsert(rest, 0, text);
    assert r == rest[..0] + [text] + rest[0..];
  }

  lemma DistinctRemoveKeeps<T>(s: seq<T>, k: nat)
    requires Distinct(s) && k < |s|
    ensures Distinct(s[..k] + s[k + 1..])
  {
    var r := s[..k] + s[k + 1..];
    forall i, j | 0 <= i < j < |r|
      ensures r[i] != r[j]
    {
      var i' := if i < k then i else i + 1;
      var j' := if j < k then j else j + 1;
      assert r[i] == s[i'] && r[j] == s[j'];
    }
  }

  /** The saved entries other than `text`, in order. */
  function Without(list: seq<string>, text: string): (r: seq<string>)
    ensures forall x :: x in r <==> x in list && x != text
    ensures multiset(r) == multiset(list)[text := 0]
    ensures text !in list ==> r == list
    ensures |r| <= |list|
  {
    if |list| == 0 then []
    else
      var init, last := list[..|list| - 1], list[|list| - 1];
      assert list == init + [last];
      if last == text then Without(init, text)
      else Without(init, text) + [last]
  }

  /** `Without` filters piece by piece, so the kept entries stay in their
      order: it distributes over concatenation and keeps a single entry
      exactly when it differs from the text. */
  lemma {:induction false} WithoutConcat(a: seq<string>, b: seq<string>, text: string)
    ensures Without(a + b, text) == Without(a, text) + Without(b, text)
    decreases |b|
  {
    if |b| == 0 {
      assert a + b == a;
    } else {
      var init, last, ab := b[..|b| - 1], b[|b| - 1], a + b;
      var tail := if last == text then [] else [last];
      assert ab[..|ab| - 1] == a + init && ab[|ab| - 1] == last;
      WithoutStep(ab, text);
      WithoutStep(b, text);
      WithoutConcat(a, init, text);
      var x, y := Without(a, text), Without(init, text);
      assert Without(ab, text) == (x + y) + tail;
      assert Without(b, text) == y + tail;
      assert (x + y) + tail == x + (y + tail);
    }
  }

  lemma WithoutStep(list: seq<string>, text: string)
    requires |list| > 0
    ensures Without(list, text) == Without(list[..|list| - 1], text) +
      if list[|list| - 1] == text then [] else [list[|list| - 1]]
  {
  }

  lemma WithoutSingle(x: string, text: string)
    ensures Without([x], text) == if x == text then [] else [x]
  {
    assert [x][..0] == [];
  }

  /** `setComboBoxItems`: append every saved entry that differs from the
      line edit's text. */
  function SetComboBoxItems(items: seq<string>, editText: string, list: seq<string>): (r: seq<string>)
    ensures |r| >= |items| && r[..|items|] == items
    ensures forall x :: x in r[|items|..] <==> x in list && x != editText
    ensures r[|items|..] == Without(list, editText)
  {
    items + Without(list, editText)
  }

  /** `getComboBoxItems`: the item texts in order. */
  function GetComboBoxItems(c: Combo): seq<string> {
    c.items
  }

  /** Entries other than the text are all kept, in order. */
  lemma {:induction false} WithoutAbsent(list: seq<string>, text: string)
    requires text !in list
    ensures Without(list, text) == list
  {
    if |list| > 0 {
      WithoutAbsent(list[..|list| - 1], text);
      assert list == list[..|list| - 1] + [list[|list| - 1]];
    }
  }

  /** Saving a box's items and restoring them into an empty box gives the
      same items, when none of them equals the line edit's text. */
  lemma ItemsRoundTrip(c: Combo, editText: string)
    requires editText !in c.items
    ensures SetComboBoxItems([], editText, GetComboBoxItems(c)) == c.items
  {
    WithoutAbsent(c.items, editText);
  }

  /** One token of a preset record: a check state or length, or a text. */
  datatype Datum = DInt(i: int) | DStr(s: string)

  /** The nine settings a preset carries, in record order. */
  datatype Preset = Preset(
    lowerOn: int, lower: string,
    upperOn: int, upper: string,
    numbersOn: int, numbers: string,
    specialOn: int, special: string,
    length: int)

  /** `OptionSet`: a named preset and whether building it failed. */
  datatype OptionSet = OptionSet(name: string, fields: Preset, failed: bool)

  /** The fields a failed read leaves behind are never used; they are zero here. */
  const NO_FIELDS: Preset := Preset(0, "", 0, "", 0, "", 0, "", 0)

  /** The record `toByteArray` writes for a preset. */
  function Encode(p: Preset): (r: seq<Datum>)
    ensures |r| == 9
  {
    [DInt(p.lowerOn), DStr(p.lower), DInt(p.upperOn), DStr(p.upper),
     DInt(p.numbersOn), DStr(p.numbers), DInt(p.specialOn), DStr(p.special), DInt(p.length)]
  }

  /** `toByteArray`: the nine fields, or nothing for a failed set. */
  function ToByteArray(o: OptionSet): (r: seq<Datum>)
    ensures o.failed <==> r == []
    ensures !o.failed ==> |r| == 9
  {
    if o.failed then [] else Encode(o.fields)
  }

  /** The nine reads of the parsing constructor, each of which must find a
      token of its kind; the first that does not ends the read. Tokens past
      the ninth are ignored. */
  function Decode(data: seq<Datum>): (r: Option<Preset>)
    ensures r.Some? <==> (|data| >= 9 &&
      data[0].DInt? && data[1].DStr? && data[2].DInt? && data[3].DStr? && data[4].DInt? &&
      data[5].DStr? && data[6].DInt? && data[7].DStr? && data[8].DInt?)
  {
    if |data| >= 9 &&
       data[0].DInt? && data[1].DStr? && data[2].DInt? && data[3].DStr? && data[4].DInt? &&
       data[5].DStr? && data[6].DInt? && data[7].DStr? && data[8].DInt?
    then Some(Preset(data[0].i, data[1].s, data[2].i, data[3].s, data[4].i,
                     data[5].s, data[6].i, data[7].s, data[8].i))
    else None
  }

  /** Reading what was written gives the fields back, whatever follows. */
  lemma DecodeEncode(p: Preset, rest: seq<Datum>)
    ensures Decode(Encode(p) + rest) == Some(p)
  {
  }

  /** A record cut short anywhere does not read. */
  lemma DecodeTruncated(p: Preset, k: nat)
    requires k < 9
    ensures Decode(Encode(p)[..k]) == None
  {
  }

  /** The parsing constructor as written: a failed read sets `failedState`,
      but a complete read never assigns it, so the flag holds whatever the
      object's storage held (`uninit`). */
  function ParseOptionSet(name: string, data: seq<Datum>, uninit: bool): (r: OptionSet)
    ensures r.name == name
    ensures Decode(data).None? ==> r.failed
    ensures Decode(data).Some? ==> r.fields == Decode(data).value && r.failed == uninit
  {
    match Decode(data)
    case Some(f) => OptionSet(name, f, uninit)
    case None => OptionSet(name, NO_FIELDS, true)
  }

  /** A complete record can come out failed: with the flag's storage set,
      the set is dropped at load although every field was read. */
  lemma ParseOptionSetDropsComplete(name: string, p: Preset)
    ensures ParseOptionSet(name, ToByteArray(OptionSet(name, p, false)), true).failed
  {
  }

  /** The parsing constructor with `failedState` cleared after the ninth
      read. */
  function ParsePreset(name: string, data: seq<Datum>): (r: OptionSet)
    ensures r.name == name
    ensures r.failed <==> Decode(data).None?
    ensures !r.failed ==> Some(r.fields) == Decode(data)
  {
    ParseOptionSet(name, data, false)
  }

  /** A set that did not fail survives its record. */
  lemma ParsePresetRoundTrip(o: OptionSet)
    requires !o.failed
    ensures ParsePreset(o.name, ToByteArray(o)) == o
  {
    DecodeEncode(o.fields, []);
    assert Encode(o.fields) + [] == Encode(o.fields);
  }

  /** `setEditText`: only a box with a line edit takes it. */
  function SetEditText(c: Combo, text: string): Combo {
    if c.editText.Some? then c.(editText := Some(text)) else c
  }

  /** `currentText` after `setEditText`: a box with a line edit shows the
      text, and one without shows what it showed before. */
  lemma SetEditTextShows(c: Combo, text: string)
    requires ComboBox.Valid(c)
    ensures c.editText.Some? ==> CurrentText(SetEditText(c, text)) == text
    ensures c.editText.None? ==> CurrentText(SetEditText(c, text)) == CurrentText(c)
  {
  }

  /** `setCheckState` followed by `checkState`: unchecked and partially
      checked read back as given, any other value as checked. */
  function CheckStateOf(state: int): (r: int)
    ensures UNCHECKED <= r <= CHECKED
    ensures r == state <==> UNCHECKED <= state <= CHECKED
    ensures r == UNCHECKED <==> state == UNCHECKED
  {
    if state == UNCHECKED || state == 1 then state else CHECKED
  }

  /** `setCheckState` on toggle `i`. A box whose state changes emits
      `stateChanged`, which runs `handleCharsCheckboxChange`, which ends in
      `handleMinSpinnerChange`. */
  function SetToggle(p: Panel, i: nat, state: int): (r: Panel)
    requires i < |p.classes|
    ensures r.classes == p.classes[i := p.classes[i].(state := CheckStateOf(state))]
    ensures p.minimum == MinimumOf(p.classes) ==> r.minimum == MinimumOf(r.classes)
    ensures LengthCovered(p) ==> LengthCovered(r)
  {
    var s := CheckStateOf(state);
    if s == p.classes[i].state then
      assert p.classes[i := p.classes[i].(state := s)] == p.classes;
      p
    else HandleMinSpinnerChange(p.(classes := p.classes[i := p.classes[i].(state := s)]))
  }

  /** `setEditText` on combo box `i`; it runs no handler of the panel. */
  function SetText(p: Panel, i: nat, text: string): (r: Panel)
    requires i < |p.classes|
    ensures r.classes == p.classes[i := p.classes[i].(combo := SetEditText(p.classes[i].combo, text))]
    ensures r.length == p.length && r.minimum == p.minimum
    ensures MinimumOf(r.classes) == MinimumOf(p.classes)
  {
    var c := p.classes[i].(combo := SetEditText(p.classes[i].combo, text));
    MinimumOfUpdate(p.classes, i, c);
    p.(classes := p.classes[i := c])
  }

  /** The minimum reads only the check states and minimum spinners. */
  lemma {:induction false} MinimumOfUpdate(classes: seq<CharClass>, i: nat, c: CharClass)
    requires i < |classes|
    requires c.state == classes[i].state && c.minLength == classes[i].minLength
    ensures MinimumOf(classes[i := c]) == MinimumOf(classes)
    decreases |classes|
  {
    var n := |classes| - 1;
    var u := classes[i := c];
    assert u[..n] == if i < n then classes[..n][i := c] else classes[..n];
    if i < n {
      MinimumOfUpdate(classes[..n], i, c);
    }
  }

  /** `setValue` on the length spinner. A changed value emits `valueChanged`,
      which runs `handlePasswordLengthChange`. */
  function SetLength(p: Panel, value: int): (r: Panel)
    ensures r.classes == p.classes && r.minimum == p.minimum
    ensures LengthCovered(p) ==> LengthCovered(r) && r.length == Assembly.Max(value, r.minimum)
  {
    if value == p.length then p else HandlePasswordLengthChange(p.(length := value))
  }

  /** The classes once a set's states and texts are written: each toggle
      holds the state `checkState` reports, and each line edit the text. */
  function Written(classes: seq<CharClass>, f: Preset): (r: seq<CharClass>)
    requires |classes| == CHAR_CLASSES
    ensures |r| == CHAR_CLASSES
    ensures forall i :: 0 <= i < CHAR_CLASSES ==>
      r[i].minLength == classes[i].minLength && r[i].combo.items == classes[i].combo.items
  {
    [WrittenClass(classes[0], f.lowerOn, f.lower), WrittenClass(classes[1], f.upperOn, f.upper),
     WrittenClass(classes[2], f.numbersOn, f.numbers), WrittenClass(classes[3], f.specialOn, f.special)]
  }

  function WrittenClass(c: CharClass, state: int, text: string): CharClass {
    c.(state := CheckStateOf(state), combo := SetEditText(c.combo, text))
  }

  /** `writeState`: a failed set changes nothing; otherwise the setters run
      in source order, each toggle and the length spinner running the
      handlers its change triggers. */
  function WriteState(p: Panel, o: OptionSet): (r: Panel)
    requires WellFormed(p)
    ensures WellFormed(r)
    ensures o.failed ==> r == p
    ensures !o.failed ==> r.classes == Written(p.classes, o.fields)
    ensures !o.failed && p.minimum == MinimumOf(p.classes) ==> r.minimum == MinimumOf(r.classes)
    ensures !o.failed && LengthCovered(p) ==>
      LengthCovered(r) && r.length == Assembly.Max(o.fields.length, r.minimum)
    ensures forall i :: 0 <= i < |p.classes| ==>
      r.classes[i].minLength == p.classes[i].minLength && r.classes[i].combo.items == p.classes[i].combo.items
  {
    if o.failed then p
    else
      var f := o.fields;
      var p1 := WriteClass(p, 0, f.lowerOn, f.lower);
      var p2 := WriteClass(p1, 1, f.upperOn, f.upper);
      var p3 := WriteClass(p2, 2, f.numbersOn, f.numbers);
      var p4 := WriteClass(p3, 3, f.specialOn, f.special);
      assert p4.classes == Written(p.classes, f);
      SetLength(p4, f.length)
  }

  /** One class's two setters: its toggle, then its combo box's text. */
  function WriteClass(p: Panel, i: nat, state: int, text: string): (r: Panel)
    requires WellFormed(p) && i < |p.classes|
    ensures WellFormed(r)
    ensures r.classes == p.classes[i := WrittenClass(p.classes[i], state, text)]
    ensures p.minimum == MinimumOf(p.classes) ==> r.minimum == MinimumOf(r.classes)
    ensures LengthCovered(p) ==> LengthCovered(r)
  {
    SetText(SetToggle(p, i, state), i, text)
  }

  /** `readState`: a set built from the panel as it stands. */
  function ReadState(p: Panel, name: string): (r: OptionSet)
    requires WellFormed(p)
    ensures r.name == name && !r.failed && r.fields.length == p.length
  {
    var cs := p.classes;
    OptionSet(name, Preset(cs[0].state, CurrentText(cs[0].combo), cs[1].state, CurrentText(cs[1].combo),
                           cs[2].state, CurrentText(cs[2].combo), cs[3].state, CurrentText(cs[3].combo),
                           p.length), false)
  }

  /** The settings the panel shows, as a set would record them. */
  function PanelFields(p: Panel): Preset
    requires WellFormed(p)
  {
    ReadState(p, "").fields
  }

  /** `checkState`: the set's fields are what the panel shows. */
  predicate CheckState(o: OptionSet, p: Panel)
    requires WellFormed(p)
  {
    o.fields == PanelFields(p)
  }

  /** States `checkState` can report. */
  predicate StatesInRange(f: Preset) {
    && UNCHECKED <= f.lowerOn <= CHECKED && UNCHECKED <= f.upperOn <= CHECKED
    && UNCHECKED <= f.numbersOn <= CHECKED && UNCHECKED <= f.specialOn <= CHECKED
  }

  /** Writing a set to a panel whose boxes all have line edits and reading it
      back gives the set again, when its states are ones a toggle can hold
      and its length covers the minimum its checked classes need. */
  lemma WriteReadRoundTrip(p: Panel, o: OptionSet)
    requires WellFormed(p) && LengthCovered(p) && !o.failed
    requires forall i :: 0 <= i < |p.classes| ==> p.classes[i].combo.editText.Some?
    requires StatesInRange(o.fields)
    requires o.fields.length >= MinimumOf(Written(p.classes, o.fields))
    ensures ReadState(WriteState(p, o), o.name) == o
  {
  }

  /** `checkState` holds right after `writeState` exactly when the set's
      states are ones a toggle can hold and its length is not raised to the
      minimum its checked classes need. */
  lemma WriteThenCheck(p: Panel, o: OptionSet)
    requires WellFormed(p) && LengthCovered(p) && !o.failed
    requires forall i :: 0 <= i < |p.classes| ==> p.classes[i].combo.editText.Some?
    ensures CheckState(o, WriteState(p, o)) <==>
      StatesInRange(o.fields) && o.fields.length >= MinimumOf(Written(p.classes, o.fields))
  {
    var r := WriteState(p, o);
    var f := o.fields;
    assert PanelFields(r).length == Assembly.Max(f.length, MinimumOf(r.classes));
    assert PanelFields(r).lowerOn == CheckStateOf(f.lowerOn);
    assert PanelFields(r).upperOn == CheckStateOf(f.upperOn);
    assert PanelFields(r).numbersOn == CheckStateOf(f.numbersOn);
    assert PanelFields(r).specialOn == CheckStateOf(f.specialOn);
  }

  /** `checkState` of a set that did not fail asks whether reading the
      panel under the set's name would give the set. */
  lemma CheckStateIsReadState(o: OptionSet, p: Panel)
    requires WellFormed(p) && !o.failed
    ensures CheckState(o, p) <==> ReadState(p, o.name) == o
  {
  }

  /** The presets: the map by name and the preset combo's sorted names. */
  datatype Presets = Presets(sets: map<string, OptionSet>, names: seq<string>)

  /** The combo lists every name once, sorted. */
  ghost predicate PresetsValid(st: Presets) {
    Sorted(st.names) && multiset(st.names) == multiset(st.sets.Keys)
  }

  /** `addOptionSet`: a new name goes into the combo, which is re-sorted; the
      map entry is always overwritten. */
  function AddOptionSet(st: Presets, o: OptionSet): (r: Presets)
    ensures o.name in r.sets && r.sets[o.name] == o
    ensures forall n :: n != o.name ==> (n in r.sets <==> n in st.sets)
    ensures forall n :: n != o.name && n in st.sets ==> r.sets[n] == st.sets[n]
    ensures o.name in st.sets ==> r.names == st.names
    ensures o.name !in st.sets ==> multiset(r.names) == multiset(st.names) + multiset{o.name}
  {
    var names := if o.name in st.sets then st.names else Sort([o.name] + st.names);
    Presets(st.sets[o.name := o], names)
  }

  /** Adding keeps every name listed exactly once, in order. */
  lemma AddOptionSetKeepsValid(st: Presets, o: OptionSet)
    requires PresetsValid(st)
    ensures PresetsValid(AddOptionSet(st, o))
  {
    if o.name !in st.sets {
      var names := [o.name] + st.names;
      assert multiset(names) == multiset(st.names) + multiset{o.name};
      assert st.sets[o.name := o].Keys == st.sets.Keys + {o.name};
      MultisetOfSetAdd(st.sets.Keys, o.name);
    } else {
      assert st.sets[o.name := o].Keys == st.sets.Keys;
    }
  }

  lemma MultisetOfSetAdd(s: set<string>, x: string)
    requires x !in s
    ensures multiset(s + {x}) == multiset(s) + multiset{x}
  {
  }

  /** `handleSavePresetPressed`: a non-empty name stores the panel's
      settings under it. */
  function SavePreset(st: Presets, p: Panel, name: string): (r: Presets)
    requires WellFormed(p)
    ensures name == "" ==> r == st
    ensures name != "" ==> name in r.sets && r.sets[name] == ReadState(p, name)
    ensures name != "" ==> r.sets.Keys == st.sets.Keys + {name}
    ensures forall n :: n in st.sets && n != name ==> r.sets[n] == st.sets[n]
    ensures PresetsValid(st) ==> PresetsValid(r)
  {
    if name == "" then st
    else
      var o := ReadState(p, name);
      assert PresetsValid(st) ==> PresetsValid(AddOptionSet(st, o)) by {
        if PresetsValid(st) {
          AddOptionSetKeepsValid(st, o);
        }
      }
      AddOptionSet(st, o)
  }

  /** `handlePresetNameChange`: a known name writes its set to the panel. */
  function SelectPreset(st: Presets, p: Panel, name: string): (r: Panel)
    requires WellFormed(p)
    ensures WellFormed(r)
    ensures name == "" || name !in st.sets ==> r == p
    ensures name != "" && name in st.sets ==> r == WriteState(p, st.sets[name])
  {
    if name != "" && name in st.sets then WriteState(p, st.sets[name]) else p
  }

  /** Saving the panel under a name and selecting that name again leaves a
      panel with line edits as it was. */
  lemma SaveThenSelect(st: Presets, p: Panel, name: string)
    requires WellFormed(p) && name != ""
    requires forall i :: 0 <= i < |p.classes| ==> p.classes[i].combo.editText.Some?
    ensures SelectPreset(SavePreset(st, p, name), p, name) == p
  {
    var cs := p.classes;
    var o := ReadState(p, name);
    var q := WriteState(p, o);
    assert q.classes == cs;
  }

  /** The names whose records read, in any order. */
  function ReadableNames(stored: seq<(string, seq<Datum>)>): set<string> {
    if |stored| == 0 then {}
    else
      var last := stored[|stored| - 1];
      ReadableNames(stored[..|stored| - 1]) + if Decode(last.1).Some? then {last.0} else {}
  }

  /** The names whose records do not read, in stored order. */
  function DroppedNames(stored: seq<(string, seq<Datum>)>): seq<string> {
    if |stored| == 0 then []
    else
      var last := stored[|stored| - 1];
      DroppedNames(stored[..|stored| - 1]) + if Decode(last.1).None? then [last.0] else []
  }

  /** The name of the first record that reads as `fields`. */
  function FirstMatch(stored: seq<(string, seq<Datum>)>, fields: Preset): Option<string> {
    if |stored| == 0 then None
    else
      var last := stored[|stored| - 1];
      var m := FirstMatch(stored[..|stored| - 1], fields);
      if m.Some? then m
      else if Decode(last.1) == Some(fields) then Some(last.0)
      else None
  }

  /** Exactly the names of readable records are kept. */
  lemma {:induction false} ReadableNamesExact(stored: seq<(string, seq<Datum>)>, n: string)
    ensures n in ReadableNames(stored) <==>
      exists k :: 0 <= k < |stored| && stored[k].0 == n && Decode(stored[k].1).Some?
  {
    if |stored| > 0 {
      var init := stored[..|stored| - 1];
      ReadableNamesExact(init, n);
      if exists k :: 0 <= k < |stored| && stored[k].0 == n && Decode(stored[k].1).Some? {
        var k :| 0 <= k < |stored| && stored[k].0 == n && Decode(stored[k].1).Some?;
        if k < |init| {
          assert init[k] == stored[k];
        }
      }
    }
  }

  /** Exactly the names of unreadable records are dropped. */
  lemma {:induction false} DroppedNamesExact(stored: seq<(string, seq<Datum>)>, n: string)
    ensures n in DroppedNames(stored) <==>
      exists k :: 0 <= k < |stored| && stored[k].0 == n && Decode(stored[k].1).None?
  {
    if |stored| > 0 {
      var init := stored[..|stored| - 1];
      DroppedNamesExact(init, n);
      if exists k :: 0 <= k < |stored| && stored[k].0 == n && Decode(stored[k].1).None? {
        var k :| 0 <= k < |stored| && stored[k].0 == n && Decode(stored[k].1).None?;
        if k < |init| {
          assert init[k] == stored[k];
        }
      }
    }
  }

  /** The selected name belongs to the first matching record, and nothing is
      selected when no record matches. */
  lemma {:induction false} FirstMatchIsFirst(stored: seq<(string, seq<Datum>)>, fields: Preset)
    ensures FirstMatch(stored, fields).None? <==>
      forall k :: 0 <= k < |stored| ==> Decode(stored[k].1) != Some(fields)
    ensures FirstMatch(stored, fields).Some? ==>
      exists k :: 0 <= k < |stored| && stored[k].0 == FirstMatch(stored, fields).value &&
        Decode(stored[k].1) == Some(fields) && (forall j :: 0 <= j < k ==> Decode(stored[j].1) != Some(fields))
  {
    if |stored| > 0 {
      var init := stored[..|stored| - 1];
      FirstMatchIsFirst(init, fields);
      if FirstMatch(init, fields).Some? {
        var k :| 0 <= k < |init| && init[k].0 == FirstMatch(init, fields).value &&
          Decode(init[k].1) == Some(fields) &&
          (forall j :: 0 <= j < k ==> Decode(init[j].1) != Some(fields));
        assert stored[k] == init[k];
        assert forall j :: 0 <= j < k ==> stored[j] == init[j];
      } else {
        assert forall k :: 0 <= k < |init| ==> stored[k] == init[k];
      }
    }
  }

  /** What `loadConfig` has built from the records read so far. */
  datatype LoadState = LoadState(st: Presets, dropped: seq<string>, selected: Option<string>)

  /** After the records `done`, with `fields` the panel's settings. */
  ghost predicate Loaded(s: LoadState, done: seq<(string, seq<Datum>)>, fields: Preset) {
    && PresetsValid(s.st)
    && s.st.sets.Keys == ReadableNames(done)
    && (forall n :: n in s.st.sets ==> !s.st.sets[n].failed && s.st.sets[n].name == n)
    && s.dropped == DroppedNames(done)
    && s.selected == FirstMatch(done, fields)
  }

  /** One pass of the preset loop: parse the record, add it or drop it, and
      select it when it is the first to match the panel. */
  function LoadRecord(s: LoadState, record: (string, seq<Datum>), fields: Preset): (r: LoadState)
    ensures Decode(record.1).Some? ==>
      r.st == AddOptionSet(s.st, ParsePreset(record.0, record.1)) && r.dropped == s.dropped
    ensures Decode(record.1).None? ==> r.st == s.st && r.dropped == s.dropped + [record.0]
    ensures r.selected == if s.selected.None? && Decode(record.1) == Some(fields) then Some(record.0) else s.selected
  {
    var o := ParsePreset(record.0, record.1);
    if !o.failed then
      LoadState(AddOptionSet(s.st, o), s.dropped,
                if s.selected.None? && o.fields == fields then Some(record.0) else s.selected)
    else LoadState(s.st, s.dropped + [record.0], s.selected)
  }

  lemma ReadableNamesStep(stored: seq<(string, seq<Datum>)>, i: nat)
    requires i < |stored|
    ensures ReadableNames(stored[..i + 1]) ==
      ReadableNames(stored[..i]) + if Decode(stored[i].1).Some? then {stored[i].0} else {}
    ensures DroppedNames(stored[..i + 1]) ==
      DroppedNames(stored[..i]) + if Decode(stored[i].1).None? then [stored[i].0] else []
  {
    var done := stored[..i + 1];
    assert done[..i] == stored[..i] && done[i] == stored[i];
  }

  lemma FirstMatchStep(stored: seq<(string, seq<Datum>)>, i: nat, fields: Preset)
    requires i < |stored|
    ensures FirstMatch(stored[..i + 1], fields) ==
      if FirstMatch(stored[..i], fields).None? && Decode(stored[i].1) == Some(fields)
      then Some(stored[i].0) else FirstMatch(stored[..i], fields)
  {
    var done := stored[..i + 1];
    assert done[..i] == stored[..i] && done[i] == stored[i];
  }

  lemma LoadRecordKeepsValid(s: LoadState, record: (string, seq<Datum>), fields: Preset)
    requires PresetsValid(s.st)
    ensures PresetsValid(LoadRecord(s, record, fields).st)
  {
    var o := ParsePreset(record.0, record.1);
    if !o.failed {
      AddOptionSetKeepsValid(s.st, o);
    }
  }

  lemma LoadRecordKeepsNamed(s: LoadState, record: (string, seq<Datum>), fields: Preset)
    requires forall n :: n in s.st.sets ==> !s.st.sets[n].failed && s.st.sets[n].name == n
    ensures var r := LoadRecord(s, record, fields);
      && (forall n :: n in r.st.sets ==> !r.st.sets[n].failed && r.st.sets[n].name == n)
      && r.st.sets.Keys == s.st.sets.Keys + if Decode(record.1).Some? then {record.0} else {}
  {
  }

  /** One pass of the loop keeps what it has built in line with the
      records read. */
  lemma LoadRecordKeeps(s: LoadState, stored: seq<(string, seq<Datum>)>, i: nat, fields: Preset)
    requires i < |stored| && Loaded(s, stored[..i], fields)
    ensures Loaded(LoadRecord(s, stored[i], fields), stored[..i + 1], fields)
  {
    ReadableNamesStep(stored, i);
    FirstMatchStep(stored, i, fields);
    LoadRecordKeepsValid(s, stored[i], fields);
    LoadRecordKeepsNamed(s, stored[i], fields);
  }

  /** The preset part of `loadConfig`: parse every stored record, add the
      ones that read, list the others for removal, and pick the first added
      set matching the panel's current settings. */
  method LoadPresets(stored: seq<(string, seq<Datum>)>, p: Panel)
    returns (st: Presets, dropped: seq<string>, selected: Option<string>)
    requires WellFormed(p)
    ensures PresetsValid(st)
    ensures st.sets.Keys == ReadableNames(stored)
    ensures forall n :: n in st.sets ==> !st.sets[n].failed && st.sets[n].name == n
    ensures dropped == DroppedNames(stored)
    ensures selected == FirstMatch(stored, PanelFields(p))
  {
    var fields := PanelFields(p);
    var s := LoadState(Presets(map[], []), [], None);
    var i := 0;
    while i < |stored|
      invariant 0 <= i <= |stored|
      invariant Loaded(s, stored[..i], fields)
    {
      LoadRecordKeeps(s, stored, i, fields);
      s := LoadRecord(s, stored[i], fields);
      i := i + 1;
    }
    assert stored[..i] == stored;
    st, dropped, selected := s.st, s.dropped, s.selected;
  }
}
