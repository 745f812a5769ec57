/** An editable combo box as `populateComboBox` sees it, and that function:
    put the line edit's text into the list the way the box's insert policy
    says, or select an existing copy when duplicates are not allowed. */
module ComboBox {
  import opened Strings
  import opened Wrappers

  datatype Policy =
    | NoInsert
    | InsertAtTop
    | InsertAtCurrent
    | InsertAtBottom
    | InsertAfterCurrent
    | InsertBeforeCurrent
    | InsertAlphabetically

  /** Item texts, the current index (-1 for none), the line edit's text
      (`None` for a box without a line edit), the insert policy and whether
      duplicates are allowed. */
  datatype Combo = Combo(
    items: seq<string>,
    current: int,
    editText: Option<string>,
    policy: Policy,
    duplicatesEnabled: bool)

  predicate Valid(c: Combo) {
    -1 <= c.current < |c.items|
  }

  /** `currentText`: the line edit's text, else the current item's. */
  function CurrentText(c: Combo): (r: string)
    requires Valid(c)
    ensures c.editText.None? ==> r == "" || r in c.items
  {
    match c.editText
    case Some(t) => t
    case None => if c.current >= 0 then c.items[c.current] else ""
  }

  /** The alphabetical slot: before the first item whose lower-cased text is
      above the lower-cased new text, or at the end. */
  function AlphaPos(items: seq<string>, text: string): (r: nat)
    ensures r <= |items|
    ensures forall i :: 0 <= i < r ==> Compare(Lower(text), Lower(items[i])) >= 0
    ensures r < |items| ==> Compare(Lower(text), Lower(items[r])) < 0
  {
    if |items| == 0 || Compare(Lower(text), Lower(items[0])) < 0 then 0
    else 1 + AlphaPos(items[1..], text)
  }

  /** Alphabetical insertion ignores case: two texts that lower to the same
      text get the same slot. */
  lemma {:induction false} AlphaPosCaseInsensitive(items: seq<string>, a: string, b: string)
    requires Lower(a) == Lower(b)
    ensures AlphaPos(items, a) == AlphaPos(items, b)
    decreases |items|
  {
    if |items| > 0 {
      AlphaPosCaseInsensitive(items[1..], a, b);
    }
  }

  /** In particular, lower-casing the new text first does not move its slot. */
  lemma AlphaPosOfLowered(items: seq<string>, text: string)
    ensures AlphaPos(items, Lower(text)) == AlphaPos(items, text)
  {
    LowerIdempotent(text);
    AlphaPosCaseInsensitive(items, Lower(text), text);
  }

  /** The insertion index the policy switch computes; -1 means no insertion.
      `InsertAtCurrent` on a non-empty box renames instead and has none. */
  function InsertIndex(items: seq<string>, current: int, policy: Policy, text: string): (r: int)
    requires -1 <= current < |items|
    ensures -1 <= r <= |items|
    ensures policy == InsertAtTop ==> r == 0
    ensures policy == InsertAtBottom ==> r == |items|
    ensures policy == InsertAlphabetically ==> r == AlphaPos(items, text)
    ensures |items| == 0 && policy in {InsertAtCurrent, InsertAfterCurrent, InsertBeforeCurrent} ==> r == 0
    ensures |items| > 0 && policy == InsertAfterCurrent ==> r == current + 1
    ensures |items| > 0 && policy == InsertBeforeCurrent ==> r == current
    ensures policy == NoInsert || (|items| > 0 && policy == InsertAtCurrent) ==> r == -1
  {
    match policy
    case InsertAtTop => 0
    case InsertAtBottom => |items|
    case InsertAlphabetically => AlphaPos(items, text)
    case NoInsert => -1
    case _ =>
      if |items| == 0 then 0
      else if policy == InsertAfterCurrent then current + 1
      else if policy == InsertBeforeCurrent then current
      else -1
  }

  /** The new text sits at `k`, is current there, and the old items keep their
      order around it. */
  ghost predicate InsertedAt(c: Combo, r: Combo, k: int, text: string) {
    && 0 <= k <= |c.items|
    && r.items == InsertAt(c.items, k, text)
    && r.current == k
  }

  /** The box has text to add and no existing copy stops it. */
  predicate Adds(c: Combo) {
    && c.policy != NoInsert
    && c.editText.Some? && c.editText.value != ""
    && (c.duplicatesEnabled || c.editText.value !in c.items)
  }

  /** The policy switch and the insertion that follows it, for text that
      is to go into the box. */
  function Place(c: Combo, text: string): (r: Combo)
    requires Valid(c)
    ensures Valid(r) && r.editText == c.editText && r.policy == c.policy
    ensures r.duplicatesEnabled == c.duplicatesEnabled
    ensures |c.items| > 0 && c.policy == InsertAtCurrent ==>
      r == if c.current >= 0 then c.(items := c.items[c.current := text]) else c
    ensures !(|c.items| > 0 && c.policy == InsertAtCurrent) ==>
      var k := InsertIndex(c.items, c.current, c.policy, text);
      if k >= 0 then InsertedAt(c, r, k, text) else r == c
    ensures r != c ==> 0 <= r.current && r.items[r.current] == text && r.items[..r.current] == c.items[..r.current]
  {
    if c.policy == InsertAtCurrent && |c.items| > 0 then
      if c.current >= 0 then c.(items := c.items[c.current := text]) else c
    else
      var k := InsertIndex(c.items, c.current, c.policy, text);
      if k >= 0 then c.(items := InsertAt(c.items, k, text), current := k) else c
  }

  /** `populateComboBox`: nothing without a policy or without text; select
      an existing copy when duplicates are not allowed; otherwise place the
      text as the policy says. */
  function Populate(c: Combo): (r: Combo)
    requires Valid(c)
    ensures Valid(r) && r.editText == c.editText && r.policy == c.policy
    ensures r.duplicatesEnabled == c.duplicatesEnabled
    ensures c.policy == NoInsert || c.editText.None? || c.editText == Some("") ==> r == c
    ensures c.policy != NoInsert && c.editText.Some? && c.editText.value != "" ==>
      if !c.duplicatesEnabled && c.editText.value in c.items
      then r == c.(current := IndexOf(c.items, c.editText.value))
      else r == Place(c, c.editText.value)
  {
    if c.policy == NoInsert || c.editText.None? || c.editText.value == "" then c
    else
      var text := c.editText.value;
      var found := IndexOf(c.items, text);
      if !c.duplicatesEnabled && found != -1 then c.(current := found)
      else Place(c, text)
  }

  /** After a populate with text to add, the current item shows that text,
      except when the policy places relative to a current item there is none of. */
  lemma PopulateShowsText(c: Combo)
    requires Valid(c) && c.policy != NoInsert && c.editText.Some? && c.editText.value != ""
    ensures var r := Populate(c);
      || (r.current >= 0 && r.items[r.current] == c.editText.value)
      || (r == c && c.current == -1 && |c.items| > 0 &&
          c.policy in {InsertAtCurrent, InsertBeforeCurrent})
  {
  }

  /** Without duplicates, a second populate with the same text changes
      nothing. */
  lemma PopulateIdempotent(c: Combo)
    requires Valid(c) && !c.duplicatesEnabled
    ensures Populate(Populate(c)) == Populate(c)
  {
    var r := Populate(c);
    if c.policy != NoInsert && c.editText.Some? && c.editText.value != "" {
      var text := c.editText.value;
      if text !in c.items && r != c {
        assert text !in c.items[..r.current];
        IndexOfFirst(r.items, text, r.current);
      }
    }
  }

  /** Without duplicates a list of distinct texts stays distinct. */
  lemma PopulateKeepsDistinct(c: Combo)
    requires Valid(c) && !c.duplicatesEnabled && Distinct(c.items)
    ensures Distinct(Populate(c).items)
  {
    var r := Populate(c);
    if Adds(c) {
      var text := c.editText.value;
      if c.policy == InsertAtCurrent && |c.items| > 0 {
        if c.current >= 0 {
          DistinctUpdate(c.items, c.current, text);
        }
      } else if r != c {
        DistinctInsert(c.items, r.current, text);
      }
    }
  }
}
