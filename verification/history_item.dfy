/** An entry of the password history list (`PasswordListItem`): a map from
    item data roles to values, in which the edit role stands for the password
    role and the display role is computed from the password and its length. */
module HistoryItem {
  import opened Wrappers
  import opened Strings

  /** Qt's display and edit roles, and the item's own roles starting at
      `Qt::UserRole`. */
  const DISPLAY_ROLE: int := 0
  const EDIT_ROLE: int := 2
  const PASSWORD_ROLE: int := 0x0100
  const LENGTH_ROLE: int := PASSWORD_ROLE + 1

  /** The width the length is right-aligned to in the display text. */
  const LENGTH_WIDTH: nat := 2

  /** A stored value: a text or a number. */
  datatype Value = Str(s: string) | Int(i: int)

  /** The values `QListWidgetItem` stores, by role. */
  datatype Item = Item(store: map<int, Value>)

  function DigitChar(d: nat): (c: char)
    requires d < 10
    ensures IsDigit(c)
  {
    (d + '0' as int) as char
  }

  predicate IsDigit(c: char) {
    '0' <= c <= '9'
  }

  predicate AllDigits(s: string) {
    forall i :: 0 <= i < |s| ==> IsDigit(s[i])
  }

  function DigitValue(c: char): nat
    requires IsDigit(c)
  {
    (c as int - '0' as int) as nat
  }

  /** The decimal digits of a natural number, most significant first. */
  function Digits(n: nat): (r: string)
    ensures |r| > 0 && AllDigits(r)
    decreases n
  {
    if n < 10 then [DigitChar(n)] else Digits(n / 10) + [DigitChar(n % 10)]
  }

  function ParseDigits(s: string): nat
    requires AllDigits(s)
  {
    if |s| == 0 then 0 else 10 * ParseDigits(s[..|s| - 1]) + DigitValue(s[|s| - 1])
  }

  /** Reading the digits back gives the number. */
  lemma {:induction false} DigitsRoundTrip(n: nat)
    ensures ParseDigits(Digits(n)) == n
    decreases n
  {
    var d := Digits(n);
    if n >= 10 {
      DigitsRoundTrip(n / 10);
      assert d[..|d| - 1] == Digits(n / 10);
    }
  }

  /** `QString::number`: an optional minus sign and the digits. */
  function Decimal(n: int): (r: string)
    ensures |r| > 0
  {
    if n < 0 then "-" + Digits(-n) else Digits(n)
  }

  /** A number's text starts with a sign or a digit and holds no colon. */
  lemma DecimalShape(n: int)
    ensures Decimal(n)[0] != ' ' && ':' !in Decimal(n)
  {
    var d := if n < 0 then Digits(-n) else Digits(n);
    assert ':' !in d;
    assert n < 0 ==> Decimal(n) == "-" + d && Decimal(n)[0] == '-';
  }

  /** The inverse of `Decimal`. */
  function ParseDecimal(s: string): Option<int> {
    if |s| > 1 && s[0] == '-' && AllDigits(s[1..]) then
      var magnitude: int := ParseDigits(s[1..]);
      Some(-magnitude)
    else if |s| > 0 && AllDigits(s) then
      Some(ParseDigits(s))
    else None
  }

  lemma DecimalRoundTrip(n: int)
    ensures ParseDecimal(Decimal(n)) == Some(n)
  {
    if n < 0 {
      NegativeRoundTrip(-n);
    } else {
      DigitsRoundTrip(n);
      assert Digits(n)[0] != '-';
    }
  }

  lemma NegativeRoundTrip(m: nat)
    requires m > 0
    ensures ParseDecimal("-" + Digits(m)) == Some(-(m as int))
  {
    var d := Digits(m);
    DigitsRoundTrip(m);
    assert ("-" + d)[1..] == d;
  }

  /** A length below 100 takes at most two places. */
  lemma DecimalShort(n: int)
    requires 0 <= n < 100
    ensures |Decimal(n)| <= 2
  {
    if n >= 10 {
      assert Decimal(n) == Digits(n / 10) + [DigitChar(n % 10)];
    }
  }

  function Spaces(n: nat): (r: string)
    ensures |r| == n && forall i :: 0 <= i < n ==> r[i] == ' '
  {
    seq(n, i => ' ')
  }

  /** A positive field width of `QString::arg`: right-align with spaces. */
  function PadLeft(s: string, width: nat): (r: string)
    ensures |r| == if |s| < width then width else |s|
    ensures r[|r| - |s|..] == s
    ensures forall i :: 0 <= i < |r| - |s| ==> r[i] == ' '
  {
    if |s| < width then Spaces(width - |s|) + s else s
  }

  /** Drop leading spaces. */
  function TrimLeft(s: string): (r: string)
    ensures |r| <= |s| && r == s[|s| - |r|..]
  {
    if |s| > 0 && s[0] == ' ' then TrimLeft(s[1..]) else s
  }

  lemma {:induction false} TrimPadded(s: string, width: nat)
    requires |s| > 0 && s[0] != ' '
    ensures TrimLeft(PadLeft(s, width)) == s
  {
    var p := PadLeft(s, width);
    TrimSpaces(p, |p| - |s|);
  }

  lemma {:induction false} TrimSpaces(p: string, k: nat)
    requires k < |p| && p[k] != ' ' && forall i :: 0 <= i < k ==> p[i] == ' '
    ensures TrimLeft(p) == p[k..]
    decreases k
  {
    if k > 0 {
      TrimSpaces(p[1..], k - 1);
      assert p[1..][k - 1..] == p[k..];
    }
  }

  /** The display text: "Len ", the length right-aligned to two places,
      ": ", the password. */
  function DisplayText(length: int, password: string): (r: string)
    ensures |r| >= 8 + |password|
    ensures StartsWith(r, "Len ") && EndsWith(r, password)
  {
    Layout(PadLeft(Decimal(length), LENGTH_WIDTH), password)
  }

  predicate StartsWith(s: string, t: string) {
    |t| <= |s| && s[..|t|] == t
  }

  predicate EndsWith(s: string, t: string) {
    |t| <= |s| && s[|s| - |t|..] == t
  }

  /** The display text around an already padded length field. */
  function Layout(field: string, password: string): (r: string)
    requires |field| >= LENGTH_WIDTH
    ensures |r| >= 8 + |password|
    ensures StartsWith(r, "Len ") && EndsWith(r, password)
  {
    var r := "Len " + (field + (": " + password));
    assert r[|r| - |password|..] == (": " + password)[2..];
    r
  }

  /** A length below 100 fills exactly its two places, so every such text
      has the password from the ninth character on. */
  lemma DisplayWidth(length: int, password: string)
    requires 0 <= length < 100
    ensures |DisplayText(length, password)| == 8 + |password|
    ensures DisplayText(length, password)[8..] == password
  {
    DecimalShort(length);
    LayoutWidth(PadLeft(Decimal(length), LENGTH_WIDTH), password);
  }

  lemma LayoutWidth(field: string, password: string)
    requires |field| == 2
    ensures |"Len " + (field + (": " + password))| == 8 + |password|
    ensures ("Len " + (field + (": " + password)))[8..] == password
  {
    var tail := ": " + password;
    assert tail[2..] == password;
    assert (field + tail)[2..] == tail;
    assert ("Len " + (field + tail))[4..] == field + tail;
  }

  /** Split at the first colon, which must be followed by a space. */
  function SplitAtColon(rest: string): Option<(string, string)> {
    var k := IndexOf(rest, ':');
    if k < 0 || k + 1 >= |rest| || rest[k + 1] != ' ' then None
    else Some((rest[..k], rest[k + 2..]))
  }

  /** The length field read as a number, with the password after it. */
  function ReadField(split: Option<(string, string)>): Option<(int, string)> {
    match split
    case None => None
    case Some((field, password)) =>
      match ParseDecimal(TrimLeft(field))
      case None => None
      case Some(n) => Some((n, password))
  }

  /** Reading a display text back: the length field ends at the first colon. */
  function ParseDisplay(text: string): Option<(int, string)> {
    if |text| < 4 || text[..4] != "Len " then None
    else ReadField(SplitAtColon(text[4..]))
  }

  /** A padded number holds no colon. */
  lemma FieldHasNoColon(length: int)
    ensures ':' !in PadLeft(Decimal(length), LENGTH_WIDTH)
  {
    DecimalShape(length);
    var d := Decimal(length);
    var field := PadLeft(d, LENGTH_WIDTH);
    var pad := |field| - |d|;
    forall i | 0 <= i < |field|
      ensures field[i] != ':'
    {
      if i >= pad {
        assert field[i] == field[pad..][i - pad];
      }
    }
  }

  lemma SplitLayout(field: string, password: string)
    requires ':' !in field
    ensures SplitAtColon(field + (": " + password)) == Some((field, password))
  {
    var rest := field + (": " + password);
    var k := |field|;
    assert rest[..k] == field && rest[k] == ':' && rest[k + 1] == ' ';
    IndexOfFirst(rest, ':', k);
    assert rest[k + 2..] == password;
  }

  lemma ParsePrefixed(rest: string)
    ensures ParseDisplay("Len " + rest) == ReadField(SplitAtColon(rest))
  {
    var text := "Len " + rest;
    assert text[..4] == "Len " && text[4..] == rest;
  }

  /** A text laid out as the display text reads back as its parts, when the
      field holds no colon. */
  lemma ParseLayout(field: string, password: string, n: int)
    requires ':' !in field && ParseDecimal(TrimLeft(field)) == Some(n)
    ensures ParseDisplay("Len " + (field + (": " + password))) == Some((n, password))
  {
    ParsePrefixed(field + (": " + password));
    SplitLayout(field, password);
  }

  /** The display text determines the length and the password, whatever
      the password holds. */
  lemma DisplayRoundTrip(length: int, password: string)
    ensures ParseDisplay(DisplayText(length, password)) == Some((length, password))
  {
    FieldHasNoColon(length);
    DecimalShape(length);
    TrimPadded(Decimal(length), LENGTH_WIDTH);
    DecimalRoundTrip(length);
    ParseLayout(PadLeft(Decimal(length), LENGTH_WIDTH), password, length);
  }

  /** `QVariant::toInt` on a missing or text value gives 0. */
  function ToInt(v: Option<Value>): int {
    if v.Some? && v.value.Int? then v.value.i else 0
  }

  /** `QVariant::toString`: a number in decimal, nothing for a missing value. */
  function ToText(v: Option<Value>): string {
    match v
    case None => ""
    case Some(Str(s)) => s
    case Some(Int(i)) => Decimal(i)
  }

  /** `QListWidgetItem::setData` and `data`: the plain role map. */
  function BaseData(it: Item, role: int): Option<Value> {
    if role in it.store then Some(it.store[role]) else None
  }

  /** `setData`: the display role is ignored, the edit role writes the
      password, every other role is stored as given. */
  function SetData(it: Item, role: int, v: Value): Item {
    if role == DISPLAY_ROLE then it
    else
      var target := if role == EDIT_ROLE then PASSWORD_ROLE else role;
      Item(it.store[target := v])
  }

  /** `data`: the display role formats length and password, the edit role
      reads the password, every other role reads its own value. */
  function GetData(it: Item, role: int): Option<Value> {
    if role == DISPLAY_ROLE then
      Some(Str(DisplayText(ToInt(BaseData(it, LENGTH_ROLE)), ToText(BaseData(it, PASSWORD_ROLE)))))
    else
      var target := if role == EDIT_ROLE then PASSWORD_ROLE else role;
      BaseData(it, target)
  }

  /** The constructor: the base item keeps the password as its text, then
      password and length go to their roles. */
  function New(password: string, length: int): (r: Item)
    ensures r.store.Keys == {DISPLAY_ROLE, PASSWORD_ROLE, LENGTH_ROLE}
  {
    var base := Item(map[DISPLAY_ROLE := Str(password)]);
    SetData(SetData(base, PASSWORD_ROLE, Str(password)), LENGTH_ROLE, Int(length))
  }

  /** A new item reads back its password under the password and edit roles,
      its length under the length role, and shows both. */
  lemma NewReadsBack(password: string, length: int)
    ensures var it := New(password, length);
      && GetData(it, PASSWORD_ROLE) == Some(Str(password))
      && GetData(it, EDIT_ROLE) == Some(Str(password))
      && GetData(it, LENGTH_ROLE) == Some(Int(length))
      && GetData(it, DISPLAY_ROLE) == Some(Str(DisplayText(length, password)))
  {
  }

  /** Writing the display role changes nothing anyone can read. */
  lemma SetDisplayIgnored(it: Item, v: Value, role: int)
    ensures GetData(SetData(it, DISPLAY_ROLE, v), role) == GetData(it, role)
  {
  }

  /** The edit role and the password role are one: a write through either
      is read through both. */
  lemma EditIsPassword(it: Item, v: Value)
    ensures GetData(SetData(it, EDIT_ROLE, v), PASSWORD_ROLE) == Some(v)
    ensures GetData(SetData(it, EDIT_ROLE, v), EDIT_ROLE) == Some(v)
    ensures GetData(SetData(it, PASSWORD_ROLE, v), EDIT_ROLE) == Some(v)
    ensures SetData(it, EDIT_ROLE, v) == SetData(it, PASSWORD_ROLE, v)
  {
  }

  /** Any other role reads back what was written, and a write leaves every
      role it does not name alone, except the display text, which is
      computed from the password and length. */
  lemma SetThenGet(it: Item, role: int, v: Value, other: int)
    requires role != DISPLAY_ROLE && role != EDIT_ROLE
    requires other != DISPLAY_ROLE && other != EDIT_ROLE && other != role
    ensures GetData(SetData(it, role, v), role) == Some(v)
    ensures GetData(SetData(it, role, v), other) == GetData(it, other)
  {
  }

  /** The display text of a new history entry gives back its length and
      password. */
  lemma NewDisplayDecodes(password: string, length: int)
    ensures var d := GetData(New(password, length), DISPLAY_ROLE);
      d.Some? && d.value.Str? && ParseDisplay(d.value.s) == Some((length, password))
  {
    NewReadsBack(password, length);
    DisplayRoundTrip(length, password);
  }
}
