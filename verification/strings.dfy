/** Text as the Qt containers of the program see it: `QString::compare`,
    `QStringList::indexOf`, `QList::insert`/`removeAt`, sorting by `compare`
    and the Latin-1 part of `toLower`. A `QString` is a sequence of UTF-16
    code units; the model keeps text as Unicode scalars and encodes it where
    the program's results depend on the units. */
module Strings {

  /** A UTF-16 code unit. */
  type Unit = x: int | 0 <= x < 0x1_0000

  const SUPPLEMENTARY := 0x1_0000
  const HIGH_SURROGATE := 0xD800
  const LOW_SURROGATE := 0xDC00
  const SURROGATE_END := 0xE000

  /** The UTF-16 encoding of one scalar: itself below U+10000, otherwise a
      high surrogate carrying the top ten bits and a low one carrying the rest. */
  function CharUnits(c: char): (r: seq<Unit>)
    ensures |r| == 1 <==> (c as int) < SUPPLEMENTARY
    ensures |r| == 1 || |r| == 2
    ensures |r| == 1 ==> r[0] == c as int
    ensures |r| == 2 ==> HIGH_SURROGATE <= r[0] < LOW_SURROGATE <= r[1] < SURROGATE_END
  {
    var v := c as int;
    if v < SUPPLEMENTARY then [v]
    else [HIGH_SURROGATE + (v - SUPPLEMENTARY) / 0x400, LOW_SURROGATE + (v - SUPPLEMENTARY) % 0x400]
  }

  /** The code units of a `QString` holding `s`. */
  function Utf16(s: string): seq<Unit>
  {
    if |s| == 0 then [] else CharUnits(s[0]) + Utf16(s[1..])
  }

  /** Reads UTF-16 back into scalars; an unpaired surrogate becomes U+FFFD. */
  function FromUtf16(u: seq<Unit>): string
  {
    if |u| == 0 then []
    else if HIGH_SURROGATE <= u[0] < LOW_SURROGATE && |u| >= 2 && LOW_SURROGATE <= u[1] < SURROGATE_END then
      [(SUPPLEMENTARY + (u[0] - HIGH_SURROGATE) * 0x400 + (u[1] - LOW_SURROGATE)) as char] + FromUtf16(u[2..])
    else if HIGH_SURROGATE <= u[0] < SURROGATE_END then
      ['\U{FFFD}'] + FromUtf16(u[1..])
    else
      [u[0] as char] + FromUtf16(u[1..])
  }

  lemma FromCharUnits(c: char, rest: seq<Unit>)
    ensures FromUtf16(CharUnits(c) + rest) == [c] + FromUtf16(rest)
  {
    var u := CharUnits(c) + rest;
    if (c as int) >= SUPPLEMENTARY {
      var v := c as int - SUPPLEMENTARY;
      assert v == (v / 0x400) * 0x400 + v % 0x400;
      assert u[2..] == rest;
    } else {
      assert u[1..] == rest;
    }
  }

  /** Decoding the encoding gives the text back, so distinct strings have
      distinct code units. */
  lemma {:induction false} Utf16RoundTrip(s: string)
    ensures FromUtf16(Utf16(s)) == s
    decreases |s|
  {
    if |s| != 0 {
      Utf16RoundTrip(s[1..]);
      FromCharUnits(s[0], Utf16(s[1..]));
      assert s == [s[0]] + s[1..];
    }
  }

  /** The comparison `QString::compare` applies to the code units, as in
      Qt 5.9: the difference of the first pair of differing units, or else
      the difference of the unit counts. */
  function CompareUnits(a: seq<Unit>, b: seq<Unit>): int
    decreases |a|
  {
    if |a| == 0 || |b| == 0 then |a| - |b|
    else if a[0] != b[0] then a[0] - b[0]
    else CompareUnits(a[1..], b[1..])
  }

  /** `QString::compare` (case-sensitive). */
  function Compare(a: string, b: string): int
  {
    CompareUnits(Utf16(a), Utf16(b))
  }

  /** The length of the common prefix of two unit sequences. */
  function CommonPrefix(a: seq<Unit>, b: seq<Unit>): (k: nat)
    ensures k <= |a| && k <= |b| && a[..k] == b[..k]
    ensures k < |a| && k < |b| ==> a[k] != b[k]
    decreases |a|
  {
    if |a| == 0 || |b| == 0 || a[0] != b[0] then 0
    else
      var k := CommonPrefix(a[1..], b[1..]);
      assert a[..k + 1] == [a[0]] + a[1..][..k];
      assert b[..k + 1] == [b[0]] + b[1..][..k];
      k + 1
  }

  /** `compare` read off the first difference of the code units: the
      recursive definition agrees with this closed form. */
  lemma {:induction false} CompareFirstDifference(a: string, b: string)
    ensures var u, w := Utf16(a), Utf16(b);
      var k := CommonPrefix(u, w);
      Compare(a, b) == if k < |u| && k < |w| then u[k] - w[k] else |u| - |w|
  {
    UnitsFirstDifference(Utf16(a), Utf16(b));
  }

  lemma {:induction false} UnitsFirstDifference(u: seq<Unit>, w: seq<Unit>)
    ensures var k := CommonPrefix(u, w);
      CompareUnits(u, w) == if k < |u| && k < |w| then u[k] - w[k] else |u| - |w|
    decreases |u|
  {
    if |u| != 0 && |w| != 0 && u[0] == w[0] {
      UnitsFirstDifference(u[1..], w[1..]);
    }
  }

  lemma {:induction false} UnitsAntisymmetric(a: seq<Unit>, b: seq<Unit>)
    ensures CompareUnits(b, a) == -CompareUnits(a, b)
    decreases |a|
  {
    if |a| != 0 && |b| != 0 && a[0] == b[0] {
      UnitsAntisymmetric(a[1..], b[1..]);
    }
  }

  lemma {:induction false} UnitsZeroIffEqual(a: seq<Unit>, b: seq<Unit>)
    ensures CompareUnits(a, b) == 0 <==> a == b
    decreases |a|
  {
    if |a| != 0 && |b| != 0 && a[0] == b[0] {
      UnitsZeroIffEqual(a[1..], b[1..]);
      assert a == [a[0]] + a[1..] && b == [b[0]] + b[1..];
    }
  }

  lemma {:induction false} UnitsTransitive(a: seq<Unit>, b: seq<Unit>, c: seq<Unit>)
    requires CompareUnits(a, b) <= 0 && CompareUnits(b, c) <= 0
    ensures CompareUnits(a, c) <= 0
    decreases |a|
  {
    if |a| != 0 && |b| != 0 && |c| != 0 && a[0] == b[0] && b[0] == c[0] {
      UnitsTransitive(a[1..], b[1..], c[1..]);
    }
  }

  /** Where code units and scalars part ways: a supplementary character
      counts two units towards the length difference, and its high surrogate
      sorts below the top of the Basic Multilingual Plane. */
  lemma CompareByCodeUnits()
    ensures Compare("a\U{1D11E}", "a") == 2
    ensures Compare("\U{10000}", "\U{FFFF}") < 0
  {
    assert Utf16("a") == [0x61];
    assert Utf16("a\U{1D11E}") == [0x61] + CharUnits('\U{1D11E}');
    assert Utf16("\U{10000}") == [HIGH_SURROGATE, LOW_SURROGATE];
    assert Utf16("\U{FFFF}") == [0xFFFF];
  }

  lemma CompareAntisymmetric(a: string, b: string)
    ensures Compare(b, a) == -Compare(a, b)
  {
    UnitsAntisymmetric(Utf16(a), Utf16(b));
  }

  /** `compare` is zero exactly on equal strings. */
  lemma CompareZeroIffEqual(a: string, b: string)
    ensures Compare(a, b) == 0 <==> a == b
  {
    UnitsZeroIffEqual(Utf16(a), Utf16(b));
    if Utf16(a) == Utf16(b) {
      Utf16RoundTrip(a);
      Utf16RoundTrip(b);
    }
  }

  lemma CompareTransitive(a: string, b: string, c: string)
    requires Compare(a, b) <= 0 && Compare(b, c) <= 0
    ensures Compare(a, c) <= 0
  {
    UnitsTransitive(Utf16(a), Utf16(b), Utf16(c));
  }

  lemma CompareTotal(a: string, b: string)
    ensures Compare(a, b) <= 0 || Compare(b, a) <= 0
  {
    CompareAntisymmetric(a, b);
  }

  /** Ascending by `compare`, equal neighbours allowed. */
  ghost predicate Sorted(s: seq<string>) {
    forall i, j :: 0 <= i < j < |s| ==> Compare(s[i], s[j]) <= 0
  }

  /** `QList::indexOf`: the first row holding `x`, or -1. */
  function IndexOf<T(==)>(s: seq<T>, x: T): (r: int)
    ensures -1 <= r < |s|
    ensures r == -1 <==> x !in s
    ensures 0 <= r ==> s[r] == x && x !in s[..r]
  {
    if |s| == 0 then -1
    else if s[0] == x then 0
    else
      var k := IndexOf(s[1..], x);
      assert s[1..][..if k < 0 then 0 else k] == s[1..1 + if k < 0 then 0 else k];
      if k < 0 then -1 else k + 1
  }

  /** A position holding `x` with no earlier copy is what `IndexOf` finds. */
  lemma IndexOfFirst<T>(s: seq<T>, x: T, k: nat)
    requires k < |s| && s[k] == x && x !in s[..k]
    ensures IndexOf(s, x) == k
  {
    assert s[k] == x;
  }

  /** No value occurs twice. */
  ghost predicate Distinct<T>(s: seq<T>) {
    forall i, j :: 0 <= i < j < |s| ==> s[i] != s[j]
  }

  /** A value new to a distinct list keeps it distinct wherever it goes in. */
  lemma DistinctInsert<T>(s: seq<T>, k: nat, x: T)
    requires Distinct(s) && x !in s && k <= |s|
    ensures Distinct(s[..k] + [x] + s[k..])
  {
    var r := s[..k] + [x] + s[k..];
    forall i, j | 0 <= i < j < |r|
      ensures r[i] != r[j]
    {
      if i < k && j > k {
        assert r[j] == s[j - 1];
      }
    }
  }

  /** A value new to a distinct list keeps it distinct as a replacement. */
  lemma DistinctUpdate<T>(s: seq<T>, k: nat, x: T)
    requires Distinct(s) && x !in s && k < |s|
    ensures Distinct(s[k := x])
  {
  }

  /** Removing a row of a distinct list removes its value. */
  lemma DistinctRemove<T>(s: seq<T>, k: nat)
    requires Distinct(s) && k < |s|
    ensures s[k] !in s[..k] + s[k + 1..]
  {
  }

  /** `QList::insert(pos, x)`. */
  function InsertAt<T>(s: seq<T>, pos: nat, x: T): (r: seq<T>)
    requires pos <= |s|
    ensures |r| == |s| + 1 && r[pos] == x
    ensures r[..pos] == s[..pos] && r[pos + 1..] == s[pos..]
    ensures multiset(r) == multiset(s) + multiset{x}
  {
    assert s == s[..pos] + s[pos..];
    s[..pos] + [x] + s[pos..]
  }

  /** `QList::removeAt(pos)`. */
  function RemoveAt<T>(s: seq<T>, pos: nat): (r: seq<T>)
    requires pos < |s|
    ensures |r| == |s| - 1
    ensures r[..pos] == s[..pos] && r[pos..] == s[pos + 1..]
    ensures multiset(r) == multiset(s) - multiset{s[pos]}
  {
    assert s == s[..pos] + [s[pos]] + s[pos + 1..];
    s[..pos] + s[pos + 1..]
  }

  /** The first row whose entry compares above `x` by more than `threshold`,
      or the length when there is none. */
  function FirstAbove(s: seq<string>, x: string, threshold: int): (r: nat)
    ensures r <= |s|
    ensures forall i :: 0 <= i < r ==> Compare(s[i], x) <= threshold
    ensures r < |s| ==> Compare(s[r], x) > threshold
  {
    if |s| == 0 || Compare(s[0], x) > threshold then 0
    else 1 + FirstAbove(s[1..], x, threshold)
  }

  /** Inserting before the first strictly greater entry keeps a sorted list sorted. */
  lemma InsertBeforeGreaterKeepsSorted(s: seq<string>, x: string)
    requires Sorted(s)
    ensures Sorted(InsertAt(s, FirstAbove(s, x, 0), x))
  {
    var k := FirstAbove(s, x, 0);
    var r := InsertAt(s, k, x);
    forall i, j | 0 <= i < j < |r|
      ensures Compare(r[i], r[j]) <= 0
    {
      if j < k {
        assert r[i] == s[i] && r[j] == s[j];
      } else if j == k {
        assert r[i] == s[i];
      } else if i < k {
        assert r[i] == s[i] && r[j] == s[j - 1];
        assert Compare(s[i], x) <= 0;
        CompareAntisymmetric(s[k], x);
        CompareTransitive(s[i], x, s[k]);
        if j - 1 > k {
          CompareTransitive(s[i], s[k], s[j - 1]);
        }
      } else if i == k {
        assert r[j] == s[j - 1];
        CompareAntisymmetric(s[k], x);
        if j - 1 > k {
          CompareTransitive(x, s[k], s[j - 1]);
        }
      } else {
        assert r[i] == s[i - 1] && r[j] == s[j - 1];
      }
    }
  }

  /** The sort the program applies with `compare(a, b) < 0` as its less-than,
      written as an insertion sort. */
  function Sort(s: seq<string>): (r: seq<string>)
    ensures Sorted(r)
    ensures multiset(r) == multiset(s)
  {
    if |s| == 0 then []
    else
      var init := Sort(s[..|s| - 1]);
      InsertBeforeGreaterKeepsSorted(init, s[|s| - 1]);
      assert s == s[..|s| - 1] + [s[|s| - 1]];
      InsertAt(init, FirstAbove(init, s[|s| - 1], 0), s[|s| - 1])
  }

  lemma HeadIsLeast(s: seq<string>, k: int)
    requires Sorted(s) && 0 <= k < |s|
    ensures Compare(s[0], s[k]) <= 0
  {
    if k == 0 {
      CompareZeroIffEqual(s[0], s[0]);
    }
  }

  lemma SortedTail(s: seq<string>)
    requires Sorted(s) && |s| > 0
    ensures Sorted(s[1..])
  {
    forall i, j | 0 <= i < j < |s| - 1
      ensures Compare(s[1..][i], s[1..][j]) <= 0
    {
      assert s[1..][i] == s[i + 1] && s[1..][j] == s[j + 1];
    }
  }

  lemma MultisetTail<T>(a: seq<T>, b: seq<T>)
    requires |a| > 0 && |b| > 0 && a[0] == b[0]
    requires multiset(a) == multiset(b)
    ensures multiset(a[1..]) == multiset(b[1..])
  {
    assert a == [a[0]] + a[1..];
    assert b == [b[0]] + b[1..];
    calc {
      multiset(a[1..]);
      multiset(a) - multiset{a[0]};
      multiset(b) - multiset{b[0]};
      multiset(b[1..]);
    }
  }

  /** Two sorted arrangements of the same entries are the same list, so the
      result of `Sort` does not depend on which correct sort produced it. */
  lemma {:induction false} SortedUnique(a: seq<string>, b: seq<string>)
    requires Sorted(a) && Sorted(b)
    requires multiset(a) == multiset(b)
    ensures a == b
    decreases |a|
  {
    assert |b| == |multiset(b)| == |multiset(a)| == |a|;
    if |a| != 0 {
      assert a[0] in multiset(b);
      var i :| 0 <= i < |b| && b[i] == a[0];
      assert b[0] in multiset(a);
      var j :| 0 <= j < |a| && a[j] == b[0];
      HeadIsLeast(b, i);
      HeadIsLeast(a, j);
      CompareAntisymmetric(a[0], b[0]);
      CompareZeroIffEqual(a[0], b[0]);
      MultisetTail(a, b);
      SortedTail(a);
      SortedTail(b);
      SortedUnique(a[1..], b[1..]);
      assert a == [a[0]] + a[1..] && b == [b[0]] + b[1..];
    }
  }

  /** Capital letters whose lower case is 32 code points on: A-Z and the
      Latin-1 capitals U+00C0 to U+00DE except the multiplication sign. */
  predicate ShiftedCapital(c: char) {
    'A' <= c <= 'Z' || ('\U{C0}' <= c <= '\U{DE}' && c != '\U{D7}')
  }

  /** The Basic Latin and Latin-1 part of `QString::toLower`. */
  function LowerChar(c: char): (r: char)
    ensures ShiftedCapital(c) ==> r as int == c as int + 32 && !ShiftedCapital(r)
    ensures !ShiftedCapital(c) ==> r == c
  {
    if ShiftedCapital(c) then (c as int + 32) as char else c
  }

  function Lower(s: string): (r: string)
    ensures |r| == |s|
    ensures forall i :: 0 <= i < |s| ==> r[i] == LowerChar(s[i])
    ensures forall i :: 0 <= i < |r| ==> !ShiftedCapital(r[i])
  {
    seq(|s|, i requires 0 <= i < |s| => LowerChar(s[i]))
  }

  /** Lowering a lowered string changes nothing. */
  lemma LowerIdempotent(s: string)
    ensures Lower(Lower(s)) == Lower(s)
  {
  }
}
