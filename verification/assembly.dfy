/** `PasswordGenerator::generate`: one forced block advance, a pass drawing
    each class's minimum from that class, a fill pass from the whole pool,
    and a swap-only shuffle. */
module Assembly {
  import opened Bytes
  import opened Stock
  import opened Keystream
  import Wrappers

  function Max(a: int, b: int): int {
    if a >= b then a else b
  }

  /** How many characters of `s` belong to the class `cs`. */
  function CountIn(s: string, cs: string): nat {
    if |s| == 0 then 0
    else CountIn(s[..|s| - 1], cs) + (if s[|s| - 1] in cs then 1 else 0)
  }

  lemma CountInAppend(s: string, c: char, cs: string)
    ensures CountIn(s + [c], cs) == CountIn(s, cs) + (if c in cs then 1 else 0)
  {
    assert (s + [c])[..|s|] == s;
  }

  lemma {:induction false} CountInConcat(a: string, b: string, cs: string)
    ensures CountIn(a + b, cs) == CountIn(a, cs) + CountIn(b, cs)
    decreases |b|
  {
    if |b| > 0 {
      var b' := b[..|b| - 1];
      assert a + b == (a + b') + [b[|b| - 1]];
      CountInAppend(a + b', b[|b| - 1], cs);
      CountInConcat(a, b', cs);
    } else {
      assert a + b == a;
    }
  }

  /** The class count depends only on the multiset of characters. */
  lemma {:induction false} CountInPermutation(a: string, b: string, cs: string)
    requires multiset(a) == multiset(b)
    ensures CountIn(a, cs) == CountIn(b, cs)
    decreases |a|
  {
    if |a| == 0 {
      assert |b| == |multiset(b)| == 0;
    } else {
      var x := a[|a| - 1];
      var a' := a[..|a| - 1];
      assert a == a' + [x];
      assert x in multiset(b);
      var k :| 0 <= k < |b| && b[k] == x;
      var b' := b[..k] + b[k + 1..];
      MultisetRemove(b, k);
      assert multiset(a') == multiset(a) - multiset{x};
      CountInPermutation(a', b', cs);
      CountInRemove(b, k, cs);
      CountInConcat(a', [x], cs);
      CountInSingle(x, cs);
    }
  }

  lemma MultisetRemove<T>(b: seq<T>, k: nat)
    requires k < |b|
    ensures multiset(b[..k] + b[k + 1..]) == multiset(b) - multiset{b[k]}
  {
    assert b == b[..k] + [b[k]] + b[k + 1..];
  }

  lemma CountInSingle(x: char, cs: string)
    ensures CountIn([x], cs) == if x in cs then 1 else 0
  {
    assert [x][..0] == [];
  }

  /** Taking one character out lowers its class count by one. */
  lemma CountInRemove(b: string, k: nat, cs: string)
    requires k < |b|
    ensures CountIn(b, cs) == CountIn(b[..k] + b[k + 1..], cs) + (if b[k] in cs then 1 else 0)
  {
    assert b == b[..k] + [b[k]] + b[k + 1..];
    CountInConcat(b[..k] + [b[k]], b[k + 1..], cs);
    CountInConcat(b[..k], [b[k]], cs);
    CountInConcat(b[..k], b[k + 1..], cs);
    CountInSingle(b[k], cs);
  }

  /** Every class contributes at least its minimum count. */
  predicate MeetsMinimums(pw: string, stock: CharacterStock) {
    forall j :: 0 <= j < |stock| ==> CountIn(pw, stock[j].chars) >= stock[j].minLength
  }

  /** Every character is taken from `pool`. */
  predicate FromPool(pw: string, pool: string) {
    forall k :: 0 <= k < |pw| ==> pw[k] in pool
  }

  /** Appending characters never lowers a class count. */
  lemma MeetsMinimumsExtend(a: string, b: string, stock: CharacterStock)
    requires MeetsMinimums(a, stock)
    ensures MeetsMinimums(a + b, stock)
  {
    forall j | 0 <= j < |stock|
      ensures CountIn(a + b, stock[j].chars) >= stock[j].minLength
    {
      CountInConcat(a, b, stock[j].chars);
    }
  }

  /** Rearranging characters keeps every class count. */
  lemma MeetsMinimumsPermutation(a: string, b: string, stock: CharacterStock)
    requires multiset(a) == multiset(b)
    ensures MeetsMinimums(a, stock) <==> MeetsMinimums(b, stock)
  {
    forall j | 0 <= j < |stock|
      ensures CountIn(a, stock[j].chars) == CountIn(b, stock[j].chars)
    {
      CountInPermutation(a, b, stock[j].chars);
    }
  }

  lemma FromPoolPermutation(a: string, b: string, pool: string)
    requires multiset(a) == multiset(b) && FromPool(a, pool)
    ensures FromPool(b, pool)
  {
    forall k | 0 <= k < |b|
      ensures b[k] in pool
    {
      assert b[k] in multiset(a);
    }
  }

  lemma FromPoolConcat(a: string, b: string, pool: string)
    requires FromPool(a, pool) && FromPool(b, pool)
    ensures FromPool(a + b, pool)
  {
    forall k | 0 <= k < |a + b|
      ensures (a + b)[k] in pool
    {
      if k >= |a| {
        assert (a + b)[k] == b[k - |a|];
      }
    }
  }

  /** Exchanging two positions, as the two `QString::replace` calls do. */
  function Swap(s: string, i: nat, j: nat): (r: string)
    requires i < |s| && j < |s|
    ensures |r| == |s| && r[i] == s[j] && r[j] == s[i]
    ensures forall k :: 0 <= k < |s| && k != i && k != j ==> r[k] == s[k]
    ensures multiset(r) == multiset(s)
  {
    s[i := s[j]][j := s[i]]
  }

  /** The first pass: for each class in order, `minLength` characters picked
      by `byte % |chars|`. */
  method DrawMinimums(g: Generator, enc: Cipher, stock: CharacterStock)
    returns (pw: string, h: Generator)
    requires Valid(g) && g.keyed
    requires forall j :: 0 <= j < |stock| && stock[j].minLength > 0 ==> |stock[j].chars| > 0
    ensures Valid(h) && h.keyed && h.key == g.key
    ensures |pw| == Drawn(stock)
    ensures FromPool(pw, Pool(stock))
    ensures MeetsMinimums(pw, stock)
  {
    pw := [];
    h := g;
    var j := 0;
    while j < |stock|
      invariant 0 <= j <= |stock|
      invariant Valid(h) && h.keyed && h.key == g.key
      invariant |pw| == Drawn(stock[..j])
      invariant forall k :: 0 <= k < |pw| ==> pw[k] in Pool(stock)
      invariant forall t :: 0 <= t < j ==> CountIn(pw, stock[t].chars) >= stock[t].minLength
    {
      var item := stock[j];
      var i := 0;
      ghost var before := pw;
      while i < item.minLength
        invariant 0 <= i && (item.minLength > 0 ==> i <= item.minLength)
        invariant item.minLength <= 0 ==> i == 0
        invariant Valid(h) && h.keyed && h.key == g.key
        invariant |pw| == Drawn(stock[..j]) + i
        invariant forall k :: 0 <= k < |pw| ==> pw[k] in Pool(stock)
        invariant forall t :: 0 <= t < j ==> CountIn(pw, stock[t].chars) >= stock[t].minLength
        invariant CountIn(pw, item.chars) >= i
      {
        var drawn := NextByte(h, enc);
        h := drawn.1;
        var c := item.chars[drawn.0 % |item.chars|];
        PoolContainsItem(stock, j, c);
        forall t | 0 <= t < j
          ensures CountIn(pw + [c], stock[t].chars) >= stock[t].minLength
        {
          CountInAppend(pw, c, stock[t].chars);
        }
        CountInAppend(pw, c, item.chars);
        pw := pw + [c];
        i := i + 1;
      }
      assert stock[..j + 1][..j] == stock[..j];
      assert Drawn(stock[..j + 1]) == Drawn(stock[..j]) + i;
      j := j + 1;
    }
    assert stock[..|stock|] == stock;
  }

  /** The second pass: `for (i = currLength; i < length; ++i)`, each character
      picked from the pool by `byte % |pool|`. */
  method Fill(pw: string, g: Generator, enc: Cipher, pool: string, from: int, length: int)
    returns (r: string, h: Generator)
    requires Valid(g) && g.keyed
    requires from < length ==> |pool| > 0
    ensures Valid(h) && h.keyed && h.key == g.key
    ensures |r| == |pw| + Max(0, length - from)
    ensures r[..|pw|] == pw
    ensures FromPool(r[|pw|..], pool)
  {
    r := pw;
    h := g;
    var i := from;
    while i < length
      invariant from <= length ==> from <= i <= length
      invariant from > length ==> i == from
      invariant Valid(h) && h.keyed && h.key == g.key
      invariant |r| == |pw| + (i - from)
      invariant r[..|pw|] == pw
      invariant FromPool(r[|pw|..], pool)
    {
      var drawn := NextByte(h, enc);
      h := drawn.1;
      var c := pool[drawn.0 % |pool|];
      assert (r + [c])[|pw|..] == r[|pw|..] + [c];
      r := r + [c];
      i := i + 1;
    }
  }

  /** The third pass: the bound `128 + byte` is drawn afresh before every
      round; each round draws two positions `byte % |pw|` (kept as `quint8`)
      and swaps them unless they coincide. */
  method Shuffle(pw: string, g: Generator, enc: Cipher)
    returns (r: string, h: Generator, rounds: nat)
    requires Valid(g) && g.keyed
    requires |pw| > 0
    ensures |r| == |pw| && multiset(r) == multiset(pw)
    ensures 128 <= rounds <= 383
    ensures Valid(h) && h.keyed && h.key == g.key
  {
    r := pw;
    h := g;
    rounds := 0;
    while true
      invariant rounds <= 383
      invariant |r| == |pw| && multiset(r) == multiset(pw)
      invariant Valid(h) && h.keyed && h.key == g.key
      decreases 383 - rounds
    {
      var bound := NextByte(h, enc);
      h := bound.1;
      if !(rounds < 128 + bound.0 as int) {
        break;
      }
      var first := NextByte(h, enc);
      var second := NextByte(first.1, enc);
      h := second.1;
      var from := (first.0 % |r|) % 256;
      var to := (second.0 % |r|) % 256;
      if from != to {
        r := Swap(r, from, to);
      }
      rounds := rounds + 1;
    }
  }

  /** The three passes over a keyed generator. */
  method Assemble(g: Generator, enc: Cipher, stock: CharacterStock, length: int)
    returns (password: string, r: Generator)
    requires Valid(g) && g.keyed
    requires forall j :: 0 <= j < |stock| && stock[j].minLength > 0 ==> |stock[j].chars| > 0
    requires MinSum(stock) < length ==> |Pool(stock)| > 0
    requires Drawn(stock) + Max(0, length - MinSum(stock)) > 0
    ensures |password| == Drawn(stock) + Max(0, length - MinSum(stock))
    ensures FromPool(password, Pool(stock))
    ensures MeetsMinimums(password, stock)
    ensures Valid(r) && r.keyed && r.key == g.key
  {
    var drawn, pw, h;
    drawn, h := DrawMinimums(g, enc, stock);
    pw, h := Fill(drawn, h, enc, Pool(stock), MinSum(stock), length);
    assert pw == drawn + pw[|drawn|..];
    MeetsMinimumsExtend(drawn, pw[|drawn|..], stock);
    FromPoolConcat(drawn, pw[|drawn|..], Pool(stock));
    var rounds;
    password, r, rounds := Shuffle(pw, h, enc);
    MeetsMinimumsPermutation(pw, password, stock);
    FromPoolPermutation(pw, password, Pool(stock));
  }

  /** The requests on which the three passes never divide by zero: every
      class with a positive minimum has characters, a fill from the pool is
      only needed when the pool has characters, and the result is not empty
      (the shuffle draws positions modulo its length). */
  predicate Generable(stock: CharacterStock, length: int) {
    && (forall j :: 0 <= j < |stock| && stock[j].minLength > 0 ==> |stock[j].chars| > 0)
    && (MinSum(stock) < length ==> |Pool(stock)| > 0)
    && Drawn(stock) + Max(0, length - MinSum(stock)) > 0
  }

  /** `generate` as written: key the cipher on first use, force one block
      advance, then the three passes. Outside `Generable` the source divides
      by zero, so the request must be generable. */
  method Generate(g: Generator, enc: Cipher, rnd: WordSupply, stock: CharacterStock, length: int)
    returns (password: string, r: Generator)
    requires Valid(g)
    requires Generable(stock, length)
    ensures |password| == Drawn(stock) + Max(0, length - MinSum(stock))
    ensures NonNegative(stock) ==> |password| == Max(length, MinSum(stock))
    ensures FromPool(password, Pool(stock))
    ensures MeetsMinimums(password, stock)
    ensures Valid(r) && r.keyed
    ensures g.keyed ==> r.key == g.key
  {
    var h := StartBlock(g, enc, rnd);
    password, r := Assemble(h, enc, stock, length);
    if NonNegative(stock) {
      GeneratedLength(stock, length, |password|);
    }
  }

  /** `generate` with the empty-pool case made an explicit failure: a request
      that is not generable yields nothing and leaves the generator as it was;
      every other request is served as `Generate` serves it. */
  method GenerateOrFail(g: Generator, enc: Cipher, rnd: WordSupply, stock: CharacterStock, length: int)
    returns (password: Wrappers.Option<string>, r: Generator)
    requires Valid(g)
    ensures password.None? <==> !Generable(stock, length)
    ensures password.None? ==> r == g
    ensures password.Some? ==>
      && |password.value| == Drawn(stock) + Max(0, length - MinSum(stock))
      && FromPool(password.value, Pool(stock))
      && MeetsMinimums(password.value, stock)
      && Valid(r) && r.keyed
    ensures password.Some? && NonNegative(stock) ==> |password.value| == Max(length, MinSum(stock))
  {
    if !Generable(stock, length) {
      return Wrappers.None, g;
    }
    var pw;
    pw, r := Generate(g, enc, rnd, stock, length);
    password := Wrappers.Some(pw);
  }

  /** With no negative minimum the result has the displayed length, or the sum
      of the minimums when that is larger. */
  lemma GeneratedLength(stock: CharacterStock, length: int, n: int)
    requires NonNegative(stock) && n == Drawn(stock) + Max(0, length - MinSum(stock))
    ensures n == Max(length, MinSum(stock))
  {
    DrawnIsMinSum(stock);
  }

  /** The start of every `generate`: `initCipher`, then one forced advance.
      On a keyed generator that is exactly one advance. */
  function StartBlock(g: Generator, enc: Cipher, rnd: WordSupply): (r: Generator)
    requires Valid(g)
    ensures Valid(r) && r.keyed && r.cursor == 0
    ensures g.keyed ==> r.key == g.key
    ensures g.keyed ==> Value(r.counter) == (Value(g.counter) + 1) % COUNTER_MODULUS
  {
    AdvanceBlock(InitCipher(g, enc, rnd), enc)
  }

  /** From a durable record, `generate` starts two counter steps past the
      stored counter, under the stored key. */
  lemma StartBlockFromRecord(g: Generator, enc: Cipher, rnd: WordSupply)
    requires Valid(g) && !g.keyed && g.stored.Some?
    ensures var r := StartBlock(g, enc, rnd);
      r.key == g.stored.value.key
      && r.counter == Increment(Increment(g.stored.value.counter))
      && Value(r.counter) == (Value(g.stored.value.counter) + 2) % COUNTER_MODULUS
  {
    var r := StartBlock(g, enc, rnd);
    StartBlockTwoSteps(g, enc, rnd);
    IncrementTwice(g.stored.value.counter);
  }

  /** Without a record, `generate` starts under a freshly synthesised key,
      two counter steps past the counter drawn from the second engine. */
  lemma StartBlockFresh(g: Generator, enc: Cipher, rnd: WordSupply)
    requires Valid(g) && !g.keyed && g.stored.None?
    ensures var r, c := StartBlock(g, enc, rnd), RandomCounter(rnd, g.engineSeq + 1);
      r.key == SynthBytes(rnd, g.engineSeq, KEY_LENGTH)
      && r.counter == Increment(Increment(c))
  {
    var l := LoadState(g, rnd);
    assert l.key == SynthBytes(rnd, g.engineSeq, KEY_LENGTH) && l.counter == RandomCounter(rnd, g.engineSeq + 1);
    StartBlockTwoSteps(g, enc, rnd);
  }

  /** The start from an unkeyed generator: the loaded key, and the loaded
      counter incremented twice. */
  lemma StartBlockTwoSteps(g: Generator, enc: Cipher, rnd: WordSupply)
    requires Valid(g) && !g.keyed
    ensures var r, l := StartBlock(g, enc, rnd), LoadState(g, rnd);
      r.key == l.key && r.counter == Increment(Increment(l.counter))
  {
  }

  /** Two increments add two modulo 2^128. */
  lemma IncrementTwice(c: Counter)
    ensures Value(Increment(Increment(c))) == (Value(c) + 2) % COUNTER_MODULUS
  {
    ModStep(Value(c), 2, COUNTER_MODULUS, Value(Increment(c)), Value(Increment(Increment(c))));
  }
}
