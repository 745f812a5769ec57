/** `CharacterStock`: the ordered character classes a password is drawn from,
    each with the number of characters it must at least contribute. */
module Stock {

  /** One class: its characters and its minimum count, stored as given. */
  datatype Item = Item(chars: string, minLength: int)

  type CharacterStock = seq<Item>

  /** `CharacterStock::add`: appends one item and leaves the others in place. */
  function Add(stock: CharacterStock, chars: string, minLength: int): (r: CharacterStock)
    ensures |r| == |stock| + 1
    ensures r[..|stock|] == stock
    ensures r[|stock|].chars == chars && r[|stock|].minLength == minLength
  {
    stock + [Item(chars, minLength)]
  }

  /** The running `currLength` of the generator: the sum of all minimums. */
  function MinSum(stock: CharacterStock): int {
    if |stock| == 0 then 0 else MinSum(stock[..|stock| - 1]) + stock[|stock| - 1].minLength
  }

  /** How many characters the minimum pass draws: a negative minimum draws none. */
  function Drawn(stock: CharacterStock): nat {
    if |stock| == 0 then 0
    else Drawn(stock[..|stock| - 1]) + (if stock[|stock| - 1].minLength > 0 then stock[|stock| - 1].minLength else 0)
  }

  /** The concatenated characters of every class, the pool of the fill pass. */
  function Pool(stock: CharacterStock): string {
    if |stock| == 0 then [] else Pool(stock[..|stock| - 1]) + stock[|stock| - 1].chars
  }

  predicate NonNegative(stock: CharacterStock) {
    forall j :: 0 <= j < |stock| ==> stock[j].minLength >= 0
  }

  /** With no negative minimum, the minimum pass draws exactly the sum of minimums. */
  lemma {:induction false} DrawnIsMinSum(stock: CharacterStock)
    requires NonNegative(stock)
    ensures Drawn(stock) == MinSum(stock)
  {
    if |stock| > 0 {
      DrawnIsMinSum(stock[..|stock| - 1]);
    }
  }

  /** A negative minimum only ever lowers the sum below what is drawn. */
  lemma {:induction false} MinSumAtMostDrawn(stock: CharacterStock)
    ensures MinSum(stock) <= Drawn(stock)
  {
    if |stock| > 0 {
      MinSumAtMostDrawn(stock[..|stock| - 1]);
    }
  }

  /** Every character of every class is in the pool. */
  lemma {:induction false} PoolContainsItem(stock: CharacterStock, j: int, c: char)
    requires 0 <= j < |stock| && c in stock[j].chars
    ensures c in Pool(stock)
  {
    var n := |stock| - 1;
    if j < n {
      assert stock[..n][j] == stock[j];
      PoolContainsItem(stock[..n], j, c);
    }
  }
}
