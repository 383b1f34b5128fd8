/**
 The money side of the vending service: the fixed coin table, the value of a
 handful of coins, the funds check and the greedy change maker. All amounts
 are whole pence; the source's BigDecimal values of scale 2 map one-to-one
 onto them.
 */
module Money {

  /** The denominations the machine accepts and gives back, largest first. */
  datatype Coin = TwoPound | Pound | FiftyPence | TwentyPence | TenPence | FivePence | TwoPence | Penny

  /** Face value of a coin in pence. */
  function Value(c: Coin): (v: nat)
    ensures 1 <= v <= 200
  {
    match c
    case TwoPound => 200
    case Pound => 100
    case FiftyPence => 50
    case TwentyPence => 20
    case TenPence => 10
    case FivePence => 5
    case TwoPence => 2
    case Penny => 1
  }

  /** The order in which the change maker tries the denominations. */
  const Denominations: seq<Coin> :=
    [TwoPound, Pound, FiftyPence, TwentyPence, TenPence, FivePence, TwoPence, Penny]

  /** The exact value of a sequence of coins, in pence. */
  function Sum(coins: seq<Coin>): int
  {
    if coins == [] then 0 else Value(coins[0]) + Sum(coins[1..])
  }

  lemma {:induction false} SumConcat(a: seq<Coin>, b: seq<Coin>)
    ensures Sum(a + b) == Sum(a) + Sum(b)
  {
    if a == [] {
      assert a + b == b;
    } else {
      assert (a + b)[1..] == a[1..] + b;
      SumConcat(a[1..], b);
    }
  }

  /** `n` copies of coin `c`. */
  function Block(c: Coin, n: nat): seq<Coin>
  {
    seq(n, _ => c)
  }

  lemma {:induction false} SumBlock(c: Coin, n: nat)
    ensures Sum(Block(c, n)) == n * Value(c)
  {
    if n > 0 {
      assert Block(c, n)[1..] == Block(c, n - 1);
      SumBlock(c, n - 1);
    }
  }

  /** Every coin is worth at least as much as every later one. */
  ghost predicate NonIncreasing(coins: seq<Coin>)
  {
    forall i, j :: 0 <= i < j < |coins| ==> Value(coins[i]) >= Value(coins[j])
  }

  /** The denominations are listed in strictly decreasing value. */
  ghost predicate StrictlyDecreasing(ds: seq<Coin>)
  {
    forall i, j :: 0 <= i < j < |ds| ==> Value(ds[i]) > Value(ds[j])
  }

  /**
   Sums the coins one by one from zero, as the service's running total
   does; the result is exact (no rounding).
   */
  method FundsValue(coins: seq<Coin>) returns (total: int)
    ensures total == Sum(coins)
    ensures coins == [] ==> total == 0
    ensures total >= |coins|
  {
    total := 0;
    for i := 0 to |coins|
      invariant total == Sum(coins[..i])
      invariant total >= i
    {
      assert coins[..i + 1] == coins[..i] + [coins[i]];
      SumConcat(coins[..i], [coins[i]]);
      total := total + Value(coins[i]);
    }
    assert coins[..|coins|] == coins;
  }

  /** True exactly when the coins cover the price, an exact match included. */
  method SufficientFunds(coins: seq<Coin>, price: int) returns (ok: bool)
    ensures ok <==> Sum(coins) >= price
  {
    var funds := FundsValue(coins);
    ok := funds >= price;
  }

  /**
   How many coins of `c` the change maker takes from `remainder`: none when
   the remainder does not reach the coin's value, otherwise
   floor(remainder / value).
   */
  function Taken(remainder: int, c: Coin): nat
  {
    if remainder >= Value(c) then remainder / Value(c) else 0
  }

  /** What is left of `remainder` after the coins of `c` are taken. */
  function Rest(remainder: int, c: Coin): int
  {
    if remainder >= Value(c) then remainder % Value(c) else remainder
  }

  /**
   One greedy step takes floor(remainder / value) coins from a non-negative
   remainder, accounts for the whole remainder, and leaves a non-negative
   remainder below the coin's value.
   */
  lemma {:induction false} TakenAndRest(remainder: int, c: Coin)
    ensures remainder >= 0 ==> Taken(remainder, c) == remainder / Value(c)
    ensures Taken(remainder, c) * Value(c) + Rest(remainder, c) == remainder
    ensures remainder >= 0 ==> 0 <= Rest(remainder, c) < Value(c)
  {
    var v := Value(c);
    if remainder >= v {
      assert remainder == (remainder / v) * v + remainder % v;
    }
  }

  /**
   Reference definition of greedy change: for each denomination in turn,
   take as many coins as fit and carry on with what is left.
   */
  function Greedy(amount: int, ds: seq<Coin>): seq<Coin>
    decreases |ds|
  {
    if ds == [] then []
    else Block(ds[0], Taken(amount, ds[0])) + Greedy(Rest(amount, ds[0]), ds[1..])
  }

  /** What is left of `amount` once every denomination in `ds` has had its turn. */
  function Leftover(amount: int, ds: seq<Coin>): int
    decreases |ds|
  {
    if ds == [] then amount else Leftover(Rest(amount, ds[0]), ds[1..])
  }

  /** The greedy coins and the leftover together make up the amount. */
  lemma {:induction false} GreedyAccounts(amount: int, ds: seq<Coin>)
    ensures Sum(Greedy(amount, ds)) + Leftover(amount, ds) == amount
    decreases |ds|
  {
    if ds != [] {
      var c := ds[0];
      var n := Taken(amount, c);
      var rest := Rest(amount, c);
      GreedyAccounts(rest, ds[1..]);
      SumBlock(c, n);
      SumConcat(Block(c, n), Greedy(rest, ds[1..]));
      TakenAndRest(amount, c);
    }
  }

  /**
   From a non-negative amount the leftover is never negative, and it is
   below the value of the last denomination tried.
   */
  lemma {:induction false} LeftoverBelowLast(amount: int, ds: seq<Coin>)
    requires amount >= 0 && ds != []
    ensures 0 <= Leftover(amount, ds) < Value(ds[|ds| - 1])
    decreases |ds|
  {
    TakenAndRest(amount, ds[0]);
    if ds[1..] != [] {
      LeftoverBelowLast(Rest(amount, ds[0]), ds[1..]);
      assert ds[1..][|ds[1..]| - 1] == ds[|ds| - 1];
    }
  }

  /** Nothing (and so no coin) is given back for an amount of zero or less. */
  lemma {:induction false} GreedyNothingOwed(amount: int, ds: seq<Coin>)
    requires amount <= 0
    ensures Greedy(amount, ds) == []
    decreases |ds|
  {
    if ds != [] {
      GreedyNothingOwed(amount, ds[1..]);
    }
  }

  lemma {:induction false} DecreasingTail(ds: seq<Coin>)
    requires StrictlyDecreasing(ds) && ds != []
    ensures StrictlyDecreasing(ds[1..])
    ensures forall c :: c in ds[1..] ==> Value(c) < Value(ds[0])
  {
    forall c | c in ds[1..]
      ensures Value(c) < Value(ds[0])
    {
      var j :| 0 <= j < |ds[1..]| && ds[1..][j] == c;
      assert ds[j + 1] == c;
    }
  }

  /** A block of one coin followed by non-increasing smaller coins is non-increasing. */
  lemma {:induction false} BlockThenSmaller(c: Coin, n: nat, tail: seq<Coin>)
    requires NonIncreasing(tail)
    requires forall t :: t in tail ==> Value(t) < Value(c)
    ensures NonIncreasing(Block(c, n) + tail)
  {
    var g := Block(c, n) + tail;
    forall i, j | 0 <= i < j < |g|
      ensures Value(g[i]) >= Value(g[j])
    {
      if j >= n {
        assert g[j] == tail[j - n];
        if i >= n {
          assert g[i] == tail[i - n];
        } else {
          assert g[j] in tail;
        }
      }
    }
  }

  /**
   Greedy change over a strictly decreasing table uses only coins of the
   table and hands them out largest first.
   */
  lemma {:induction false} GreedyOrdered(amount: int, ds: seq<Coin>)
    requires StrictlyDecreasing(ds)
    ensures NonIncreasing(Greedy(amount, ds))
    ensures forall c :: c in Greedy(amount, ds) ==> c in ds
    decreases |ds|
  {
    if ds != [] {
      var n := Taken(amount, ds[0]);
      var tail := Greedy(Rest(amount, ds[0]), ds[1..]);
      DecreasingTail(ds);
      GreedyOrdered(Rest(amount, ds[0]), ds[1..]);
      BlockThenSmaller(ds[0], n, tail);
      forall c | c in Block(ds[0], n) + tail
        ensures c in ds
      {
        if c !in Block(ds[0], n) {
          assert c in tail;
        }
      }
    }
  }

  /**
   The source's getChangeCoins: floor(funds / value) copies of the coin,
   gathered one by one (none when the quotient is not positive).
   */
  method GetChangeCoins(funds: int, coin: Coin) returns (change: seq<Coin>)
    ensures forall i :: 0 <= i < |change| ==> change[i] == coin
    ensures funds >= 0 ==> |change| == funds / Value(coin)
    ensures funds >= 0 ==> |change| * Value(coin) <= funds < (|change| + 1) * Value(coin)
    ensures funds < 0 ==> change == []
  {
    var count := funds / Value(coin);
    change := [];
    var i := 0;
    while i < count
      invariant 0 <= i
      invariant count >= 0 ==> i <= count
      invariant count < 0 ==> i == 0
      invariant |change| == i
      invariant forall k :: 0 <= k < |change| ==> change[k] == coin
    {
      change := change + [coin];
      i := i + 1;
    }
    assert count >= 0 ==> |change| == count;
  }

  /** The table is in strictly decreasing order of value and ends with the penny. */
  lemma {:induction false} DenominationsOrdered()
    ensures StrictlyDecreasing(Denominations)
    ensures Denominations[|Denominations| - 1] == Penny
  {
  }

  /**
   What the source promises of the change it gives, for any table in
   decreasing order that ends with the penny: exact for whole pence, nothing
   for zero or less, largest coins first, and only coins of the table.
   */
  lemma {:induction false} GreedyChange(amount: int, ds: seq<Coin>)
    requires StrictlyDecreasing(ds) && ds != [] && ds[|ds| - 1] == Penny
    ensures amount >= 0 ==> Sum(Greedy(amount, ds)) == amount
    ensures amount <= 0 ==> Greedy(amount, ds) == []
    ensures NonIncreasing(Greedy(amount, ds))
    ensures forall c :: c in Greedy(amount, ds) ==> c in ds
  {
    if amount >= 0 {
      GreedyAccounts(amount, ds);
      LeftoverBelowLast(amount, ds);
    }
    if amount <= 0 {
      GreedyNothingOwed(amount, ds);
    }
    GreedyOrdered(amount, ds);
  }

  /** The same promises for the machine's own table. */
  lemma {:induction false} ChangeIsExactAndOrdered(amount: int)
    ensures amount >= 0 ==> Sum(Greedy(amount, Denominations)) == amount
    ensures amount <= 0 ==> Greedy(amount, Denominations) == []
    ensures NonIncreasing(Greedy(amount, Denominations))
    ensures forall c :: c in Greedy(amount, Denominations) ==> c in Denominations
  {
    DenominationsOrdered();
    GreedyChange(amount, Denominations);
  }

  /** The denomination tried at step `k` of getChange. */
  function Step(k: nat): Coin
    requires k < 8
  {
    match k
    case 0 => TwoPound
    case 1 => Pound
    case 2 => FiftyPence
    case 3 => TwentyPence
    case 4 => TenPence
    case 5 => FivePence
    case 6 => TwoPence
    case _ => Penny
  }

  /** Greedy change for `amount` over the table from step `k` on, step by step. */
  function GreedyFrom(amount: int, k: nat): seq<Coin>
    requires k <= 8
    decreases 8 - k
  {
    if k == 8 then []
    else Block(Step(k), Taken(amount, Step(k))) + GreedyFrom(Rest(amount, Step(k)), k + 1)
  }

  lemma {:induction false} GreedyFromIsGreedy(amount: int, k: nat)
    requires k <= 8
    ensures GreedyFrom(amount, k) == Greedy(amount, Denominations[k..])
    decreases 8 - k
  {
    if k < 8 {
      assert Step(k) == Denominations[k];
      GreedyFromIsGreedy(Rest(amount, Step(k)), k + 1);
      assert Denominations[k..][1..] == Denominations[k + 1..];
    }
  }

  lemma {:induction false} GreedyFromStep(change: seq<Coin>, remainder: int, k: nat)
    requires k < 8
    ensures change + GreedyFrom(remainder, k)
         == change + Block(Step(k), Taken(remainder, Step(k))) + GreedyFrom(Rest(remainder, Step(k)), k + 1)
  {
  }

  /**
   One of the eight identical steps of getChange: when the remainder reaches
   the coin's value, add floor(remainder / value) such coins and take their
   value off (the new remainder is Rest(remainder, coin), see TakenAndRest).
   What has been handed out plus what greedy change still owes from step `k`
   on is the same before and after the step.
   */
  method TakeCoins(change: seq<Coin>, remainder: int, coin: Coin, ghost k: nat)
    returns (change': seq<Coin>, remainder': int)
    requires k < 8 && coin == Step(k)
    ensures change' == change + Block(coin, Taken(remainder, coin))
    ensures remainder' == Rest(remainder, coin)
    ensures change' + GreedyFrom(remainder', k + 1) == change + GreedyFrom(remainder, k)
  {
    change', remainder' := change, remainder;
    if remainder >= Value(coin) {
      var returned := GetChangeCoins(remainder, coin);
      assert returned == Block(coin, Taken(remainder, coin));
      change' := change' + returned;
      remainder' := remainder' - Value(coin) * |returned|;
    }
    TakenAndRest(remainder, coin);
    assert change' == change + Block(coin, Taken(remainder, coin));
    assert remainder' == Rest(remainder, coin);
    GreedyFromStep(change, remainder, k);
  }

  /**
   Change for `amount` pence: the denominations are tried from TWOPOUND down
   to PENNY, each taking as many coins as fit in what is left. The result is
   the reference greedy change over Denominations, whose properties
   ChangeIsExactAndOrdered states.
   */
  method GetChange(amount: int) returns (change: seq<Coin>)
    ensures change == Greedy(amount, Denominations)
  {
    change := [];
    var remainder := amount;
    ghost var owed := GreedyFrom(amount, 0);
    assert change + GreedyFrom(remainder, 0) == owed;
    change, remainder := TakeCoins(change, remainder, TwoPound, 0);
    assert change + GreedyFrom(remainder, 1) == owed;
    change, remainder := TakeCoins(change, remainder, Pound, 1);
    assert change + GreedyFrom(remainder, 2) == owed;
    change, remainder := TakeCoins(change, remainder, FiftyPence, 2);
    assert change + GreedyFrom(remainder, 3) == owed;
    change, remainder := TakeCoins(change, remainder, TwentyPence, 3);
    assert change + GreedyFrom(remainder, 4) == owed;
    change, remainder := TakeCoins(change, remainder, TenPence, 4);
    assert change + GreedyFrom(remainder, 5) == owed;
    change, remainder := TakeCoins(change, remainder, FivePence, 5);
    assert change + GreedyFrom(remainder, 6) == owed;
    change, remainder := TakeCoins(change, remainder, TwoPence, 6);
    assert change + GreedyFrom(remainder, 7) == owed;
    change, remainder := TakeCoins(change, remainder, Penny, 7);
    assert change + GreedyFrom(remainder, 8) == owed;
    assert change == owed;
    GreedyFromIsGreedy(amount, 0);
    assert Denominations[0..] == Denominations;
  }
}
