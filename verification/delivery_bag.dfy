/** The capacity bag of a delivery worker (`DeliveryBag`).

    `size` is the REMAINING capacity: a new bag starts at `Capacity` and every
    loaded order subtracts its own size.  An order is modelled by its integer
    size alone.  Loading never checks anything; a caller is expected to ask
    `Fits` first, and the lemmas at the end say what that discipline buys. */
module DeliveryBag {

  /** Remaining capacity of a freshly constructed bag. */
  const Capacity: int := 3

  datatype Bag = Bag(size: int)

  /** `DeliveryBag.new`. */
  function New(): (b: Bag)
    ensures b.size == Capacity
    ensures Fits(b, Capacity) && !Fits(b, Capacity + 1)
  {
    Bag(Capacity)
  }

  /** `load_order`: debits the order's size with no bound check, so the
      remaining size may go negative. */
  function LoadOrder(b: Bag, order: int): (r: Bag)
    ensures r.size + order == b.size
  {
    Bag(b.size - order)
  }

  /** `fits?`: a query that leaves the bag alone; it holds exactly when
      loading the order would not take the remaining size below zero. */
  predicate Fits(b: Bag, order: int)
  {
    b.size - order >= 0
  }

  /** Total size of a collection of orders. */
  function Sum(orders: seq<int>): int
  {
    if |orders| == 0 then 0 else orders[0] + Sum(orders[1..])
  }

  /** The effect of `load_orders_from_collection`: `load_order` applied to each
      order in turn, first to last. */
  function LoadAll(b: Bag, orders: seq<int>): (r: Bag)
    ensures r.size == b.size - Sum(orders)
    ensures |orders| == 0 ==> r == b
    decreases |orders|
  {
    if |orders| == 0 then b else LoadAll(LoadOrder(b, orders[0]), orders[1..])
  }

  /** `load_orders_from_collection`, written as the source's `each` loop. */
  method LoadOrdersFromCollection(b: Bag, orders: seq<int>) returns (r: Bag)
    ensures r == LoadAll(b, orders)
  {
    r := b;
    var i := 0;
    while i < |orders|
      invariant 0 <= i <= |orders|
      invariant LoadAll(r, orders[i..]) == LoadAll(b, orders)
    {
      assert orders[i..][1..] == orders[i + 1..];
      r := LoadOrder(r, orders[i]);
      i := i + 1;
    }
  }

  /** Every order in the collection has a non-negative size. */
  predicate NonNegative(orders: seq<int>)
  {
    forall i | 0 <= i < |orders| :: orders[i] >= 0
  }

  /** The caller-side discipline: every order of the collection fits the bag
      as it stands just before that order is loaded. */
  predicate EachFits(b: Bag, orders: seq<int>)
    decreases |orders|
  {
    |orders| == 0 || (Fits(b, orders[0]) && EachFits(LoadOrder(b, orders[0]), orders[1..]))
  }

  // ---------------------------------------------------------------------------
  // Properties of loading
  // ---------------------------------------------------------------------------

  /** `fits?` checked before `load_order` guarantees a non-negative remaining
      size afterwards; without the check the size can go negative, as a fresh
      bag loaded with an order of size 4 shows. */
  lemma FitsGuardsLoad(b: Bag, order: int)
    ensures Fits(b, order) <==> LoadOrder(b, order).size >= 0
    ensures !Fits(New(), Capacity + 1) && LoadOrder(New(), Capacity + 1).size == -1
  {
  }

  /** Loading an order of non-negative size never increases the remaining size. */
  lemma LoadNeverIncreases(b: Bag, order: int)
    requires order >= 0
    ensures LoadOrder(b, order).size <= b.size
  {
  }

  lemma {:induction false} SumNonNegative(orders: seq<int>)
    requires NonNegative(orders)
    ensures Sum(orders) >= 0
  {
    if |orders| > 0 {
      SumNonNegative(orders[1..]);
    }
  }

  /** Loading a collection of non-negative orders never increases the
      remaining size. */
  lemma LoadAllNeverIncreases(b: Bag, orders: seq<int>)
    requires NonNegative(orders)
    ensures LoadAll(b, orders).size <= b.size
  {
    SumNonNegative(orders);
  }

  /** Removing the element at index `j` takes exactly that element off the sum. */
  lemma {:induction false} SumRemove(s: seq<int>, j: int)
    requires 0 <= j < |s|
    ensures Sum(s) == s[j] + Sum(s[..j] + s[j + 1..])
  {
    var t := s[..j] + s[j + 1..];
    if j == 0 {
      assert t == s[1..];
    } else {
      var u := s[1..];
      SumRemove(u, j - 1);
      assert t[0] == s[0];
      assert t[1..] == u[..j - 1] + u[j..];
      assert u[j - 1] == s[j];
    }
  }

  /** The total size does not depend on the order of the collection. */
  lemma {:induction false} SumPermutation(a: seq<int>, c: seq<int>)
    requires multiset(a) == multiset(c)
    ensures Sum(a) == Sum(c)
  {
    if |a| > 0 {
      assert a[0] in multiset(c);
      var j :| 0 <= j < |c| && c[j] == a[0];
      var c' := c[..j] + c[j + 1..];
      assert c == c[..j] + [c[j]] + c[j + 1..];
      assert a == [a[0]] + a[1..];
      assert multiset(c) == multiset(c[..j]) + multiset{c[j]} + multiset(c[j + 1..]);
      assert multiset(c') == multiset(c[..j]) + multiset(c[j + 1..]);
      assert multiset(a) == multiset{a[0]} + multiset(a[1..]);
      assert multiset(c') == multiset(c) - multiset{c[j]};
      assert multiset(a[1..]) == multiset(a) - multiset{a[0]};
      SumPermutation(a[1..], c');
      SumRemove(c, j);
    } else {
      assert |c| == |multiset(c)| == 0;
    }
  }

  /** `load_orders_from_collection` leaves the same bag whatever order the
      collection is loaded in. */
  lemma LoadAllOrderIndependent(b: Bag, a: seq<int>, c: seq<int>)
    requires multiset(a) == multiset(c)
    ensures LoadAll(b, a) == LoadAll(b, c)
  {
    SumPermutation(a, c);
  }

  /** For a bag that is not overdrawn and orders of non-negative size, asking
      `fits?` before each load succeeds throughout exactly when the whole
      collection fits at once. */
  lemma {:induction false} EachFitsIffTotalFits(b: Bag, orders: seq<int>)
    requires b.size >= 0
    requires NonNegative(orders)
    ensures EachFits(b, orders) <==> Fits(b, Sum(orders))
    decreases |orders|
  {
    if |orders| > 0 {
      var b' := LoadOrder(b, orders[0]);
      assert NonNegative(orders[1..]);
      SumNonNegative(orders[1..]);
      if Fits(b, orders[0]) {
        EachFitsIffTotalFits(b', orders[1..]);
      }
    }
  }

  /** Loading under the `fits?` discipline keeps the remaining size between
      zero and where it started; from a fresh bag, between 0 and `Capacity`. */
  lemma {:induction false} EachFitsKeepsBounds(b: Bag, orders: seq<int>)
    requires 0 <= b.size <= Capacity
    requires NonNegative(orders)
    requires EachFits(b, orders)
    ensures 0 <= LoadAll(b, orders).size <= b.size <= Capacity
  {
    EachFitsIffTotalFits(b, orders);
    SumNonNegative(orders);
  }
}
