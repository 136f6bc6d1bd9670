/** A strategy's own orders at the time of one update
    (`SecurityOrdersSnapshot` of include/security_orders_snapshot.h) and the
    aggregate queries over them. */
module OrdersSnapshot {
  import opened Decimals
  import opened CommonEnums

  /** The fields of the live `Order` the queries read. */
  datatype Order = Order(id: nat, dir: Dir, price: Decimal, amount: int, status: OrderStatus, amountRest: int)

  /** `OrderSnapshot`: a pointer to the live order, plus the remaining amount
      copied when the snapshot was taken. `order` is the pointee's state at the
      time a query runs. */
  datatype OrderSnapshot = OrderSnapshot(order: Order, cachedAmountRest: int)

  predicate IsActive(o: OrderSnapshot) {
    o.order.status == Active
  }

  // ---------------------------------------------------------------- folds

  /** `count_if(..., status() == Active)`. */
  function CountActive(orders: seq<OrderSnapshot>): nat
  {
    if orders == [] then 0
    else CountActive(orders[..|orders| - 1]) + (if IsActive(orders[|orders| - 1]) then 1 else 0)
  }

  /** `accumulate(..., 0, volume + (Active ? order->amount_rest() : 0))`. The
      amount is read through `operator->`, i.e. from the live order. */
  function VolumeActive(orders: seq<OrderSnapshot>): int
  {
    if orders == [] then 0
    else
      var last := orders[|orders| - 1];
      VolumeActive(orders[..|orders| - 1]) + (if IsActive(last) then last.order.amountRest else 0)
  }

  /** The same sum restricted to orders at `price`. */
  function VolumeAtPrice(orders: seq<OrderSnapshot>, price: Decimal): int
  {
    if orders == [] then 0
    else
      var last := orders[|orders| - 1];
      VolumeAtPrice(orders[..|orders| - 1], price)
        + (if IsActive(last) && last.order.price == price then last.order.amountRest else 0)
  }

  /** Reference definition of the count: the set of positions holding an
      active order. */
  function ActivePositions(orders: seq<OrderSnapshot>): set<int>
  {
    set i | 0 <= i < |orders| && IsActive(orders[i])
  }

  /** Reference definition of the volume at one price: the positions holding
      an active order at `price`. */
  function PricePositions(orders: seq<OrderSnapshot>, price: Decimal): set<int>
  {
    set i | 0 <= i < |orders| && IsActive(orders[i]) && orders[i].order.price == price
  }

  /** Reference definition of the volume: the live remaining amounts of the
      orders at the positions in `positions`, over the first `n` positions. */
  function RestsAt(orders: seq<OrderSnapshot>, positions: set<int>, n: nat): int
    requires n <= |orders|
  {
    if n == 0 then 0
    else RestsAt(orders, positions, n - 1) + (if n - 1 in positions then orders[n - 1].order.amountRest else 0)
  }

  predicate NonNegativeRests(orders: seq<OrderSnapshot>) {
    forall i :: 0 <= i < |orders| ==> orders[i].order.amountRest >= 0
  }

  // ---------------------------------------------------------------- the snapshot

  class SecurityOrdersSnapshot {
    /** `std::array<std::vector<OrderSnapshot>, 2>`, indexed by BID and ASK. */
    const ordersByDir: array<seq<OrderSnapshot>>
    /** `std::array<Amount, 2>`: amount sent for deletion but not yet deleted. */
    const deletingAmount: array<int>

    ghost predicate Valid()
      reads this
    {
      ordersByDir.Length == 2 && deletingAmount.Length == 2
    }

    constructor ()
      ensures Valid() && fresh(ordersByDir) && fresh(deletingAmount)
      ensures ordersByDir[..] == [[], []] && deletingAmount[..] == [0, 0]
    {
      var orders := new seq<OrderSnapshot>[2];
      var deleting := new int[2];
      ordersByDir := orders;
      deletingAmount := deleting;
      new;
      var dirs := [BID, ASK];
      var k := 0;
      while k < |dirs|
        invariant 0 <= k <= |dirs|
        invariant forall j :: 0 <= j < k ==> ordersByDir[dirs[j]] == [] && deletingAmount[dirs[j]] == 0
        modifies ordersByDir, deletingAmount
      {
        var dir := dirs[k];
        ordersByDir[dir] := [];
        deletingAmount[dir] := 0;
        k := k + 1;
      }
      assert dirs[0] == BID && dirs[1] == ASK;
      assert ordersByDir[BID] == [] && ordersByDir[ASK] == [];
      assert deletingAmount[BID] == 0 && deletingAmount[ASK] == 0;
      assert ordersByDir[..] == [ordersByDir[BID], ordersByDir[ASK]];
      assert deletingAmount[..] == [deletingAmount[BID], deletingAmount[ASK]];
    }

    /** `get_volume_by_price(dir, price)`. */
    function GetVolumeByPrice(dir: Dir, price: Decimal): (v: int)
      requires Valid() && IsSide(dir)
      reads this, ordersByDir
      ensures v == RestsAt(ordersByDir[dir], PricePositions(ordersByDir[dir], price), |ordersByDir[dir]|)
      ensures PricePositions(ordersByDir[dir], price) <= ActivePositions(ordersByDir[dir])
      ensures NonNegativeRests(ordersByDir[dir]) ==> 0 <= v <= ActiveOrdersVolume(dir)
    {
      VolumeAtPriceIsRestsAt(ordersByDir[dir], price);
      VolumeAtPriceBounded(ordersByDir[dir], price);
      VolumeAtPrice(ordersByDir[dir], price)
    }

    /** `active_orders_count(dir)`. */
    function ActiveOrdersCount(dir: Dir): (n: nat)
      requires Valid() && IsSide(dir)
      reads this, ordersByDir
      ensures n <= |ordersByDir[dir]|
      ensures n == |ActivePositions(ordersByDir[dir])|
    {
      CountActiveBound(ordersByDir[dir]);
      CountActiveIsCardinality(ordersByDir[dir]);
      CountActive(ordersByDir[dir])
    }

    /** `active_orders_volume(dir)`. */
    function ActiveOrdersVolume(dir: Dir): (v: int)
      requires Valid() && IsSide(dir)
      reads this, ordersByDir
      ensures v == RestsAt(ordersByDir[dir], ActivePositions(ordersByDir[dir]), |ordersByDir[dir]|)
      ensures ActiveOrdersCount(dir) == 0 ==> v == 0
    {
      VolumeActiveIsRestsAt(ordersByDir[dir]);
      NoActiveNoVolume(ordersByDir[dir], FromNumerator(0));
      VolumeActive(ordersByDir[dir])
    }

    /** `size()`: orders of both directions. */
    function Size(): (n: nat)
      requires Valid()
      reads this, ordersByDir
      ensures n == |ordersByDir[BID]| + |ordersByDir[ASK]|
      ensures ActiveOrdersCount(BID) + ActiveOrdersCount(ASK) <= n
    {
      |ordersByDir[BID]| + |ordersByDir[ASK]|
    }
  }

  // ---------------------------------------------------------------- properties

  lemma {:induction false} CountActiveBound(orders: seq<OrderSnapshot>)
    ensures CountActive(orders) <= |orders|
    ensures CountActive(orders) == |orders| <==> forall i :: 0 <= i < |orders| ==> IsActive(orders[i])
  {
    if orders != [] {
      var init := orders[..|orders| - 1];
      CountActiveBound(init);
      forall i | 0 <= i < |init| ensures init[i] == orders[i] { }
    }
  }

  lemma {:induction false} CountActiveIsCardinality(orders: seq<OrderSnapshot>)
    ensures CountActive(orders) == |ActivePositions(orders)|
  {
    if orders != [] {
      var n := |orders| - 1;
      var init := orders[..n];
      CountActiveIsCardinality(init);
      var before := ActivePositions(init);
      assert before == set i | 0 <= i < n && IsActive(orders[i]);
      if IsActive(orders[n]) {
        assert ActivePositions(orders) == before + {n};
        assert n !in before;
      } else {
        assert ActivePositions(orders) == before;
      }
    }
  }

  /** The volume fold is the sum of the live remaining amounts over the set
      of active positions, the same set whose size is the count. */
  lemma VolumeActiveIsRestsAt(orders: seq<OrderSnapshot>)
    ensures VolumeActive(orders) == RestsAt(orders, ActivePositions(orders), |orders|)
  {
    VolumeActivePrefix(orders, |orders|);
    assert orders[..|orders|] == orders;
  }

  lemma {:induction false} VolumeActivePrefix(orders: seq<OrderSnapshot>, k: nat)
    requires k <= |orders|
    ensures VolumeActive(orders[..k]) == RestsAt(orders, ActivePositions(orders), k)
  {
    if k > 0 {
      VolumeActivePrefix(orders, k - 1);
      assert orders[..k][..k - 1] == orders[..k - 1];
      assert orders[..k][k - 1] == orders[k - 1];
      assert k - 1 in ActivePositions(orders) <==> IsActive(orders[k - 1]);
    }
  }

  /** The volume at a price is the sum of the live remaining amounts over the
      active positions at that price, a subset of the active positions. */
  lemma VolumeAtPriceIsRestsAt(orders: seq<OrderSnapshot>, price: Decimal)
    ensures VolumeAtPrice(orders, price) == RestsAt(orders, PricePositions(orders, price), |orders|)
    ensures PricePositions(orders, price) <= ActivePositions(orders)
  {
    VolumeAtPricePrefix(orders, price, |orders|);
    assert orders[..|orders|] == orders;
  }

  lemma {:induction false} VolumeAtPricePrefix(orders: seq<OrderSnapshot>, price: Decimal, k: nat)
    requires k <= |orders|
    ensures VolumeAtPrice(orders[..k], price) == RestsAt(orders, PricePositions(orders, price), k)
  {
    if k > 0 {
      VolumeAtPricePrefix(orders, price, k - 1);
      assert orders[..k][..k - 1] == orders[..k - 1];
      assert orders[..k][k - 1] == orders[k - 1];
      assert k - 1 in PricePositions(orders, price) <==> IsActive(orders[k - 1]) && orders[k - 1].order.price == price;
    }
  }

  /** The folds distribute over concatenation of order lists. */
  lemma {:induction false} FoldsAdditive(a: seq<OrderSnapshot>, b: seq<OrderSnapshot>, price: Decimal)
    ensures CountActive(a + b) == CountActive(a) + CountActive(b)
    ensures VolumeActive(a + b) == VolumeActive(a) + VolumeActive(b)
    ensures VolumeAtPrice(a + b, price) == VolumeAtPrice(a, price) + VolumeAtPrice(b, price)
  {
    if b == [] {
      assert a + b == a;
    } else {
      var init := b[..|b| - 1];
      FoldsAdditive(a, init, price);
      assert (a + b)[..|a + b| - 1] == a + init;
    }
  }

  /** With non-negative remaining amounts, the volume at one price is part of
      the active volume. */
  lemma {:induction false} VolumeAtPriceBounded(orders: seq<OrderSnapshot>, price: Decimal)
    ensures NonNegativeRests(orders) ==> 0 <= VolumeAtPrice(orders, price) <= VolumeActive(orders)
  {
    if orders != [] {
      var init := orders[..|orders| - 1];
      assert NonNegativeRests(orders) ==> NonNegativeRests(init);
      VolumeAtPriceBounded(init, price);
    }
  }

  lemma {:induction false} NoActiveNoVolume(orders: seq<OrderSnapshot>, price: Decimal)
    ensures CountActive(orders) == 0 ==> VolumeActive(orders) == 0 && VolumeAtPrice(orders, price) == 0
  {
    if orders != [] {
      NoActiveNoVolume(orders[..|orders| - 1], price);
    }
  }

  /** The queries read the live orders only: the amounts cached in the
      snapshots make no difference. */
  lemma {:induction false} QueriesIgnoreCache(s: seq<OrderSnapshot>, t: seq<OrderSnapshot>, price: Decimal)
    requires |s| == |t| && forall i :: 0 <= i < |s| ==> s[i].order == t[i].order
    ensures CountActive(s) == CountActive(t)
    ensures VolumeActive(s) == VolumeActive(t)
    ensures VolumeAtPrice(s, price) == VolumeAtPrice(t, price)
  {
    if s != [] {
      var n := |s| - 1;
      QueriesIgnoreCache(s[..n], t[..n], price);
    }
  }
}
