/**
 Pure transformations of one user's cart: the in-memory part of the
 `/addtocart`, `/removepcart`, `/cartplus`, `/cartminus` and `/orderFinal`
 handlers, with the database load and save stripped away.

 A cart is an ordered sequence of `CartItem`s keyed by `productName`.
 */
module Cart {

  /** One cart entry. `productPrice` is carried along untouched. */
  datatype CartItem = CartItem(
    productName: string,
    productPrice: int,
    productDescription: string,
    productImage: string,
    cartQuantity: int)

  /**
   The error outcomes of the cart and order handlers, shared by both
   modules: the cart steps here raise the last three, and `UserNotFound`
   is raised only by the user lookup in module `Store`.
   */
  datatype Error = UserNotFound | DuplicateItem | ProductNotInCart | MinimumQuantityReached

  datatype Result<T> = Ok(value: T) | Err(error: Error)

  /** Some item of the cart carries `name` (the `cart.some(...)` test). */
  predicate Contains(cart: seq<CartItem>, name: string) {
    exists i | 0 <= i < |cart| :: cart[i].productName == name
  }

  /** Product names are pairwise distinct: the cart's key invariant. */
  predicate DistinctNames(cart: seq<CartItem>) {
    forall i, j | 0 <= i < j < |cart| :: cart[i].productName != cart[j].productName
  }

  /** Every quantity is at least 1. */
  predicate PositiveQuantities(cart: seq<CartItem>) {
    forall i | 0 <= i < |cart| :: cart[i].cartQuantity >= 1
  }

  predicate ValidCart(cart: seq<CartItem>) {
    DistinctNames(cart) && PositiveQuantities(cart)
  }

  /** The product names of the cart, in cart order. */
  function Names(cart: seq<CartItem>): (ns: seq<string>)
    ensures |ns| == |cart|
    ensures forall i | 0 <= i < |cart| :: ns[i] == cart[i].productName
  {
    if |cart| == 0 then [] else [cart[0].productName] + Names(cart[1..])
  }

  /** `after` is `before` with only the quantity of entry `i` moved by `delta`. */
  predicate AdjustedAt(before: seq<CartItem>, after: seq<CartItem>, i: int, delta: int) {
    && 0 <= i < |before|
    && |after| == |before|
    && after[i] == before[i].(cartQuantity := before[i].cartQuantity + delta)
    && forall j | 0 <= j < |before| && j != i :: after[j] == before[j]
  }

  /**
   `findIndex` on `productName`: the position of the first entry named
   `name`, or -1 when there is none.
   */
  function FirstIndex(cart: seq<CartItem>, name: string): (r: int)
    ensures -1 <= r < |cart|
    ensures r == -1 <==> !Contains(cart, name)
    ensures r >= 0 ==> cart[r].productName == name
    ensures r >= 0 ==> forall j | 0 <= j < r :: cart[j].productName != name
  {
    if |cart| == 0 then -1
    else if cart[0].productName == name then 0
    else
      var k := FirstIndex(cart[1..], name);
      assert forall i | 1 <= i < |cart| :: cart[i] == cart[1..][i - 1];
      if k == -1 then -1 else k + 1
  }

  // ---------------------------------------------------------------------
  // Add to cart
  // ---------------------------------------------------------------------

  /** Reject a duplicate name; otherwise append the item at the end. */
  function AddItem(cart: seq<CartItem>, item: CartItem): (r: Result<seq<CartItem>>)
    ensures r.Err? <==> Contains(cart, item.productName)
    ensures r.Err? ==> r.error == DuplicateItem
    ensures r.Ok? ==> |r.value| == |cart| + 1 && r.value[..|cart|] == cart && r.value[|cart|] == item
  {
    if Contains(cart, item.productName) then Err(DuplicateItem) else Ok(cart + [item])
  }

  /** Adding keeps a valid cart valid, provided the new item's quantity is positive. */
  lemma AddPreservesValid(cart: seq<CartItem>, item: CartItem)
    requires ValidCart(cart)
    requires item.cartQuantity >= 1
    ensures AddItem(cart, item).Ok? ==> ValidCart(AddItem(cart, item).value)
  {
  }

  /**
   Names stay distinct after an add whatever the new item holds: the
   duplicate check alone guarantees it, with no condition on quantities.
   */
  lemma AddKeepsNamesDistinct(cart: seq<CartItem>, item: CartItem)
    requires DistinctNames(cart)
    ensures AddItem(cart, item).Ok? ==> DistinctNames(AddItem(cart, item).value)
  {
  }

  /**
   After a successful add, adding the same product again is rejected as a
   duplicate, and the cart holds exactly one entry with that name.
   */
  lemma AddTwiceRejected(cart: seq<CartItem>, item: CartItem)
    requires AddItem(cart, item).Ok?
    ensures AddItem(AddItem(cart, item).value, item) == Err(DuplicateItem)
    ensures CountNamed(AddItem(cart, item).value, item.productName) == 1
  {
    var c := AddItem(cart, item).value;
    assert c[|cart|].productName == item.productName;
    CountNamedAbsent(cart, item.productName);
    CountNamedAppend(cart, [item], item.productName);
    assert c == cart + [item];
  }

  /** Number of entries carrying `name`. */
  function CountNamed(cart: seq<CartItem>, name: string): nat
  {
    if |cart| == 0 then 0
    else (if cart[0].productName == name then 1 else 0) + CountNamed(cart[1..], name)
  }

  lemma {:induction false} CountNamedAbsent(cart: seq<CartItem>, name: string)
    requires !Contains(cart, name)
    ensures CountNamed(cart, name) == 0
  {
    if |cart| > 0 {
      assert cart[0].productName != name;
      assert forall i | 0 <= i < |cart[1..]| :: cart[1..][i] == cart[i + 1];
      CountNamedAbsent(cart[1..], name);
    }
  }

  lemma {:induction false} CountNamedAppend(a: seq<CartItem>, b: seq<CartItem>, name: string)
    ensures CountNamed(a + b, name) == CountNamed(a, name) + CountNamed(b, name)
  {
    if |a| > 0 {
      assert (a + b)[1..] == a[1..] + b;
      CountNamedAppend(a[1..], b, name);
    } else {
      assert a + b == b;
    }
  }

  // ---------------------------------------------------------------------
  // Remove from cart
  // ---------------------------------------------------------------------

  /** Keep exactly the entries whose name differs from `name`; never fails. */
  function RemoveItem(cart: seq<CartItem>, name: string): (r: seq<CartItem>)
    ensures forall x :: x in r <==> x in cart && x.productName != name
    ensures !Contains(cart, name) ==> r == cart
    ensures Contains(cart, name) ==> |r| < |cart|
  {
    if |cart| == 0 then []
    else
      var rest := RemoveItem(cart[1..], name);
      assert cart == [cart[0]] + cart[1..];
      if cart[0].productName == name then rest
      else [cart[0]] + rest
  }

  /** Removing twice is the same as removing once. */
  lemma RemoveIdempotent(cart: seq<CartItem>, name: string)
    ensures RemoveItem(RemoveItem(cart, name), name) == RemoveItem(cart, name)
  {
  }

  /** Remove distributes over concatenation, so survivors keep their original order. */
  lemma RemoveAppend(a: seq<CartItem>, b: seq<CartItem>, name: string)
    ensures RemoveItem(a + b, name) == RemoveItem(a, name) + RemoveItem(b, name)
  {
    SplitSingleIsRemove(a + b, name);
    SplitSingleIsRemove(a, name);
    SplitSingleIsRemove(b, name);
    SplitAppend(a, b, {name});
  }

  /** Every element of `sub` occurs in `cart` (a consequence of a multiset bound). */
  lemma ElementsFrom(sub: seq<CartItem>, cart: seq<CartItem>)
    requires multiset(sub) <= multiset(cart)
    ensures forall x | x in sub :: x in cart
  {
    forall x | x in sub
      ensures x in cart
    {
      assert x in multiset(sub);
    }
  }

  // ---------------------------------------------------------------------
  // Increment and decrement
  // ---------------------------------------------------------------------

  /** Add 1 to the quantity of the first entry named `name`. */
  function Increment(cart: seq<CartItem>, name: string): (r: Result<seq<CartItem>>)
    ensures r.Err? <==> !Contains(cart, name)
    ensures r.Err? ==> r.error == ProductNotInCart
    ensures r.Ok? ==> AdjustedAt(cart, r.value, FirstIndex(cart, name), 1)
  {
    var i := FirstIndex(cart, name);
    if i == -1 then Err(ProductNotInCart)
    else Ok(cart[i := cart[i].(cartQuantity := cart[i].cartQuantity + 1)])
  }

  /**
   Subtract 1 from the quantity of the first entry named `name`, refusing
   when that quantity is 1 (the behaviour the "Cannot be less than 1" guard
   intends).
   */
  function Decrement(cart: seq<CartItem>, name: string): (r: Result<seq<CartItem>>)
    ensures r == Err(ProductNotInCart) <==> !Contains(cart, name)
    ensures r == Err(MinimumQuantityReached) <==>
              Contains(cart, name) && cart[FirstIndex(cart, name)].cartQuantity == 1
    ensures r.Err? ==> r.error in {ProductNotInCart, MinimumQuantityReached}
    ensures r.Ok? ==> AdjustedAt(cart, r.value, FirstIndex(cart, name), -1)
    ensures r.Ok? && PositiveQuantities(cart) ==> PositiveQuantities(r.value)
  {
    var i := FirstIndex(cart, name);
    if i == -1 then Err(ProductNotInCart)
    else if cart[i].cartQuantity == 1 then Err(MinimumQuantityReached)
    else Ok(cart[i := cart[i].(cartQuantity := cart[i].cartQuantity - 1)])
  }

  /**
   The decrement as the handler is written: the quantity-1 guard sends a
   response but does not return, so control reaches the decrement anyway.
   */
  function DecrementAsWritten(cart: seq<CartItem>, name: string): (r: Result<seq<CartItem>>)
    ensures r.Err? <==> !Contains(cart, name)
    ensures r.Ok? ==> AdjustedAt(cart, r.value, FirstIndex(cart, name), -1)
  {
    var i := FirstIndex(cart, name);
    if i == -1 then Err(ProductNotInCart)
    else Ok(cart[i := cart[i].(cartQuantity := cart[i].cartQuantity - 1)])
  }

  /** The two decrements agree everywhere except at quantity 1. */
  lemma DecrementAgreesAwayFromOne(cart: seq<CartItem>, name: string)
    requires Contains(cart, name) ==> cart[FirstIndex(cart, name)].cartQuantity != 1
    ensures DecrementAsWritten(cart, name) == Decrement(cart, name)
  {
  }

  /**
   At quantity 1 the as-written decrement stores quantity 0, breaking the
   cart invariant that the corrected `Decrement` keeps.
   */
  lemma AsWrittenDecrementReachesZero(cart: seq<CartItem>, name: string)
    requires ValidCart(cart)
    requires Contains(cart, name) && cart[FirstIndex(cart, name)].cartQuantity == 1
    ensures DecrementAsWritten(cart, name).Ok?
    ensures DecrementAsWritten(cart, name).value[FirstIndex(cart, name)].cartQuantity == 0
    ensures !PositiveQuantities(DecrementAsWritten(cart, name).value)
    ensures Decrement(cart, name) == Err(MinimumQuantityReached)
  {
  }

  /** A concrete instance: one shirt at quantity 1, decremented once. */
  lemma AsWrittenDecrementExample()
    ensures var shirt := CartItem("shirt", 10, "cotton shirt", "/uploads/shirt.png", 1);
            DecrementAsWritten([shirt], "shirt") == Ok([shirt.(cartQuantity := 0)])
            && Decrement([shirt], "shirt") == Err(MinimumQuantityReached)
  {
    var shirt := CartItem("shirt", 10, "cotton shirt", "/uploads/shirt.png", 1);
    assert [shirt][0].productName == "shirt";
    assert FirstIndex([shirt], "shirt") == 0;
    assert [shirt][0 := shirt.(cartQuantity := 0)] == [shirt.(cartQuantity := 0)];
  }

  /** Adjusting a quantity leaves every name, and so distinctness, untouched. */
  lemma AdjustKeepsNames(before: seq<CartItem>, after: seq<CartItem>, i: int, delta: int)
    requires AdjustedAt(before, after, i, delta)
    ensures Names(after) == Names(before)
    ensures DistinctNames(before) ==> DistinctNames(after)
  {
  }

  /** Increment keeps a valid cart valid. */
  lemma IncrementPreservesValid(cart: seq<CartItem>, name: string)
    requires ValidCart(cart)
    ensures Increment(cart, name).Ok? ==> ValidCart(Increment(cart, name).value)
  {
  }

  /** Decrement keeps a valid cart valid: no quantity drops below 1. */
  lemma DecrementPreservesValid(cart: seq<CartItem>, name: string)
    requires ValidCart(cart)
    ensures Decrement(cart, name).Ok? ==> ValidCart(Decrement(cart, name).value)
  {
  }

  /** Decrement undoes increment on a cart whose quantities are positive. */
  lemma DecrementUndoesIncrement(cart: seq<CartItem>, name: string)
    requires PositiveQuantities(cart)
    requires Contains(cart, name)
    ensures Increment(cart, name).Ok?
    ensures Decrement(Increment(cart, name).value, name) == Ok(cart)
  {
    var i := FirstIndex(cart, name);
    var c := Increment(cart, name).value;
    AdjustKeepsNames(cart, c, i, 1);
    FirstIndexSameNames(cart, c, name);
    assert c[i].cartQuantity >= 2;
    var r := Decrement(c, name);
    AdjustBack(cart, c, r.value, i, 1);
  }

  /** Increment undoes a successful decrement. */
  lemma IncrementUndoesDecrement(cart: seq<CartItem>, name: string)
    requires Decrement(cart, name).Ok?
    ensures Increment(Decrement(cart, name).value, name) == Ok(cart)
  {
    var i := FirstIndex(cart, name);
    var c := Decrement(cart, name).value;
    AdjustKeepsNames(cart, c, i, -1);
    FirstIndexSameNames(cart, c, name);
    var r := Increment(c, name);
    AdjustBack(cart, c, r.value, i, -1);
  }

  /** Moving a quantity by `delta` and then by `-delta` restores the cart. */
  lemma AdjustBack(a: seq<CartItem>, b: seq<CartItem>, c: seq<CartItem>, i: int, delta: int)
    requires AdjustedAt(a, b, i, delta)
    requires AdjustedAt(b, c, i, -delta)
    ensures c == a
  {
  }

  /** The first match depends on the names only. */
  lemma FirstIndexSameNames(a: seq<CartItem>, b: seq<CartItem>, name: string)
    requires Names(a) == Names(b)
    ensures FirstIndex(a, name) == FirstIndex(b, name)
  {
  }

  // ---------------------------------------------------------------------
  // Finalize: split the cart into retained and ordered entries
  // ---------------------------------------------------------------------

  datatype Partition = Partition(retained: seq<CartItem>, taken: seq<CartItem>)

  /**
   The filter of `/orderFinal`: entries whose name is selected are moved to
   `taken`, the rest stay in `retained`, both in cart order.
   */
  function Split(cart: seq<CartItem>, selected: set<string>): (p: Partition)
    ensures forall x | x in p.retained :: x.productName !in selected
    ensures forall x | x in p.taken :: x.productName in selected
    ensures |p.retained| + |p.taken| == |cart|
  {
    if |cart| == 0 then Partition([], [])
    else
      var rest := Split(cart[1..], selected);
      assert cart == [cart[0]] + cart[1..];
      if cart[0].productName in selected then Partition(rest.retained, [cart[0]] + rest.taken)
      else Partition([cart[0]] + rest.retained, rest.taken)
  }

  /** The split loses and duplicates nothing: it is a partition of the cart's multiset. */
  lemma {:induction false} SplitIsPartition(cart: seq<CartItem>, selected: set<string>)
    ensures multiset(Split(cart, selected).retained) + multiset(Split(cart, selected).taken) == multiset(cart)
  {
    if |cart| > 0 {
      SplitIsPartition(cart[1..], selected);
      assert cart == [cart[0]] + cart[1..];
    }
  }

  /** Split distributes over concatenation: both sides keep the cart's order. */
  lemma {:induction false} SplitAppend(a: seq<CartItem>, b: seq<CartItem>, selected: set<string>)
    ensures Split(a + b, selected).retained == Split(a, selected).retained + Split(b, selected).retained
    ensures Split(a + b, selected).taken == Split(a, selected).taken + Split(b, selected).taken
  {
    if |a| == 0 {
      assert a + b == b;
    } else {
      var ab := a + b;
      assert ab[0] == a[0];
      assert ab[1..] == a[1..] + b;
      SplitAppend(a[1..], b, selected);
      var pa, pb := Split(a[1..], selected), Split(b, selected);
      if a[0].productName in selected {
        assert Split(ab, selected).taken == [a[0]] + (pa.taken + pb.taken);
        assert Split(a, selected).taken == [a[0]] + pa.taken;
        assert [a[0]] + (pa.taken + pb.taken) == ([a[0]] + pa.taken) + pb.taken;
      } else {
        assert Split(ab, selected).retained == [a[0]] + (pa.retained + pb.retained);
        assert Split(a, selected).retained == [a[0]] + pa.retained;
        assert [a[0]] + (pa.retained + pb.retained) == ([a[0]] + pa.retained) + pb.retained;
      }
    }
  }

  /** Retaining the unselected entries is removing, for a single selected name. */
  lemma {:induction false} SplitSingleIsRemove(cart: seq<CartItem>, name: string)
    ensures Split(cart, {name}).retained == RemoveItem(cart, name)
  {
    if |cart| > 0 {
      SplitSingleIsRemove(cart[1..], name);
    }
  }

  /** Removing keeps a valid cart valid. */
  lemma RemovePreservesValid(cart: seq<CartItem>, name: string)
    requires ValidCart(cart)
    ensures ValidCart(RemoveItem(cart, name))
  {
    SplitSingleIsRemove(cart, name);
    SplitPreservesValid(cart, {name});
  }

  /** Both sides of a split of a valid cart are valid carts. */
  lemma SplitPreservesValid(cart: seq<CartItem>, selected: set<string>)
    requires ValidCart(cart)
    ensures ValidCart(Split(cart, selected).retained)
    ensures ValidCart(Split(cart, selected).taken)
  {
    var p := Split(cart, selected);
    SplitIsPartition(cart, selected);
    SubmultisetValid(p.retained, cart);
    SubmultisetValid(p.taken, cart);
  }

  /** Both sides of a split of a cart with distinct names have distinct names. */
  lemma SplitKeepsNamesDistinct(cart: seq<CartItem>, selected: set<string>)
    requires DistinctNames(cart)
    ensures DistinctNames(Split(cart, selected).retained)
    ensures DistinctNames(Split(cart, selected).taken)
  {
    var p := Split(cart, selected);
    SplitIsPartition(cart, selected);
    SubmultisetDistinct(p.retained, cart);
    SubmultisetDistinct(p.taken, cart);
  }

  /** Removing from a cart with distinct names keeps them distinct. */
  lemma RemoveKeepsNamesDistinct(cart: seq<CartItem>, name: string)
    requires DistinctNames(cart)
    ensures DistinctNames(RemoveItem(cart, name))
  {
    SplitSingleIsRemove(cart, name);
    SplitKeepsNamesDistinct(cart, {name});
  }

  /** A sub-multiset of a valid cart is valid, whatever its order. */
  lemma SubmultisetValid(sub: seq<CartItem>, cart: seq<CartItem>)
    requires ValidCart(cart)
    requires multiset(sub) <= multiset(cart)
    ensures ValidCart(sub)
  {
    ElementsFrom(sub, cart);
    SubmultisetDistinct(sub, cart);
    forall i | 0 <= i < |sub|
      ensures sub[i].cartQuantity >= 1
    {
      assert sub[i] in cart;
    }
  }

  /** A sub-multiset of a cart with distinct names has distinct names. */
  lemma SubmultisetDistinct(sub: seq<CartItem>, cart: seq<CartItem>)
    requires DistinctNames(cart)
    requires multiset(sub) <= multiset(cart)
    ensures DistinctNames(sub)
  {
    ElementsFrom(sub, cart);
    forall x ensures multiset(cart)[x] <= 1 {
      CountAtMostOne(cart, x);
    }
    forall i, j | 0 <= i < j < |sub|
      ensures sub[i].productName != sub[j].productName
    {
      OccursTwice(sub, i, j);
      assert sub[i] in cart && sub[j] in cart;
      var ki :| 0 <= ki < |cart| && cart[ki] == sub[i];
      var kj :| 0 <= kj < |cart| && cart[kj] == sub[j];
      assert ki != kj;
    }
  }

  /** Two positions holding equal items give that item multiplicity at least 2. */
  lemma OccursTwice(s: seq<CartItem>, i: int, j: int)
    requires 0 <= i < j < |s|
    ensures s[i] == s[j] ==> multiset(s)[s[i]] >= 2
  {
    var x := s[i];
    var s1 := s[..j];
    assert s == s1 + s[j..];
    assert x in s1 by { assert s1[i] == x; }
    assert s[j..][0] == s[j];
    assert multiset(s) == multiset(s1) + multiset(s[j..]);
  }

  /** In a cart with distinct names every item occurs at most once. */
  lemma {:induction false} CountAtMostOne(cart: seq<CartItem>, x: CartItem)
    requires DistinctNames(cart)
    ensures multiset(cart)[x] <= 1
  {
    if |cart| > 0 {
      var tail := cart[1..];
      assert cart == [cart[0]] + tail;
      assert DistinctNames(tail) by {
        assert forall i | 0 <= i < |tail| :: tail[i] == cart[i + 1];
      }
      CountAtMostOne(tail, x);
      if cart[0] == x {
        assert x !in tail by {
          assert forall k | 0 <= k < |tail| :: tail[k].productName == cart[k + 1].productName != x.productName;
        }
      }
    }
  }
}
