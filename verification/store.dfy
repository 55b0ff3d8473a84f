/**
 The per-user cart and order handlers of the storefront, over a store of
 user records keyed by email. Each handler looks the user up, fails with
 `UserNotFound` when the email is unknown, applies one of the pure cart
 transformations of module `Cart`, and saves the result: `/cartplus` and
 `/cartminus` write back only the cart, the other mutating routes the whole
 user record.
 */
module Store {
  import opened Cart

  /** A placed order: a snapshot of the moved cart entries and its time stamp. */
  datatype Order = Order(products: seq<CartItem>, placedAt: string)

  datatype User = User(cart: seq<CartItem>, orders: seq<Order>)

  type Email = string

  /** The user collection, keyed by email (emails are unique). */
  type Db = map<Email, User>

  datatype Outcome = Success | Failure(error: Error)

  /** What a handler answers, together with the store after the call. */
  datatype Reply = Reply(outcome: Outcome, db: Db)

  /** Only the cart of `email` may differ between `db` and `db'`. */
  predicate OnlyCartChanged(db: Db, db': Db, email: Email) {
    && email in db
    && db'.Keys == db.Keys
    && db'[email].orders == db[email].orders
    && forall e | e in db && e != email :: db'[e] == db[e]
  }

  /** Save a cart-level result for the user; a failed step changes nothing. */
  function Commit(db: Db, email: Email, r: Result<seq<CartItem>>): (rep: Reply)
    requires email in db
    ensures r.Err? ==> rep == Reply(Failure(r.error), db)
    ensures r.Ok? ==> rep.outcome == Success && OnlyCartChanged(db, rep.db, email)
    ensures r.Ok? ==> rep.db[email].cart == r.value
  {
    match r
    case Err(e) => Reply(Failure(e), db)
    case Ok(cart) => Reply(Success, db[email := db[email].(cart := cart)])
  }

  /** `/addtocart/:useremail`. */
  function AddToCart(db: Db, email: Email, item: CartItem): (rep: Reply)
    ensures email !in db ==> rep == Reply(Failure(UserNotFound), db)
    ensures rep.outcome == Failure(UserNotFound) <==> email !in db
    ensures email in db ==>
              (rep.outcome == Success <==> !Contains(db[email].cart, item.productName))
    ensures rep.outcome.Failure? ==> rep.db == db
    ensures email in db ==>
              (rep.outcome == Failure(DuplicateItem) <==> Contains(db[email].cart, item.productName))
    ensures rep.outcome == Success ==>
              && OnlyCartChanged(db, rep.db, email)
              && |rep.db[email].cart| == |db[email].cart| + 1
              && rep.db[email].cart[..|db[email].cart|] == db[email].cart
              && rep.db[email].cart[|db[email].cart|] == item
  {
    if email !in db then Reply(Failure(UserNotFound), db)
    else Commit(db, email, AddItem(db[email].cart, item))
  }

  /** `/removepcart/:productName/:useremail`: succeeds for every known user. */
  function RemoveFromCart(db: Db, email: Email, name: string): (rep: Reply)
    ensures email !in db ==> rep == Reply(Failure(UserNotFound), db)
    ensures email in db ==> rep.outcome == Success && OnlyCartChanged(db, rep.db, email)
    ensures email in db ==> rep.db[email].cart == RemoveItem(db[email].cart, name)
  {
    if email !in db then Reply(Failure(UserNotFound), db)
    else Commit(db, email, Ok(RemoveItem(db[email].cart, name)))
  }

  /** `/cartplus/:productName/:useremail`. */
  function CartPlus(db: Db, email: Email, name: string): (rep: Reply)
    ensures email !in db ==> rep == Reply(Failure(UserNotFound), db)
    ensures rep.outcome == Failure(UserNotFound) <==> email !in db
    ensures email in db ==> (rep.outcome == Success <==> Contains(db[email].cart, name))
    ensures rep.outcome.Failure? ==> rep.db == db
    ensures email in db ==>
              (rep.outcome == Failure(ProductNotInCart) <==> !Contains(db[email].cart, name))
    ensures rep.outcome == Success ==>
              && OnlyCartChanged(db, rep.db, email)
              && AdjustedAt(db[email].cart, rep.db[email].cart, FirstIndex(db[email].cart, name), 1)
  {
    if email !in db then Reply(Failure(UserNotFound), db)
    else Commit(db, email, Increment(db[email].cart, name))
  }

  /**
   `/cartminus/:productName/:useremail`, with the quantity-1 guard honoured
   as its message "Cannot be less than 1" intends; `CartMinusAsWritten` is
   the route as the code runs it.
   */
  function CartMinus(db: Db, email: Email, name: string): (rep: Reply)
    ensures email !in db ==> rep == Reply(Failure(UserNotFound), db)
    ensures rep.outcome == Failure(UserNotFound) <==> email !in db
    ensures email in db ==>
              (rep.outcome == Success <==>
                 Contains(db[email].cart, name)
                 && db[email].cart[FirstIndex(db[email].cart, name)].cartQuantity != 1)
    ensures rep.outcome.Failure? ==> rep.db == db
    ensures email in db ==>
              (rep.outcome == Failure(ProductNotInCart) <==> !Contains(db[email].cart, name))
    ensures email in db ==>
              (rep.outcome == Failure(MinimumQuantityReached) <==>
                 Contains(db[email].cart, name)
                 && db[email].cart[FirstIndex(db[email].cart, name)].cartQuantity == 1)
    ensures rep.outcome == Success ==>
              && OnlyCartChanged(db, rep.db, email)
              && AdjustedAt(db[email].cart, rep.db[email].cart, FirstIndex(db[email].cart, name), -1)
  {
    if email !in db then Reply(Failure(UserNotFound), db)
    else Commit(db, email, Decrement(db[email].cart, name))
  }

  /**
   `/cartminus/:productName/:useremail` as written: the quantity-1 guard
   replies but does not return, so the decrement is saved anyway.
   */
  function CartMinusAsWritten(db: Db, email: Email, name: string): (rep: Reply)
    ensures email !in db ==> rep == Reply(Failure(UserNotFound), db)
    ensures rep.outcome == Failure(UserNotFound) <==> email !in db
    ensures email in db ==>
              (rep.outcome == Failure(ProductNotInCart) <==> !Contains(db[email].cart, name))
    ensures rep.outcome.Failure? ==> rep.db == db
    ensures email in db ==> (rep.outcome == Success <==> Contains(db[email].cart, name))
    ensures rep.outcome == Success ==>
              && OnlyCartChanged(db, rep.db, email)
              && AdjustedAt(db[email].cart, rep.db[email].cart, FirstIndex(db[email].cart, name), -1)
  {
    if email !in db then Reply(Failure(UserNotFound), db)
    else Commit(db, email, DecrementAsWritten(db[email].cart, name))
  }

  /**
   `/orderFinal/:userCart/:useremail`: move the selected entries into one new
   order stamped `placedAt`, keep the rest in the cart, and save both changes
   together.
   */
  function FinalizeOrder(db: Db, email: Email, selected: set<string>, placedAt: string): (rep: Reply)
    ensures email !in db ==> rep == Reply(Failure(UserNotFound), db)
    ensures email in db ==>
              && rep.outcome == Success
              && rep.db.Keys == db.Keys
              && (forall e | e in db && e != email :: rep.db[e] == db[e])
              && |rep.db[email].orders| == |db[email].orders| + 1
              && rep.db[email].orders[..|db[email].orders|] == db[email].orders
              && rep.db[email].orders[|db[email].orders|].placedAt == placedAt
              && (forall x | x in rep.db[email].cart :: x.productName !in selected)
              && (forall x | x in rep.db[email].orders[|db[email].orders|].products :: x.productName in selected)
    ensures email in db ==>
              && rep.db[email].cart == Split(db[email].cart, selected).retained
              && rep.db[email].orders[|db[email].orders|].products == Split(db[email].cart, selected).taken
  {
    if email !in db then Reply(Failure(UserNotFound), db)
    else
      var user := db[email];
      var p := Split(user.cart, selected);
      Reply(Success, db[email := User(p.retained, user.orders + [Order(p.taken, placedAt)])])
  }

  /** `/getcart/:useremail`: read-only. */
  function GetCart(db: Db, email: Email): (r: Result<seq<CartItem>>)
    ensures r.Err? <==> email !in db
    ensures r.Err? ==> r.error == UserNotFound
    ensures r.Ok? ==> r.value == db[email].cart
  {
    if email !in db then Err(UserNotFound) else Ok(db[email].cart)
  }

  /** `/getorders/:useremail`: read-only. */
  function GetOrders(db: Db, email: Email): (r: Result<seq<Order>>)
    ensures r.Err? <==> email !in db
    ensures r.Err? ==> r.error == UserNotFound
    ensures r.Ok? ==> r.value == db[email].orders
  {
    if email !in db then Err(UserNotFound) else Ok(db[email].orders)
  }

  // ---------------------------------------------------------------------
  // Properties of single handlers
  // ---------------------------------------------------------------------

  /**
   Finalize partitions the pre-call cart exactly: every entry lands either in
   the new cart or in the new order, never in both and never twice.
   */
  lemma FinalizePartitionsCart(db: Db, email: Email, selected: set<string>, placedAt: string)
    requires email in db
    ensures var after := FinalizeOrder(db, email, selected, placedAt).db[email];
            multiset(after.cart) + multiset(after.orders[|db[email].orders|].products)
              == multiset(db[email].cart)
  {
    SplitIsPartition(db[email].cart, selected);
  }

  /** Finalize on a single name keeps in the cart exactly what remove would keep. */
  lemma FinalizeSingleMatchesRemove(db: Db, email: Email, name: string, placedAt: string)
    requires email in db
    ensures FinalizeOrder(db, email, {name}, placedAt).db[email].cart
              == RemoveFromCart(db, email, name).db[email].cart
  {
    SplitSingleIsRemove(db[email].cart, name);
  }

  /** Removing the same product twice equals removing it once, and never fails. */
  lemma RemoveTwiceSameAsOnce(db: Db, email: Email, name: string)
    ensures RemoveFromCart(RemoveFromCart(db, email, name).db, email, name)
              == RemoveFromCart(db, email, name)
  {
  }

  /** A successful add is visible to a following get-cart as an append. */
  lemma AddThenGetCart(db: Db, email: Email, item: CartItem)
    requires AddToCart(db, email, item).outcome == Success
    ensures GetCart(AddToCart(db, email, item).db, email) == Ok(db[email].cart + [item])
  {
  }

  /** A finalize is visible to a following get-orders as exactly one appended order. */
  lemma FinalizeThenGetOrders(db: Db, email: Email, selected: set<string>, placedAt: string)
    requires email in db
    ensures GetOrders(FinalizeOrder(db, email, selected, placedAt).db, email)
              == Ok(db[email].orders + [Order(Split(db[email].cart, selected).taken, placedAt)])
  {
  }

  /**
   On a valid store, decrementing an entry at quantity 1 as written stores
   quantity 0 and breaks validity, while the intended route refuses and
   changes nothing.
   */
  lemma AsWrittenMinusBreaksValidity(db: Db, email: Email, name: string)
    requires ValidDb(db)
    requires email in db && Contains(db[email].cart, name)
    requires db[email].cart[FirstIndex(db[email].cart, name)].cartQuantity == 1
    ensures CartMinusAsWritten(db, email, name).outcome == Success
    ensures !ValidDb(CartMinusAsWritten(db, email, name).db)
    ensures CartMinus(db, email, name) == Reply(Failure(MinimumQuantityReached), db)
  {
  }

  /** A second add of the same product is rejected and leaves the store alone. */
  lemma AddTwiceRejectedInStore(db: Db, email: Email, item: CartItem)
    requires AddToCart(db, email, item).outcome == Success
    ensures var db1 := AddToCart(db, email, item).db;
            AddToCart(db1, email, item) == Reply(Failure(DuplicateItem), db1)
            && CountNamed(db1[email].cart, item.productName) == 1
  {
    AddTwiceRejected(db[email].cart, item);
  }

  // ---------------------------------------------------------------------
  // Sequences of requests
  // ---------------------------------------------------------------------

  /**
   One call to a mutating cart or order route. `/cartminus` appears twice:
   `MinusRequest` as intended, `MinusAsWrittenRequest` as the code runs it.
   */
  datatype Request =
    | AddToCartRequest(email: Email, item: CartItem)
    | RemoveRequest(email: Email, name: string)
    | PlusRequest(email: Email, name: string)
    | MinusRequest(email: Email, name: string)
    | MinusAsWrittenRequest(email: Email, name: string)
    | FinalizeRequest(email: Email, selected: set<string>, placedAt: string)

  function Apply(db: Db, req: Request): Reply
  {
    match req
    case AddToCartRequest(e, item) => AddToCart(db, e, item)
    case RemoveRequest(e, name) => RemoveFromCart(db, e, name)
    case PlusRequest(e, name) => CartPlus(db, e, name)
    case MinusRequest(e, name) => CartMinus(db, e, name)
    case MinusAsWrittenRequest(e, name) => CartMinusAsWritten(db, e, name)
    case FinalizeRequest(e, sel, at) => FinalizeOrder(db, e, sel, at)
  }

  /** The store after serving the requests one after another. */
  function Run(db: Db, reqs: seq<Request>): Db
    decreases |reqs|
  {
    if |reqs| == 0 then db else Run(Apply(db, reqs[0]).db, reqs[1..])
  }

  /** Every user's cart has distinct names and positive quantities, and so does every order. */
  predicate ValidUser(u: User) {
    && ValidCart(u.cart)
    && forall k | 0 <= k < |u.orders| :: ValidCart(u.orders[k].products)
  }

  predicate ValidDb(db: Db) {
    forall e | e in db :: ValidUser(db[e])
  }

  /** Every cart and every stored order has pairwise-distinct product names. */
  predicate DistinctDb(db: Db) {
    forall e | e in db ::
      && DistinctNames(db[e].cart)
      && forall k | 0 <= k < |db[e].orders| :: DistinctNames(db[e].orders[k].products)
  }

  /**
   A request the invariant can survive: an added item carries a positive
   quantity, and a decrement is the corrected one.
   */
  predicate Admissible(req: Request) {
    && (req.AddToCartRequest? ==> req.item.cartQuantity >= 1)
    && !req.MinusAsWrittenRequest?
  }

  /** No user disappears and every user's order history is a prefix of the later one. */
  predicate HistoryExtends(db: Db, db': Db) {
    && db.Keys <= db'.Keys
    && forall e | e in db :: db[e].orders <= db'[e].orders
  }

  /** Every request on an unknown email fails with `UserNotFound` and changes nothing. */
  lemma UnknownUserRejected(db: Db, req: Request)
    requires req.email !in db
    ensures Apply(db, req) == Reply(Failure(UserNotFound), db)
  {
  }

  /** Every request keeps order histories append-only. */
  lemma ApplyExtendsHistory(db: Db, req: Request)
    ensures HistoryExtends(db, Apply(db, req).db)
  {
  }

  /** Every admissible request keeps the store valid. */
  lemma ApplyPreservesValid(db: Db, req: Request)
    requires ValidDb(db)
    requires Admissible(req)
    ensures ValidDb(Apply(db, req).db)
  {
    var e := req.email;
    if e in db {
      var u := db[e];
      var db' := Apply(db, req).db;
      match req
      case AddToCartRequest(_, item) =>
        AddPreservesValid(u.cart, item);
        assert ValidUser(db'[e]);
      case RemoveRequest(_, name) =>
        RemovePreservesValid(u.cart, name);
        assert ValidUser(db'[e]);
      case PlusRequest(_, name) =>
        IncrementPreservesValid(u.cart, name);
        assert ValidUser(db'[e]);
      case MinusRequest(_, name) =>
        DecrementPreservesValid(u.cart, name);
        assert ValidUser(db'[e]);
      case MinusAsWrittenRequest(_, _) =>
        assert false;
      case FinalizeRequest(_, sel, at) =>
        SplitPreservesValid(u.cart, sel);
        var os := db'[e].orders;
        assert forall k | 0 <= k < |u.orders| :: os[k] == u.orders[k];
        assert ValidUser(db'[e]);
    }
  }

  /** Every request, whatever item it adds, keeps all product names distinct. */
  lemma ApplyKeepsNamesDistinct(db: Db, req: Request)
    requires DistinctDb(db)
    ensures DistinctDb(Apply(db, req).db)
  {
    var e := req.email;
    if e in db {
      var u := db[e];
      var db' := Apply(db, req).db;
      match req
      case AddToCartRequest(_, item) =>
        AddKeepsNamesDistinct(u.cart, item);
      case RemoveRequest(_, name) =>
        RemoveKeepsNamesDistinct(u.cart, name);
      case PlusRequest(_, name) =>
        if Increment(u.cart, name).Ok? {
          AdjustKeepsNames(u.cart, db'[e].cart, FirstIndex(u.cart, name), 1);
        }
      case MinusRequest(_, name) =>
        if Decrement(u.cart, name).Ok? {
          AdjustKeepsNames(u.cart, db'[e].cart, FirstIndex(u.cart, name), -1);
        }
      case MinusAsWrittenRequest(_, name) =>
        if DecrementAsWritten(u.cart, name).Ok? {
          AdjustKeepsNames(u.cart, db'[e].cart, FirstIndex(u.cart, name), -1);
        }
      case FinalizeRequest(_, sel, at) =>
        SplitKeepsNamesDistinct(u.cart, sel);
        var os := db'[e].orders;
        assert forall k | 0 <= k < |u.orders| :: os[k] == u.orders[k];
    }
  }

  /** Serving any sequence of requests keeps all product names distinct. */
  lemma {:induction false} RunKeepsNamesDistinct(db: Db, reqs: seq<Request>)
    requires DistinctDb(db)
    ensures DistinctDb(Run(db, reqs))
    decreases |reqs|
  {
    if |reqs| > 0 {
      ApplyKeepsNamesDistinct(db, reqs[0]);
      RunKeepsNamesDistinct(Apply(db, reqs[0]).db, reqs[1..]);
    }
  }

  /** Serving any sequence of admissible requests keeps the store valid. */
  lemma {:induction false} RunPreservesValid(db: Db, reqs: seq<Request>)
    requires ValidDb(db)
    requires forall i | 0 <= i < |reqs| :: Admissible(reqs[i])
    ensures ValidDb(Run(db, reqs))
    decreases |reqs|
  {
    if |reqs| > 0 {
      ApplyPreservesValid(db, reqs[0]);
      RunPreservesValid(Apply(db, reqs[0]).db, reqs[1..]);
    }
  }

  /** Over any sequence of requests, orders are only ever appended. */
  lemma {:induction false} RunExtendsHistory(db: Db, reqs: seq<Request>)
    ensures HistoryExtends(db, Run(db, reqs))
    decreases |reqs|
  {
    if |reqs| > 0 {
      var db1 := Apply(db, reqs[0]).db;
      ApplyExtendsHistory(db, reqs[0]);
      RunExtendsHistory(db1, reqs[1..]);
      var db2 := Run(db1, reqs[1..]);
      forall e | e in db
        ensures db[e].orders <= db2[e].orders
      {
        assert forall k | 0 <= k < |db[e].orders| :: db[e].orders[k] == db1[e].orders[k] == db2[e].orders[k];
      }
    }
  }
}
