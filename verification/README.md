# Storefront cart and order lifecycle, modelled in Dafny

This project models the per-user cart and order handlers of the storefront
backend (`routes/product_route.js`, the routes `/addtocart`, `/removepcart`,
`/cartplus`, `/cartminus`, `/orderFinal`, `/getcart` and `/getorders`).

Every handler has the same shape: look the user up by email, answer
"User not found" when there is none, transform the user's `cart` and
`orders` sequences in memory, and save the user back. The model keeps the
transformation and the lookup and drops the database:

- `cart.dfy`, module `Cart`: the `CartItem` record, the error outcomes, and
  the pure cart transformations (`AddItem`, `RemoveItem`, `Increment`,
  `Decrement`, the finalize filter `Split`, and `FirstIndex`, the model of
  `findIndex`), with lemmas about each.
- `store.dfy`, module `Store`: `User(cart, orders)`, `Order(products, placedAt)`,
  the store as a `map` from email to `User`, one function per route
  returning the outcome together with the store after the call, and the
  request-sequence lemmas (validity is preserved, order histories only grow).

A cart is valid when its product names are pairwise distinct and every
`cartQuantity` is at least 1 (`Cart.ValidCart`); a store is valid when every
user's cart and every stored order is valid (`Store.ValidDb`).

Points where a route model does not follow the code line for line:

- Adding to the cart pushes the request's product as given. The code neither
  defaults nor checks `cartQuantity`. Distinct names are proved for every
  request (`Store.RunKeepsNamesDistinct`). Positive quantities are proved
  only for adds whose item has quantity at least 1 and for the intended
  decrement (`Store.Admissible`). Quantities are integers in the model; see
  the `Cart.CartItem` line under "Left out".
- `Store.CartMinus` follows the intended behaviour, not the code. The guard
  at lines 344-346 replies "Cannot be less than 1", which states the intent.
  But it has no `return`, so the code still takes the quantity to 0 and
  saves it. `Store.CartMinusAsWritten` models the route as the code runs
  it; see "Findings".
- `Store.FinalizeOrder` selects an entry when its `productName` is a member
  of a set of selected names. The code uses
  `userCart.includes(product)` at line 156: a substring test of the route
  parameter against the cart sub-document coerced to a string. That test
  can give false positives and false negatives.
- `middleware/protectedRoute.js` is imported at line 7 of the routes file,
  but no route uses it, so no authentication step appears in the model.

## Model

| member | source | states |
|---|---|---|
| Cart.FirstIndex | routes/product_route.js:295 | -1 exactly when no entry has the name; otherwise the index of an entry with that name and no earlier entry has it |
| Cart.AddItem | routes/product_route.js:113-122 | fails with DuplicateItem exactly when some entry already has the product's name; otherwise the old cart is kept as a prefix and the product is the one new entry at the end |
| Cart.AddPreservesValid | routes/product_route.js:113-122 | adding an item with quantity at least 1 to a valid cart gives a valid cart (names stay distinct) |
| Cart.AddKeepsNamesDistinct | routes/product_route.js:114-122 | adding any item, whatever its quantity, to a cart with distinct names keeps the names distinct |
| Cart.AddTwiceRejected | routes/product_route.js:114-119 | after a successful add, adding the same product again fails with DuplicateItem, and the cart holds exactly one entry with that name |
| Cart.RemoveItem | routes/product_route.js:264 | an item survives exactly when it was in the cart and its name differs; when nothing matches, the cart comes back unchanged; when something matches, the cart gets shorter |
| Cart.RemoveIdempotent | routes/product_route.js:264-267 | removing the same name twice equals removing it once |
| Cart.RemoveAppend | routes/product_route.js:264 | remove distributes over concatenation, so the survivors keep their original order |
| Cart.RemoveKeepsNamesDistinct | routes/product_route.js:264-267 | removing from a cart with distinct names keeps them distinct |
| Cart.RemovePreservesValid | routes/product_route.js:264-267 | removing from a valid cart gives a valid cart |
| Cart.Increment | routes/product_route.js:295-303 | fails with ProductNotInCart exactly when no entry has the name; otherwise only the first match's quantity changes, by +1, and length, order and every other field are unchanged |
| Cart.IncrementPreservesValid | routes/product_route.js:295-303 | incrementing in a valid cart gives a valid cart |
| Cart.Decrement | routes/product_route.js:335-348 | intended: fails with ProductNotInCart exactly when nothing matches; fails with MinimumQuantityReached exactly when the first match has quantity exactly 1, the value the code's guard tests (a quantity of 0 or less, which only an add with such a quantity can create, is still decremented); otherwise only that quantity changes, by -1, and positive quantities stay positive |
| Cart.DecrementPreservesValid | routes/product_route.js:344-348 | intended: decrementing in a valid cart gives a valid cart, so no quantity drops below 1 |
| Cart.DecrementUndoesIncrement | routes/product_route.js:303 | on a cart with positive quantities that holds the name, decrementing after incrementing gives back the original cart |
| Cart.IncrementUndoesDecrement | routes/product_route.js:348 | incrementing after a successful decrement gives back the original cart |
| Cart.DecrementAsWritten | routes/product_route.js:335-348 | the code as written: only a missing name fails; otherwise the first match's quantity always goes down by 1 |
| Cart.DecrementAgreesAwayFromOne | routes/product_route.js:344-348 | the as-written and the corrected decrement agree whenever the first match's quantity is not 1 |
| Cart.AsWrittenDecrementReachesZero | routes/product_route.js:344-348 | on a valid cart whose first match has quantity 1, the as-written decrement stores quantity 0 and breaks validity, while the corrected one refuses |
| Cart.AsWrittenDecrementExample | routes/product_route.js:344-348 | the cart with one shirt at quantity 1: as written it becomes quantity 0; corrected it fails with MinimumQuantityReached |
| Cart.Split | routes/product_route.js:154-161 | every retained item is unselected, every taken item is selected, and the two lengths add up to the cart's length |
| Cart.SplitIsPartition | routes/product_route.js:154-161 | the multisets of retained and taken items add up to the multiset of the cart: nothing lost, nothing duplicated |
| Cart.SplitAppend | routes/product_route.js:155-161 | split distributes over concatenation on both sides, so both keep the cart's order |
| Cart.SplitSingleIsRemove | routes/product_route.js:155-161 | selecting a single name retains exactly what removing that name keeps |
| Cart.SplitKeepsNamesDistinct | routes/product_route.js:154-161 | both sides of a split of a cart with distinct names have distinct names |
| Cart.SplitPreservesValid | routes/product_route.js:154-161 | both sides of a split of a valid cart are valid carts |
| Store.AddToCart | routes/product_route.js:100-134 | UserNotFound exactly when the email is unknown, with no change; for a known user it succeeds exactly when the name is not yet in the cart and otherwise fails with DuplicateItem, with no change; on success only this user's cart changes, by appending the product |
| Store.RemoveFromCart | routes/product_route.js:247-278 | unknown email fails with UserNotFound and changes nothing; for a known user it always succeeds, only the cart changes, and the new cart is `Cart.RemoveItem` of the old one (exactly the items with a different name), so `Cart.RemoveAppend` and `Cart.RemoveIdempotent` apply to the route |
| Store.CartPlus | routes/product_route.js:282-318 | UserNotFound exactly when the email is unknown; for a known user it succeeds exactly when some entry has the name and otherwise fails with ProductNotInCart; failures change nothing; on success only the first match's quantity changes, by +1 |
| Store.CartMinus | routes/product_route.js:322-363 | the intended route: UserNotFound exactly when the email is unknown; ProductNotInCart exactly when nothing matches; MinimumQuantityReached exactly when the first match has quantity 1; success exactly otherwise; failures change nothing; on success only the first match's quantity changes, by -1 |
| Store.CartMinusAsWritten | routes/product_route.js:322-363 | the route as written: UserNotFound exactly when the email is unknown; for a known user it fails with ProductNotInCart exactly when no entry has the name and otherwise succeeds; failures change nothing; on success only the first match's quantity changes, by -1, even from 1 |
| Store.FinalizeOrder | routes/product_route.js:141-192 | unknown email fails with UserNotFound; otherwise it succeeds even when nothing is selected, appends exactly one order stamped with the given time, keeps every earlier order, keeps only unselected items in the cart, puts only selected items in the order, and leaves other users alone; the new cart is the retained side and the new order's products are the taken side of `Cart.Split`, so both keep cart order |
| Store.GetCart | routes/product_route.js:199-221 | fails with UserNotFound exactly when the email is unknown; otherwise returns the stored cart |
| Store.GetOrders | routes/product_route.js:223-245 | fails with UserNotFound exactly when the email is unknown; otherwise returns the stored orders |
| Store.FinalizePartitionsCart | routes/product_route.js:154-182 | the new cart and the new order's products together are the old cart as a multiset |
| Store.FinalizeSingleMatchesRemove | routes/product_route.js:155-161 | finalizing a single name leaves the same cart as removing that name |
| Store.RemoveTwiceSameAsOnce | routes/product_route.js:247-278 | on the store, removing twice gives the same reply and store as removing once |
| Store.AddThenGetCart | routes/product_route.js:122 | after a successful add, get-cart returns the old cart with the product appended |
| Store.FinalizeThenGetOrders | routes/product_route.js:179-185 | after a finalize, get-orders returns the old orders with exactly one new order appended, holding the selected items in cart order |
| Store.AsWrittenMinusBreaksValidity | routes/product_route.js:344-351 | on a valid store, the as-written route at quantity 1 succeeds and leaves an invalid store, while the intended route refuses with MinimumQuantityReached and changes nothing |
| Store.AddTwiceRejectedInStore | routes/product_route.js:114-119 | after a successful add, the same add fails with DuplicateItem, changes nothing, and the cart holds exactly one entry with that name |
| Store.UnknownUserRejected | routes/product_route.js:106-111 | every mutating request on an unknown email, the as-written `/cartminus` included, fails with UserNotFound and leaves the store unchanged (the same guard is at lines 146-151, 254-259, 288-293 and 328-333) |
| Store.ApplyExtendsHistory | routes/product_route.js:179-185 | every request, the as-written `/cartminus` included, keeps every user, and each user's old order list is a prefix of the new one |
| Store.ApplyPreservesValid | routes/product_route.js:100-363 | intended: with `/cartminus` refusing at quantity 1, every admissible request (an add with quantity at least 1, never the as-written decrement) maps a valid store to a valid store |
| Store.ApplyKeepsNamesDistinct | routes/product_route.js:114-122 | every request, whatever item it adds and with `/cartminus` as written or as intended, keeps every cart and every stored order free of repeated names |
| Store.RunKeepsNamesDistinct | routes/product_route.js:114-122 | any sequence of requests, as-written decrements included, keeps every cart and every stored order free of repeated names |
| Store.RunPreservesValid | routes/product_route.js:100-363 | intended: with `/cartminus` refusing at quantity 1, any sequence of admissible requests (adds with quantity at least 1, no as-written decrement) keeps the store valid |
| Store.RunExtendsHistory | routes/product_route.js:179-185 | over any sequence of requests, as-written decrements included, orders are only ever appended |

## Left out

- Mongoose persistence (`findOne`, `save`, `findByIdAndUpdate`): the store is a value, and each handler returns the whole store after the call. Saving the cart and the new order in finalize is one value update.
- Concurrency: concurrent requests to the same user load, modify and overwrite the whole record, so updates can be lost. The model is sequential, so this lost-update race is not modelled.
- The `catch` branches that answer status 500: they only fire on database or runtime failures, which the model does not have.
- HTTP status codes and response bodies: the model returns typed outcomes instead. In the code, the quantity-1 guard replies with a JSON string and status 200. It then decrements and saves anyway, and replies a second time on a response already sent.
- The implicit global `usercart` (lines 308 and 353): it only feeds the response payload, not the stored cart.
- The IST time stamp of an order (lines 164-176): it comes from the clock and `Intl.DateTimeFormat`, so it is passed in as an opaque `placedAt` string.
- Cart.CartItem: `cartQuantity` and `productPrice` are JavaScript numbers taken unchecked from the request body (lines 103 and 122). The model uses unbounded integers, so a fractional quantity (1.5 passes the `== 1` guard and drops to 0.5), a missing one (`+= 1` gives NaN at line 303) and precision loss above 2^53 are not modelled; every validity result holds for integer quantities only.
- Cart.Decrement: refuses only at quantity exactly 1, the value the guard at line 344 tests. An entry of quantity 0 or less, which only an add of such an item creates, is decremented further; validity is proved for stores built from admissible requests (`Store.Admissible`).
- Store.CartMinus: follows the intended refusal at quantity 1, not the code, which stores quantity 0. `Store.CartMinusAsWritten` models the code; see "Findings".
- Store.FinalizeOrder: selection is exact membership of `productName` in a set, not the code's `String.includes` test on the coerced sub-document (line 156). JavaScript string coercion is not modelled.
- Product catalog routes (`/addproduct`, `/addfeatured`, `/getfeatured`, `/getproducts*`, the category regex searches, `/removeproduct`, `/removefproduct`): direct database queries and file uploads with no logic of their own.
- `middleware/protectedRoute.js`: a wrapper over a token check and a database lookup, and the cart routes do not use it.
- `routes/file_route.js` and `server.js`: file upload and serving, and server wiring.

## Findings

| source | as written | input that shows it | evidently intended | confidence | as-written member | corrected member |
|---|---|---|---|---|---|---|
| routes/product_route.js:344-348 | the quantity-1 guard sends "Cannot be less than 1" but has no `return`, so execution goes on to decrement the quantity and save it | a cart `[shirt, quantity 1]` and `/cartminus/shirt/<email>`: the stored quantity becomes 0 | refuse with no change when the quantity is exactly 1, the value the guard tests, so a cart whose integer quantities are all at least 1 keeps them so | high (not executed) | Store.AsWrittenMinusBreaksValidity | Store.CartMinus |
