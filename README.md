# Inventory management service — a Dafny model

This project models `BackendService`, the in-memory back end of a small inventory
management application. The service keeps three lists:
- accounts, with one optional signed-in account;
- a product catalog;
- customer orders whose line items refer to products by identifier.

Products and orders take their identifiers from two counters that start at 1.

Where the Java updates state, the model does too. `Service.InventoryService` is a class
whose fields are those lists, the signed-in account and the two counters, and its
methods reassign them. Each record type is a datatype (`Records`):
- `User`
- `Product`
- `Order`
- `OrderItem`
- `OrderStatus`

Each rule behind an operation is a function on values, with its properties proved as
lemmas:
- `Accounts` covers registration, login lookup, the reset check and the profile update.
- `Catalog` covers the catalog invariant, add, update and delete.
- `Stock` covers the stock check, the decrement and give-back passes, and the stock total.
- `Orders` covers the order invariant, referential integrity, search and the newest-first
  sort.

Every method states its whole new state in terms of those functions and keeps the class
invariant `Valid()`. The invariant says:
- every account is well-formed;
- usernames are distinct ignoring case, and so are emails;
- the signed-in position is in range;
- product and order identifiers are distinct and below their counters;
- product names are distinct ignoring case, not blank, and prices are not negative;
- every order has a customer name and at least one item;
- every item refers to a product in the catalog.

`StockSound()` is the second invariant: no quantity on hand is negative and every stored
item is positive. Every operation keeps it, except that `CreateOrder` keeps it only for
orders whose items are all positive.

Text rules:
- Case-insensitive comparison folds ASCII letters.
- "Blank" is Java's `trim().isEmpty()`: every character is at most U+0020.
- The email check is the pattern `^[A-Za-z0-9+_.-]+@(.+)$` written out exactly. The
  local part uses its character class. The domain is any non-empty run of characters
  that are not regular-expression line terminators.

Arguments that Java allows to be null and treats as "leave unchanged" are `Option`
values. Where Java returns null, the model returns `None`.

### Behaviour worth knowing

Some outcomes of the code differ from what an order or a profile form would suggest. A
lemma exhibits each one:
- **Partial profile update.** updateUserProfile (`BackendService.java:86-120`) runs the
  password checks first. It then writes the username and the phone, and only then checks
  the email for a collision. A refusal at that check leaves the new username and phone in
  place (`Accounts.ProfileUpdateRefusals`, with a concrete case in
  `Accounts.ProfileUpdatePartlyApplied`). A refusal at the password stage or at the
  username check changes nothing.
- **Empty phone.** A phone that is given is written even when it is empty. Only a missing
  phone leaves the old one.
- **Negative stock.** Quantities on hand stay non-negative only while every stored line
  item is positive. createOrder accepts items with a zero or negative quantity. A zero
  item changes no stock in either direction. It only breaks the positive-items half of
  `Service.InventoryService.StockSound`. A negative item raises stock when the order is
  created. If the quantity is then set to 0, deleting the order leaves it negative
  (`Stock.NegativeItemDrivesStockNegative`).
- **Duplicate items.** When two items name the same product, each passes the stock check
  against the untouched stock. When the items together ask for more than is on hand, a
  later decrement fails silently and the order is still recorded
  (`Stock.DuplicateItemsPartlyDecrement`). When they fit, every decrement succeeds. With
  distinct products, creating an order and deleting it restores every quantity
  (`Stock.RestoreUndoesReduce`), and the total in stock falls by exactly the order's item
  count (`Stock.ReduceAllTotal`).
- **Password length.** The minimum length of 3 counts UTF-16 code units, as Java's
  `String.length()` does, so a character beyond U+FFFF counts twice
  (`Text.Utf16LengthOfPair`).

## Model

| member | source | states |
|---|---|---|
| Service.InventoryService.constructor | BackendService.java:16-22 | the service starts with no accounts, products or orders, nobody signed in, both counters at 1, and both invariants hold |
| Service.InventoryService.RegisterUser | BackendService.java:31-52 | succeeds exactly when the username is not blank, the password is at least 3 UTF-16 code units long, the email is valid, and neither the username nor the email is taken ignoring case; on success the account is appended with an empty phone; nothing else changes; the invariant is kept |
| Accounts.RegisterKeepsValid | BackendService.java:42-50 | appending an accepted account keeps every account well-formed and usernames and emails distinct ignoring case |
| Accounts.RegisterRejectsCaseVariant | BackendService.java:42-47 | once an account is registered, registering a username or an email that differs from it only in letter case is refused |
| Service.InventoryService.Login | BackendService.java:54-68 | succeeds exactly when some account matches the username ignoring case and the password exactly; the signed-in account is then the first such account; a failed attempt leaves the signed-in account as it was; the lists never change |
| Accounts.LoginAfterRegister | BackendService.java:54-68 | after a registration, logging in with the same password and the username in any letter case selects the new account |
| Service.InventoryService.Logout | BackendService.java:70-72 | nobody is signed in afterwards and nothing else changes |
| Service.InventoryService.CurrentUser | BackendService.java:74-76 | returns an account exactly when someone is signed in, and that account is the signed-in one |
| Service.InventoryService.RequestPasswordReset | BackendService.java:78-84 | true exactly when the email is valid and some account has it ignoring case; it changes nothing |
| Accounts.ResetKnowsRegistered | BackendService.java:78-84 | a reset request for a registered email, in any letter case, is recognised |
| Accounts.CaseVariantOfValidEmail | BackendService.java:328-333 | a string equal ignoring case to a valid email matches the pattern at the same '@' |
| Service.InventoryService.UpdateUserProfile | BackendService.java:86-120 | the flag and the new account list are those of `Accounts.ProfileUpdate` for the signed-in account; the other fields are unchanged; the invariant holds after every outcome, a partial one included |
| Accounts.ProfileUpdate | BackendService.java:86-120 | the profile update on values: the list keeps its length; every other account is unchanged; with nobody signed in it is refused with no change; a requested password change whose old password is wrong or missing, or whose new password is shorter than 3 UTF-16 code units, is refused with no change |
| Accounts.ProfileUpdateApplies | BackendService.java:98-118 | on success every field of the signed-in account is given: the given username if not blank, the given phone, the given email if valid, the new password if one is given and not empty, and otherwise the old value; an invalid email is never written |
| Accounts.ProfileUpdateRefusals | BackendService.java:86-120 | the update succeeds exactly when the password stage, the username collision check and the email collision check all pass; a refusal at the password stage or the username check changes nothing; a refusal at the email check keeps the username and phone already written and nothing else |
| Accounts.ProfileUpdateKeepsValid | BackendService.java:86-120 | every outcome of the profile update, a refusal part-way included, keeps every account well-formed and usernames and emails distinct ignoring case |
| Accounts.ProfileUpdatePartlyApplied | BackendService.java:98-114 | a concrete case where the email collision check refuses after the new username has already been written |
| Accounts.EmailTakenIgnoresOwn | BackendService.java:110-111 | whether another account has an email does not depend on the signed-in account, so writing its username and phone first does not change the email check |
| Accounts.ReplaceKeepsValid | BackendService.java:98-118 | rewriting one account with a well-formed one that collides with no other account keeps the account invariant |
| Accounts.OwnValuesFree | BackendService.java:99-111 | in a valid list an account's own username and email collide with no other account, so rewriting other fields is never refused |
| Accounts.WithUsernameKeepsValid | BackendService.java:98-103 | writing a non-blank username that no other account has keeps the account invariant |
| Accounts.WithPhoneKeepsValid | BackendService.java:106-108 | writing the phone keeps the account invariant |
| Accounts.WithEmailKeepsValid | BackendService.java:110-115 | writing a valid email that no other account has keeps the account invariant |
| Accounts.WithPasswordKeepsValid | BackendService.java:117-119 | writing a new password of at least 3 UTF-16 code units keeps the account invariant |
| Service.InventoryService.UserByUsername | BackendService.java:122-127 | returns an account whose username equals the query ignoring case, and returns none exactly when no account has it |
| Service.InventoryService.AddProduct | BackendService.java:129-147 | succeeds exactly when the name is not blank, the price and quantity are not negative, and no product has the name ignoring case; the new product gets the counter's value, which no product has, and the counter advances; otherwise nothing changes; both invariants are kept |
| Catalog.AddKeepsValid | BackendService.java:140-146 | an accepted product, given the counter's value as identifier, keeps identifiers distinct and below the counter, names distinct ignoring case, and stock non-negative |
| Catalog.AppendKeepsIds | BackendService.java:145 | appending a product keeps every identifier already in the catalog |
| Service.InventoryService.UpdateProduct | BackendService.java:149-170 | the flag and the new catalog are those of `Catalog.ProductUpdate`; nothing else changes; both invariants are kept |
| Service.InventoryService.Revise | BackendService.java:149-170 | the steps of updateProduct on a copy of the catalog produce exactly the flag and catalog of `Catalog.ProductUpdate` |
| Catalog.ProductUpdate | BackendService.java:149-170 | succeeds exactly when the product exists and no non-blank new name is taken by another product ignoring case; a refusal leaves the catalog unchanged |
| Catalog.ProductUpdateWrites | BackendService.java:155-169 | on success the product with that identifier keeps it and holds the given name if present and not blank, the given price and quantity if present and not negative, and otherwise its old values |
| Catalog.ProductUpdateFrame | BackendService.java:149-170 | the update keeps the catalog's length and every identifier, and changes no product but the one with that identifier |
| Catalog.ProductUpdateKeepsValid | BackendService.java:155-168 | the update keeps the catalog invariant and non-negative stock |
| Catalog.ReplaceKeepsValid | BackendService.java:155-168 | rewriting one product, keeping its identifier, with a non-blank name no other product has and a non-negative price, keeps the catalog invariant; non-negative stock is kept when the new quantity is not negative |
| Catalog.NegativeValuesIgnored | BackendService.java:163-169 | a present but negative price or quantity is ignored rather than refused: the update succeeds and changes nothing |
| Catalog.SameIdsSameSet | BackendService.java:149-170 | catalogs with the same identifier at every position have the same identifier set |
| Service.InventoryService.DeleteProduct | BackendService.java:172-186 | succeeds exactly when the product exists and no order has an item for it; on success that product is removed and exactly its identifier disappears; otherwise nothing changes; both invariants are kept |
| Catalog.RemoveKeepsValid | BackendService.java:184 | removing a product keeps the catalog invariant, non-negative stock and every other product |
| Catalog.RemoveDropsId | BackendService.java:184 | removing a product removes exactly its identifier from the catalog |
| Orders.UnreferencedRemovalKeepsReferences | BackendService.java:177-185 | removing a product that no order refers to keeps every order's items pointing into the catalog |
| Service.InventoryService.ProductById | BackendService.java:188-193 | finds a product exactly when its identifier is in the catalog, and the product found has that identifier |
| Catalog.LookupFinds | BackendService.java:188-193 | with distinct identifiers, looking a product up by its own identifier finds that product |
| Catalog.LookupIffPresent | BackendService.java:188-193 | the lookup succeeds exactly for the identifiers in the catalog |
| Catalog.SameCatalogKeepsValid | BackendService.java:221-229 | changing only quantities on hand keeps the catalog invariant and the identifier set |
| Service.InventoryService.SearchProducts | BackendService.java:199-208 | a blank query returns the whole catalog; otherwise it returns exactly the products whose name contains the query ignoring case, each as often as the catalog holds it, in catalog order |
| Service.InventoryService.LowStockProducts | BackendService.java:210-214 | returns exactly the products whose quantity is at most 5, each as often as the catalog holds it, in catalog order |
| Records.IsLowStock | BackendService.java:418-420 | Product.isLowStock, defined here: a quantity at most `LowStockThreshold` (5); it has no contract of its own and `LowStockProducts` states its use |
| Service.InventoryService.IsProductInStock | BackendService.java:216-219 | true exactly when a product with the identifier exists and has at least the quantity on hand |
| Stock.InStock | BackendService.java:216-219 | only a product in the catalog can be in stock |
| Stock.InStockIff | BackendService.java:216-219 | with distinct identifiers, a product is in stock for a quantity exactly when its own quantity is at least that |
| Service.InventoryService.ReduceProductStock | BackendService.java:221-229 | succeeds exactly when the product is in stock for the quantity; the new catalog is `Stock.ReduceStock` of the old one; on success the total in stock falls by the quantity; non-negative stock is kept |
| Stock.ReduceStock | BackendService.java:221-229 | a decrement changes only quantities on hand; when the product is not in stock nothing changes; non-negative stock stays non-negative |
| Stock.ReduceAll | BackendService.java:248-251 | the decrement pass of createOrder, defined here as `ReduceStock` applied to each item in turn; it has no contract of its own, and `ReduceAllKeepsCatalog`, `ReduceAllPointwise` and `ReduceAllTotal` state its effect |
| Stock.ReduceStockTotal | BackendService.java:221-229 | a successful decrement lowers the total in stock by exactly the quantity |
| Stock.TotalAfterSet | BackendService.java:305-309 | setting one product's quantity changes the total in stock by the difference |
| Service.InventoryService.CreateOrder | BackendService.java:231-252 | returns no order exactly when the customer name is blank, the item list is empty, or some item fails the stock check; otherwise it records the order with the next identifier, the given time, the items and status Pending, advances the counter, and applies the decrement pass to the catalog; with distinct products the total in stock falls by the order's item count; both invariants are kept when every item is positive |
| Service.InventoryService.AllItemsInStock | BackendService.java:240-244 | the check loop answers whether every item is in stock against the current catalog |
| Service.InventoryService.RecordOrder | BackendService.java:246-251 | appends the order, advances the order counter and applies the decrement pass, keeping the invariant |
| Service.InventoryService.TakeStock | BackendService.java:249-251 | the decrement loop leaves the catalog equal to `Stock.ReduceAll` of the items and keeps the invariant |
| Service.InventoryService.Reduced | BackendService.java:249-251 | the loop over the items, applying reduceProductStock's effect to each in turn, computes `Stock.ReduceAll` of the catalog |
| Orders.AppendKeepsValid | BackendService.java:246-247 | a new order that passed createOrder's checks keeps order identifiers distinct and below the counter, and keeps its items pointing into the catalog |
| Orders.AppendKeepsPositive | BackendService.java:246-247 | appending an order whose items are all positive keeps every stored item positive |
| Stock.ReduceAllStep | BackendService.java:249-251 | one more iteration of the decrement loop applies one more `Stock.ReduceStock` |
| Stock.ReduceAllKeepsCatalog | BackendService.java:249-251 | the decrement pass changes only quantities on hand and keeps stock non-negative |
| Stock.ReduceAllPointwise | BackendService.java:240-251 | with distinct products in the catalog and in the items, each product's quantity falls by exactly what the items ask of it |
| Stock.LastStillInStock | BackendService.java:240-251 | with distinct products, the last item is still in stock when its turn in the decrement pass comes |
| Stock.PrefixConditions | BackendService.java:240-244 | distinct products and the stock check carry over to every prefix of the items |
| Stock.ReduceAllTotalStep | BackendService.java:249-251 | the last step of the decrement pass lowers the total by the last item's quantity |
| Stock.ReduceAllTotal | BackendService.java:231-252 | with distinct products that all pass the check, the decrement pass lowers the total in stock by exactly the order's item count |
| Stock.DuplicateItemsPartlyDecrement | BackendService.java:240-251 | a concrete order naming one product twice passes the check and is recorded, yet only its first item is taken from stock |
| Stock.NegativeItemDrivesStockNegative | BackendService.java:231-299 | a concrete item with a negative quantity passes the check, raises stock when the order is created and lowers it below zero when it is deleted after an update |
| Service.InventoryService.OrderById | BackendService.java:254-259 | finds an order exactly when its identifier is among the orders, and the order found has that identifier |
| Orders.OrderLookupIffPresent | BackendService.java:254-259 | the order lookup succeeds exactly for the identifiers in the list |
| Service.InventoryService.SearchOrders | BackendService.java:265-274 | a blank query returns every order; otherwise it returns exactly the orders whose customer name contains the query ignoring case, each as often as the list holds it, in list order |
| Service.InventoryService.UpdateOrderStatus | BackendService.java:276-284 | succeeds exactly when the order exists; only that order's status changes; both invariants are kept |
| Orders.StatusChangeKeepsValid | BackendService.java:282 | changing an order's status keeps the order invariant, referential integrity and positive items |
| Service.InventoryService.DeleteOrder | BackendService.java:286-299 | succeeds exactly when the order exists; then every item's quantity goes back to its product and the order is removed, so its identifier is gone and the total in stock rises by its item count; otherwise nothing changes; both invariants are kept |
| Service.InventoryService.GiveBackStock | BackendService.java:291-296 | the give-back loop leaves the catalog equal to `Stock.RestoreAll` of the items; the total rises by their item count; non-negative stock is kept for positive items |
| Service.InventoryService.Restored | BackendService.java:291-296 | the loop over the items computes `Stock.RestoreAll` of the catalog |
| Service.InventoryService.RemoveOrderAt | BackendService.java:297 | removes the order at that position, so exactly its identifier disappears, keeping the invariant and positive items |
| Stock.RestoreStock | BackendService.java:292-295 | giving stock back changes only quantities on hand |
| Stock.RestoreAll | BackendService.java:291-296 | the give-back pass of deleteOrder, defined here as `RestoreStock` applied to each item in turn; it has no contract of its own, and `RestoreAllKeepsCatalog`, `RestoreAllPointwise`, `RestoreAllTotal` and `RestoreUndoesReduce` state its effect |
| Stock.RestoreAllStep | BackendService.java:291-296 | one more iteration of the give-back loop applies one more `Stock.RestoreStock` |
| Stock.RestoreAllKeepsCatalog | BackendService.java:291-296 | the give-back pass changes only quantities on hand and keeps stock non-negative for positive items |
| Stock.RestoreAllPointwise | BackendService.java:291-296 | each product's quantity rises by exactly what the items hold for it |
| Stock.SumForAbsent | BackendService.java:291-296 | items that do not name a product give it nothing back |
| Stock.RestoreStockTotal | BackendService.java:292-295 | giving stock back to an existing product raises the total by that quantity |
| Stock.RestoreAllTotal | BackendService.java:286-299 | when every item's product exists, deleting the order returns exactly its item count to the total in stock |
| Stock.RestoreUndoesReduce | BackendService.java:231-299 | with distinct products that all pass the check, deleting an order right after creating it restores every quantity on hand |
| Orders.RemoveKeepsValid | BackendService.java:297 | removing an order keeps the order invariant, referential integrity and positive items |
| Orders.RemoveDropsOrderId | BackendService.java:297 | removing an order removes exactly its identifier |
| Orders.WiderCatalogKeepsReferences | BackendService.java:129-170 | a catalog holding every identifier of another still satisfies every order's references |
| Service.InventoryService.StockOnHand | BackendService.java:305-309 | the total in stock is not negative while no quantity on hand is |
| Stock.TotalInStock | BackendService.java:305-309 | the sum in getTotalInStock, defined here; it has no contract of its own, and `TotalNonNegative`, `TotalAfterSet` and `ReduceAllTotal` state its properties |
| Stock.TotalNonNegative | BackendService.java:305-309 | with no negative quantity on hand the sum of quantities is not negative |
| Service.InventoryService.LowStockCount | BackendService.java:315-319 | the count equals the length of the low-stock list and is at most the number of products |
| Seqs.CountIsFilterLength | BackendService.java:315-319 | counting the matches gives the length of the filtered list |
| Service.InventoryService.RecentOrders | BackendService.java:321-326 | returns min(count, number of orders) orders of the list, none more often than the list holds it, newest first; every order left out is no newer than any returned; orders with equal timestamps come in list order, the first of them taken |
| Orders.Recent | BackendService.java:321-326 | the first `count` orders of the stable newest-first sort, with the properties stated for RecentOrders |
| Orders.PrefixKeepsTies | BackendService.java:321-326 | for every timestamp, the orders taken with it are the first of the list's orders with it, in list order |
| Orders.Insert | BackendService.java:321-326 | one step of the sort: the result holds the old orders and the new one |
| Orders.InsertBounded | BackendService.java:321-326 | inserting keeps every timestamp at most a bound they were all at most |
| Orders.InsertKeepsOrder | BackendService.java:321-326 | inserting into a newest-first list keeps it newest-first |
| Orders.SortNewestFirst | BackendService.java:321-326 | the sort returns a permutation of the orders, newest first |
| Orders.InsertStable | BackendService.java:321-326 | inserting places the order first among the orders with its timestamp |
| Orders.SortStable | BackendService.java:321-326 | the sort is stable: orders with equal timestamps keep their relative order, as Java's sorted() does |
| Orders.PrefixFromList | BackendService.java:321-326 | the first `count` sorted orders are orders of the list, none taken more often than the list holds it |
| Orders.PrefixIsNewest | BackendService.java:321-326 | an order left out of the first `count` sorted orders is no newer than any returned |
| Text.PatternSplitIsFirstAt | BackendService.java:328-333 | a string matching the email pattern is never blank, its '@' is its first '@', and the split point is unique |
| Text.IsValidEmail | BackendService.java:328-333 | isValidEmail, defined here: not blank, and the pattern `^[A-Za-z0-9+_.-]+@(.+)$` matches the whole string; it has no contract of its own, and `PatternSplitIsFirstAt` states its properties |
| Text.Utf16Length | BackendService.java:35 | String.length(): at least the number of characters and at most twice it, and zero exactly for the empty string |
| Text.Utf16LengthOfPair | BackendService.java:94 | two characters beyond U+FFFF have length 4, as in Java, not 2 |
| Records.FromString | BackendService.java:501-508 | fromString returns the status whose display name equals the string ignoring case, and Pending when none does |
| Records.FromStringRoundTrip | BackendService.java:485-508 | parsing a display name, in any letter case, gives back its status |
| Records.DisplayNamesDistinct | BackendService.java:485-499 | no two statuses have display names equal ignoring case |
| Records.MatchingStatusUnique | BackendService.java:501-508 | at most one status matches a string, so the order of fromString's loop does not matter |
| Records.DisplayName | BackendService.java:485-499 | getDisplayName, defined here as the four display names; it has no contract of its own, and `DisplayNamesDistinct` and `FromStringRoundTrip` state its properties |
| Records.TotalItemsSnoc | BackendService.java:464-466 | getTotalItems of a list extended by one item grows by that item's quantity |
| Records.TotalItemsLast | BackendService.java:464-466 | getTotalItems is the total of all but the last item plus the last item's quantity |
| Records.TotalItems | BackendService.java:464-466 | Order.getTotalItems, defined here as the sum of the items' quantities; it has no contract of its own, and `TotalItemsSnoc` and `TotalItemsLast` state its properties |
| Seqs.FirstIndex | BackendService.java:188-193 | findFirst: the index of the first element that satisfies the filter, and none exactly when no element does |
| Seqs.Filter | BackendService.java:199-214 | filter and collect: only elements that satisfy the filter, every such element, in their original order |
| Seqs.FilterCounts | BackendService.java:199-214 | the filter is exact: each element that satisfies the filter occurs as often as in the input, and no other element occurs |
| Seqs.FilterPrefix | BackendService.java:321-324 | filtering a prefix gives a prefix of the filtered list, so limit after a stable sort keeps ties in order |
| Seqs.Take | BackendService.java:321-326 | limit: the first `n` elements, or all of them if there are fewer |

## Left out

- The presentation layer is not part of this model. Main.java, Login.java, Forgot.java
  and RoundedTextField.java are Swing windows that only call the service.
- The singleton `getInstance` and the sample data of `initializeSampleData` are left out.
  The model's constructor starts empty with both counters at 1. Java's sample data
  advances the counters.
- Prices are Java doubles. The model keeps them as integers (minor units).
  `Order.getTotal`, a floating-point sum over current prices, is not modelled.
- Null arguments: a required string or list argument is never null in the model. An
  argument that Java treats as "leave unchanged" when null is an `Option`.
- Int overflow: quantities, totals and the identifier counters are unbounded integers.
  Java's 32-bit int wrap-around is not modelled.
- Case folding and character classes: `equalsIgnoreCase`, `toLowerCase` and `trim` are
  modelled on ASCII. Unicode case folding and locale rules are not. Strings are sequences
  of Unicode scalar values, so a lone UTF-16 surrogate, which a Java string can hold,
  cannot be expressed. `String.length()` is modelled as UTF-16 code units.
- Order timestamps: `new Date()` is the caller-supplied integer `now`. getRecentOrders
  compares timestamps only.
- `getAllProducts` and `getAllOrders` copy a list. Their results are the lists
  themselves, which a value model cannot tell apart from a copy.
- Aliasing: the getters return live Java objects, and the caller can mutate them. The
  model returns values. The profile update and the product update also write through a
  live object. The model writes the whole list back: `users` and `products` are
  reassigned.
- Service.InventoryService.TakeStock: the loop applies `Stock.ReduceStock`, the function
  that `ReduceProductStock` is proved to compute, to a copy of the catalog and writes the
  result back once. It does not call the `ReduceProductStock` method itself.
  `GiveBackStock` works the same way for deleteOrder's loop.
- Service.InventoryService.RecentOrders: `count` is a `nat`. Java throws
  IllegalArgumentException for a negative count, and that exception is not modelled.
- Service.InventoryService.UpdateOrderStatus: a null status is not modelled. The status
  is always one of the four values.
- Service.InventoryService.CurrentUser: the signed-in account is returned as a value,
  not the Java object whose setters the profile update calls.
- getTotalProducts and getTotalOrders are `TotalProducts` and `TotalOrders`. They return
  the list lengths and have no contract of their own.
