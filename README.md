# neonshop store core in Dafny

This project models the shop logic of the `store` Django app of neonshop and
proves properties about it. The modelled parts are:

- the product page: colour normalisation, swatches, variants grouped by
  colour, and images grouped by colour with fallbacks;
- the cart in both of its modes. In database mode the cart and its lines are
  rows. In session mode the cart is a dictionary from variant-id strings to
  quantities;
- promo-code lookup and the cart view's subtotal and discount;
- the coupon, QR-invite and variant rules of `store/models.py`;
- the VAT split and the German euro label of `store/utils.py`;
- the `money_plain` template filter.

Modelling conventions:

- Money is whole cents (`int`).
- A database table is a `map` from primary key to row.
- The request session is a `Session` object whose fields the views update.
- Timestamps are whole seconds.
- The clock and the random token are parameters.

Modules, one per file:

- `Wrappers`: `Option`, Python's `x or default`, and `SumOver`, an order-free sum over a set.
- `Text`: Python's `strip`, `lower`, `rstrip`, `replace` and digit formatting, restricted to ASCII.
- `Models`: `store/models.py`.
- `Money`: `store/utils.py`.
- `Currency`: `store/templatetags/currency.py`.
- `Catalog`: `product_detail`.
- `Carts`: the cart helpers, `add_to_cart` and `remove_from_cart`.
- `Checkout`: `_apply_coupon_if_any` and the totals of `cart_view`.

The loops of the views are methods with loop invariants. Each is proved
against a specification function, and the properties the shop relies on are
lemmas about those functions. Examples:

- every swatch has images;
- adding to the cart raises the subtotal by exactly one unit price;
- the euro label and `money_plain` both read back as the amount they show.

## Model

| member | source | states |
|---|---|---|
| Models.Present | store/models.py:82 | the label parts are exactly the set, non-empty values offered: every such value is kept, nothing else is, and none is empty |
| Models.PresentAppend | store/models.py:82 | the filter keeps the order of the parts: the parts of a concatenation filter to the concatenation of the filtered halves |
| Models.VariantString | store/models.py:79-83 | `__str__` is the product title, then ` [`, then exactly the variant's label (never empty), then `]` |
| Models.VariantLabelCases | store/models.py:80-82 | the label is `size · color` when both are set and non-empty, otherwise whichever one is set, otherwise `One` |
| Models.VariantLabelNonEmpty | store/models.py:82 | the bracketed label is never empty |
| Models.NoAttrsLabel | store/models.py:80-82 | null attrs and an empty dict both give no size, no colour and the label `One` |
| Models.DiscountAmount | store/models.py:203-210 | below the minimum subtotal the discount is 0. Otherwise a truthy fixed amount gives min(amount, subtotal), a truthy percentage alone gives subtotal × percent / 100 rounded down, and neither gives 0. The discount is never negative and, with a fixed amount or a percentage of at most 100, never exceeds the subtotal |
| Models.DiscountMonotone | store/models.py:203-210 | a larger subtotal never gets a smaller discount |
| Models.DiscountCanExceedSubtotal | store/models.py:208-209 | a 150 % coupon takes 1500 off a subtotal of 1000, so the discount alone can exceed the subtotal |
| Models.CleanMakesOrderIrrelevant | store/models.py:197-210 | for a coupon that passes `clean`, trying the percentage first gives the same discount |
| Models.ValidBetween | store/models.py:174-180 | a coupon valid at two instants is valid at every instant between them |
| Models.ValidWindowInclusive | store/models.py:174-180 | with both ends set, an active coupon is valid exactly from `valid_from` through `valid_to`, both included |
| Models.QRInvite.Save | store/models.py:20-25 | `save` fills a missing token with the generated one and a missing expiry with now + 30 minutes. Fields already set are kept, and the use counters do not change |
| Models.FreshInviteWindow | store/models.py:20-28 | an unused, freshly saved single-use invite is valid exactly before save time + 1800 s |
| Models.InviteExpiryIsFinal | store/models.py:27-28 | `is_valid` only runs out: an invite that is not valid at some instant is not valid at any later one |
| Money.RoundHalfEven | store/utils.py:12 | `round` of the exact quotient is at most half a step away, and an exact tie goes to the even neighbour |
| Money.HalfEvenCandidatesAgree | store/utils.py:12 | two integers that both meet the round-half-even condition are equal |
| Money.RoundHalfEvenUnique | store/utils.py:12 | any integer meeting the round-half-even condition is the one `RoundHalfEven` returns |
| Money.SplitVatFromGross | store/utils.py:3-14 | net + VAT = gross, gross and rate are recorded, and net is gross / (1 + rate) rounded. A non-negative gross splits into two parts within [0, gross]. A zero rate leaves the whole gross as net |
| Money.NetWithinGross | store/utils.py:12-13 | for non-negative gross and rate, the rounded net lies in [0, gross] |
| Money.NetAtZeroRate | store/utils.py:12-13 | at rate 0 the rounded net equals the gross |
| Money.VatExample | store/utils.py:10-14 | 80.98 € at 19 % splits into 68.05 € net plus 12.93 € VAT |
| Money.ReplaceChainSwaps | store/utils.py:20 | on text without `X`, the three `replace` calls exchange `,` and `.` and change nothing else |
| Money.EnglishAmount | store/utils.py:20 | the `,.2f` text ends in a `.` and two digits, before which there are only digits, `,` separators and a leading `-`; so it never contains the placeholder `X` |
| Money.SwappedGroup | store/utils.py:20 | swapping turns the `,`-grouped thousands into `.`-grouped thousands |
| Money.Euro | store/utils.py:19-20 | the label is an optional `-`, whole euros grouped by `.`, a `,`, two cent digits and ` €` |
| Money.GroupedWhole | store/utils.py:20 | grouped whole euros start with a digit, and dropping the `.` gives back the plain numeral |
| Money.EuroRoundTrip | store/utils.py:19-20 | the label always reads back as the exact amount of cents it shows |
| Money.EuroExample | store/utils.py:19-20 | 123456789 cents is `1.234.567,89 €` |
| Currency.StripCents | store/templatetags/currency.py:16-17 | the two `rstrip`s remove only trailing zeros of the cents and a bare `.` |
| Currency.FixedTwo | store/templatetags/currency.py:13-16 | the two-decimal text ends in a `.` and exactly two digits, and reads back as exactly the amount of cents it was made from |
| Currency.MoneyPlain | store/templatetags/currency.py:12-17 | no amount shows as the empty text; an amount shows as its sign, its whole euros and its cents with trailing zeros and a bare `.` dropped |
| Currency.MoneyPlainCanonical | store/templatetags/currency.py:16-17 | the text is non-empty, ends in a digit, and never ends in `0` after a `.` |
| Currency.MoneyPlainRoundTrip | store/templatetags/currency.py:6-17 | `money_plain` loses nothing: its text reads back as the amount of cents |
| Currency.MoneyPlainWholeExample | store/templatetags/currency.py:9 | 15000 cents is shown as `150` |
| Currency.MoneyPlainCentsExample | store/templatetags/currency.py:9 | 14999 cents is shown as `149.99` |
| Text.StripPadded | store/views.py:101 | whitespace around a text does not change what `strip` gives |
| Text.StripIdempotent | store/views.py:101 | stripping twice is stripping once |
| Text.StripIsCore | store/views.py:101 | `strip` gives a slice of the input with only whitespace around it and no whitespace at its ends |
| Text.LowerIdempotent | store/views.py:101 | lowering twice is lowering once |
| Text.StripLower | store/views.py:101 | `strip` and `lower` commute |
| Text.DecimalRoundTrip | store/views.py:217 | `int(str(n)) == n` for every natural number |
| Text.GroupLayout | store/utils.py:20 | the `,` format option adds one separator per full group of three, at every fourth place from the end |
| Text.GroupUngroup | store/utils.py:20 | removing the separators from a grouped numeral gives back its digits |
| Catalog.NormalizeColorDefault | store/views.py:100-101 | no colour and an empty colour both normalise to `one` |
| Catalog.NormalizeColorIdempotent | store/views.py:100-101 | normalising a non-empty key again leaves it unchanged |
| Catalog.NormalizeColorPadded | store/views.py:100-101 | surrounding whitespace never changes a colour's key |
| Catalog.NormalizeColorCase | store/views.py:100-101 | the case of the letters never changes a colour's key |
| Catalog.NormalizeColorExample | store/views.py:99-101 | `"  Black "` and `"black"` share the key `black` |
| Catalog.BlankColorKey | store/views.py:100-101 | a colour of spaces only is truthy, so it is not replaced by `One`, and its key is the empty string |
| Catalog.NormalizeColor | store/views.py:100-101 | every colour key is already in lower case and neither starts nor ends with whitespace |
| Catalog.GroupVariants | store/views.py:104-121 | the loop builds the swatch labels, distinct and in first-seen order, and a map holding, for each key, that key's variants in query order |
| Catalog.KeysOfMembers | store/views.py:116 | a key is in the variant map exactly when some variant normalises to it |
| Catalog.DistinctMembers | store/views.py:113-114 | the swatch labels are exactly the raw colours that occur |
| Catalog.DistinctNoDuplicates | store/views.py:113-114 | no swatch label appears twice |
| Catalog.DistinctFirstSeen | store/views.py:113-114 | swatch labels are ordered by where each first occurs |
| Catalog.SwatchesHaveGroups | store/views.py:108-116 | every swatch label has a variant under its key |
| Catalog.GroupMembers | store/views.py:116-121 | every entry of a group comes from a variant with that key |
| Catalog.GroupSorted | store/views.py:104-116 | a query sorted by price, then id, gives groups sorted the same way |
| Catalog.VariantExactlyOnce | store/views.py:108-121 | with distinct ids, every variant appears exactly once in its own group and in no other |
| Catalog.GroupImages | store/views.py:124-132 | the image loop puts each tagged key's images in the map, in query order and non-empty, and the untagged images in the generic pool |
| Catalog.ImagePlaced | store/views.py:127-132 | each image lands in the generic pool or in the list of its own colour key |
| Catalog.ImageOrigin | store/views.py:127-132 | conversely, every payload under a key comes from a tagged image whose colour normalises to that key, and every generic payload from an untagged image |
| Catalog.FallbackImages | store/views.py:137-140 | the fallback is the generic pool when there is one and exactly the placeholder alone when there is none, so it is never empty |
| Catalog.SwatchKeys | store/views.py:135 | the fallback loop walks the keys of the swatch labels, `one` included when there are no colours |
| Catalog.FillFallbacks | store/views.py:134-140 | the loop adds every walked key and keeps existing entries. A key it adds gets the fallback |
| Catalog.ImagesCovered | store/views.py:134-144 | after the fallbacks, every swatch has a non-empty image list under its key |
| Catalog.VariantsCovered | store/views.py:108-144 | for a product with variants, every swatch has a variant group |
| Catalog.ProductDetail | store/views.py:96-147 | the page gets its swatches (`One` when there are no colours) and the grouped variants. The image map holds exactly the tagged keys and the swatch keys; tagged keys keep their own lists, every other key gets the generic pool or the placeholder. Every swatch has images and, when there are variants, a group |
| Carts.Session.SaveCartEntries | store/views.py:172-181 | the session cart is replaced by the dict, the session is marked modified, and reading the cart back gives exactly that dict |
| Carts.SessionAdd | store/views.py:216-218 | adding a key raises its quantity by one, treating a missing key as 0, and leaves every other key alone |
| Carts.SessionRemove | store/views.py:233-236 | the key is gone and every other quantity is unchanged |
| Carts.CartKey | store/views.py:217 | a variant's session key is a numeral without leading zeros whose decimal value is the variant id |
| Carts.SessionAddTwice | store/views.py:218 | adding twice raises the quantity by two |
| Carts.SessionAddCommutes | store/views.py:215-219 | the order of two additions does not matter |
| Carts.SessionRemoveAfterAdd | store/views.py:215-236 | removing a key right after adding it is the same as removing it directly |
| Carts.CartKeyInjective | store/views.py:217 | different variant ids never share a session key |
| Carts.AddToCartSession | store/views.py:214-219 | session mode: the stored cart, or `{}` if what was stored is not a dict, gets one more unit of the variant and is saved |
| Carts.RemoveFromCartSession | store/views.py:232-238 | session mode: a present key is removed and saved. An absent key leaves the session untouched, not even marked modified |
| Carts.GetCart | store/views.py:183-203 | a signed-in user gets their own cart, created only if they have none. An anonymous session keeps a stored cart id that exists. Otherwise a new cart is created under the next key and its id stored, and only then is the session marked modified. No cart line changes |
| Carts.CartChosenUnique | store/views.py:183-203 | on valid tables the cart `_get_cart` picks, the new cart table, the key counter and the stored cart id are fully determined by the request |
| Carts.CreateCart | store/views.py:198-202 | a new cart row takes the next primary key |
| Carts.AddToCartDb | store/views.py:205-213 | the request's cart is chosen exactly as `_get_cart` chooses it, with the same cart-table and session changes; then the variant is looked up (404 when missing). An existing line gains one unit, otherwise a new line of quantity 1 is made |
| Carts.AddLine | store/views.py:210-213 | `get_or_create` plus the increment, keeping at most one line per cart and variant |
| Carts.AfterAddExisting | store/views.py:210-213 | when the line exists, only its quantity changes, by +1 |
| Carts.AfterAddNew | store/views.py:210 | when no line exists, one new line with quantity 1 is added |
| Carts.AddIncrementsQuantity | store/views.py:210-213 | adding raises the quantity of that cart and variant by exactly one and no other quantity |
| Carts.IncrementKeepsValid | store/models.py:107-113 | incrementing a line keeps the foreign keys, quantities ≥ 1, the unique (cart, variant) pairs and the one-cart-per-user rule |
| Carts.NewLineKeepsValid | store/models.py:107-113 | a new line for a missing (cart, variant) pair keeps every table rule |
| Carts.IncrementKeepsUnique | store/models.py:112-113 | incrementing keeps (cart, variant) unique |
| Carts.NewLineKeepsUnique | store/models.py:112-113 | a new line for a missing pair keeps (cart, variant) unique |
| Carts.RemoveFromCartDb | store/views.py:226-228 | database mode: the line with that primary key is deleted, if any, and nothing else changes, key counters included |
| Carts.RemoveLineQuantity | store/views.py:228 | deleting a line zeroes exactly that cart's quantity of that variant |
| Checkout.ParseCartKey | store/views.py:315-319 | `int()` of a session key written by `str(variant_id)` gives the id back |
| Checkout.SessionCartSubtotal | store/views.py:312-336 | session mode: the loop fails exactly when a key is not an integer. Otherwise it returns the sum, over the keys, of price × quantity for the variants that exist |
| Checkout.SessionAddRaisesSubtotal | store/views.py:215-219 | adding a variant raises the session subtotal by its unit price, or by 0 when it does not exist |
| Checkout.SessionRemoveLowersSubtotal | store/views.py:233-237 | removing a key lowers the subtotal by exactly that key's line |
| Checkout.SessionSubtotalNonNegative | store/views.py:318-336 | non-negative quantities give a non-negative subtotal |
| Checkout.DbCartSubtotal | store/views.py:300-311 | database mode: the loop returns the sum of price × quantity over the cart's lines |
| Checkout.DbAddRaisesSubtotal | store/views.py:207-213 | adding to the cart raises its subtotal by the unit price and leaves other carts' subtotals alone |
| Checkout.DbRemoveLowersSubtotal | store/views.py:226-228 | deleting a line lowers its own cart's subtotal by exactly that line |
| Checkout.SessionCode | store/views.py:249 | the code read from the session has no surrounding whitespace, and is empty when none is stored |
| Checkout.SessionCodePadded | store/views.py:249 | whitespace around the stored code is ignored |
| Checkout.MatchingIgnoresCase | store/views.py:263 | the case of the entered code does not matter |
| Checkout.UniqueCodesMatchOnce | store/views.py:260-265 | when codes are unique ignoring case, a valid matching coupon is the only match |
| Checkout.CaseTwinsBothMatch | store/views.py:263 | two valid coupons whose codes differ only in case both match. `get` then fails and the code is dropped |
| Checkout.ApplyCouponIfAny | store/views.py:241-275 | a coupon applies exactly when the stripped code is non-empty and matches one valid coupon, and the discount is then its `discount_amount`. Otherwise the discount is 0. A code that fails to apply is removed from the session |
| Checkout.AfterDiscount | store/views.py:340 | the amount after the discount is the subtotal minus the discount, clamped at 0 |
| Checkout.AfterDiscountWithinSubtotal | store/views.py:339-340 | after any coupon the amount lies in [0, subtotal] |
| Checkout.OversizedPercentClamped | store/views.py:340 | the clamp turns a 150 % discount on 1000 into 0, not a negative amount |
| Checkout.CartViewDb | store/views.py:290-340 | database mode: the cart is chosen exactly as `_get_cart` chooses it. The view reports its subtotal, the coupon when exactly one valid coupon matches (and then it is that coupon), its discount and the clamped amount. A code that fails is removed from the session, and the session is marked modified exactly when a cart id or a code removal was written |
| Checkout.CartViewSession | store/views.py:312-340 | session mode: the same totals over the session dict, with the same coupon match and the same removal of a failing code, or no totals and no change when a key is not an integer |

## Left out

- Models.DiscountAmount: the percentage is exact floor arithmetic, `s * p / 100`. The source multiplies by the double `p / 100.0` and truncates, which can come out one cent lower, for example 29 % of 100.
- Money.SplitVatFromGross: the rate is an exact fraction and the quotient is rounded half to even exactly. The source divides in double precision before `round`, so its result can differ near a tie.
- Money.Euro: the amount is exact cents. The source formats the double `cents / 100`, which can round differently for very large amounts.
- Currency.MoneyPlain: the quotient `Decimal(cents) / Decimal(100)` is taken as exact. Python computes it in a 28-digit decimal context, so for amounts of 29 or more digits of cents the quotient is rounded and the cents are lost; the model keeps them, and Currency.FixedTwo and Currency.MoneyPlainRoundTrip hold only for amounts below 10^28 cents in the source.
- Currency.MoneyPlain: only whole cents, or a value `Decimal` refuses (`None`), are inputs. A `Decimal` built from a float or from text with more decimals, NaN and infinities are not modelled.
- `utils.cents` and the float VAT maths of `cart_view` after the discount (views.py:342 onwards) work on floats, so they are not modelled.
- Checkout and payment views, `Payment.valid`, the auth, invite, QR and home views, the admin, urls, forms, emails and the bubbles scripts are not part of the core modelled here.
- `QRInvite.link` and `__str__` build URLs and labels for the admin, so they are not modelled.
- The dead `qs = ... .callable` probe at views.py:252-255 is left out. It has no effect: its result is never used and any exception is swallowed.
- `_apply_coupon_if_any`: the fallback branches for coupons without `discount_amount` (views.py:266-271) are left out. `Coupon` always has that method, so they never run.
- `_has_db_cart()` is always true, so the session mode never runs in the source. Both modes are still modelled, as separate methods.
- `Cart.user` is a non-null one-to-one field (models.py:104), so the anonymous `Cart.objects.create()` would fail in the database. Carts.GetCart lets it succeed with no user.
- Messages, redirects, template rendering and the 404 page are outcomes that are not modelled. The 404 is the `found` result of Carts.AddToCartDb.
- The exception branch of the database remove (views.py:230-231) is left out, because a filtered delete does not raise.
- Checkout.ParseKey accepts an optional sign, surrounding whitespace and digits. It does not accept the underscores that Python's `int()` also allows.
- Sessions and the ORM are in-memory values. Persistence, concurrency and transactions are not modelled.
- Variant attrs map strings to strings. Other JSON values are not modelled.
- Text is ASCII only: `strip`, `lower` and `iexact` use ASCII whitespace and case. Unicode case folding is not modelled.
- The order of the session dict is not modelled, because every subtotal is an order-free sum over the keys.
