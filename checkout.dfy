/** The money side of store/views.py's `cart_view` before VAT: the subtotal
    of the cart in either mode, the promo code kept in the session
    (`_apply_coupon_if_any`), and the total after the discount, which never
    goes below zero. */
module Checkout {
  import opened Wrappers
  import opened Text
  import opened Models
  import opened Carts

  // ---------------------------------------------------------------------
  // Session keys

  /** `int(k)` on an ASCII key: surrounding whitespace, an optional sign,
      then at least one digit. */
  function ParseKey(k: string): Option<int> {
    var t := Strip(k);
    if t != [] && (t[0] == '+' || t[0] == '-') then
      if |t| > 1 && AllDigits(t[1..]) then
        Some(if t[0] == '-' then -(DecimalValue(t[1..]) as int) else DecimalValue(t[1..]))
      else None
    else if t != [] && AllDigits(t) then Some(DecimalValue(t))
    else None
  }

  /** The keys `add_to_cart` writes read back as the variant id. */
  lemma ParseCartKey(id: nat)
    ensures ParseKey(CartKey(id)) == Some(id)
  {
    var ds := CartKey(id);
    assert !IsSpace(ds[0]) && !IsSpace(ds[|ds| - 1]);
    assert TrimStart(ds) == ds;
    assert Strip(ds) == ds;
    DecimalRoundTrip(id);
  }

  /** A key that is not a number makes `cart_view` fail before anything
      is summed. */
  predicate KeysParse(m: map<string, int>) {
    forall k :: k in m ==> ParseKey(k).Some?
  }

  // ---------------------------------------------------------------------
  // Subtotal, session mode

  /** `price_gross_cents or 0`. */
  function UnitCents(v: Variant): nat {
    OrZero(v.priceGrossCents)
  }

  /** The cents a session entry adds to the subtotal: unit price times
      quantity for a key naming an existing variant, nothing otherwise. */
  function SessionLine(m: map<string, int>, variants: map<nat, Variant>, k: string): int {
    if k in m then
      match ParseKey(k)
      case Some(id) => if id >= 0 && id in variants then UnitCents(variants[id]) * m[k] else 0
      case None => 0
    else 0
  }

  function SessionLines(m: map<string, int>, variants: map<nat, Variant>): string -> int {
    k => SessionLine(m, variants, k)
  }

  /** The subtotal of a session cart: its lines summed in any order. */
  ghost function SessionSubtotal(m: map<string, int>, variants: map<nat, Variant>): int {
    SumOver(m.Keys, SessionLines(m, variants))
  }

  /** The session branch of `cart_view`'s subtotal loop. `None` is the
      `ValueError` a key that is not a number raises. */
  method SessionCartSubtotal(s: Session, variants: map<nat, Variant>) returns (r: Option<int>)
    ensures r.Some? <==> KeysParse(s.CartEntries())
    ensures r.Some? ==> r.value == SessionSubtotal(s.CartEntries(), variants)
  {
    var sess := s.CartEntries();
    if exists k :: k in sess && ParseKey(k).None? {
      return None;
    }
    ghost var f := SessionLines(sess, variants);
    var total := 0;
    var todo := sess.Keys;
    while todo != {}
      invariant todo <= sess.Keys
      invariant total == SumOver(sess.Keys - todo, f)
      decreases todo
    {
      var k :| k in todo;
      var id := ParseKey(k).value;
      var line := 0;
      if id >= 0 && id in variants {
        line := UnitCents(variants[id]) * sess[k];
      }
      assert line == f(k);
      SumOverStep(sess.Keys, todo, k, f);
      total := total + line;
      todo := todo - {k};
    }
    assert sess.Keys - todo == sess.Keys;
    return Some(total);
  }

  /** Adding one unit of a variant raises the session subtotal by its unit
      price (by nothing when the variant does not exist). */
  lemma SessionAddRaisesSubtotal(m: map<string, int>, variants: map<nat, Variant>, id: nat)
    ensures SessionSubtotal(SessionAdd(m, CartKey(id)), variants) ==
      SessionSubtotal(m, variants) + (if id in variants then UnitCents(variants[id]) else 0)
  {
    var key := CartKey(id);
    var m2 := SessionAdd(m, key);
    var f := SessionLines(m, variants);
    var g := SessionLines(m2, variants);
    AddLineAt(m, variants, id);
    AddLinesElsewhere(m, variants, key);
    SumOverRemove(m2.Keys, key, g);
    SumOverCongruent(m.Keys - {key}, g, f);
    if key in m {
      SumOverRemove(m.Keys, key, f);
      assert m2.Keys - {key} == m.Keys - {key};
    } else {
      assert m2.Keys - {key} == m.Keys;
      assert f(key) == 0;
    }
  }

  /** The added variant's own line grows by one unit price. */
  lemma AddLineAt(m: map<string, int>, variants: map<nat, Variant>, id: nat)
    ensures SessionLine(SessionAdd(m, CartKey(id)), variants, CartKey(id)) ==
      SessionLine(m, variants, CartKey(id)) + (if id in variants then UnitCents(variants[id]) else 0)
  {
    var key := CartKey(id);
    var m2 := SessionAdd(m, key);
    ParseCartKey(id);
    if id in variants {
      var price := UnitCents(variants[id]);
      var q := QuantityIn(m, key);
      assert SessionLine(m2, variants, key) == price * (q + 1);
      assert SessionLine(m, variants, key) == price * q;
      assert price * (q + 1) == price * q + price;
    }
  }

  /** No other entry's line changes. */
  lemma AddLinesElsewhere(m: map<string, int>, variants: map<nat, Variant>, key: string)
    ensures forall k :: k in m.Keys - {key} ==> SessionLines(SessionAdd(m, key), variants)(k) == SessionLines(m, variants)(k)
  {
    var m2 := SessionAdd(m, key);
    forall k | k in m.Keys - {key}
      ensures SessionLine(m2, variants, k) == SessionLine(m, variants, k)
    {
      assert m2[k] == m[k];
    }
  }

  /** Removing an entry lowers the session subtotal by exactly that
      entry's line. */
  lemma SessionRemoveLowersSubtotal(m: map<string, int>, variants: map<nat, Variant>, key: string)
    requires key in m
    ensures SessionSubtotal(SessionRemove(m, key), variants) == SessionSubtotal(m, variants) - SessionLine(m, variants, key)
  {
    var m2 := SessionRemove(m, key);
    var f := SessionLines(m, variants);
    var g := SessionLines(m2, variants);
    SumOverRemove(m.Keys, key, f);
    assert m2.Keys == m.Keys - {key};
    SumOverCongruent(m2.Keys, g, f);
  }

  /** With no negative quantities (which `add_to_cart` never writes) the
      subtotal is never negative. */
  lemma SessionSubtotalNonNegative(m: map<string, int>, variants: map<nat, Variant>)
    requires forall k :: k in m ==> m[k] >= 0
    ensures SessionSubtotal(m, variants) >= 0
  {
    var f := SessionLines(m, variants);
    forall k | k in m.Keys
      ensures f(k) >= 0
    {
      match ParseKey(k)
      case Some(id) =>
        if id >= 0 && id in variants {
          NonNegativeProduct(UnitCents(variants[id]), m[k]);
        }
      case None =>
    }
    SumOverNonNegative(m.Keys, f);
  }

  // ---------------------------------------------------------------------
  // Subtotal, database mode

  /** The keys of the lines of `cart` (`CartItem.objects.filter(cart=cart)`). */
  function LineKeys(items: map<nat, CartItemRow>, cart: nat): (r: set<nat>)
    ensures forall k :: k in r <==> k in items && items[k].cart == cart
  {
    set k | k in items && items[k].cart == cart
  }

  /** The cents a line adds: unit price times quantity. */
  function ItemCents(items: map<nat, CartItemRow>, variants: map<nat, Variant>, pk: nat): int {
    if pk in items && items[pk].variant in variants then
      UnitCents(variants[items[pk].variant]) * items[pk].quantity
    else 0
  }

  function ItemLines(items: map<nat, CartItemRow>, variants: map<nat, Variant>): nat -> int {
    (pk: nat) => ItemCents(items, variants, pk)
  }

  /** The subtotal of a database cart: its lines summed in any order. */
  ghost function CartSubtotal(items: map<nat, CartItemRow>, variants: map<nat, Variant>, cart: nat): int {
    SumOver(LineKeys(items, cart), ItemLines(items, variants))
  }

  /** The database branch of `cart_view`'s subtotal loop. */
  method DbCartSubtotal(db: Database, cartPk: nat) returns (total: int)
    ensures total == CartSubtotal(db.items, db.variants, cartPk)
  {
    var lines := LineKeys(db.items, cartPk);
    ghost var f := ItemLines(db.items, db.variants);
    total := 0;
    var todo := lines;
    while todo != {}
      invariant todo <= lines
      invariant total == SumOver(lines - todo, f)
      decreases todo
    {
      var pk :| pk in todo;
      var it := db.items[pk];
      var unit := if it.variant in db.variants then UnitCents(db.variants[it.variant]) else 0;
      var line := unit * it.quantity;
      assert line == f(pk);
      SumOverStep(lines, todo, pk, f);
      total := total + line;
      todo := todo - {pk};
    }
    assert lines - todo == lines;
  }

  /** Adding one unit of an existing variant raises the subtotal of that
      cart by its unit price and leaves every other cart's alone: the same
      effect as the session mode's add. */
  lemma DbAddRaisesSubtotal(items: map<nat, CartItemRow>, variants: map<nat, Variant>, cart: nat, variant: nat, nextPk: nat, c: nat)
    requires UniqueLines(items) && nextPk !in items && variant in variants
    ensures CartSubtotal(ItemsAfterAdd(items, cart, variant, nextPk), variants, c) ==
      CartSubtotal(items, variants, c) + (if c == cart then UnitCents(variants[variant]) else 0)
  {
    if HasLine(items, cart, variant) {
      var k :| k in items && items[k].cart == cart && items[k].variant == variant;
      AfterAddExisting(items, cart, variant, nextPk, k);
      IncrementSubtotal(items, variants, k, c);
    } else {
      NewLineSubtotal(items, variants, nextPk, CartItemRow(cart, variant, 1), c);
    }
  }

  /** One more unit on an existing line adds its unit price to its cart. */
  lemma IncrementSubtotal(items: map<nat, CartItemRow>, variants: map<nat, Variant>, k: nat, c: nat)
    requires k in items && items[k].variant in variants
    ensures var after := items[k := items[k].(quantity := items[k].quantity + 1)];
      CartSubtotal(after, variants, c) ==
      CartSubtotal(items, variants, c) + (if c == items[k].cart then UnitCents(variants[items[k].variant]) else 0)
  {
    var after := items[k := items[k].(quantity := items[k].quantity + 1)];
    var f := ItemLines(items, variants);
    var g := ItemLines(after, variants);
    var keys := LineKeys(items, c);
    assert LineKeys(after, c) == keys;
    assert forall pk :: pk in keys && pk != k ==> g(pk) == f(pk);
    if c == items[k].cart {
      var price := UnitCents(variants[items[k].variant]);
      assert g(k) == f(k) + price by {
        var q := items[k].quantity;
        assert g(k) == price * (q + 1);
        assert f(k) == price * q;
      }
      SumOverRemove(keys, k, f);
      SumOverRemove(keys, k, g);
      SumOverCongruent(keys - {k}, g, f);
    } else {
      SumOverCongruent(keys, g, f);
    }
  }

  /** A new line adds its amount to its own cart and nothing to others. */
  lemma NewLineSubtotal(items: map<nat, CartItemRow>, variants: map<nat, Variant>, pk: nat, row: CartItemRow, c: nat)
    requires pk !in items
    ensures CartSubtotal(items[pk := row], variants, c) ==
      CartSubtotal(items, variants, c) + (if c == row.cart then ItemCents(items[pk := row], variants, pk) else 0)
  {
    var after := items[pk := row];
    var f := ItemLines(items, variants);
    var g := ItemLines(after, variants);
    var keys := LineKeys(items, c);
    assert forall j :: j in keys ==> g(j) == f(j);
    SumOverCongruent(keys, g, f);
    if c == row.cart {
      assert LineKeys(after, c) - {pk} == keys;
      SumOverRemove(LineKeys(after, c), pk, g);
    } else {
      assert LineKeys(after, c) == keys;
    }
  }

  /** Deleting a line lowers the subtotal of its own cart by that line and
      changes no other cart's. */
  lemma DbRemoveLowersSubtotal(items: map<nat, CartItemRow>, variants: map<nat, Variant>, itemId: nat, c: nat)
    ensures CartSubtotal(items - {itemId}, variants, c) ==
      CartSubtotal(items, variants, c) - (if itemId in items && items[itemId].cart == c then ItemCents(items, variants, itemId) else 0)
  {
    var after := items - {itemId};
    var f := ItemLines(items, variants);
    var g := ItemLines(after, variants);
    assert LineKeys(after, c) == LineKeys(items, c) - {itemId};
    forall pk | pk in LineKeys(after, c)
      ensures g(pk) == f(pk)
    {
    }
    SumOverCongruent(LineKeys(after, c), g, f);
    if itemId in items && items[itemId].cart == c {
      SumOverRemove(LineKeys(items, c), itemId, f);
    } else {
      assert LineKeys(after, c) == LineKeys(items, c);
    }
  }

  // ---------------------------------------------------------------------
  // Promo code

  /** `(request.session.get("coupon_code") or "").strip()`: the code as
      stored, with surrounding whitespace gone, and empty when none is. */
  function SessionCode(stored: Option<string>): (r: string)
    ensures Strip(r) == r
    ensures stored.None? ==> r == ""
  {
    StripIdempotent(OrElse(stored, ""));
    Strip(OrElse(stored, ""))
  }

  /** Whitespace around the stored code is ignored. */
  lemma SessionCodePadded(w1: string, code: string, w2: string)
    requires AllSpace(w1) && AllSpace(w2)
    ensures SessionCode(Some(w1 + code + w2)) == SessionCode(Some(code))
  {
    StripPadded(w1, code, w2);
    if w1 + code + w2 == "" {
      assert code == "";
    }
    if code == "" {
      assert w1 + code + w2 == w1 + "" + w2;
      StripPadded(w1, "", w2);
    }
  }

  /** The coupons `Coupon.objects.valid().get(code__iexact=code)` chooses
      from: valid at `now`, with the code equal up to letter case. */
  function MatchingCoupons(coupons: map<nat, Coupon>, now: int, code: string): (r: set<nat>)
    ensures forall k :: k in r <==> k in coupons && CouponValidAt(coupons[k], now) && Lower(coupons[k].code) == Lower(code)
  {
    set k | k in ValidCoupons(coupons, now) && Lower(coupons[k].code) == Lower(code)
  }

  /** The lookup ignores letter case. */
  lemma MatchingIgnoresCase(coupons: map<nat, Coupon>, now: int, code: string)
    ensures MatchingCoupons(coupons, now, Lower(code)) == MatchingCoupons(coupons, now, code)
  {
    LowerIdempotent(code);
  }

  /** When codes are unique up to letter case, a valid coupon whose code
      matches is the only match, so `get` finds it. */
  lemma UniqueCodesMatchOnce(coupons: map<nat, Coupon>, now: int, code: string, k: nat)
    requires forall a, b :: a in coupons && b in coupons && Lower(coupons[a].code) == Lower(coupons[b].code) ==> a == b
    requires k in coupons && CouponValidAt(coupons[k], now) && Lower(coupons[k].code) == Lower(code)
    ensures MatchingCoupons(coupons, now, code) == {k}
  {
  }

  /** The code column is unique only as written: two valid coupons whose
      codes differ in letter case both match, so `get` fails and the code
      is dropped. */
  lemma CaseTwinsBothMatch(coupons: map<nat, Coupon>, now: int, code: string, a: nat, b: nat)
    requires a in coupons && b in coupons && a != b
    requires CouponValidAt(coupons[a], now) && CouponValidAt(coupons[b], now)
    requires Lower(coupons[a].code) == Lower(code) && Lower(coupons[b].code) == Lower(code)
    ensures |MatchingCoupons(coupons, now, code)| >= 2
  {
    var r := MatchingCoupons(coupons, now, code);
    assert {a, b} <= r;
    assert |{a, b}| == 2;
    SubsetSize({a, b}, r);
  }

  lemma SubsetSize<T>(a: set<T>, b: set<T>)
    requires a <= b
    ensures |a| <= |b|
  {
    assert b == a + (b - a);
  }

  /** `_apply_coupon_if_any`: no code, no discount and nothing changes. A
      code that matches exactly one valid coupon gives that coupon's
      discount of the subtotal. Any other code (no match, or several) is
      removed from the session and gives no discount. */
  method ApplyCouponIfAny(s: Session, coupons: map<nat, Coupon>, now: int, subtotalCents: int)
    returns (discount: int, applied: Option<nat>)
    modifies s
    ensures var code := SessionCode(old(s.couponCode));
      applied.Some? <==> code != "" && |MatchingCoupons(coupons, now, code)| == 1
    ensures applied.Some? ==>
      MatchingCoupons(coupons, now, SessionCode(old(s.couponCode))) == {applied.value} &&
      discount == DiscountAmount(coupons[applied.value], subtotalCents)
    ensures applied.None? ==> discount == 0
    ensures discount >= 0
    ensures s.cart == old(s.cart) && s.cartId == old(s.cartId)
    ensures SessionCode(old(s.couponCode)) == "" || applied.Some? ==>
      s.couponCode == old(s.couponCode) && s.modified == old(s.modified)
    ensures SessionCode(old(s.couponCode)) != "" && applied.None? ==>
      s.couponCode == None && s.modified == (old(s.modified) || old(s.couponCode).Some?)
  {
    var code := Strip(OrElse(s.couponCode, ""));
    if code == "" {
      return 0, None;
    }
    var matches := MatchingCoupons(coupons, now, code);
    if |matches| == 1 {
      var k :| k in matches;
      assert matches == {k} by {
        forall j | j in matches
          ensures j == k
        {
          if j != k {
            assert {j, k} <= matches && |{j, k}| == 2;
            SubsetSize({j, k}, matches);
          }
        }
      }
      return DiscountAmount(coupons[k], subtotalCents), Some(k);
    }
    s.modified := s.modified || s.couponCode.Some?;
    s.couponCode := None;
    return 0, None;
  }

  // ---------------------------------------------------------------------
  // Totals

  /** `max(0, cents_subtotal - discount_cents)`. */
  function AfterDiscount(subtotalCents: int, discountCents: int): (r: int)
    ensures r >= 0 && r >= subtotalCents - discountCents
    ensures r == 0 || r == subtotalCents - discountCents
  {
    if subtotalCents - discountCents > 0 then subtotalCents - discountCents else 0
  }

  /** For any coupon and any subtotal that is not negative, the total
      after the discount lies between zero and the subtotal. */
  lemma AfterDiscountWithinSubtotal(c: Coupon, subtotalCents: int)
    requires subtotalCents >= 0
    ensures 0 <= AfterDiscount(subtotalCents, DiscountAmount(c, subtotalCents)) <= subtotalCents
  {
  }

  /** The clamp is what keeps a percentage above 100 from producing a
      negative total. */
  lemma OversizedPercentClamped(c: Coupon)
    requires c.minSubtotalCents == 0 && c.amountOffCents == None && c.percentOff == Some(150)
    ensures AfterDiscount(1000, DiscountAmount(c, 1000)) == 0
  {
    DiscountCanExceedSubtotal(c);
  }

  /** The figures `cart_view` computes before VAT. */
  datatype Totals = Totals(subtotalCents: int, discountCents: int, afterDiscountCents: int, coupon: Option<nat>)

  /** `cart_view` in database mode up to the VAT step: the cart of the
      request, its subtotal, the promo code's discount, the clamped
      total. */
  method CartViewDb(db: Database, s: Session, user: Option<nat>, coupons: map<nat, Coupon>, now: int)
    returns (cartPk: nat, t: Totals)
    requires db.Valid()
    modifies db, s
    ensures db.Valid() && cartPk in db.carts
    ensures db.items == old(db.items) && db.variants == old(db.variants)
    ensures t.subtotalCents == CartSubtotal(db.items, db.variants, cartPk)
    ensures t.coupon.Some? <==>
      SessionCode(old(s.couponCode)) != "" && |MatchingCoupons(coupons, now, SessionCode(old(s.couponCode)))| == 1
    ensures t.coupon.Some? ==> t.coupon.value in coupons && t.discountCents == DiscountAmount(coupons[t.coupon.value], t.subtotalCents)
    ensures t.coupon.Some? ==> MatchingCoupons(coupons, now, SessionCode(old(s.couponCode))) == {t.coupon.value}
    ensures t.coupon.None? ==> t.discountCents == 0
    ensures t.afterDiscountCents == AfterDiscount(t.subtotalCents, t.discountCents)
    ensures CartChosen(old(db.carts), old(db.nextCartPk), old(s.cartId), user, cartPk, db.carts, db.nextCartPk, s.cartId)
    ensures db.nextItemPk == old(db.nextItemPk) && s.cart == old(s.cart)
    ensures s.couponCode == (if SessionCode(old(s.couponCode)) != "" && t.coupon.None? then None else old(s.couponCode))
    ensures s.modified == (old(s.modified) || StoresCartId(old(db.carts), old(s.cartId), user)
      || (SessionCode(old(s.couponCode)) != "" && t.coupon.None? && old(s.couponCode).Some?))
  {
    cartPk := GetCart(db, s, user);
    var subtotal := DbCartSubtotal(db, cartPk);
    var discount, applied := ApplyCouponIfAny(s, coupons, now, subtotal);
    var after := if subtotal - discount > 0 then subtotal - discount else 0;
    t := Totals(subtotal, discount, after, applied);
  }

  /** `cart_view` in session mode up to the VAT step; `None` when a key of
      the session cart is not a number, in which case nothing changes. */
  method CartViewSession(s: Session, variants: map<nat, Variant>, coupons: map<nat, Coupon>, now: int)
    returns (t: Option<Totals>)
    modifies s
    ensures t.Some? <==> KeysParse(old(s.CartEntries()))
    ensures t.None? ==> s.couponCode == old(s.couponCode) && s.modified == old(s.modified)
    ensures t.Some? ==> t.value.subtotalCents == SessionSubtotal(old(s.CartEntries()), variants)
    ensures t.Some? ==> (t.value.coupon.Some? <==>
      SessionCode(old(s.couponCode)) != "" && |MatchingCoupons(coupons, now, SessionCode(old(s.couponCode)))| == 1)
    ensures t.Some? && t.value.coupon.Some? ==>
      t.value.coupon.value in coupons && t.value.discountCents == DiscountAmount(coupons[t.value.coupon.value], t.value.subtotalCents)
    ensures t.Some? && t.value.coupon.Some? ==>
      MatchingCoupons(coupons, now, SessionCode(old(s.couponCode))) == {t.value.coupon.value}
    ensures t.Some? && t.value.coupon.None? ==> t.value.discountCents == 0
    ensures t.Some? ==> t.value.afterDiscountCents == AfterDiscount(t.value.subtotalCents, t.value.discountCents)
    ensures t.Some? ==>
      s.couponCode == (if SessionCode(old(s.couponCode)) != "" && t.value.coupon.None? then None else old(s.couponCode))
    ensures t.Some? ==>
      s.modified == (old(s.modified) || (SessionCode(old(s.couponCode)) != "" && t.value.coupon.None? && old(s.couponCode).Some?))
    ensures s.cart == old(s.cart) && s.cartId == old(s.cartId)
  {
    var subtotal := SessionCartSubtotal(s, variants);
    if subtotal.None? {
      return None;
    }
    var discount, applied := ApplyCouponIfAny(s, coupons, now, subtotal.value);
    var after := if subtotal.value - discount > 0 then subtotal.value - discount else 0;
    t := Some(Totals(subtotal.value, discount, after, applied));
  }
}
