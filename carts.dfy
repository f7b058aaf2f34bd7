/** The cart of store/views.py in its two forms. In session mode the
    session holds a dictionary from variant id (as text) to quantity; in
    database mode a cart row belongs to a user (or to an anonymous session
    through the session's `cart_id`) and its lines are CartItem rows.
    Tables are maps from primary key to row. */
module Carts {
  import opened Wrappers
  import opened Text
  import opened Models

  // ---------------------------------------------------------------------
  // Session

  /** What the session holds under `cart`: nothing, a dictionary, or a
      value of some other shape. */
  datatype StoredCart = NoCart | CartDict(entries: map<string, int>) | NotADict

  /** The parts of the request's session the cart code reads and writes. */
  class Session {
    var cart: StoredCart
    var cartId: Option<int>
    var couponCode: Option<string>
    var modified: bool

    constructor ()
      ensures cart == NoCart && cartId == None && couponCode == None && !modified
    {
      cart := NoCart;
      cartId := None;
      couponCode := None;
      modified := false;
    }

    /** `_get_cart_session_dict`: the stored dictionary, or an empty one
        when there is none or the stored value is not a dictionary. */
    function CartEntries(): (m: map<string, int>)
      reads this
    {
      if cart.CartDict? then cart.entries else map[]
    }

    /** `_save_cart_session_dict`: stores the dictionary and marks the
        session as modified. */
    method SaveCartEntries(m: map<string, int>)
      modifies this
      ensures cart == CartDict(m) && modified
      ensures CartEntries() == m
      ensures cartId == old(cartId) && couponCode == old(couponCode)
    {
      cart := CartDict(m);
      modified := true;
    }
  }

  /** The session key of a variant: `str(variant_id)`, a numeral without
      leading zeros whose value is the id. */
  function CartKey(variantId: nat): (r: string)
    ensures r != [] && AllDigits(r) && DecimalValue(r) == variantId
    ensures r[0] == '0' ==> r == "0"
  {
    DecimalRoundTrip(variantId);
    NatToDecimal(variantId)
  }

  /** The quantity stored for `key`, 0 when absent (`cart.get(key, 0)`). */
  function QuantityIn(m: map<string, int>, key: string): int {
    if key in m then m[key] else 0
  }

  /** The session dictionary after adding one unit under `key`. */
  function SessionAdd(m: map<string, int>, key: string): (r: map<string, int>)
    ensures r.Keys == m.Keys + {key}
    ensures QuantityIn(r, key) == QuantityIn(m, key) + 1
    ensures forall k :: k != key ==> QuantityIn(r, k) == QuantityIn(m, k)
  {
    m[key := QuantityIn(m, key) + 1]
  }

  /** The session dictionary after removing `key`. */
  function SessionRemove(m: map<string, int>, key: string): (r: map<string, int>)
    ensures key !in r && r.Keys == m.Keys - {key}
    ensures forall k :: k != key ==> QuantityIn(r, k) == QuantityIn(m, k)
  {
    m - {key}
  }

  /** Two adds of the same variant give two units. */
  lemma SessionAddTwice(m: map<string, int>, key: string)
    ensures QuantityIn(SessionAdd(SessionAdd(m, key), key), key) == QuantityIn(m, key) + 2
  {
  }

  /** Adds of different variants can happen in either order. */
  lemma SessionAddCommutes(m: map<string, int>, a: string, b: string)
    ensures SessionAdd(SessionAdd(m, a), b) == SessionAdd(SessionAdd(m, b), a)
  {
    if a != b {
      var l := SessionAdd(SessionAdd(m, a), b);
      var r := SessionAdd(SessionAdd(m, b), a);
      assert l.Keys == r.Keys;
      forall k | k in l
        ensures l[k] == r[k]
      {
        assert l[k] == QuantityIn(l, k) && r[k] == QuantityIn(r, k);
      }
    }
  }

  /** Removing after adding forgets the variant entirely. */
  lemma SessionRemoveAfterAdd(m: map<string, int>, key: string)
    ensures SessionRemove(SessionAdd(m, key), key) == SessionRemove(m, key)
  {
  }

  /** Different variant ids have different session keys, so adding one
      never touches another's quantity. */
  lemma CartKeyInjective(a: nat, b: nat)
    requires CartKey(a) == CartKey(b)
    ensures a == b
  {
    DecimalInjective(a, b);
  }

  /** `add_to_cart` in session mode: one more unit of the variant under
      its key; every other entry is kept. The variant is not looked up. */
  method AddToCartSession(s: Session, variantId: nat)
    modifies s
    ensures s.cart == CartDict(SessionAdd(old(s.CartEntries()), CartKey(variantId)))
    ensures s.modified
    ensures s.cartId == old(s.cartId) && s.couponCode == old(s.couponCode)
  {
    var cart := s.CartEntries();
    var key := NatToDecimal(variantId);
    cart := cart[key := (if key in cart then cart[key] else 0) + 1];
    s.SaveCartEntries(cart);
  }

  /** `remove_from_cart` in session mode: the entry goes and the session is
      saved; when there is no entry nothing is saved and the session is
      left exactly as it was. */
  method RemoveFromCartSession(s: Session, variantId: nat)
    modifies s
    ensures CartKey(variantId) in old(s.CartEntries()) ==>
      s.cart == CartDict(SessionRemove(old(s.CartEntries()), CartKey(variantId))) && s.modified
    ensures CartKey(variantId) !in old(s.CartEntries()) ==>
      s.cart == old(s.cart) && s.modified == old(s.modified)
    ensures s.cartId == old(s.cartId) && s.couponCode == old(s.couponCode)
  {
    var cart := s.CartEntries();
    var key := NatToDecimal(variantId);
    if key in cart {
      cart := cart - {key};
      s.SaveCartEntries(cart);
    }
  }

  // ---------------------------------------------------------------------
  // Database

  /** A cart row: the user it belongs to, or none for an anonymous cart. */
  datatype CartRow = CartRow(user: Option<nat>)

  /** A line of a cart. */
  datatype CartItemRow = CartItemRow(cart: nat, variant: nat, quantity: nat)

  /** The cart tables, the variant table, and the next primary keys the
      database will hand out. */
  class Database {
    var carts: map<nat, CartRow>
    var items: map<nat, CartItemRow>
    var variants: map<nat, Variant>
    var nextCartPk: nat
    var nextItemPk: nat

    ghost predicate Valid()
      reads this
    {
      TablesValid(carts, items, variants, nextCartPk, nextItemPk)
    }

    constructor (variants: map<nat, Variant>)
      requires forall k :: k in variants ==> variants[k].id == k
      ensures Valid()
      ensures this.carts == map[] && this.items == map[] && this.variants == variants
    {
      this.carts := map[];
      this.items := map[];
      this.variants := variants;
      this.nextCartPk := 1;
      this.nextItemPk := 1;
    }
  }

  /** Keys below the counters and never 0, foreign keys that resolve,
      quantities of at least one, one line per (cart, variant) and one cart
      per user. */
  ghost predicate TablesValid(carts: map<nat, CartRow>, items: map<nat, CartItemRow>, variants: map<nat, Variant>, nextCartPk: nat, nextItemPk: nat) {
    && 0 < nextCartPk
    && (forall k :: k in carts ==> 0 < k < nextCartPk)
    && (forall k :: k in items ==> k < nextItemPk)
    && (forall k :: k in variants ==> variants[k].id == k)
    && (forall k :: k in items ==> items[k].cart in carts && items[k].variant in variants && items[k].quantity >= 1)
    && UniqueLines(items)
    && (forall a, b :: a in carts && b in carts && carts[a].user.Some? && carts[a].user == carts[b].user ==> a == b)
  }

  /** The `unique_together = ("cart", "variant")` constraint. */
  ghost predicate UniqueLines(items: map<nat, CartItemRow>) {
    forall a, b :: a in items && b in items && items[a].cart == items[b].cart && items[a].variant == items[b].variant ==> a == b
  }

  /** Whether a line for (`cart`, `variant`) exists. */
  predicate HasLine(items: map<nat, CartItemRow>, cart: nat, variant: nat) {
    exists k :: k in items && items[k].cart == cart && items[k].variant == variant
  }

  /** The quantity of `variant` in `cart`, 0 when there is no line. */
  ghost function QuantityOf(items: map<nat, CartItemRow>, cart: nat, variant: nat): nat {
    if HasLine(items, cart, variant) then
      var k :| k in items && items[k].cart == cart && items[k].variant == variant;
      items[k].quantity
    else 0
  }

  /** The lines after `get_or_create` plus the increment: the existing
      line gains one unit, or a new line with one unit is added under
      `nextPk`. */
  ghost function ItemsAfterAdd(items: map<nat, CartItemRow>, cart: nat, variant: nat, nextPk: nat): map<nat, CartItemRow> {
    if HasLine(items, cart, variant) then
      var k :| k in items && items[k].cart == cart && items[k].variant == variant;
      items[k := items[k].(quantity := items[k].quantity + 1)]
    else items[nextPk := CartItemRow(cart, variant, 1)]
  }

  /** With lines unique, the quantity of a pair is that of its line. */
  lemma QuantityAt(items: map<nat, CartItemRow>, c: nat, v: nat, k: nat)
    requires UniqueLines(items)
    requires k in items && items[k].cart == c && items[k].variant == v
    ensures QuantityOf(items, c, v) == items[k].quantity
  {
    assert HasLine(items, c, v);
    var j :| j in items && items[j].cart == c && items[j].variant == v;
    assert j == k;
  }

  /** A pair without a line has quantity 0. */
  lemma QuantityNone(items: map<nat, CartItemRow>, c: nat, v: nat)
    requires forall k :: k in items ==> !(items[k].cart == c && items[k].variant == v)
    ensures QuantityOf(items, c, v) == 0
  {
  }

  /** The add on a pair that has a line: that line gains one unit. */
  lemma AfterAddExisting(items: map<nat, CartItemRow>, cart: nat, variant: nat, nextPk: nat, k: nat)
    requires UniqueLines(items)
    requires k in items && items[k].cart == cart && items[k].variant == variant
    ensures ItemsAfterAdd(items, cart, variant, nextPk) == items[k := items[k].(quantity := items[k].quantity + 1)]
  {
    assert HasLine(items, cart, variant);
    var j :| j in items && items[j].cart == cart && items[j].variant == variant;
    assert j == k;
  }

  /** The add on a pair without a line: a new line with one unit. */
  lemma AfterAddNew(items: map<nat, CartItemRow>, cart: nat, variant: nat, nextPk: nat)
    requires forall k :: k in items ==> !(items[k].cart == cart && items[k].variant == variant)
    ensures !HasLine(items, cart, variant)
    ensures ItemsAfterAdd(items, cart, variant, nextPk) == items[nextPk := CartItemRow(cart, variant, 1)]
  {
  }

  /** Adding raises the quantity of the (cart, variant) pair by one and
      leaves every other pair alone: the same as the session's add. */
  lemma AddIncrementsQuantity(items: map<nat, CartItemRow>, cart: nat, variant: nat, nextPk: nat, c: nat, v: nat)
    requires UniqueLines(items)
    requires nextPk !in items
    ensures var after := ItemsAfterAdd(items, cart, variant, nextPk);
      QuantityOf(after, c, v) == QuantityOf(items, c, v) + (if c == cart && v == variant then 1 else 0)
  {
    if HasLine(items, cart, variant) {
      var k :| k in items && items[k].cart == cart && items[k].variant == variant;
      AfterAddExisting(items, cart, variant, nextPk, k);
      IncrementKeepsUnique(items, k);
      IncrementQuantity(items, k, c, v);
    } else {
      NewLineKeepsUnique(items, nextPk, cart, variant);
      NewLineQuantity(items, nextPk, cart, variant, c, v);
    }
  }

  lemma IncrementQuantity(items: map<nat, CartItemRow>, k: nat, c: nat, v: nat)
    requires UniqueLines(items) && k in items
    requires UniqueLines(items[k := items[k].(quantity := items[k].quantity + 1)])
    ensures var after := items[k := items[k].(quantity := items[k].quantity + 1)];
      QuantityOf(after, c, v) == QuantityOf(items, c, v) + (if c == items[k].cart && v == items[k].variant then 1 else 0)
  {
    var after := items[k := items[k].(quantity := items[k].quantity + 1)];
    if c == items[k].cart && v == items[k].variant {
      QuantityAt(items, c, v, k);
      QuantityAt(after, c, v, k);
    } else if HasLine(items, c, v) {
      var j :| j in items && items[j].cart == c && items[j].variant == v;
      QuantityAt(items, c, v, j);
      QuantityAt(after, c, v, j);
    } else {
      QuantityNone(items, c, v);
      QuantityNone(after, c, v);
    }
  }

  lemma NewLineQuantity(items: map<nat, CartItemRow>, pk: nat, cart: nat, variant: nat, c: nat, v: nat)
    requires UniqueLines(items) && pk !in items && !HasLine(items, cart, variant)
    requires UniqueLines(items[pk := CartItemRow(cart, variant, 1)])
    ensures var after := items[pk := CartItemRow(cart, variant, 1)];
      QuantityOf(after, c, v) == QuantityOf(items, c, v) + (if c == cart && v == variant then 1 else 0)
  {
    var after := items[pk := CartItemRow(cart, variant, 1)];
    if c == cart && v == variant {
      QuantityNone(items, c, v);
      QuantityAt(after, c, v, pk);
    } else if HasLine(items, c, v) {
      var j :| j in items && items[j].cart == c && items[j].variant == v;
      QuantityAt(items, c, v, j);
      QuantityAt(after, c, v, j);
    } else {
      QuantityNone(items, c, v);
      QuantityNone(after, c, v);
    }
  }

  /** An anonymous session whose remembered key names an existing cart
      keeps using that cart. */
  predicate ReusesCart(carts: map<nat, CartRow>, cartId: Option<int>) {
    cartId.Some? && cartId.value > 0 && cartId.value in carts
  }

  /** `_get_cart` writes the session only for an anonymous visitor whose
      remembered cart cannot be reused. */
  predicate StoresCartId(carts: map<nat, CartRow>, cartId: Option<int>, user: Option<nat>) {
    user.None? && !ReusesCart(carts, cartId)
  }

  /** The cart `_get_cart` settles on and what it leaves behind, from the
      cart table `carts`, the next cart key `next` and the session's
      `cartId` before the call to the primed values after it: the user's
      own cart, or a new one for them; the remembered anonymous cart; or a
      new anonymous cart whose key the session then remembers. */
  ghost predicate CartChosen(carts: map<nat, CartRow>, next: nat, cartId: Option<int>, user: Option<nat>,
                             cartPk: nat, carts': map<nat, CartRow>, next': nat, cartId': Option<int>) {
    if user.Some? then
      cartId' == cartId &&
      if exists k :: k in carts && carts[k].user == user then
        cartPk in carts && carts[cartPk].user == user && carts' == carts && next' == next
      else
        cartPk == next && carts' == carts[next := CartRow(user)] && next' == next + 1
    else if ReusesCart(carts, cartId) then
      cartPk == cartId.value && carts' == carts && next' == next && cartId' == cartId
    else
      cartPk == next && carts' == carts[next := CartRow(None)] && next' == next + 1 && cartId' == Some(next)
  }

  /** On valid tables the choice is determined: whatever `_get_cart` may
      do, the cart, the new cart table, the counter and the session key are
      the same, because a user has at most one cart. */
  lemma CartChosenUnique(carts: map<nat, CartRow>, items: map<nat, CartItemRow>, variants: map<nat, Variant>,
                         next: nat, nextItem: nat, cartId: Option<int>, user: Option<nat>,
                         p1: nat, c1: map<nat, CartRow>, n1: nat, i1: Option<int>,
                         p2: nat, c2: map<nat, CartRow>, n2: nat, i2: Option<int>)
    requires TablesValid(carts, items, variants, next, nextItem)
    requires CartChosen(carts, next, cartId, user, p1, c1, n1, i1)
    requires CartChosen(carts, next, cartId, user, p2, c2, n2, i2)
    ensures p1 == p2 && c1 == c2 && n1 == n2 && i1 == i2
  {
    if user.Some? && exists k :: k in carts && carts[k].user == user {
      assert carts[p1].user.Some? && carts[p1].user == carts[p2].user;
    }
  }

  /** `_get_cart` in database mode. A signed-in user gets their cart,
      created if missing. An anonymous visitor gets the cart whose key the
      session remembers; when the session remembers none (or 0), or that
      cart is gone, a new anonymous cart is created and remembered. */
  method GetCart(db: Database, s: Session, user: Option<nat>) returns (cartPk: nat)
    requires db.Valid()
    modifies db, s
    ensures db.Valid()
    ensures cartPk in db.carts
    ensures db.items == old(db.items) && db.variants == old(db.variants) && db.nextItemPk == old(db.nextItemPk)
    ensures s.cart == old(s.cart) && s.couponCode == old(s.couponCode)
    ensures cartPk in old(db.carts) ==> db.carts == old(db.carts) && db.nextCartPk == old(db.nextCartPk)
    ensures cartPk !in old(db.carts) ==>
      cartPk == old(db.nextCartPk) && db.nextCartPk == cartPk + 1 && db.carts == old(db.carts)[cartPk := CartRow(user)]
    ensures user.Some? ==> db.carts[cartPk].user == user
    ensures user.Some? ==> (cartPk in old(db.carts) <==> exists k :: k in old(db.carts) && old(db.carts)[k].user == user)
    ensures user.Some? ==> s.cartId == old(s.cartId) && s.modified == old(s.modified)
    ensures user.None? && old(s.cartId).Some? && old(s.cartId).value > 0 && old(s.cartId).value in old(db.carts) ==>
      cartPk == old(s.cartId).value && s.cartId == old(s.cartId) && s.modified == old(s.modified)
    ensures user.None? && !(old(s.cartId).Some? && old(s.cartId).value > 0 && old(s.cartId).value in old(db.carts)) ==>
      cartPk !in old(db.carts) && s.cartId == Some(cartPk) && s.modified
    ensures CartChosen(old(db.carts), old(db.nextCartPk), old(s.cartId), user, cartPk, db.carts, db.nextCartPk, s.cartId)
    ensures s.modified == (old(s.modified) || StoresCartId(old(db.carts), old(s.cartId), user))
  {
    if user.Some? {
      if exists k :: k in db.carts && db.carts[k].user == user {
        cartPk :| cartPk in db.carts && db.carts[cartPk].user == user;
      } else {
        cartPk := CreateCart(db, user);
      }
    } else {
      var cid := s.cartId;
      if cid.Some? && cid.value != 0 {
        if cid.value >= 0 && cid.value in db.carts {
          cartPk := cid.value;
        } else {
          cartPk := CreateCart(db, None);
          s.cartId := Some(cartPk);
          s.modified := true;
        }
      } else {
        cartPk := CreateCart(db, None);
        s.cartId := Some(cartPk);
        s.modified := true;
      }
    }
  }

  /** `Cart.objects.create(user=...)`: a new row under the next key. */
  method CreateCart(db: Database, user: Option<nat>) returns (cartPk: nat)
    requires db.Valid()
    requires user.Some? ==> forall k :: k in db.carts ==> db.carts[k].user != user
    modifies db
    ensures db.Valid()
    ensures cartPk == old(db.nextCartPk) && cartPk !in old(db.carts)
    ensures db.carts == old(db.carts)[cartPk := CartRow(user)] && db.nextCartPk == cartPk + 1
    ensures db.items == old(db.items) && db.variants == old(db.variants) && db.nextItemPk == old(db.nextItemPk)
  {
    cartPk := db.nextCartPk;
    db.carts := db.carts[cartPk := CartRow(user)];
    db.nextCartPk := db.nextCartPk + 1;
  }

  /** `add_to_cart` in database mode. The cart is fetched (or created)
      first; then an unknown variant ends the request with "not found",
      leaving the cart lines alone; otherwise the line of the variant gains
      one unit or is created with one. */
  method AddToCartDb(db: Database, s: Session, user: Option<nat>, variantId: nat) returns (cartPk: nat, found: bool)
    requires db.Valid()
    modifies db, s
    ensures db.Valid()
    ensures found <==> variantId in old(db.variants)
    ensures cartPk in db.carts && db.variants == old(db.variants)
    ensures found ==> db.items == ItemsAfterAdd(old(db.items), cartPk, variantId, old(db.nextItemPk))
    ensures !found ==> db.items == old(db.items)
    ensures s.cart == old(s.cart) && s.couponCode == old(s.couponCode)
    ensures CartChosen(old(db.carts), old(db.nextCartPk), old(s.cartId), user, cartPk, db.carts, db.nextCartPk, s.cartId)
    ensures s.modified == (old(s.modified) || StoresCartId(old(db.carts), old(s.cartId), user))
  {
    cartPk := GetCart(db, s, user);
    if variantId !in db.variants {
      return cartPk, false;
    }
    found := true;
    AddLine(db, cartPk, variantId);
  }

  /** `CartItem.objects.get_or_create(cart=..., variant=...)` with one
      unit by default, then one more unit when the line already existed. */
  method AddLine(db: Database, cartPk: nat, variantId: nat)
    requires db.Valid()
    requires cartPk in db.carts && variantId in db.variants
    modifies db
    ensures db.Valid()
    ensures db.items == ItemsAfterAdd(old(db.items), cartPk, variantId, old(db.nextItemPk))
    ensures db.carts == old(db.carts) && db.variants == old(db.variants) && db.nextCartPk == old(db.nextCartPk)
  {
    var items, next := db.items, db.nextItemPk;
    if k :| k in items && items[k].cart == cartPk && items[k].variant == variantId {
      AfterAddExisting(items, cartPk, variantId, next, k);
      IncrementKeepsValid(db.carts, items, db.variants, db.nextCartPk, next, k);
      items := items[k := items[k].(quantity := items[k].quantity + 1)];
    } else {
      AfterAddNew(items, cartPk, variantId, next);
      NewLineKeepsValid(db.carts, items, db.variants, db.nextCartPk, next, cartPk, variantId);
      items, next := items[next := CartItemRow(cartPk, variantId, 1)], next + 1;
    }
    db.items, db.nextItemPk := items, next;
  }

  lemma IncrementKeepsValid(carts: map<nat, CartRow>, items: map<nat, CartItemRow>, variants: map<nat, Variant>, nextCartPk: nat, nextItemPk: nat, k: nat)
    requires TablesValid(carts, items, variants, nextCartPk, nextItemPk) && k in items
    ensures TablesValid(carts, items[k := items[k].(quantity := items[k].quantity + 1)], variants, nextCartPk, nextItemPk)
  {
    IncrementKeepsUnique(items, k);
  }

  lemma NewLineKeepsValid(carts: map<nat, CartRow>, items: map<nat, CartItemRow>, variants: map<nat, Variant>, nextCartPk: nat, nextItemPk: nat, cart: nat, variant: nat)
    requires TablesValid(carts, items, variants, nextCartPk, nextItemPk)
    requires cart in carts && variant in variants && !HasLine(items, cart, variant)
    ensures TablesValid(carts, items[nextItemPk := CartItemRow(cart, variant, 1)], variants, nextCartPk, nextItemPk + 1)
  {
    NewLineKeepsUnique(items, nextItemPk, cart, variant);
  }

  lemma IncrementKeepsUnique(items: map<nat, CartItemRow>, k: nat)
    requires UniqueLines(items) && k in items
    ensures UniqueLines(items[k := items[k].(quantity := items[k].quantity + 1)])
  {
  }

  lemma NewLineKeepsUnique(items: map<nat, CartItemRow>, pk: nat, cart: nat, variant: nat)
    requires UniqueLines(items) && pk !in items && !HasLine(items, cart, variant)
    ensures UniqueLines(items[pk := CartItemRow(cart, variant, 1)])
  {
    assert forall j :: j in items ==> !(items[j].cart == cart && items[j].variant == variant);
  }

  /** `remove_from_cart` in database mode: the line with that key goes,
      whichever cart it belongs to; no line, no change. */
  method RemoveFromCartDb(db: Database, itemId: nat)
    requires db.Valid()
    modifies db
    ensures db.Valid()
    ensures db.items == old(db.items) - {itemId}
    ensures db.carts == old(db.carts) && db.variants == old(db.variants)
    ensures db.nextCartPk == old(db.nextCartPk) && db.nextItemPk == old(db.nextItemPk)
  {
    db.items := db.items - {itemId};
  }

  /** Removing a line takes away exactly that line's quantity: every other
      (cart, variant) pair keeps its quantity. */
  lemma RemoveLineQuantity(items: map<nat, CartItemRow>, itemId: nat, c: nat, v: nat)
    requires UniqueLines(items)
    ensures QuantityOf(items - {itemId}, c, v) ==
      if itemId in items && items[itemId].cart == c && items[itemId].variant == v then 0 else QuantityOf(items, c, v)
  {
    var after := items - {itemId};
    if HasLine(after, c, v) {
      var j :| j in after && after[j].cart == c && after[j].variant == v;
      assert j in items && items[j].cart == c && items[j].variant == v;
      var ja :| ja in after && after[ja].cart == c && after[ja].variant == v;
      var ji :| ji in items && items[ji].cart == c && items[ji].variant == v;
      assert ja == ji;
    } else if HasLine(items, c, v) {
      var ji :| ji in items && items[ji].cart == c && items[ji].variant == v;
      assert ji !in after;
      assert ji == itemId;
    }
  }
}
