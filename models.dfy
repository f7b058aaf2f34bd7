/** store/models.py: the rules carried by the shop's records. Coupons (the
    discount they give, the validity window their query set filters by, the
    check that forbids two kinds of discount), the QR invite's defaults and
    validity, and the label of a product variant. Timestamps are whole
    seconds. */
module Models {
  import opened Wrappers
  import opened Text

  // ---------------------------------------------------------------------
  // Variant

  /** A variant row. `attrs` is the JSON dictionary (`None` for a JSON
      null); `priceGrossCents` is `None` only for a price that was never
      set. */
  datatype Variant = Variant(
    id: nat,
    priceGrossCents: Option<nat>,
    stock: nat,
    attrs: Option<map<string, string>>)

  /** `(attrs or {}).get(key)`. */
  function Attr(attrs: Option<map<string, string>>, key: string): (r: Option<string>)
    ensures r.Some? <==> attrs.Some? && key in attrs.value
    ensures r.Some? ==> r.value == attrs.value[key]
  {
    if attrs.Some? && key in attrs.value then Some(attrs.value[key]) else None
  }

  /** The `size` property. */
  function Size(v: Variant): Option<string> {
    Attr(v.attrs, "size")
  }

  /** The `color` property. */
  function Color(v: Variant): Option<string> {
    Attr(v.attrs, "color")
  }

  /** The truthy parts among `parts`, in order: every set, non-empty
      part is kept and nothing else is (the order is `PresentAppend`). */
  function Present(parts: seq<Option<string>>): (r: seq<string>)
    ensures forall i :: 0 <= i < |r| ==> r[i] != ""
    ensures |r| <= |parts|
    ensures forall i :: 0 <= i < |parts| && parts[i].Some? && parts[i].value != "" ==> parts[i].value in r
    ensures forall x :: x in r ==> Some(x) in parts
  {
    if parts == [] then []
    else
      assert forall i :: 1 <= i < |parts| ==> parts[i] == parts[1..][i - 1];
      assert forall p :: p in parts[1..] ==> p in parts;
      (if parts[0].Some? && parts[0].value != "" then [parts[0].value] else []) + Present(parts[1..])
  }

  /** Filtering keeps the order of the parts: the truthy parts of a
      concatenation are those of the first half followed by those of the
      second. */
  lemma {:induction false} PresentAppend(a: seq<Option<string>>, b: seq<Option<string>>)
    ensures Present(a + b) == Present(a) + Present(b)
  {
    if a == [] {
      assert a + b == b;
    } else {
      assert (a + b)[1..] == a[1..] + b;
      PresentAppend(a[1..], b);
    }
  }

  /** `sep.join(parts)`. */
  function Join(parts: seq<string>, sep: string): string {
    if parts == [] then "" else if |parts| == 1 then parts[0] else parts[0] + sep + Join(parts[1..], sep)
  }

  const LabelSeparator: string := " · "

  /** The bracketed label of `__str__`: the size and the colour that are
      set, joined by the separator, or `One` when neither is. */
  function VariantLabel(v: Variant): string {
    OrElse(Some(Join(Present([Size(v), Color(v)]), LabelSeparator)), "One")
  }

  /** `Variant.__str__`: the product title followed by the label in
      brackets; the bracketed text is exactly the label, never empty. */
  function VariantString(productTitle: string, v: Variant): (r: string)
    ensures |r| > |productTitle| + 3
    ensures r[..|productTitle|] == productTitle
    ensures r[|productTitle|..|productTitle| + 2] == " [" && r[|r| - 1] == ']'
    ensures r[|productTitle| + 2..|r| - 1] == VariantLabel(v)
  {
    VariantLabelNonEmpty(v);
    productTitle + " [" + VariantLabel(v) + "]"
  }

  /** The label case by case: both parts, one of them, or `One`. */
  lemma VariantLabelCases(v: Variant)
    ensures var s := Size(v);
      var c := Color(v);
      var hasS := s.Some? && s.value != "";
      var hasC := c.Some? && c.value != "";
      VariantLabel(v) ==
        if hasS && hasC then s.value + LabelSeparator + c.value
        else if hasS then s.value
        else if hasC then c.value
        else "One"
  {
    var s := Size(v);
    var c := Color(v);
    var ps := [s, c];
    assert ps[1..] == [c];
    assert [c][1..] == [];
    var tail := Present([c]);
    assert tail == (if c.Some? && c.value != "" then [c.value] else []);
    var parts := Present(ps);
    assert parts == (if s.Some? && s.value != "" then [s.value] else []) + tail;
    if |parts| == 2 {
      assert parts[1..] == [parts[1]];
      assert Join(parts, LabelSeparator) == parts[0] + LabelSeparator + parts[1];
    }
  }

  lemma VariantLabelNonEmpty(v: Variant)
    ensures VariantLabel(v) != ""
  {
    VariantLabelCases(v);
  }

  /** A null dictionary and an empty one read the same: no size, no colour,
      label `One`. */
  lemma NoAttrsLabel(v: Variant)
    requires v.attrs == None || v.attrs == Some(map[])
    ensures Size(v) == None && Color(v) == None
    ensures VariantLabel(v) == "One"
  {
    VariantLabelCases(v);
  }

  // ---------------------------------------------------------------------
  // Coupon

  /** A coupon row. Both discount fields are nullable; `0` and null are both
      "not set" to the code that reads them. */
  datatype Coupon = Coupon(
    id: nat,
    code: string,
    percentOff: Option<nat>,
    amountOffCents: Option<nat>,
    minSubtotalCents: nat,
    validFrom: Option<int>,
    validTo: Option<int>,
    active: bool)

  /** The value of a nullable whole-number field, with null read as 0: its
      truthiness is exactly `OrZero(x) > 0`. */
  function OrZero(x: Option<nat>): nat {
    if x.Some? then x.value else 0
  }

  /** `Coupon.discount_amount`: nothing below the minimum subtotal; a
      fixed amount (capped at the subtotal) wins over a percentage; the
      percentage is taken of the subtotal and rounded down. */
  function DiscountAmount(c: Coupon, subtotalCents: int): (d: int)
    ensures d >= 0
    ensures subtotalCents < c.minSubtotalCents ==> d == 0
    ensures OrZero(c.amountOffCents) > 0 || OrZero(c.percentOff) <= 100 ==> d <= subtotalCents || d == 0
    ensures OrZero(c.amountOffCents) > 0 && subtotalCents >= c.minSubtotalCents ==> d <= OrZero(c.amountOffCents)
    ensures subtotalCents >= c.minSubtotalCents && OrZero(c.amountOffCents) > 0 ==>
      d == Min(OrZero(c.amountOffCents), subtotalCents)
    ensures subtotalCents >= c.minSubtotalCents && OrZero(c.amountOffCents) == 0 && OrZero(c.percentOff) > 0 ==>
      d == subtotalCents * OrZero(c.percentOff) / 100
    ensures subtotalCents >= c.minSubtotalCents && OrZero(c.amountOffCents) == 0 && OrZero(c.percentOff) == 0 ==> d == 0
  {
    if subtotalCents < c.minSubtotalCents then 0
    else if OrZero(c.amountOffCents) > 0 then Min(OrZero(c.amountOffCents), subtotalCents)
    else if OrZero(c.percentOff) > 0 then
      assert subtotalCents * OrZero(c.percentOff) >= 0 by { NonNegativeProduct(subtotalCents, OrZero(c.percentOff)); }
      assert OrZero(c.percentOff) <= 100 ==> subtotalCents * OrZero(c.percentOff) / 100 <= subtotalCents by {
        if OrZero(c.percentOff) <= 100 { PercentAtMostWhole(subtotalCents, OrZero(c.percentOff)); }
      }
      subtotalCents * OrZero(c.percentOff) / 100
    else 0
  }

  function Min(a: int, b: int): int {
    if a <= b then a else b
  }

  lemma NonNegativeProduct(a: int, b: int)
    requires a >= 0 && b >= 0
    ensures a * b >= 0
  {
  }

  lemma PercentAtMostWhole(s: int, p: nat)
    requires s >= 0 && p <= 100
    ensures s * p / 100 <= s
  {
    assert s * p <= s * 100;
  }

  /** The discount never decreases as the subtotal grows. */
  lemma DiscountMonotone(c: Coupon, s: int, t: int)
    requires s <= t
    ensures DiscountAmount(c, s) <= DiscountAmount(c, t)
  {
    if s >= c.minSubtotalCents && OrZero(c.amountOffCents) == 0 && OrZero(c.percentOff) > 0 {
      MulMonotone(s, t, OrZero(c.percentOff));
    }
  }

  lemma MulMonotone(s: int, t: int, p: nat)
    requires s <= t
    ensures s * p / 100 <= t * p / 100
  {
    assert s * p <= t * p by {
      assert (t - s) * p >= 0;
    }
  }

  /** A percentage above 100 gives more than the subtotal: the cap the cart
      view applies afterwards is needed. */
  lemma DiscountCanExceedSubtotal(c: Coupon)
    requires c.minSubtotalCents == 0 && c.amountOffCents == None && c.percentOff == Some(150)
    ensures DiscountAmount(c, 1000) == 1500
  {
  }

  /** Once `clean` has accepted a coupon, the order in which the two kinds
      are tried does not matter: percentage first would give the same
      amount. */
  lemma CleanMakesOrderIrrelevant(c: Coupon, subtotalCents: int)
    requires Clean(c).None?
    ensures DiscountAmount(c, subtotalCents) ==
      if subtotalCents < c.minSubtotalCents then 0
      else if OrZero(c.percentOff) > 0 then subtotalCents * OrZero(c.percentOff) / 100
      else if OrZero(c.amountOffCents) > 0 then Min(OrZero(c.amountOffCents), subtotalCents)
      else 0
  {
  }

  /** `Coupon.clean`: the validation error when both kinds of discount are
      set, `None` when the coupon is acceptable. */
  function Clean(c: Coupon): (err: Option<string>)
    ensures err.Some? <==> OrZero(c.percentOff) > 0 && OrZero(c.amountOffCents) > 0
  {
    if OrZero(c.percentOff) > 0 && OrZero(c.amountOffCents) > 0 then
      Some("Set either percent_off OR amount_off_cents, not both.")
    else None
  }

  /** The filter of `CouponQuerySet.valid` for one row: active, started
      (or no start) and not ended (or no end) at `now`, both ends
      inclusive. */
  predicate CouponValidAt(c: Coupon, now: int) {
    c.active
    && (c.validFrom.None? || c.validFrom.value <= now)
    && (c.validTo.None? || now <= c.validTo.value)
  }

  /** `Coupon.objects.valid()`: the rows of the coupon table that pass the
      filter at `now`, keyed by primary key. */
  function ValidCoupons(coupons: map<nat, Coupon>, now: int): (r: map<nat, Coupon>)
    ensures forall k :: k in r <==> k in coupons && CouponValidAt(coupons[k], now)
    ensures forall k :: k in r ==> r[k] == coupons[k]
  {
    map k | k in coupons && CouponValidAt(coupons[k], now) :: coupons[k]
  }

  /** The validity window is an interval: valid at two instants means valid
      at every instant between them. */
  lemma ValidBetween(c: Coupon, t1: int, t: int, t2: int)
    requires t1 <= t <= t2
    requires CouponValidAt(c, t1) && CouponValidAt(c, t2)
    ensures CouponValidAt(c, t)
  {
  }

  /** Both ends of the window count: an active coupon is valid at its
      first and its last instant, and at no instant outside. */
  lemma ValidWindowInclusive(c: Coupon, t: int)
    requires c.active && c.validFrom.Some? && c.validTo.Some?
    ensures CouponValidAt(c, t) <==> c.validFrom.value <= t <= c.validTo.value
  {
  }

  // ---------------------------------------------------------------------
  // QRInvite

  /** Thirty minutes, the default lifetime of an invite. */
  const InviteLifetime: int := 30 * 60

  class QRInvite {
    var token: string
    var expiresAt: Option<int>
    var maxUses: nat
    var uses: nat

    /** A new, unsaved invite: no token, no expiry, one use allowed. */
    constructor ()
      ensures token == "" && expiresAt == None && maxUses == 1 && uses == 0
    {
      token := "";
      expiresAt := None;
      maxUses := 1;
      uses := 0;
    }

    /** `save`: a missing token is replaced by `generated` (the random
        `token_urlsafe(32)`), a missing expiry becomes thirty minutes after
        `now`; fields already set are kept. */
    method Save(now: int, generated: string)
      requires generated != ""
      modifies this
      ensures token == (if old(token) == "" then generated else old(token))
      ensures expiresAt == (if old(expiresAt).None? then Some(now + InviteLifetime) else old(expiresAt))
      ensures maxUses == old(maxUses) && uses == old(uses)
      ensures token != "" && expiresAt.Some?
    {
      if token == "" {
        token := generated;
      }
      if expiresAt.None? {
        expiresAt := Some(now + InviteLifetime);
      }
    }

    /** `is_valid`: uses left and not yet expired (the expiry instant
        itself is already too late). */
    predicate IsValid(now: int)
      reads this
      requires expiresAt.Some?
    {
      uses < maxUses && now < expiresAt.value
    }
  }

  /** A fresh invite saved at `saved` can be used exactly until thirty
      minutes later, and not at that instant. */
  lemma FreshInviteWindow(inv: QRInvite, saved: int, t: int)
    requires inv.expiresAt == Some(saved + InviteLifetime) && inv.uses == 0 && inv.maxUses == 1
    ensures inv.IsValid(t) <==> t < saved + 1800
  {
  }

  /** Validity only runs out: an invite not valid at some instant stays
      invalid at every later instant while its uses and expiry are left
      as they are. */
  lemma InviteExpiryIsFinal(inv: QRInvite, t: int, later: int)
    requires inv.expiresAt.Some? && t <= later
    requires !inv.IsValid(t)
    ensures !inv.IsValid(later)
  {
  }
}
