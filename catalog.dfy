/** The product page (`product_detail` in store/views.py): colour
    normalisation, the swatch list, the variants grouped by colour, and the
    images grouped by colour with their fallbacks. The query results arrive
    as sequences already in the order the query asks for. */
module Catalog {
  import opened Wrappers
  import opened Text
  import opened Models

  // ---------------------------------------------------------------------
  // normalize_color

  /** `normalize_color`: a missing or empty colour is `One`; then the value
      is stripped and lowered. A key is therefore in lower case already and
      neither starts nor ends with whitespace. */
  function NormalizeColor(c: Option<string>): (r: string)
    ensures Lower(r) == r
    ensures r == [] || (!IsSpace(r[0]) && !IsSpace(r[|r| - 1]))
  {
    var t := Strip(OrElse(c, "One"));
    StripIsCore(OrElse(c, "One"));
    LowerIdempotent(t);
    Lower(t)
  }

  /** No colour at all and an empty colour both land under `one`. */
  lemma NormalizeColorDefault()
    ensures NormalizeColor(None) == "one" && NormalizeColor(Some("")) == "one"
  {
    assert TrimStart("One") == "One";
    assert TrimEnd("One") == "One";
    assert Lower("One") == "one" by {
      assert "One"[1..] == "ne" && "ne"[1..] == "e" && "e"[1..] == [];
    }
  }

  /** Normalising a key again gives the same key, unless the key is empty
      (an all-whitespace colour): the empty key normalises to `one`. */
  lemma NormalizeColorIdempotent(c: Option<string>)
    ensures NormalizeColor(c) != "" ==> NormalizeColor(Some(NormalizeColor(c))) == NormalizeColor(c)
  {
    var s := Strip(OrElse(c, "One"));
    StripLower(s);
    StripIdempotent(OrElse(c, "One"));
    LowerIdempotent(s);
  }

  /** Whitespace around a colour never changes its key. */
  lemma NormalizeColorPadded(w1: string, s: string, w2: string)
    requires AllSpace(w1) && AllSpace(w2) && s != ""
    ensures NormalizeColor(Some(w1 + s + w2)) == NormalizeColor(Some(s))
  {
    StripPadded(w1, s, w2);
  }

  /** Nor does the case of its letters. */
  lemma NormalizeColorCase(s: string)
    requires s != ""
    ensures NormalizeColor(Some(Lower(s))) == NormalizeColor(Some(s))
  {
    StripLower(s);
    LowerIdempotent(Strip(s));
  }

  /** The page's own case: `"  Black "` and `"black"` share the key
      `black`. */
  lemma NormalizeColorExample(padded: string, plain: string)
    requires padded == "  Black " && plain == "black"
    ensures NormalizeColor(Some(padded)) == NormalizeColor(Some(plain)) == "black"
  {
    var w1, word, w2 := padded[..2], padded[2..7], padded[7..];
    PaddedParts(padded, w1, word, w2);
    NormalizeColorPadded(w1, word, w2);
    NormalizeColorCase(word);
    LowerExample(word, plain);
    LowerIdempotent(word);
    PlainKey(plain);
  }

  lemma PaddedParts(padded: string, w1: string, word: string, w2: string)
    requires padded == "  Black "
    requires w1 == padded[..2] && word == padded[2..7] && w2 == padded[7..]
    ensures padded == w1 + word + w2 && AllSpace(w1) && AllSpace(w2) && word == "Black"
  {
    assert padded == w1 + word + w2;
  }

  lemma LowerExample(word: string, plain: string)
    requires word == "Black" && plain == "black"
    ensures Lower(word) == plain
  {
    var r := Lower(word);
    assert LowerChar('B') == 'b';
    assert forall i :: 0 <= i < 5 ==> r[i] == plain[i];
  }

  lemma PlainKey(plain: string)
    requires plain == "black" && Lower(plain) == plain
    ensures NormalizeColor(Some(plain)) == plain
  {
    assert !IsSpace(plain[0]) && !IsSpace(plain[4]);
    assert TrimStart(plain) == plain;
    assert TrimEnd(plain) == plain;
  }

  /** A colour made only of whitespace is truthy, so it is not replaced by
      `One`, and strips to the empty key. */
  lemma BlankColorKey(w: string)
    requires w != "" && AllSpace(w)
    ensures NormalizeColor(Some(w)) == ""
  {
    TrimStartAllSpace(w);
  }

  // ---------------------------------------------------------------------
  // Variants

  /** One entry of a colour group: id, size (empty when unset), price
      (0 when unset) and stock. */
  datatype VariantEntry = VariantEntry(id: nat, size: string, price: nat, stock: nat)

  /** The colour label a variant shows on its swatch. */
  function RawColor(v: Variant): string {
    OrElse(Color(v), "One")
  }

  /** The key of the group a variant belongs to. */
  function ColorKey(v: Variant): string {
    NormalizeColor(Some(RawColor(v)))
  }

  function EntryOf(v: Variant): VariantEntry {
    VariantEntry(v.id, OrElse(Size(v), ""), OrZero(v.priceGrossCents), v.stock)
  }

  /** The swatch labels of the variants, one per variant. */
  function RawColors(vs: seq<Variant>): (r: seq<string>)
    ensures |r| == |vs|
    ensures forall j :: 0 <= j < |vs| ==> r[j] == RawColor(vs[j])
  {
    if vs == [] then [] else RawColors(vs[..|vs| - 1]) + [RawColor(vs[|vs| - 1])]
  }

  /** Each label once, in the order of first appearance: a label is added
      the first time it is seen. */
  function Distinct(xs: seq<string>): seq<string> {
    if xs == [] then []
    else
      var d := Distinct(xs[..|xs| - 1]);
      if xs[|xs| - 1] in xs[..|xs| - 1] then d else d + [xs[|xs| - 1]]
  }

  /** The swatch list shown on the page: `colors or ['One']`. */
  function Swatches(colors: seq<string>): seq<string> {
    if colors == [] then ["One"] else colors
  }

  /** The entries of the group with key `key`, in the order of `vs`. */
  function GroupOf(vs: seq<Variant>, key: string): seq<VariantEntry> {
    if vs == [] then []
    else GroupOf(vs[..|vs| - 1], key) + (if ColorKey(vs[|vs| - 1]) == key then [EntryOf(vs[|vs| - 1])] else [])
  }

  /** The keys of the groups the variants of `vs` fall into. */
  function KeysOf(vs: seq<Variant>): set<string> {
    if vs == [] then {} else KeysOf(vs[..|vs| - 1]) + {ColorKey(vs[|vs| - 1])}
  }

  lemma {:induction false} KeysOfMembers(vs: seq<Variant>, key: string)
    ensures key in KeysOf(vs) <==> exists j :: 0 <= j < |vs| && ColorKey(vs[j]) == key
  {
    if vs != [] {
      var init := vs[..|vs| - 1];
      KeysOfMembers(init, key);
      if key in KeysOf(init) {
        var j :| 0 <= j < |init| && ColorKey(init[j]) == key;
        assert vs[j] == init[j];
      }
      if exists j :: 0 <= j < |vs| && ColorKey(vs[j]) == key {
        var j :| 0 <= j < |vs| && ColorKey(vs[j]) == key;
        if j < |init| {
          assert init[j] == vs[j];
        }
      }
    }
  }

  /** No variant of `vs` has a key outside `KeysOf(vs)`, so its group is
      empty. */
  lemma {:induction false} GroupOfOtherKey(vs: seq<Variant>, key: string)
    requires key !in KeysOf(vs)
    ensures GroupOf(vs, key) == []
  {
    if vs != [] {
      GroupOfOtherKey(vs[..|vs| - 1], key);
    }
  }

  lemma PrefixStep<T>(xs: seq<T>, i: nat)
    requires i < |xs|
    ensures xs[..i + 1][..i] == xs[..i] && xs[..i + 1][i] == xs[i] && |xs[..i + 1]| == i + 1
  {
  }

  /** One step of the swatch list: the next label is appended if new. */
  lemma ColorsStep(vs: seq<Variant>, i: nat)
    requires i < |vs|
    ensures var raw := RawColor(vs[i]);
      var colors := Distinct(RawColors(vs[..i]));
      Distinct(RawColors(vs[..i + 1])) == if raw in colors then colors else colors + [raw]
  {
    PrefixStep(vs, i);
    assert RawColors(vs[..i + 1]) == RawColors(vs[..i]) + [RawColor(vs[i])];
    DistinctStep(RawColors(vs[..i]), RawColor(vs[i]));
  }

  /** One step of the variant map: the next variant is appended to the
      group of its key, which is created if missing. */
  lemma GroupsStep(vs: seq<Variant>, i: nat, vmap: map<string, seq<VariantEntry>>)
    requires i < |vs|
    requires vmap.Keys == KeysOf(vs[..i])
    requires forall key :: key in vmap ==> vmap[key] == GroupOf(vs[..i], key)
    ensures var color := ColorKey(vs[i]);
      var next := vmap[color := (if color in vmap then vmap[color] else []) + [EntryOf(vs[i])]];
      next.Keys == KeysOf(vs[..i + 1]) && forall key :: key in next ==> next[key] == GroupOf(vs[..i + 1], key)
  {
    PrefixStep(vs, i);
    var color := ColorKey(vs[i]);
    if color !in vmap {
      GroupOfOtherKey(vs[..i], color);
    }
  }

  /** The grouping loop over the variants: the swatch labels and the
      variant map. */
  method GroupVariants(vs: seq<Variant>) returns (colors: seq<string>, vmap: map<string, seq<VariantEntry>>)
    ensures colors == Distinct(RawColors(vs))
    ensures vmap.Keys == KeysOf(vs)
    ensures forall key :: key in vmap ==> vmap[key] == GroupOf(vs, key)
  {
    colors := [];
    vmap := map[];
    var i := 0;
    while i < |vs|
      invariant 0 <= i <= |vs|
      invariant colors == Distinct(RawColors(vs[..i]))
      invariant vmap.Keys == KeysOf(vs[..i])
      invariant forall key :: key in vmap ==> vmap[key] == GroupOf(vs[..i], key)
    {
      var v := vs[i];
      var raw := OrElse(Color(v), "One");
      var color := NormalizeColor(Some(raw));
      var size := OrElse(Size(v), "");
      ColorsStep(vs, i);
      GroupsStep(vs, i, vmap);
      if raw !in colors {
        colors := colors + [raw];
      }
      var group := if color in vmap then vmap[color] else [];
      vmap := vmap[color := group + [VariantEntry(v.id, size, OrZero(v.priceGrossCents), v.stock)]];
      i := i + 1;
    }
    assert vs[..i] == vs;
  }

  /** A label is in `Distinct(xs)` exactly when it is in `xs`. */
  lemma {:induction false} DistinctMembers(xs: seq<string>)
    ensures forall x :: x in Distinct(xs) <==> x in xs
  {
    if xs != [] {
      var init := xs[..|xs| - 1];
      DistinctMembers(init);
      assert xs == init + [xs[|xs| - 1]];
    }
  }

  /** `Distinct(xs)` holds no label twice. */
  lemma {:induction false} DistinctNoDuplicates(xs: seq<string>)
    ensures var d := Distinct(xs); forall i, j :: 0 <= i < j < |d| ==> d[i] != d[j]
  {
    if xs != [] {
      var init := xs[..|xs| - 1];
      var last := xs[|xs| - 1];
      DistinctNoDuplicates(init);
      DistinctMembers(init);
      var d0 := Distinct(init);
      assert xs == init + [last];
      DistinctStep(init, last);
      if last !in init {
        var d := d0 + [last];
        assert Distinct(xs) == d;
        forall i, j | 0 <= i < j < |d|
          ensures d[i] != d[j]
        {
          assert d[i] == d0[i] && d0[i] in d0;
          if j < |d0| {
            assert d[j] == d0[j];
          } else {
            assert d[j] == last;
          }
        }
      } else {
        assert Distinct(xs) == d0;
      }
    }
  }

  /** Appending a label adds it at the end if it is new. */
  lemma DistinctStep(xs: seq<string>, x: string)
    ensures Distinct(xs + [x]) == if x in Distinct(xs) then Distinct(xs) else Distinct(xs) + [x]
  {
    DistinctMembers(xs);
    assert (xs + [x])[..|xs|] == xs;
  }

  /** The position of the first occurrence of `x` in `xs`. */
  function FirstIndex(xs: seq<string>, x: string): (r: nat)
    requires x in xs
    ensures r < |xs| && xs[r] == x && x !in xs[..r]
  {
    var init := xs[..|xs| - 1];
    if x in init then
      var r := FirstIndex(init, x);
      assert xs[..r] == init[..r];
      r
    else |xs| - 1
  }

  lemma FirstIndexExtend(init: seq<string>, last: string, y: string)
    requires y in init
    ensures y in init + [last] && FirstIndex(init + [last], y) == FirstIndex(init, y)
  {
    assert (init + [last])[..|init|] == init;
  }

  lemma FirstIndexNew(init: seq<string>, last: string)
    requires last !in init
    ensures FirstIndex(init + [last], last) == |init|
  {
    assert (init + [last])[..|init|] == init;
  }

  /** The labels come in the order in which they are first seen. */
  lemma {:induction false} DistinctFirstSeen(xs: seq<string>)
    ensures var d := Distinct(xs);
      forall i, j :: 0 <= i < j < |d| ==> d[i] in xs && d[j] in xs && FirstIndex(xs, d[i]) < FirstIndex(xs, d[j])
  {
    if xs != [] {
      var init := xs[..|xs| - 1];
      var last := xs[|xs| - 1];
      assert xs == init + [last];
      DistinctFirstSeen(init);
      DistinctMembers(init);
      var d0 := Distinct(init);
      var d := Distinct(xs);
      assert d == if last in init then d0 else d0 + [last];
      DistinctStep(init, last);
      forall i, j | 0 <= i < j < |d|
        ensures d[i] in xs && d[j] in xs && FirstIndex(xs, d[i]) < FirstIndex(xs, d[j])
      {
        assert d[i] == d0[i] && d0[i] in d0;
        FirstIndexExtend(init, last, d[i]);
        if j < |d0| {
          assert d[j] == d0[j] && d0[j] in d0;
          FirstIndexExtend(init, last, d[j]);
          assert FirstIndex(init, d0[i]) < FirstIndex(init, d0[j]);
        } else {
          assert d[j] == last && last !in init;
          FirstIndexNew(init, last);
        }
      }
    }
  }

  /** Every label of the swatch list normalises to a key of the variant
      map. */
  lemma {:induction false} SwatchesHaveGroups(vs: seq<Variant>, s: string)
    requires s in Distinct(RawColors(vs))
    ensures exists j :: 0 <= j < |vs| && ColorKey(vs[j]) == NormalizeColor(Some(s))
  {
    DistinctMembers(RawColors(vs));
    var j :| 0 <= j < |vs| && RawColors(vs)[j] == s;
    assert ColorKey(vs[j]) == NormalizeColor(Some(s));
  }

  /** Every entry of a group comes from a variant with that key. */
  lemma {:induction false} GroupMembers(vs: seq<Variant>, key: string)
    ensures forall e :: e in GroupOf(vs, key) ==> exists j :: 0 <= j < |vs| && ColorKey(vs[j]) == key && EntryOf(vs[j]) == e
  {
    if vs != [] {
      var init := vs[..|vs| - 1];
      GroupMembers(init, key);
      forall e | e in GroupOf(vs, key)
        ensures exists j :: 0 <= j < |vs| && ColorKey(vs[j]) == key && EntryOf(vs[j]) == e
      {
        if e in GroupOf(init, key) {
          var j :| 0 <= j < |init| && ColorKey(init[j]) == key && EntryOf(init[j]) == e;
          assert vs[j] == init[j];
        } else {
          assert ColorKey(vs[|vs| - 1]) == key && EntryOf(vs[|vs| - 1]) == e;
        }
      }
    }
  }

  /** The order of the query: ascending price, then ascending id. */
  predicate Before(a: VariantEntry, b: VariantEntry) {
    a.price < b.price || (a.price == b.price && a.id <= b.id)
  }

  predicate SortedByPriceId(es: seq<VariantEntry>) {
    forall i, j :: 0 <= i < j < |es| ==> Before(es[i], es[j])
  }

  /** A group keeps the (price, id) order of the variant list. */
  lemma {:induction false} GroupSorted(vs: seq<Variant>, key: string)
    requires forall i, j :: 0 <= i < j < |vs| ==> Before(EntryOf(vs[i]), EntryOf(vs[j]))
    ensures SortedByPriceId(GroupOf(vs, key))
  {
    if vs != [] {
      var init := vs[..|vs| - 1];
      var last := vs[|vs| - 1];
      GroupSorted(init, key);
      GroupMembers(init, key);
      var g0 := GroupOf(init, key);
      if ColorKey(last) == key {
        var g := g0 + [EntryOf(last)];
        forall i, j | 0 <= i < j < |g|
          ensures Before(g[i], g[j])
        {
          if j == |g0| {
            assert g[i] in g0;
            var k :| 0 <= k < |init| && ColorKey(init[k]) == key && EntryOf(init[k]) == g[i];
            assert vs[k] == init[k];
          }
        }
      }
    }
  }

  /** The number of entries carrying `id` in `es`. */
  function CountId(es: seq<VariantEntry>, id: nat): nat {
    if es == [] then 0 else CountId(es[..|es| - 1], id) + (if es[|es| - 1].id == id then 1 else 0)
  }

  lemma {:induction false} CountIdAppend(es: seq<VariantEntry>, e: VariantEntry, id: nat)
    ensures CountId(es + [e], id) == CountId(es, id) + (if e.id == id then 1 else 0)
  {
    assert (es + [e])[..|es|] == es;
  }

  /** With distinct variant ids, each variant appears exactly once in the
      variant map: once in the group of its own key, nowhere else. */
  lemma {:induction false} VariantExactlyOnce(vs: seq<Variant>, j: nat, key: string)
    requires j < |vs|
    requires forall a, b :: 0 <= a < b < |vs| ==> vs[a].id != vs[b].id
    ensures CountId(GroupOf(vs, key), vs[j].id) == if ColorKey(vs[j]) == key then 1 else 0
  {
    var init := vs[..|vs| - 1];
    var last := vs[|vs| - 1];
    var g0 := GroupOf(init, key);
    if ColorKey(last) == key {
      CountIdAppend(g0, EntryOf(last), vs[j].id);
    } else {
      assert GroupOf(vs, key) == g0 + [];
      assert g0 + [] == g0;
    }
    if j < |vs| - 1 {
      VariantExactlyOnce(init, j, key);
      assert init[j] == vs[j];
    } else {
      NoIdInGroup(init, key, last.id);
    }
  }

  lemma {:induction false} NoIdInGroup(vs: seq<Variant>, key: string, id: nat)
    requires forall a :: 0 <= a < |vs| ==> vs[a].id != id
    ensures CountId(GroupOf(vs, key), id) == 0
  {
    if vs != [] {
      var init := vs[..|vs| - 1];
      NoIdInGroup(init, key, id);
      if ColorKey(vs[|vs| - 1]) == key {
        CountIdAppend(GroupOf(init, key), EntryOf(vs[|vs| - 1]), id);
      } else {
        assert GroupOf(vs, key) == GroupOf(init, key) + [];
        assert GroupOf(init, key) + [] == GroupOf(init, key);
      }
    }
  }

  // ---------------------------------------------------------------------
  // Images

  /** A product image row. `color` is the empty string for a generic
      image. */
  datatype ProductImage = ProductImage(id: nat, url: string, alt: string, sortOrder: int, color: string)

  /** What the page receives per image. */
  datatype ImagePayload = ImagePayload(url: string, alt: string)

  /** The payload of an image: its url, and its alt text or else the
      product title. */
  function PayloadOf(title: string, img: ProductImage): (p: ImagePayload)
    ensures p.url == img.url
    ensures p.alt == (if img.alt != "" then img.alt else title)
  {
    ImagePayload(img.url, OrElse(Some(img.alt), title))
  }

  /** The payloads of the images tagged with a colour whose key is `key`,
      in query order. */
  function TaggedOf(imgs: seq<ProductImage>, title: string, key: string): seq<ImagePayload> {
    if imgs == [] then []
    else
      var img := imgs[|imgs| - 1];
      TaggedOf(imgs[..|imgs| - 1], title, key)
        + (if img.color != "" && NormalizeColor(Some(img.color)) == key then [PayloadOf(title, img)] else [])
  }

  /** The payloads of the untagged images, in query order. */
  function GenericOf(imgs: seq<ProductImage>, title: string): seq<ImagePayload> {
    if imgs == [] then []
    else
      var img := imgs[|imgs| - 1];
      GenericOf(imgs[..|imgs| - 1], title) + (if img.color == "" then [PayloadOf(title, img)] else [])
  }

  /** The keys of the colours the images are tagged with. */
  function TaggedKeys(imgs: seq<ProductImage>): set<string> {
    if imgs == [] then {}
    else
      var img := imgs[|imgs| - 1];
      TaggedKeys(imgs[..|imgs| - 1]) + (if img.color != "" then {NormalizeColor(Some(img.color))} else {})
  }

  lemma {:induction false} TaggedOfOtherKey(imgs: seq<ProductImage>, title: string, key: string)
    requires key !in TaggedKeys(imgs)
    ensures TaggedOf(imgs, title, key) == []
  {
    if imgs != [] {
      TaggedOfOtherKey(imgs[..|imgs| - 1], title, key);
    }
  }

  /** The image map holds, under each key, the tagged payloads of `pre`. */
  predicate ImagesGrouped(byColor: map<string, seq<ImagePayload>>, pre: seq<ProductImage>, title: string) {
    byColor.Keys == TaggedKeys(pre)
    && forall key :: key in byColor ==> byColor[key] == TaggedOf(pre, title, key) && byColor[key] != []
  }

  /** A tagged image is appended to the entry of its key. */
  lemma TaggedStep(pre: seq<ProductImage>, img: ProductImage, title: string, key: string,
                   byColor: map<string, seq<ImagePayload>>, next: map<string, seq<ImagePayload>>)
    requires img.color != "" && key == NormalizeColor(Some(img.color))
    requires ImagesGrouped(byColor, pre, title)
    requires next == byColor[key := (if key in byColor then byColor[key] else []) + [PayloadOf(title, img)]]
    ensures ImagesGrouped(next, pre + [img], title)
    ensures GenericOf(pre + [img], title) == GenericOf(pre, title)
  {
    assert (pre + [img])[..|pre|] == pre;
    if key !in byColor {
      TaggedOfOtherKey(pre, title, key);
    }
  }

  /** An untagged image goes to the generic pool and leaves the map alone. */
  lemma UntaggedStep(pre: seq<ProductImage>, img: ProductImage, title: string,
                     byColor: map<string, seq<ImagePayload>>)
    requires img.color == ""
    requires ImagesGrouped(byColor, pre, title)
    ensures ImagesGrouped(byColor, pre + [img], title)
    ensures GenericOf(pre + [img], title) == GenericOf(pre, title) + [PayloadOf(title, img)]
  {
    assert (pre + [img])[..|pre|] == pre;
  }

  /** The image loop: tagged images into the map under their key, the rest
      into the generic pool. */
  method GroupImages(title: string, imgs: seq<ProductImage>)
    returns (byColor: map<string, seq<ImagePayload>>, generic: seq<ImagePayload>)
    ensures byColor.Keys == TaggedKeys(imgs)
    ensures forall key :: key in byColor ==> byColor[key] == TaggedOf(imgs, title, key) && byColor[key] != []
    ensures generic == GenericOf(imgs, title)
  {
    byColor := map[];
    generic := [];
    var i := 0;
    while i < |imgs|
      invariant 0 <= i <= |imgs|
      invariant ImagesGrouped(byColor, imgs[..i], title)
      invariant generic == GenericOf(imgs[..i], title)
    {
      var img := imgs[i];
      var payload := ImagePayload(img.url, OrElse(Some(img.alt), title));
      assert imgs[..i + 1] == imgs[..i] + [img];
      if img.color != "" {
        var key := NormalizeColor(Some(img.color));
        var list := if key in byColor then byColor[key] else [];
        var next := byColor[key := list + [payload]];
        TaggedStep(imgs[..i], img, title, key, byColor, next);
        byColor := next;
      } else {
        UntaggedStep(imgs[..i], img, title, byColor);
        generic := generic + [payload];
      }
      i := i + 1;
    }
    assert imgs[..i] == imgs;
  }

  /** Every image lands where it belongs: a generic image in the pool, a
      tagged one in the entry of its key. */
  lemma {:induction false} ImagePlaced(imgs: seq<ProductImage>, title: string, j: nat)
    requires j < |imgs|
    ensures var p := PayloadOf(title, imgs[j]);
      if imgs[j].color == "" then p in GenericOf(imgs, title)
      else p in TaggedOf(imgs, title, NormalizeColor(Some(imgs[j].color)))
  {
    var init := imgs[..|imgs| - 1];
    if j < |imgs| - 1 {
      ImagePlaced(init, title, j);
      assert init[j] == imgs[j];
    }
  }

  /** The converse of `ImagePlaced`: every payload under a key comes from
      a tagged image whose colour normalises to that key, and every payload
      of the generic pool from an untagged image. */
  lemma {:induction false} ImageOrigin(imgs: seq<ProductImage>, title: string, key: string)
    ensures forall p :: p in TaggedOf(imgs, title, key) ==>
      exists j :: 0 <= j < |imgs| && imgs[j].color != "" && NormalizeColor(Some(imgs[j].color)) == key && p == PayloadOf(title, imgs[j])
    ensures forall p :: p in GenericOf(imgs, title) ==>
      exists j :: 0 <= j < |imgs| && imgs[j].color == "" && p == PayloadOf(title, imgs[j])
  {
    if imgs != [] {
      var init := imgs[..|imgs| - 1];
      ImageOrigin(init, title, key);
      assert forall j :: 0 <= j < |init| ==> init[j] == imgs[j];
    }
  }

  /** The placeholder shown when a colour has no image at all. */
  const Placeholder: ImagePayload := ImagePayload("/static/img/placeholder.png", "No image available")

  /** What a colour without a dedicated image gets: the generic pool, or
      the placeholder alone. */
  function FallbackImages(generic: seq<ImagePayload>): (r: seq<ImagePayload>)
    ensures r != []
    ensures generic != [] ==> r == generic
    ensures generic == [] ==> r == [Placeholder]
  {
    if generic != [] then generic else [Placeholder]
  }

  /** The keys the fallback loop walks: the keys of the swatch labels, or
      `one` when there are none. */
  function SwatchKeys(colors: seq<string>): (r: seq<string>)
    ensures |r| == |Swatches(colors)|
    ensures forall i :: 0 <= i < |r| ==> r[i] == NormalizeColor(Some(Swatches(colors)[i]))
  {
    NormalizeColorDefault();
    if colors == [] then ["one"] else NormalizeAll(colors)
  }

  function NormalizeAll(cs: seq<string>): (r: seq<string>)
    ensures |r| == |cs|
    ensures forall i :: 0 <= i < |cs| ==> r[i] == NormalizeColor(Some(cs[i]))
  {
    if cs == [] then [] else NormalizeAll(cs[..|cs| - 1]) + [NormalizeColor(Some(cs[|cs| - 1]))]
  }

  /** A swatch's key is among the keys the fallback loop walks. */
  lemma SwatchKeyWalked(colors: seq<string>, s: string)
    requires s in Swatches(colors)
    ensures NormalizeColor(Some(s)) in SwatchKeys(colors)
  {
    var i :| 0 <= i < |Swatches(colors)| && Swatches(colors)[i] == s;
    assert SwatchKeys(colors)[i] == NormalizeColor(Some(s));
  }

  /** The fallback loop over `keys`: every key missing from the map gets
      the fallback images; entries already there are left alone. */
  method FillFallbacks(keys: seq<string>, byColor: map<string, seq<ImagePayload>>, generic: seq<ImagePayload>)
    returns (out: map<string, seq<ImagePayload>>)
    ensures out.Keys == byColor.Keys + set k | k in keys
    ensures forall k :: k in byColor ==> out[k] == byColor[k]
    ensures forall k :: k in out && k !in byColor ==> out[k] == FallbackImages(generic)
  {
    out := byColor;
    var i := 0;
    while i < |keys|
      invariant 0 <= i <= |keys|
      invariant out.Keys == byColor.Keys + set k | k in keys[..i]
      invariant forall k :: k in byColor ==> out[k] == byColor[k]
      invariant forall k :: k in out && k !in byColor ==> out[k] == FallbackImages(generic)
    {
      var c := keys[i];
      assert keys[..i + 1] == keys[..i] + [c];
      if c !in out {
        out := out[c := if generic != [] then generic else [Placeholder]];
      }
      i := i + 1;
    }
    assert keys[..i] == keys;
  }

  /** The whole computation of the product page: the swatch labels, the
      variant map and the image map. Every swatch has a non-empty image
      list under its key, and, when the product has variants, a variant
      group too. */
  method ProductDetail(title: string, vs: seq<Variant>, imgs: seq<ProductImage>)
    returns (swatches: seq<string>, vmap: map<string, seq<VariantEntry>>, byColor: map<string, seq<ImagePayload>>)
    ensures swatches == Swatches(Distinct(RawColors(vs)))
    ensures vmap.Keys == KeysOf(vs)
    ensures forall key :: key in vmap ==> vmap[key] == GroupOf(vs, key)
    ensures forall s :: s in swatches ==> NormalizeColor(Some(s)) in byColor && byColor[NormalizeColor(Some(s))] != []
    ensures vs != [] ==> forall s :: s in swatches ==> NormalizeColor(Some(s)) in vmap
    ensures forall key :: key in TaggedKeys(imgs) ==> key in byColor && byColor[key] == TaggedOf(imgs, title, key)
    ensures byColor.Keys == TaggedKeys(imgs) + set k | k in SwatchKeys(Distinct(RawColors(vs)))
    ensures forall key :: key in byColor && key !in TaggedKeys(imgs) ==> byColor[key] == FallbackImages(GenericOf(imgs, title))
  {
    var colors;
    colors, vmap := GroupVariants(vs);
    var tagged, generic := GroupImages(title, imgs);
    var keys := if colors == [] then ["one"] else NormalizeAll(colors);
    assert keys == SwatchKeys(colors) by {
      NormalizeColorDefault();
    }
    byColor := FillFallbacks(keys, tagged, generic);
    swatches := if colors == [] then ["One"] else colors;
    ImagesCovered(colors, tagged, generic, byColor);
    if vs != [] {
      VariantsCovered(vs, colors, vmap);
    }
  }

  /** After the fallback loop every swatch has a non-empty image list under
      its key. */
  lemma ImagesCovered(colors: seq<string>, tagged: map<string, seq<ImagePayload>>, generic: seq<ImagePayload>,
                      out: map<string, seq<ImagePayload>>)
    requires forall k :: k in tagged ==> tagged[k] != []
    requires out.Keys == tagged.Keys + set k | k in SwatchKeys(colors)
    requires forall k :: k in tagged ==> out[k] == tagged[k]
    requires forall k :: k in out && k !in tagged ==> out[k] == FallbackImages(generic)
    ensures forall s :: s in Swatches(colors) ==> NormalizeColor(Some(s)) in out && out[NormalizeColor(Some(s))] != []
  {
    forall s | s in Swatches(colors)
      ensures NormalizeColor(Some(s)) in out && out[NormalizeColor(Some(s))] != []
    {
      SwatchKeyWalked(colors, s);
    }
  }

  /** A product with variants has a variant group for every swatch. */
  lemma VariantsCovered(vs: seq<Variant>, colors: seq<string>, vmap: map<string, seq<VariantEntry>>)
    requires vs != [] && colors == Distinct(RawColors(vs)) && vmap.Keys == KeysOf(vs)
    ensures forall s :: s in Swatches(colors) ==> NormalizeColor(Some(s)) in vmap
  {
    forall s | s in Swatches(colors)
      ensures NormalizeColor(Some(s)) in vmap
    {
      assert RawColors(vs)[0] in RawColors(vs);
      DistinctMembers(RawColors(vs));
      SwatchesHaveGroups(vs, s);
      var j :| 0 <= j < |vs| && ColorKey(vs[j]) == NormalizeColor(Some(s));
      KeysOfMembers(vs, NormalizeColor(Some(s)));
    }
  }
}
