/** The offers carousel of the storefront (`PromotionCarousel`): which
    products it shows and how the slider is configured. */
module PromotionCarousel {
  import opened Wrappers
  import opened Interfaces
  import Seqs
  import PromotionUtils
  import CategorySection

  /** The slider options that depend on the number of slides: looping,
      slides at once and centring on wide screens, slides at once below
      1024 pixels, and arrows below 640 pixels. */
  datatype Settings = Settings(infinite: bool, slidesToShow: nat, centerMode: bool, tabletSlidesToShow: nat, phoneArrows: bool)

  predicate HasOffer(product: Product, promotionsData: map<Id, PromotionUtils.PromotionData>) {
    product.activo == Some(true) && product.id in promotionsData
  }

  function Offered(promotionsData: map<Id, PromotionUtils.PromotionData>): Product -> bool {
    product => HasOffer(product, promotionsData)
  }

  /** `productsWithPromotion`. */
  function ProductsWithPromotion(products: seq<Product>, promotionsData: map<Id, PromotionUtils.PromotionData>): seq<Product> {
    Seqs.Filter(products, Offered(promotionsData))
  }

  /** What the carousel renders: nothing without offers, otherwise a slider
      with these settings. */
  function Render(products: seq<Product>, promotionsData: map<Id, PromotionUtils.PromotionData>): Option<Settings> {
    var n := |ProductsWithPromotion(products, promotionsData)|;
    if n == 0 then None
    else Some(Settings(n > 1, if n < 2 then n else 2, n > 1, if n < 2 then n else 2, n > 1))
  }

  /** The carousel shows exactly the active products that have an entry, in
      catalogue order. */
  lemma ProductsWithPromotionSpec(products: seq<Product>, promotionsData: map<Id, PromotionUtils.PromotionData>)
    ensures forall p :: p in ProductsWithPromotion(products, promotionsData) <==> p in products && HasOffer(p, promotionsData)
    ensures Seqs.IsSubseq(ProductsWithPromotion(products, promotionsData), products)
  {
  }

  /** Nothing is rendered exactly when no product qualifies; otherwise one or
      two slides are shown at once (as many below 1024 pixels), and looping,
      centring and the small-screen arrows are on exactly when there is more
      than one offer. */
  lemma RenderSpec(products: seq<Product>, promotionsData: map<Id, PromotionUtils.PromotionData>)
    ensures Render(products, promotionsData).None? <==>
      forall p :: p in products ==> !HasOffer(p, promotionsData)
    ensures Render(products, promotionsData).Some? ==>
      var s := Render(products, promotionsData).value;
      var n := |ProductsWithPromotion(products, promotionsData)|;
      && 1 <= s.slidesToShow <= 2 && s.slidesToShow <= n
      && (s.infinite <==> n > 1) && (s.centerMode <==> n > 1)
      && s.tabletSlidesToShow == s.slidesToShow && (s.phoneArrows <==> n > 1)
  {
    var shown := ProductsWithPromotion(products, promotionsData);
    if shown != [] {
      assert shown[0] in shown;
    }
  }

  /** Fed with the storefront's discount map (distinct product ids), the
      carousel shows exactly the active products that get a discount now. */
  lemma CarouselShowsDiscounted(products: seq<Product>, now: int)
    requires forall a, b :: 0 <= a < b < |products| ==> products[a].id != products[b].id
    ensures var data := CategorySection.PromotionsOf(products, CategorySection.DiscountAt(now));
      forall p :: p in ProductsWithPromotion(products, data) <==>
        p in products && p.activo == Some(true) && PromotionUtils.CalculateDiscountedPrice(p, now).Some?
  {
    var data := CategorySection.PromotionsOf(products, CategorySection.DiscountAt(now));
    forall p | p in products
      ensures HasOffer(p, data) <==> p.activo == Some(true) && PromotionUtils.CalculateDiscountedPrice(p, now).Some?
    {
      var j :| 0 <= j < |products| && products[j] == p;
      CategorySection.PromotionsOfDistinct(products, now, j);
    }
  }
}
