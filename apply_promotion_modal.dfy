/** The selection logic of `ApplyPromotionModal`, where an administrator
    picks the products a promotion applies to: the initial selection, the
    visible products, toggling one, selecting or clearing all visible ones,
    and the ids finally submitted. */
module ApplyPromotionModal {
  import opened Wrappers
  import opened Interfaces
  import opened Actions
  import Text
  import Seqs
  import ProductsReducer

  /** `promotion.products?.map(p => typeof p === 'string' ? p : p.id) || []`. */
  function PromotionProductIds(promotion: Promotion): (r: seq<Id>)
    ensures promotion.products.Some? ==> r == ProductsReducer.LinkIds(promotion.products.value)
    ensures promotion.products.None? ==> r == []
  {
    ProductsReducer.LinkIds(promotion.products.GetOr([]))
  }

  /** `[...new Set(promotionProductIds)]`. */
  function InitialSelection(promotion: Promotion): seq<Id> {
    Seqs.Dedupe(PromotionProductIds(promotion))
  }

  /** The initial selection holds each of the promotion's product ids once,
      in the order of their first occurrence. */
  lemma InitialSelectionDedupes(promotion: Promotion)
    ensures Seqs.NoDup(InitialSelection(promotion))
    ensures forall id :: id in InitialSelection(promotion) <==> id in PromotionProductIds(promotion)
    ensures forall i, j :: 0 <= i < j < |InitialSelection(promotion)| ==>
      Seqs.FirstIndex(PromotionProductIds(promotion), InitialSelection(promotion)[i])
        < Seqs.FirstIndex(PromotionProductIds(promotion), InitialSelection(promotion)[j])
  {
    forall i, j | 0 <= i < j < |InitialSelection(promotion)|
      ensures Seqs.FirstIndex(PromotionProductIds(promotion), InitialSelection(promotion)[i])
        < Seqs.FirstIndex(PromotionProductIds(promotion), InitialSelection(promotion)[j])
    {
      Seqs.DedupeOrder(PromotionProductIds(promotion), i, j);
    }
  }

  /** A product is listed when `activo` is truthy and its lower-cased name
      includes the lower-cased search term. */
  predicate IsListed(product: Product, searchTerm: string) {
    product.activo == Some(true) && Text.Contains(Text.Lower(product.nombre), Text.Lower(searchTerm))
  }

  function Listed(searchTerm: string): Product -> bool {
    product => IsListed(product, searchTerm)
  }

  /** `filteredProducts`. */
  function FilteredProducts(allProducts: seq<Product>, searchTerm: string): seq<Product> {
    Seqs.Filter(allProducts, Listed(searchTerm))
  }

  /** The visible products are exactly the listed ones, in catalogue order;
      with an empty search term, exactly the active ones. */
  lemma FilteredProductsSpec(allProducts: seq<Product>, searchTerm: string)
    ensures forall p :: p in FilteredProducts(allProducts, searchTerm) <==> p in allProducts && IsListed(p, searchTerm)
    ensures Seqs.IsSubseq(FilteredProducts(allProducts, searchTerm), allProducts)
    ensures searchTerm == "" ==>
      forall p :: p in FilteredProducts(allProducts, searchTerm) <==> p in allProducts && p.activo == Some(true)
  {
    if searchTerm == "" {
      forall p | p in allProducts ensures Text.Contains(Text.Lower(p.nombre), Text.Lower(searchTerm)) {
        Text.ContainsEmpty(Text.Lower(p.nombre));
      }
    }
  }

  function ProductIds(products: seq<Product>): (r: seq<Id>)
    ensures |r| == |products|
    ensures forall i :: 0 <= i < |products| ==> r[i] == products[i].id
  {
    seq(|products|, i requires 0 <= i < |products| => products[i].id)
  }

  function Without(ids: seq<Id>): Id -> bool {
    id => id !in ids
  }

  /** `handleToggleProduct`: remove the id if selected, append it if not. */
  function Toggle(selected: seq<Id>, productId: Id): seq<Id> {
    if productId in selected then Seqs.Filter(selected, Without([productId]))
    else selected + [productId]
  }

  /** Toggling flips the membership of that id only, and toggling twice gives
      back the same set of selected ids. */
  lemma ToggleFlips(selected: seq<Id>, productId: Id)
    ensures productId in Toggle(selected, productId) <==> productId !in selected
    ensures forall id :: id != productId ==> (id in Toggle(selected, productId) <==> id in selected)
    ensures forall id :: id in Toggle(Toggle(selected, productId), productId) <==> id in selected
  {
  }

  /** `allFilteredIds.every(id => selectedProductIds.includes(id))`. */
  predicate AllSelected(ids: seq<Id>, selected: seq<Id>) {
    forall i :: 0 <= i < |ids| ==> ids[i] in selected
  }

  /** `handleSelectAll`: when every visible id is selected, drop the visible
      ids; otherwise push each visible id not yet selected, in order. */
  method HandleSelectAll(filtered: seq<Product>, selected: seq<Id>) returns (next: seq<Id>)
    ensures var ids := ProductIds(filtered);
      && (AllSelected(ids, selected) ==>
            && (forall id :: id in next <==> id in selected && id !in ids)
            && (forall x :: multiset(next)[x] == if x in ids then 0 else multiset(selected)[x])
            && Seqs.IsSubseq(next, selected))
      && (!AllSelected(ids, selected) ==>
            && |selected| < |next| && next[..|selected|] == selected
            && (forall i :: 0 <= i < |ids| ==> ids[i] in next)
            && (forall i :: |selected| <= i < |next| ==> next[i] in ids && next[i] !in selected)
            && Seqs.NoDup(next[|selected|..])
            && (Seqs.NoDup(selected) ==> Seqs.NoDup(next)))
    ensures filtered == [] ==> next == selected
  {
    var ids := ProductIds(filtered);
    if forall i :: 0 <= i < |ids| ==> ids[i] in selected {
      next := Seqs.Filter(selected, Without(ids));
      if filtered == [] {
        Seqs.FilterKeepsAll(selected, Without(ids));
      }
    } else {
      next := PushMissing(selected, ids);
      var i :| 0 <= i < |ids| && ids[i] !in selected;
      assert ids[i] in next;
    }
  }

  /** The `forEach` that pushes each id not yet in the selection. */
  method PushMissing(selected: seq<Id>, ids: seq<Id>) returns (next: seq<Id>)
    ensures next == Seqs.AppendMissing(selected, ids)
  {
    next := selected;
    var i := 0;
    while i < |ids|
      invariant 0 <= i <= |ids|
      invariant Seqs.AppendMissing(next, ids[i..]) == Seqs.AppendMissing(selected, ids)
    {
      Seqs.AppendMissingStep(next, ids[i..]);
      assert ids[i..][1..] == ids[i + 1..];
      if ids[i] !in next {
        next := next + [ids[i]];
      }
      i := i + 1;
    }
    assert ids[i..] == [];
  }

  /** `allFilteredSelected`: at least one product is visible and all visible
      ones are selected. */
  predicate AllFilteredSelected(filtered: seq<Product>, selected: seq<Id>) {
    |filtered| > 0 && forall i :: 0 <= i < |filtered| ==> filtered[i].id in selected
  }

  /** The checkbox differs from the condition select-all tests only when no
      product is visible: then select-all clears nothing, yet the box is off. */
  lemma AllFilteredSelectedVsSelectAll(filtered: seq<Product>, selected: seq<Id>)
    ensures AllFilteredSelected(filtered, selected) <==>
      |filtered| > 0 && AllSelected(ProductIds(filtered), selected)
    ensures filtered == [] ==> !AllFilteredSelected(filtered, selected) && AllSelected(ProductIds(filtered), selected)
  {
  }

  function NonEmpty(): Id -> bool {
    id => id != ""
  }

  /** `validProductIds`: the non-empty selected ids, each once. */
  function ValidProductIds(selected: seq<Id>): seq<Id> {
    Seqs.Dedupe(Seqs.Filter(selected, NonEmpty()))
  }

  /** `handleSubmit`: nothing is dispatched when no valid id is left;
      otherwise the promotion is applied to the valid ids. */
  function Submit(promotion: Promotion, selected: seq<Id>): Option<Action> {
    var ids := ValidProductIds(selected);
    if |ids| == 0 then None else Some(ApplyPromotionProducts(promotion.id, ids))
  }

  /** Submitting aborts exactly when every selected id is empty; otherwise it
      sends each non-empty selected id exactly once, and nothing else. */
  lemma SubmitSpec(promotion: Promotion, selected: seq<Id>)
    ensures Submit(promotion, selected).None? <==> forall i :: 0 <= i < |selected| ==> selected[i] == ""
    ensures Submit(promotion, selected).Some? ==>
      var a := Submit(promotion, selected).value;
      && a.ApplyPromotionProducts? && a.targetId == promotion.id
      && Seqs.NoDup(a.productIds)
      && forall id :: id in a.productIds <==> id in selected && id != ""
  {
    var ids := ValidProductIds(selected);
    Seqs.HeadIsMember(ids);
    if !forall i :: 0 <= i < |selected| ==> selected[i] == "" {
      var i :| 0 <= i < |selected| && selected[i] != "";
      assert selected[i] in ids;
    }
  }

  /** Every non-empty selected id is among the valid ones. */
  lemma NonEmptySelectedAreValid(selected: seq<Id>)
    ensures forall id :: id in selected && id != "" ==> id in ValidProductIds(selected)
  {
  }

  /** Once the store has processed the submitted action, the promotion in the
      store links every non-empty id that was selected. */
  lemma SubmittedIdsLinked(s: ProductsReducer.ProductsState, promotion: Promotion, selected: seq<Id>, k: int)
    requires Submit(promotion, selected).Some?
    requires 0 <= k < |s.promotions| && s.promotions[k].id == promotion.id
    ensures var after := ProductsReducer.Reduce(s, Submit(promotion, selected).value);
      && k < |after.promotions|
      && after.promotions[k].products.Some?
      && forall id :: id in selected && id != "" ==> id in ProductsReducer.LinkIds(after.promotions[k].products.value)
  {
    var ids := ValidProductIds(selected);
    var a := ApplyPromotionProducts(promotion.id, ids);
    assert Submit(promotion, selected).value == a;
    ProductsReducer.ApplyChangesOnlyTarget(s, promotion.id, ids);
    ProductsReducer.ApplyLinksRequested(s, promotion.id, ids, k);
    NonEmptySelectedAreValid(selected);
  }
}
