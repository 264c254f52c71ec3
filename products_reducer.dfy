/** `productsReducer`: the catalogue slice of the store (categories, products,
    promotions, the selected category and the loading/error flags). */
module ProductsReducer {
  import opened Wrappers
  import opened Interfaces
  import opened Actions
  import Seqs

  datatype ProductsState = ProductsState(
    promotions: seq<Promotion>,
    categories: seq<Category>,
    filteredProducts: seq<Product>,
    products: seq<Product>,
    productById: Option<Product>,
    selectedCategory: Option<Id>,
    error: Option<string>,
    loading: bool)

  const InitialState := ProductsState([], [], [], [], None, None, None, false)

  /** The ids of a promotion's product entries, whatever their shape. */
  function LinkIds(links: seq<ProductLink>): (r: seq<Id>)
    ensures |r| == |links|
    ensures forall i :: 0 <= i < |links| ==> r[i] == links[i].id
  {
    seq(|links|, i requires 0 <= i < |links| => links[i].id)
  }

  /** `{ id }` stubs for the given ids. */
  function Stubs(ids: seq<Id>): (r: seq<ProductLink>)
    ensures |r| == |ids|
    ensures forall i :: 0 <= i < |ids| ==> r[i] == IdStub(ids[i])
  {
    seq(|ids|, i requires 0 <= i < |ids| => IdStub(ids[i]))
  }

  /** The requested ids no existing entry has, in request order. */
  function Unlinked(existing: seq<ProductLink>, productIds: seq<Id>): seq<Id> {
    Seqs.Filter(productIds, id => id !in LinkIds(existing))
  }

  /** The target promotion with the missing product ids appended as stubs. */
  function WithProducts(p: Promotion, productIds: seq<Id>): Promotion {
    var existing := p.products.GetOr([]);
    p.(products := Some(existing + Stubs(Unlinked(existing, productIds))))
  }

  function CategoryId(c: Category): Id { c.id }
  function ProductId(p: Product): Id { p.id }
  function PromotionId(p: Promotion): Id { p.id }

  function ApplyTo(p: Promotion, targetId: Id, productIds: seq<Id>): Promotion {
    if p.id == targetId then WithProducts(p, productIds) else p
  }

  function Reduce(s: ProductsState, a: Action): ProductsState {
    match a
    case LoadingStart => s.(loading := true)
    case LoadingEnd => s.(loading := false)
    case FetchCategories(cs) => s.(categories := cs, loading := false)
    case CreateCategory(c) => s.(categories := s.categories + [c], loading := false)
    case UpdateCategory(c) =>
      s.(categories := Seqs.ReplaceKeyed(s.categories, CategoryId, c), loading := false)
    case DeleteCategory(id) =>
      s.(categories := Seqs.RemoveKeyed(s.categories, CategoryId, id), loading := false)
    case FetchProducts(ps) => s.(products := ps, filteredProducts := ps, loading := false)
    case FetchProductById(p) => s.(productById := p, loading := false)
    case SetSelectedCategory(c) => s.(selectedCategory := c)
    case CreateProduct(p) => s.(products := s.products + [p], loading := false)
    case UpdateProducts(p) =>
      s.(products := Seqs.ReplaceKeyed(s.products, ProductId, p), loading := false)
    case DeleteProducts(id) =>
      s.(products := Seqs.RemoveKeyed(s.products, ProductId, id), loading := false)
    case FetchPromotions(ps) => s.(promotions := ps, loading := false)
    case CreatePromotion(p) => s.(promotions := s.promotions + [p], loading := false)
    case DeletePromotion(id) =>
      s.(promotions := Seqs.RemoveKeyed(s.promotions, PromotionId, id), loading := false)
    case UpdatePromotion(p) =>
      s.(promotions := Seqs.ReplaceKeyed(s.promotions, PromotionId, p), loading := false)
    case ApplyPromotionProducts(targetId, productIds) =>
      var ps := s.promotions;
      s.(promotions := seq(|ps|, i requires 0 <= i < |ps| => ApplyTo(ps[i], targetId, productIds)),
         loading := false)
    case AuthError(m) => s.(error := Some(m), loading := false)
    case _ => s
  }

  // ---------------------------------------------------------------------------
  // Updates, deletions and creations.

  /** `UPDATE_CATEGORY`, `UPDATE_PRODUCTS`, `UPDATE_PROMOTION`: exactly the
      entries with the payload's id become the payload; the length and every
      other entry are kept, and repeating the action changes nothing more. */
  lemma UpdateReplacesById(s: ProductsState, c: Category, p: Product, q: Promotion)
    ensures var r := Reduce(s, UpdateCategory(c));
      && |r.categories| == |s.categories|
      && (forall i :: 0 <= i < |s.categories| ==>
            r.categories[i] == if s.categories[i].id == c.id then c else s.categories[i])
      && r == s.(categories := r.categories, loading := false)
      && Reduce(r, UpdateCategory(c)) == r
    ensures var r := Reduce(s, UpdateProducts(p));
      && |r.products| == |s.products|
      && (forall i :: 0 <= i < |s.products| ==>
            r.products[i] == if s.products[i].id == p.id then p else s.products[i])
      && r == s.(products := r.products, loading := false)
      && Reduce(r, UpdateProducts(p)) == r
    ensures var r := Reduce(s, UpdatePromotion(q));
      && |r.promotions| == |s.promotions|
      && (forall i :: 0 <= i < |s.promotions| ==>
            r.promotions[i] == if s.promotions[i].id == q.id then q else s.promotions[i])
      && r == s.(promotions := r.promotions, loading := false)
      && Reduce(r, UpdatePromotion(q)) == r
  {
    Seqs.ReplaceKeyedIdempotent(s.categories, CategoryId, c);
    Seqs.ReplaceKeyedIdempotent(s.products, ProductId, p);
    Seqs.ReplaceKeyedIdempotent(s.promotions, PromotionId, q);
  }

  /** `DELETE_CATEGORY`: no category with the id is left, every other one
      keeps its multiplicity and the order is preserved; nothing else but
      `loading` changes. */
  lemma DeleteCategoryRemovesById(s: ProductsState, id: Id)
    ensures var r := Reduce(s, DeleteCategory(id));
      && (forall x :: multiset(r.categories)[x] == if x.id == id then 0 else multiset(s.categories)[x])
      && Seqs.IsSubseq(r.categories, s.categories)
      && r == s.(categories := r.categories, loading := false)
  {
    var r := Seqs.RemoveKeyed(s.categories, CategoryId, id);
    Seqs.RemoveKeyedSubseq(s.categories, CategoryId, id);
    Seqs.RemoveKeyedCounts(s.categories, CategoryId, id);
    assert forall x :: CategoryId(x) == x.id;
  }

  /** `DELETE_PRODUCTS`, likewise for products. */
  lemma DeleteProductRemovesById(s: ProductsState, id: Id)
    ensures var r := Reduce(s, DeleteProducts(id));
      && (forall x :: multiset(r.products)[x] == if x.id == id then 0 else multiset(s.products)[x])
      && Seqs.IsSubseq(r.products, s.products)
      && r == s.(products := r.products, loading := false)
  {
    var r := Seqs.RemoveKeyed(s.products, ProductId, id);
    Seqs.RemoveKeyedSubseq(s.products, ProductId, id);
    Seqs.RemoveKeyedCounts(s.products, ProductId, id);
    assert forall x :: ProductId(x) == x.id;
  }

  /** `DELETE_PROMOTION`, likewise for promotions. */
  lemma DeletePromotionRemovesById(s: ProductsState, id: Id)
    ensures var r := Reduce(s, DeletePromotion(id));
      && (forall x :: multiset(r.promotions)[x] == if x.id == id then 0 else multiset(s.promotions)[x])
      && Seqs.IsSubseq(r.promotions, s.promotions)
      && r == s.(promotions := r.promotions, loading := false)
  {
    var r := Seqs.RemoveKeyed(s.promotions, PromotionId, id);
    Seqs.RemoveKeyedSubseq(s.promotions, PromotionId, id);
    Seqs.RemoveKeyedCounts(s.promotions, PromotionId, id);
    assert forall x :: PromotionId(x) == x.id;
  }

  /** `CREATE_*` appends the payload: the old list is a prefix and the list
      grows by one. */
  lemma CreateAppends(s: ProductsState, c: Category, p: Product, q: Promotion)
    ensures var r := Reduce(s, CreateCategory(c));
      |r.categories| == |s.categories| + 1 && r.categories[..|s.categories|] == s.categories
      && r.categories[|s.categories|] == c && r == s.(categories := r.categories, loading := false)
    ensures var r := Reduce(s, CreateProduct(p));
      |r.products| == |s.products| + 1 && r.products[..|s.products|] == s.products
      && r.products[|s.products|] == p && r == s.(products := r.products, loading := false)
    ensures var r := Reduce(s, CreatePromotion(q));
      |r.promotions| == |s.promotions| + 1 && r.promotions[..|s.promotions|] == s.promotions
      && r.promotions[|s.promotions|] == q && r == s.(promotions := r.promotions, loading := false)
  {
  }

  /** Deleting a category just created under a new id gives the list back. */
  lemma DeleteUndoesCreateCategory(s: ProductsState, c: Category)
    requires forall i :: 0 <= i < |s.categories| ==> s.categories[i].id != c.id
    ensures Reduce(Reduce(s, CreateCategory(c)), DeleteCategory(c.id)) == s.(loading := false)
  {
    assert forall i :: 0 <= i < |s.categories| ==> CategoryId(s.categories[i]) != CategoryId(c);
    Seqs.RemoveUndoesAppend(s.categories, c, CategoryId);
  }

  /** Deleting a product just created under a new id gives the list back. */
  lemma DeleteUndoesCreateProduct(s: ProductsState, p: Product)
    requires forall i :: 0 <= i < |s.products| ==> s.products[i].id != p.id
    ensures Reduce(Reduce(s, CreateProduct(p)), DeleteProducts(p.id)) == s.(loading := false)
  {
    assert forall i :: 0 <= i < |s.products| ==> ProductId(s.products[i]) != ProductId(p);
    Seqs.RemoveUndoesAppend(s.products, p, ProductId);
  }

  /** Deleting a promotion just created under a new id gives the list back. */
  lemma DeleteUndoesCreatePromotion(s: ProductsState, q: Promotion)
    requires forall i :: 0 <= i < |s.promotions| ==> s.promotions[i].id != q.id
    ensures Reduce(Reduce(s, CreatePromotion(q)), DeletePromotion(q.id)) == s.(loading := false)
  {
    assert forall i :: 0 <= i < |s.promotions| ==> PromotionId(s.promotions[i]) != PromotionId(q);
    Seqs.RemoveUndoesAppend(s.promotions, q, PromotionId);
  }

  // ---------------------------------------------------------------------------
  // Fetches, flags and the default case.

  /** `FETCH_PRODUCTS` sets both the product list and the filtered list to the
      payload; the other fetches replace their list wholesale. */
  lemma FetchReplaces(s: ProductsState, a: Action)
    requires a.FetchProducts? || a.FetchCategories? || a.FetchPromotions? || a.FetchProductById?
    ensures var r := Reduce(s, a);
      && !r.loading
      && (a.FetchProducts? ==> r == s.(products := a.products, filteredProducts := a.products, loading := false))
      && (a.FetchCategories? ==> r == s.(categories := a.categories, loading := false))
      && (a.FetchPromotions? ==> r == s.(promotions := a.promotions, loading := false))
      && (a.FetchProductById? ==> r == s.(productById := a.found, loading := false))
  {
  }

  /** The loading actions change only `loading`, `SET_SELECTED_CATEGORY` only
      the selection (not `loading`), and `AUTH_ERROR` sets the error and ends
      loading. */
  lemma FlagsChangeOneField(s: ProductsState, selected: Option<Id>, m: string)
    ensures Reduce(s, LoadingStart) == s.(loading := true)
    ensures Reduce(s, LoadingEnd) == s.(loading := false)
    ensures Reduce(s, SetSelectedCategory(selected)) == s.(selectedCategory := selected)
    ensures Reduce(s, AuthError(m)) == s.(error := Some(m), loading := false)
  {
  }

  /** An action this reducer does not handle leaves the state as it is. */
  lemma OtherActionsIgnored(s: ProductsState, a: Action)
    requires a.Other? || a.LogoutUser? || a.LoginUser? || a.AuthUser? || a.RegisterUser?
          || a.UserId? || a.UpdateUser? || a.FetchUsuarios? || a.DeleteUsuario?
          || a.DashboardSummary? || a.FetchImages? || a.DeleteImages?
          || a.SetSelectedImage? || a.UploadProductImage?
    ensures Reduce(s, a) == s
  {
  }

  // ---------------------------------------------------------------------------
  // Applying a promotion to products.

  lemma LinkIdsOfMerge(existing: seq<ProductLink>, added: seq<Id>)
    ensures LinkIds(existing + Stubs(added)) == LinkIds(existing) + added
  {
  }

  /** After the merge every requested id has an entry. */
  lemma MergeLinksAll(existing: seq<ProductLink>, productIds: seq<Id>)
    ensures forall id :: id in productIds ==>
      id in LinkIds(existing + Stubs(Unlinked(existing, productIds)))
  {
    LinkIdsOfMerge(existing, Unlinked(existing, productIds));
  }

  /** The ids of the target promotion after the merge: the existing entries
      are a prefix, each appended entry is an `{ id }` stub for a requested id
      that no existing entry had, and every requested id is now present. */
  lemma WithProductsMerges(p: Promotion, productIds: seq<Id>)
    ensures var existing := p.products.GetOr([]);
      var merged := WithProducts(p, productIds).products.value;
      && WithProducts(p, productIds) == p.(products := Some(merged))
      && |existing| <= |merged| && merged[..|existing|] == existing
      && (forall i :: |existing| <= i < |merged| ==>
            merged[i].IdStub? && merged[i].id in productIds && merged[i].id !in LinkIds(existing))
      && (forall id :: id in productIds ==> id in LinkIds(merged))
  {
    var existing := p.products.GetOr([]);
    var added := Unlinked(existing, productIds);
    var merged := existing + Stubs(added);
    assert merged[..|existing|] == existing;
    MergeLinksAll(existing, productIds);
    forall i | |existing| <= i < |merged|
      ensures merged[i].IdStub? && merged[i].id in productIds && merged[i].id !in LinkIds(existing)
    {
      assert merged[i] == IdStub(added[i - |existing|]);
      assert added[i - |existing|] in added;
    }
  }

  /** Merging the same ids a second time appends nothing. */
  lemma WithProductsIdempotent(p: Promotion, productIds: seq<Id>)
    ensures WithProducts(WithProducts(p, productIds), productIds) == WithProducts(p, productIds)
  {
    var existing := p.products.GetOr([]);
    var merged := existing + Stubs(Unlinked(existing, productIds));
    MergeLinksAll(existing, productIds);
    var again := Unlinked(merged, productIds);
    assert again == [];
    assert merged + Stubs(again) == merged;
  }

  /** `APPLY_PROMOTION_PRODUCTS` changes only the promotions whose id is the
      target, each by the merge above; the list keeps its length and order. */
  lemma ApplyChangesOnlyTarget(s: ProductsState, targetId: Id, productIds: seq<Id>)
    ensures var r := Reduce(s, ApplyPromotionProducts(targetId, productIds));
      && |r.promotions| == |s.promotions|
      && (forall i :: 0 <= i < |s.promotions| && s.promotions[i].id != targetId ==>
            r.promotions[i] == s.promotions[i])
      && (forall i :: 0 <= i < |s.promotions| && s.promotions[i].id == targetId ==>
            r.promotions[i] == WithProducts(s.promotions[i], productIds))
      && r == s.(promotions := r.promotions, loading := false)
  {
  }

  /** After `APPLY_PROMOTION_PRODUCTS` the target promotion has an entry for
      every requested id. */
  lemma ApplyLinksRequested(s: ProductsState, targetId: Id, productIds: seq<Id>, k: int)
    requires 0 <= k < |s.promotions| && s.promotions[k].id == targetId
    ensures var r := Reduce(s, ApplyPromotionProducts(targetId, productIds));
      && k < |r.promotions|
      && r.promotions[k].products.Some?
      && forall id :: id in productIds ==> id in LinkIds(r.promotions[k].products.value)
  {
    ApplyChangesOnlyTarget(s, targetId, productIds);
    MergeLinksAll(s.promotions[k].products.GetOr([]), productIds);
  }

  /** Applying the same payload twice gives the same state as applying it
      once. */
  lemma ApplyIdempotent(s: ProductsState, targetId: Id, productIds: seq<Id>)
    ensures var a := ApplyPromotionProducts(targetId, productIds);
      Reduce(Reduce(s, a), a) == Reduce(s, a)
  {
    var a := ApplyPromotionProducts(targetId, productIds);
    var once := Reduce(s, a);
    var twice := Reduce(once, a);
    forall i | 0 <= i < |s.promotions| ensures twice.promotions[i] == once.promotions[i] {
      if s.promotions[i].id == targetId {
        WithProductsIdempotent(s.promotions[i], productIds);
      }
    }
  }
}
