/** `dashboardReducer`: the administrator's summary figures and the image
    list of the product being edited. */
module DashboardReducer {
  import opened Wrappers
  import opened Interfaces
  import opened Actions
  import Seqs

  datatype DashboardState = DashboardState(
    totalProducts: int,
    totalUsers: int,
    totalCategories: int,
    totalPromotions: int,
    newProductsThisMonth: int,
    activePromotions: int,
    topCategory: Option<string>,
    mostExpensiveProduct: Priced,
    biggestPromotion: Discounted,
    productImages: seq<ImageDashboard>,
    loading: bool,
    error: Option<string>)

  const InitialState := DashboardState(
    0, 0, 0, 0, 0, 0, None, Priced(None, 0.0), Discounted(None, 0.0), [], false, None)

  function ImageKey(image: ImageDashboard): Id { image.id }

  /** `{ ...state, ...payload }`: each property the payload carries wins. */
  function Spread(s: DashboardState, p: SummaryPatch): DashboardState {
    DashboardState(
      p.totalProducts.GetOr(s.totalProducts),
      p.totalUsers.GetOr(s.totalUsers),
      p.totalCategories.GetOr(s.totalCategories),
      p.totalPromotions.GetOr(s.totalPromotions),
      p.newProductsThisMonth.GetOr(s.newProductsThisMonth),
      p.activePromotions.GetOr(s.activePromotions),
      p.topCategory.GetOr(s.topCategory),
      p.mostExpensiveProduct.GetOr(s.mostExpensiveProduct),
      p.biggestPromotion.GetOr(s.biggestPromotion),
      p.productImages.GetOr(s.productImages),
      p.loading.GetOr(s.loading),
      p.error.GetOr(s.error))
  }

  /** `image.id !== payload`: only an id payload can equal an image id. */
  function RemainingImages(images: seq<ImageDashboard>, deleted: DeletedImage): seq<ImageDashboard> {
    match deleted
    case DeletedId(id) => Seqs.RemoveKeyed(images, ImageKey, id)
    case DeletedRecord(_) => images
  }

  function Reduce(s: DashboardState, a: Action): DashboardState {
    match a
    case LoadingStart => s.(loading := true)
    case LoadingEnd => s.(loading := false)
    case AuthError(m) => s.(error := Some(m))
    case DashboardSummary(p) => Spread(s, p).(loading := false)
    case FetchImages(images) => s.(productImages := images, loading := false)
    case DeleteImages(deleted) => s.(productImages := RemainingImages(s.productImages, deleted), loading := false)
    case SetSelectedImage(image) =>
      s.(productImages := Seqs.ReplaceKeyed(s.productImages, ImageKey, image), loading := false)
    case UploadProductImage(image) => s.(productImages := s.productImages + [image], loading := false)
    case _ => s
  }

  /** `DASHBOARD_SUMMARY` takes every figure the payload carries and keeps the
      others; it always ends with `loading` false, even when the payload
      carries a `loading` of its own; the same summary twice is the same as
      once. */
  lemma SummaryMerges(s: DashboardState, p: SummaryPatch)
    ensures var r := Reduce(s, DashboardSummary(p));
      && !r.loading
      && r.totalProducts == (if p.totalProducts.Some? then p.totalProducts.value else s.totalProducts)
      && r.totalUsers == (if p.totalUsers.Some? then p.totalUsers.value else s.totalUsers)
      && r.totalCategories == (if p.totalCategories.Some? then p.totalCategories.value else s.totalCategories)
      && r.totalPromotions == (if p.totalPromotions.Some? then p.totalPromotions.value else s.totalPromotions)
      && r.newProductsThisMonth == (if p.newProductsThisMonth.Some? then p.newProductsThisMonth.value else s.newProductsThisMonth)
      && r.activePromotions == (if p.activePromotions.Some? then p.activePromotions.value else s.activePromotions)
      && r.topCategory == (if p.topCategory.Some? then p.topCategory.value else s.topCategory)
      && r.mostExpensiveProduct == (if p.mostExpensiveProduct.Some? then p.mostExpensiveProduct.value else s.mostExpensiveProduct)
      && r.biggestPromotion == (if p.biggestPromotion.Some? then p.biggestPromotion.value else s.biggestPromotion)
      && r.productImages == (if p.productImages.Some? then p.productImages.value else s.productImages)
      && r.error == (if p.error.Some? then p.error.value else s.error)
      && Reduce(r, DashboardSummary(p)) == r
  {
  }

  /** `FETCH_IMAGES` replaces the image list wholesale and ends loading. */
  lemma FetchImagesReplaces(s: DashboardState, images: seq<ImageDashboard>)
    ensures Reduce(s, FetchImages(images)) == s.(productImages := images, loading := false)
  {
  }

  /** `DELETE_IMAGES` with an id removes exactly the images with that id and
      keeps the others in order; a payload that is a record removes nothing,
      since an object never equals an id string. */
  lemma DeleteImagesById(s: DashboardState, deleted: DeletedImage)
    ensures var r := Reduce(s, DeleteImages(deleted));
      && r == s.(productImages := r.productImages, loading := false)
      && Seqs.IsSubseq(r.productImages, s.productImages)
      && (deleted.DeletedId? ==>
            forall x :: multiset(r.productImages)[x] == if x.id == deleted.id then 0 else multiset(s.productImages)[x])
      && (deleted.DeletedRecord? ==> r.productImages == s.productImages)
  {
    if deleted.DeletedId? {
      Seqs.RemoveKeyedCounts(s.productImages, ImageKey, deleted.id);
      Seqs.RemoveKeyedSubseq(s.productImages, ImageKey, deleted.id);
    } else {
      Seqs.IsSubseqRefl(s.productImages);
    }
  }

  /** `SET_SELECTED_IMAGE` replaces only the images with the payload's id; the
      others, their `principal` flag included, are untouched. */
  lemma SetSelectedImageReplacesById(s: DashboardState, image: ImageDashboard)
    ensures var r := Reduce(s, SetSelectedImage(image));
      && |r.productImages| == |s.productImages|
      && (forall i :: 0 <= i < |s.productImages| ==>
            r.productImages[i] == if s.productImages[i].id == image.id then image else s.productImages[i])
      && (forall i :: 0 <= i < |s.productImages| && s.productImages[i].id != image.id ==>
            r.productImages[i].principal == s.productImages[i].principal)
      && r == s.(productImages := r.productImages, loading := false)
      && Reduce(r, SetSelectedImage(image)) == r
  {
    Seqs.ReplaceKeyedIdempotent(s.productImages, ImageKey, image);
  }

  /** `UPLOAD_PRODUCT_IMAGE` appends the payload: one more image, the old
      ones first. */
  lemma UploadAppends(s: DashboardState, image: ImageDashboard)
    ensures var r := Reduce(s, UploadProductImage(image));
      && |r.productImages| == |s.productImages| + 1
      && r.productImages[..|s.productImages|] == s.productImages
      && r.productImages[|s.productImages|] == image
      && r == s.(productImages := r.productImages, loading := false)
  {
    var r := Reduce(s, UploadProductImage(image));
    assert r.productImages == s.productImages + [image];
  }

  /** Deleting an uploaded image again by its (new) id gives the list back. */
  lemma DeleteUndoesUpload(s: DashboardState, image: ImageDashboard)
    requires forall i :: 0 <= i < |s.productImages| ==> s.productImages[i].id != image.id
    ensures Reduce(Reduce(s, UploadProductImage(image)), DeleteImages(DeletedId(image.id))).productImages == s.productImages
  {
    var r := Reduce(s, UploadProductImage(image));
    assert r.productImages == s.productImages + [image];
    assert Reduce(r, DeleteImages(DeletedId(image.id))).productImages
        == Seqs.RemoveKeyed(s.productImages + [image], ImageKey, ImageKey(image));
    assert forall i :: 0 <= i < |s.productImages| ==> ImageKey(s.productImages[i]) != ImageKey(image);
    Seqs.RemoveUndoesAppend(s.productImages, image, ImageKey);
  }

  /** The loading actions and `AUTH_ERROR` change one field each (the error
      does not end loading), and actions of the other slices change nothing. */
  lemma SingleFieldActions(s: DashboardState, m: string, a: Action)
    requires !(a.LoadingStart? || a.LoadingEnd? || a.AuthError? || a.DashboardSummary?
               || a.FetchImages? || a.DeleteImages? || a.SetSelectedImage? || a.UploadProductImage?)
    ensures Reduce(s, LoadingStart) == s.(loading := true)
    ensures Reduce(s, LoadingEnd) == s.(loading := false)
    ensures Reduce(s, AuthError(m)) == s.(error := Some(m))
    ensures Reduce(s, a) == s
  {
  }
}
