/** The actions the three reducers receive. Every dispatched action reaches
    every reducer, so there is one action type; each constructor carries the
    payload its thunk dispatches, typed. */
module Actions {
  import opened Wrappers
  import opened Interfaces

  /** The `{ user, token, rol }` payload of a successful authentication. */
  datatype Session = Session(user: IUser, token: string, rol: Option<Role>)

  /** The object `DASHBOARD_SUMMARY` spreads over the dashboard state: each
      property it carries replaces the state's (`None` = property absent;
      `error` may carry `null`). */
  datatype SummaryPatch = SummaryPatch(
    totalProducts: Option<int>,
    totalUsers: Option<int>,
    totalCategories: Option<int>,
    totalPromotions: Option<int>,
    newProductsThisMonth: Option<int>,
    activePromotions: Option<int>,
    topCategory: Option<Option<string>>,
    mostExpensiveProduct: Option<Priced>,
    biggestPromotion: Option<Discounted>,
    productImages: Option<seq<ImageDashboard>>,
    loading: Option<bool>,
    error: Option<Option<string>>)

  /** `{ nombre, precio }` of the most expensive product. */
  datatype Priced = Priced(nombre: Option<string>, precio: real)

  /** `{ nombre, descuento }` of the biggest promotion. */
  datatype Discounted = Discounted(nombre: Option<string>, descuento: real)

  /** The `DELETE_IMAGES` payload, which the reducer compares with image ids
      as it is: an id string, or a record (which equals no id). */
  datatype DeletedImage = DeletedId(id: Id) | DeletedRecord(image: ImageDashboard)

  datatype Action =
    | LoadingStart
    | LoadingEnd
    | AuthError(message: string)
    // products slice
    | FetchCategories(categories: seq<Category>)
    | CreateCategory(category: Category)
    | UpdateCategory(category: Category)
    | DeleteCategory(categoryId: Id)
    | FetchProducts(products: seq<Product>)
    | FetchProductById(found: Option<Product>)
    | SetSelectedCategory(selected: Option<Id>)
    | CreateProduct(product: Product)
    | UpdateProducts(product: Product)
    | DeleteProducts(productId: Id)
    | FetchPromotions(promotions: seq<Promotion>)
    | CreatePromotion(promotion: Promotion)
    | DeletePromotion(promotionId: Id)
    | UpdatePromotion(promotion: Promotion)
    | ApplyPromotionProducts(targetId: Id, productIds: seq<Id>)
    // auth slice
    | AuthUser(session: Session)
    | LoginUser(session: Session)
    | LogoutUser
    | RegisterUser(session: Session)
    | UserId(user: IUser)
    | UpdateUser(user: IUser)
    | FetchUsuarios(users: seq<IUser>)
    | DeleteUsuario(userId: Id)
    // dashboard slice
    | DashboardSummary(patch: SummaryPatch)
    | FetchImages(images: seq<ImageDashboard>)
    | DeleteImages(deleted: DeletedImage)
    | SetSelectedImage(image: ImageDashboard)
    | UploadProductImage(image: ImageDashboard)
    /** Any other action type. */
    | Other(actionType: string)
}
