# Floristería storefront: promotion resolver, store reducers and list rules

This project models the decision logic of the front end of a flower shop
(`ecommerce_floreria_frontend`): a React/Redux single-page application with a
public catalogue and an administration dashboard. What is modelled is the part
of the program that decides things, stated over values:

- **The promotion resolver** (`src/utils/promotionUtils.ts`): whether a
  promotion applies at an instant (enabled, start inclusive, end stretched to
  the last millisecond of its day, unparseable text dates replaced by "now"),
  and the discounted price of a product: a stable sort of the product's
  promotions by `valor`, highest first, the first active one, a validation of
  that promotion only, and the price rounded to cents with `Math.round`.
- **The three Redux reducers** (`productsReducer`, `authReducer`,
  `dashboardReducer`) as pure functions `Reduce(state, action)` over one
  `Action` datatype shared by all of them (in Redux every action reaches every
  reducer): append, replace by id, remove by id, reset, merge of product ids
  into a promotion, and the spread of the dashboard summary.
- **The rules embedded in components**: the product selection of the
  bulk-apply dialog (`ApplyPromotionModal`), the promotion form check
  (`PromotionFormModal`), the status badge and list of promotions
  (`PromotionsManagement`), the admin product and user filters
  (`ProductoManagement`, `UsuarioManagement`), the storefront catalogue filter,
  category selection and discount map (`CategorySection`), the offers carousel
  (`PromotionCarousel`) and the route guard and header/footer visibility
  (`App`).

Instants are integers (milliseconds, local time) and the current instant is a
parameter `now`. Prices and percentages are reals. JavaScript details that
decide outcomes are written out: `Math.round` rounds halves up, `includes("")`
is true, `!value` is true for the empty string, `x?.toString()` of an
undefined flag never equals a filter text, comparisons with an Invalid Date
are false, and an object never `===` a string.

The loops of the source are methods proved against the functions that
specify them: the `forEach` of select-all (`ApplyPromotionModal.PushMissing`),
the error record of `validateForm` (`PromotionFormModal.ValidateForm`) and the
`reduce` that builds the discount map (`CategorySection.PromotionsData`).

Modules: `Wrappers` (Option), `Text` (lower-casing, `includes`, `trim`,
ordering of names), `Seqs` (filter, subsequence, duplicates, replace and remove
by key), `Interfaces` (the records), `Actions` (the action payloads), then one
module per source file.

## Model

| member | source | states |
|---|---|---|
| PromotionUtils.EnsureDate | src/utils/promotionUtils.ts:14-29 | a `Date` is kept as it is (invalid only if it was invalid); a text date is its parsed instant, or `now` when it cannot be parsed, so it is never invalid |
| PromotionUtils.EndOfDaySameDay | src/utils/promotionUtils.ts:41-43 | the stretched end lies in the same day as the end date, at or after it, and the next millisecond starts a new day |
| PromotionUtils.InactiveNeverActive | src/utils/promotionUtils.ts:35 | a promotion whose `activo` is false is never active, whatever its dates |
| PromotionUtils.ActiveWindow | src/utils/promotionUtils.ts:37-45 | with valid dates an enabled promotion is active iff start <= now <= end of the end date's day; the whole last day counts and nothing after it |
| PromotionUtils.UnparseableDatesFallBackToNow | src/utils/promotionUtils.ts:14-29 | an unparseable start never blocks activity; with both dates unparseable an enabled promotion is active |
| PromotionUtils.SortByValor | src/utils/promotionUtils.ts:57 | the sort is a permutation of the promotions and orders them by `valor`, highest first |
| PromotionUtils.InsertByValorSorted | src/utils/promotionUtils.ts:57 | inserting one promotion into a list sorted by `valor` keeps it sorted |
| PromotionUtils.SortByValorStable | src/utils/promotionUtils.ts:57 | promotions of equal `valor` keep their input order (the sort is stable) |
| PromotionUtils.FindFirstActive | src/utils/promotionUtils.ts:60 | `find(isPromotionActive)`: a result is the first active member of the list, every earlier one being inactive; there is none iff no member is active |
| PromotionUtils.FindFirstActiveInsert | src/utils/promotionUtils.ts:57-60 | adding one promotion to a sorted list changes the chosen one only if it is active and its `valor` is at least the chosen one's |
| PromotionUtils.FirstHighestActiveUnique | src/utils/promotionUtils.ts:57-60 | at most one position holds the first active promotion of highest `valor` |
| PromotionUtils.SelectPromotionSpec | src/utils/promotionUtils.ts:57-64 | the chosen promotion is the active one of highest `valor`, the earliest among equals; none is chosen iff none is active |
| PromotionUtils.CalculateDiscountedPrice | src/utils/promotionUtils.ts:51-90 | a result exists iff a promotion was chosen and it passes the percentage and price checks; it then reports that promotion's figures |
| PromotionUtils.NoPromotionsNoDiscount | src/utils/promotionUtils.ts:52-54 | a product with no promotion list or an empty one gets no discount |
| PromotionUtils.NoActiveNoDiscount | src/utils/promotionUtils.ts:62-64 | no active attached promotion: no discount |
| PromotionUtils.DiscountIffFirstHighestAccepted | src/utils/promotionUtils.ts:57-89 | a discount is given iff the first highest active promotion has 0 < valor < 100 and the price is positive, and it is that promotion's discount |
| PromotionUtils.NoFallbackAfterRejection | src/utils/promotionUtils.ts:60-78 | when the chosen promotion fails the checks there is no discount, even if a lower active promotion would pass |
| PromotionUtils.DiscountFigures | src/utils/promotionUtils.ts:67-89 | a discount reports the original price (positive), the percentage (strictly between 0 and 100) and the name and id of an active promotion no active promotion outbids |
| PromotionUtils.RoundToCentsNear | src/utils/promotionUtils.ts:85 | `Math.round(x * 100) / 100` lies within half a cent of x (above by at most half a cent, strictly less than half a cent below) |
| PromotionUtils.DiscountRounding | src/utils/promotionUtils.ts:81-85 | the reported price is within half a cent of precio * (1 - valor / 100) |
| PromotionUtils.RemainingBounds | src/utils/promotionUtils.ts:70-81 | an accepted percentage leaves a fraction strictly between 0 and 1 of the price |
| PromotionUtils.CentsStayWithinPrice | src/utils/promotionUtils.ts:85 | rounding to cents keeps a value between 0 and a price in whole cents |
| PromotionUtils.DiscountedPriceWithinPrice | src/utils/promotionUtils.ts:80-89 | for a price in whole cents the discounted price is between 0 and the original price |
| PromotionUtils.HigherPromotionWins | src/utils/promotionUtils.ts:57-89 | 100.00 with active promotions of 10% and 25% gives 75.00 under the 25% promotion |
| PromotionUtils.RoundsToNearestCent | src/utils/promotionUtils.ts:81-85 | 33.33 at 15% (28.3305) is reported as 28.33 |
| ProductsReducer.UpdateReplacesById | src/redux/reducers/productsReducer.ts:70-146 | `UPDATE_CATEGORY`, `UPDATE_PRODUCTS`, `UPDATE_PROMOTION` replace exactly the entries with the payload's id, keep length and all other entries and fields, and are idempotent |
| ProductsReducer.DeleteCategoryRemovesById | src/redux/reducers/productsReducer.ts:78-83 | no category with the id is left; every other one is kept as often as before and in order; nothing else but `loading` changes |
| ProductsReducer.DeleteProductRemovesById | src/redux/reducers/productsReducer.ts:115-120 | the same for `DELETE_PRODUCTS` on the product list |
| ProductsReducer.DeletePromotionRemovesById | src/redux/reducers/productsReducer.ts:133-138 | the same for `DELETE_PROMOTION` on the promotion list |
| ProductsReducer.CreateAppends | src/redux/reducers/productsReducer.ts:64-132 | `CREATE_*` appends the payload: the old list is a prefix and the list grows by one |
| ProductsReducer.DeleteUndoesCreateCategory | src/redux/reducers/productsReducer.ts:64-83 | deleting a category just created under a new id gives the state back (with `loading` false) |
| ProductsReducer.DeleteUndoesCreateProduct | src/redux/reducers/productsReducer.ts:102-120 | the same for products |
| ProductsReducer.DeleteUndoesCreatePromotion | src/redux/reducers/productsReducer.ts:127-138 | the same for promotions |
| ProductsReducer.FetchReplaces | src/redux/reducers/productsReducer.ts:58-126 | `FETCH_PRODUCTS` sets both `products` and `filteredProducts`; the other fetches replace their field; all end loading |
| ProductsReducer.FlagsChangeOneField | src/redux/reducers/productsReducer.ts:48-172 | the loading actions change only `loading`, `SET_SELECTED_CATEGORY` only the selection, `AUTH_ERROR` sets the error and ends loading |
| ProductsReducer.OtherActionsIgnored | src/redux/reducers/productsReducer.ts:173-174 | actions this reducer does not handle leave the state unchanged |
| ProductsReducer.MergeLinksAll | src/redux/reducers/productsReducer.ts:150-158 | after the merge every requested id has an entry |
| ProductsReducer.WithProductsMerges | src/redux/reducers/productsReducer.ts:147-161 | the existing entries stay a prefix; each appended entry is an `{ id }` stub for a requested id no existing entry had; every requested id is present |
| ProductsReducer.WithProductsIdempotent | src/redux/reducers/productsReducer.ts:152-160 | merging the same ids again appends nothing |
| ProductsReducer.ApplyChangesOnlyTarget | src/redux/reducers/productsReducer.ts:147-166 | `APPLY_PROMOTION_PRODUCTS` changes only promotions with the target id, keeps length and order, and ends loading |
| ProductsReducer.ApplyIdempotent | src/redux/reducers/productsReducer.ts:147-166 | applying the same payload twice gives the same state as once |
| ProductsReducer.ApplyLinksRequested | src/redux/reducers/productsReducer.ts:147-166 | after `APPLY_PROMOTION_PRODUCTS` the target promotion has an entry for every requested id |
| AuthReducer.LogoutResets | src/redux/reducers/authReducer.ts:28-77 | `LOGOUT_USER` gives the initial state: logged out, no user, token or role, an empty user list |
| AuthReducer.SessionFromPayload | src/redux/reducers/authReducer.ts:67-87 | `LOGIN_USER` and `REGISTER_USER` take user, token and role from the payload, log in, clear the error and leave users, profile and loading alone |
| AuthReducer.AuthUserStoresPayload | src/redux/reducers/authReducer.ts:57-66 | `AUTH_USER` does the same and stores the whole payload as `userById` |
| AuthReducer.AuthErrorOnlyError | src/redux/reducers/authReducer.ts:52-56 | `AUTH_ERROR` sets only the error; loading is not ended |
| AuthReducer.UpdateUserById | src/redux/reducers/authReducer.ts:97-105 | `UPDATE_USER` replaces the session user and the viewed profile only when their id matches, replaces by id in the list (a null list stays null), and is idempotent |
| AuthReducer.DeleteUsuarioById | src/redux/reducers/authReducer.ts:113-119 | `DELETE_USUARIO` removes every user with the id and keeps the rest in order and multiplicity; a null list stays null |
| AuthReducer.ProfileAndListLoads | src/redux/reducers/authReducer.ts:89-112 | `USER_ID` and `FETCH_USUARIOS` store their payload and set `isLoggedIn`, even from the logged-out initial state with no user |
| AuthReducer.OtherActionsIgnored | src/redux/reducers/authReducer.ts:42-121 | loading actions change only `loading`; other actions change nothing |
| DashboardReducer.SummaryMerges | src/redux/reducers/dashboardReducer.ts:75-80 | `DASHBOARD_SUMMARY` takes each field the payload carries, keeps the others, always ends with loading false, and is idempotent |
| DashboardReducer.FetchImagesReplaces | src/redux/reducers/dashboardReducer.ts:81-86 | `FETCH_IMAGES` replaces the image list and ends loading |
| DashboardReducer.DeleteImagesById | src/redux/reducers/dashboardReducer.ts:87-92 | `DELETE_IMAGES` with an id removes exactly the images with that id, in order; a record payload removes nothing |
| DashboardReducer.SetSelectedImageReplacesById | src/redux/reducers/dashboardReducer.ts:93-100 | `SET_SELECTED_IMAGE` replaces only the images with the payload's id; the others keep their `principal` flag; idempotent |
| DashboardReducer.UploadAppends | src/redux/reducers/dashboardReducer.ts:101-106 | `UPLOAD_PRODUCT_IMAGE` appends the image: one longer, the old list a prefix, loading ended |
| DashboardReducer.DeleteUndoesUpload | src/redux/reducers/dashboardReducer.ts:87-106 | deleting an uploaded image by its new id gives the image list back |
| DashboardReducer.SingleFieldActions | src/redux/reducers/dashboardReducer.ts:60-108 | loading actions and `AUTH_ERROR` change one field each; other actions change nothing |
| ApplyPromotionModal.InitialSelectionDedupes | src/components/dashboard/ApplyPromotionModal.tsx:25-45 | the initial selection holds each of the promotion's ids once, in order of first occurrence |
| ApplyPromotionModal.FilteredProductsSpec | src/components/dashboard/ApplyPromotionModal.tsx:48-54 | the visible products are exactly the enabled ones whose lower-cased name includes the lower-cased term, in catalogue order |
| ApplyPromotionModal.ToggleFlips | src/components/dashboard/ApplyPromotionModal.tsx:56-62 | toggling flips the membership of that id only; toggling twice restores the selected set |
| ApplyPromotionModal.HandleSelectAll | src/components/dashboard/ApplyPromotionModal.tsx:64-85 | all visible selected: the visible ids are removed and every other id kept in order with its multiplicity; otherwise the old selection is a prefix, each missing visible id is appended once, and no duplicate is introduced; no visible product changes nothing |
| ApplyPromotionModal.PushMissing | src/components/dashboard/ApplyPromotionModal.tsx:75-83 | the `forEach` loop yields the selection with the missing ids appended in order |
| ApplyPromotionModal.AllFilteredSelectedVsSelectAll | src/components/dashboard/ApplyPromotionModal.tsx:64-126 | the checkbox equals the select-all test except with no visible product, where select-all sees "all selected" but the box is off |
| ApplyPromotionModal.SubmitSpec | src/components/dashboard/ApplyPromotionModal.tsx:93-106 | nothing is dispatched iff every selected id is empty; otherwise each non-empty selected id is sent once, and nothing else |
| ApplyPromotionModal.SubmittedIdsLinked | src/components/dashboard/ApplyPromotionModal.tsx:93-106 | after the store processes the submitted action, the promotion links every non-empty selected id |
| PromotionFormModal.ValidateForm | src/components/dashboard/PromotionFormModal.tsx:54-84 | each error key is set exactly in its case with its message (the end-date key carries the order message when both dates are filled in, the required message otherwise), and the form is valid iff no key is set iff it is accepted |
| PromotionFormModal.NonNumericValorRejected | src/components/dashboard/PromotionFormModal.tsx:61-95 | a non-numeric discount is never accepted |
| PromotionFormModal.SameDayRejected | src/components/dashboard/PromotionFormModal.tsx:73-80 | equal start and end dates are rejected |
| PromotionFormModal.FormAndResolverDisagreeAtHundred | src/components/dashboard/PromotionFormModal.tsx:61-63 | a promotion the form accepts passes the resolver's check iff its discount is below 100 and the price is positive; 100% is accepted by the form and refused by the resolver |
| PromotionsManagement.StatusSpec | src/components/dashboard/PromotionsManagement.tsx:82-92 | `Inactiva` iff disabled; `Pendiente` iff enabled and before a valid start; `Finalizada` iff enabled, started and strictly after a valid end; `Activa` otherwise |
| PromotionsManagement.ActivaWithValidDates | src/components/dashboard/PromotionsManagement.tsx:82-92 | with valid dates, `Activa` iff enabled and start <= now <= end |
| PromotionsManagement.ActivaIsApplied | src/components/dashboard/PromotionsManagement.tsx:82-92 | a promotion shown `Activa` is one the resolver applies, for `Date` objects and for text dates alike (only an Invalid `Date` object is outside the statement) |
| PromotionsManagement.FinalizadaYetApplied | src/components/dashboard/PromotionsManagement.tsx:90 | on the last day, after the end instant, the badge says `Finalizada` while the resolver still applies the discount, for any valid dates, text or `Date` |
| PromotionsManagement.FilteredPromotionsSpec | src/components/dashboard/PromotionsManagement.tsx:77-79 | with `showInactive` the list is unchanged; otherwise exactly the enabled promotions, in order and multiplicity |
| ProductoManagement.SortByNombre | src/components/dashboard/ProductoManagement.tsx:52 | the sort is a permutation and orders by name |
| ProductoManagement.InsertByNombreSorted | src/components/dashboard/ProductoManagement.tsx:52 | inserting one product into a name-sorted list keeps it sorted |
| ProductoManagement.FilteredProductsSpec | src/components/dashboard/ProductoManagement.tsx:36-52 | the table lists each matching product as often as the catalogue has it and no other, sorted by name |
| ProductoManagement.FilterFacts | src/components/dashboard/ProductoManagement.tsx:38-48 | empty text filters match everything, price bounds are inclusive, a NaN bound matches nothing, an undefined `activo` never matches a state filter |
| ProductoManagement.ResetListsAll | src/components/dashboard/ProductoManagement.tsx:18-52 | after a reset every product with a non-negative price is listed |
| CategorySection.FilteredProductsSpec | src/components/CategorySection.tsx:101-108 | a product is shown iff it is in the selected category (or none is selected) and the search is empty or matches its name or description; the shown list keeps catalogue order and each product's multiplicity |
| CategorySection.FilterDefaults | src/components/CategorySection.tsx:101-107 | an empty search shows every product of the category; with no category (null or empty id) and no search the whole catalogue is shown, in order |
| CategorySection.ClickShowsCategory | src/components/CategorySection.tsx:101-113 | after the store processes a click, only the selection has changed and the search is empty; another category shows exactly the products having a category with that id, the selected one shows the whole catalogue |
| CategorySection.ClickTwiceDeselects | src/components/CategorySection.tsx:110-113 | clicking a category and clicking it again, each on the state the store produced, returns to no selection and the whole catalogue |
| CategorySection.ShowAllShowsCatalogue | src/components/CategorySection.tsx:101-118 | after the store processes show-all, only the selection has changed (to none) and the whole catalogue is shown, in order |
| CategorySection.FindByName | src/components/CategorySection.tsx:84-86 | finds the first category whose name equals the given one ignoring case, or reports that none does |
| CategorySection.CategoryFromQuerySpec | src/components/CategorySection.tsx:82-88 | the query parameter selects a category iff it is non-empty and some loaded category has that name ignoring case, and then the first such one |
| CategorySection.PromotionsData | src/components/CategorySection.tsx:125-131 | the `reduce` loop builds the same map as the specification function over the products' discounts |
| CategorySection.PromotionsOfKeys | src/components/CategorySection.tsx:125-131 | the map has a key exactly for the ids of products with a discount |
| CategorySection.PromotionsOfValues | src/components/CategorySection.tsx:125-131 | each key maps to the discount of the last product with that id that has one |
| CategorySection.PromotionsOfDistinct | src/components/CategorySection.tsx:125-131 | with distinct ids, a product's id is a key iff it has a discount, and the key maps to that discount |
| UsuarioManagement.FilteredUsersSpec | src/components/dashboard/UsuarioManagement.tsx:37-44 | a null list shows nobody; otherwise exactly the matching users, in order and multiplicity |
| UsuarioManagement.RoleFilterIsExact | src/components/dashboard/UsuarioManagement.tsx:40 | a non-empty role filter matches only users whose role text is exactly the filter |
| UsuarioManagement.InitialFiltersShowAll | src/components/dashboard/UsuarioManagement.tsx:20-44 | with the initial filters every user is listed, in order |
| PromotionCarousel.ProductsWithPromotionSpec | src/components/PromotionCarousel.tsx:20-22 | the carousel shows exactly the enabled products that have an entry in the discount map, in catalogue order |
| PromotionCarousel.RenderSpec | src/components/PromotionCarousel.tsx:25-58 | nothing is rendered iff no product qualifies; otherwise 1 or 2 slides at once (as many below 1024 px), and looping, centring and small-screen arrows iff more than one offer |
| PromotionCarousel.CarouselShowsDiscounted | src/components/PromotionCarousel.tsx:20-22 | fed the catalogue's discount map (distinct ids), the carousel shows exactly the enabled products with a discount now |
| App.ProtectedRouteSpec | src/App.tsx:25-40 | redirect to `/` iff not logged in or no user; to `/unauthorized` iff a required role differs from the user's; otherwise the page |
| App.RolesAreExclusive | src/App.tsx:70-82 | an administrator is refused the user-only pages, and a user without a role is refused both protected areas |
| App.GuardAfterActions | src/App.tsx:29-39 | after `FETCH_USUARIOS` from the initial state the flag says logged in but the guard still redirects to `/`; after a login the pages of the user's role open; after logout every protected page redirects |
| App.HeaderAndFooter | src/App.tsx:42-56 | the header is hidden exactly on the six listed pages and the footer is shown exactly where the header is |

## Left out

- HTTP thunks, `localStorage`, the store set-up, React rendering, styles, Formik forms, scrolling and timers: they are effects, not decisions.
- The `console.log` and `console.error` calls of the reducers and the resolver: output only.
- Floating point: prices and percentages are exact reals, so the model does not capture binary rounding in `precio * (1 - valor / 100)`; NaN and string values of `precio`/`valor` are not representable, and the form's `parseFloat` result is an input (`Option<real>`).
- Time zones and date parsing: instants are local-time milliseconds, `new Date(text)` is an input (`Option<int>`), and the resolver's own `new Date()` and the one `ensureDate` falls back to are the same `now`.
- PromotionUtils.DiscountedPriceWithinPrice: stated only for prices in whole cents; a price with fractions of a cent can be rounded above itself.
- ProductoManagement.SortByNombre: `localeCompare` is modelled as code-unit order; the sort is proved sorted and a permutation but not stable, since the order of equal names is not something the table promises.
- `Text.Lower` lower-cases ASCII and Latin-1 letters only; other Unicode case mappings are not modelled.
- Fields the modelled logic never reads are omitted from the records: `Product.user`, `Category.products`, `IUser.products` and the image and promotion timestamps.
- ApplyPromotionModal.HandleSelectAll: the source tests "all selected" on the rendered selection and updates the pending one; the model treats them as the same list.
- CategorySection: the `action=showAllProducts` query effect, the search box clearing and the scroll effects are not modelled.
- PromotionCarousel.RenderSpec: the fixed slider options (dots, speed, autoplay) are constants and not modelled.
- The `FETCH_USUARIOS` payload is modelled as a list of users, and the `DELETE_IMAGES` payload as either an id or a record, the two shapes the dashboard dispatches. The `DELETE_CATEGORY`, `DELETE_PRODUCTS` and `DELETE_PROMOTION` actions carry only the id the reducer reads as `action.payload.id`; the rest of that payload object is not modelled.
