/** The storefront catalogue (`CategorySection`): category selection, the
    product filter, the category named in the query string, and the map of
    discounts handed to the offers carousel. */
module CategorySection {
  import opened Wrappers
  import opened Interfaces
  import opened Actions
  import Text
  import Seqs
  import PromotionUtils
  import ProductsReducer

  /** `!selectedCategory`: no selection, or the empty string. */
  predicate NoCategory(selected: Option<Id>) {
    selected.None? || selected.value == ""
  }

  /** Has a category with this id. */
  predicate HasCategory(product: Product, categoryId: Id) {
    exists i :: 0 <= i < |product.categories| && product.categories[i].id == categoryId
  }

  /** `!selectedCategory || product.categories.some(cat => cat.id === selectedCategory)`. */
  predicate InCategory(product: Product, selected: Option<Id>) {
    NoCategory(selected) || HasCategory(product, selected.value)
  }

  /** The lower-cased name or description includes the lower-cased term. */
  predicate MatchesSearch(product: Product, searchTerm: string) {
    Text.Contains(Text.Lower(product.nombre), Text.Lower(searchTerm))
    || (product.descripcion.Some? && Text.Contains(Text.Lower(product.descripcion.value), Text.Lower(searchTerm)))
  }

  predicate IsShown(product: Product, selected: Option<Id>, searchTerm: string) {
    InCategory(product, selected) && (searchTerm == "" || MatchesSearch(product, searchTerm))
  }

  function Shown(selected: Option<Id>, searchTerm: string): Product -> bool {
    product => IsShown(product, selected, searchTerm)
  }

  /** `filteredProducts`. */
  function FilteredProducts(products: seq<Product>, selected: Option<Id>, searchTerm: string): seq<Product> {
    Seqs.Filter(products, Shown(selected, searchTerm))
  }

  /** The shown products are exactly those in the category that match the
      search, in catalogue order and as often as the catalogue has them. */
  lemma FilteredProductsSpec(products: seq<Product>, selected: Option<Id>, searchTerm: string)
    ensures forall p :: p in FilteredProducts(products, selected, searchTerm) <==>
      p in products && IsShown(p, selected, searchTerm)
    ensures Seqs.IsSubseq(FilteredProducts(products, selected, searchTerm), products)
    ensures forall p :: multiset(FilteredProducts(products, selected, searchTerm))[p]
                        == if IsShown(p, selected, searchTerm) then multiset(products)[p] else 0
  {
  }

  /** With no category selected and an empty search, the whole catalogue is
      shown; an empty search accepts every product of the selected category. */
  lemma FilterDefaults(products: seq<Product>, selected: Option<Id>)
    ensures forall p :: p in FilteredProducts(products, selected, "") <==> p in products && InCategory(p, selected)
    ensures NoCategory(selected) ==> FilteredProducts(products, selected, "") == products
  {
    if NoCategory(selected) {
      Seqs.FilterKeepsAll(products, Shown(selected, ""));
    }
  }

  /** `handleCategoryClick`: the dispatched selection and the new search term;
      clicking the selected category clears the selection. */
  function CategoryClick(categoryId: Id, selected: Option<Id>): (Action, string) {
    (SetSelectedCategory(if Some(categoryId) == selected then None else Some(categoryId)), "")
  }

  /** `handleShowAllClick`. */
  function ShowAllClick(): (Action, string) {
    (SetSelectedCategory(None), "")
  }

  /** After the store processes show-all, only the selection has changed and
      the whole catalogue is shown, in order. */
  lemma ShowAllShowsCatalogue(s: ProductsReducer.ProductsState, products: seq<Product>)
    ensures var s' := ProductsReducer.Reduce(s, ShowAllClick().0);
      && s' == s.(selectedCategory := None)
      && FilteredProducts(products, s'.selectedCategory, ShowAllClick().1) == products
  {
    FilterDefaults(products, None);
  }

  /** After the store processes a category click, only the selection has
      changed and the search is empty: clicking another category shows
      exactly the products that have a category with that id (every product
      for the empty id), clicking the selected one shows the whole catalogue. */
  lemma ClickShowsCategory(s: ProductsReducer.ProductsState, products: seq<Product>, c: Id)
    ensures var click := CategoryClick(c, s.selectedCategory);
      var s' := ProductsReducer.Reduce(s, click.0);
      && click.1 == ""
      && s' == s.(selectedCategory := s'.selectedCategory)
      && (s.selectedCategory != Some(c) ==>
            && s'.selectedCategory == Some(c)
            && forall p :: p in FilteredProducts(products, s'.selectedCategory, click.1) <==>
                 p in products && (c == "" || HasCategory(p, c)))
      && (s.selectedCategory == Some(c) ==>
            && s'.selectedCategory.None?
            && FilteredProducts(products, s'.selectedCategory, click.1) == products)
  {
    var click := CategoryClick(c, s.selectedCategory);
    var s' := ProductsReducer.Reduce(s, click.0);
    FilterDefaults(products, s'.selectedCategory);
  }

  /** Clicking a category that is not selected and then clicking it again,
      each time on the state the store produced, comes back to no selection
      and the whole catalogue. */
  lemma ClickTwiceDeselects(s: ProductsReducer.ProductsState, products: seq<Product>, c: Id)
    requires s.selectedCategory != Some(c)
    ensures var s' := ProductsReducer.Reduce(s, CategoryClick(c, s.selectedCategory).0);
      var s'' := ProductsReducer.Reduce(s', CategoryClick(c, s'.selectedCategory).0);
      && s'.selectedCategory == Some(c)
      && s'' == s.(selectedCategory := None)
      && FilteredProducts(products, s''.selectedCategory, CategoryClick(c, s'.selectedCategory).1) == products
  {
    var s' := ProductsReducer.Reduce(s, CategoryClick(c, s.selectedCategory).0);
    ClickShowsCategory(s', products, c);
  }

  /** Index of the first category whose name equals `name` case-insensitively. */
  function FindByName(categories: seq<Category>, name: string): (r: Option<nat>)
    ensures r.Some? ==> r.value < |categories| && Text.Lower(categories[r.value].nombre) == Text.Lower(name)
                        && forall j :: 0 <= j < r.value ==> Text.Lower(categories[j].nombre) != Text.Lower(name)
    ensures r.None? ==> forall j :: 0 <= j < |categories| ==> Text.Lower(categories[j].nombre) != Text.Lower(name)
  {
    if categories == [] then None
    else if Text.Lower(categories[0].nombre) == Text.Lower(name) then Some(0)
    else match FindByName(categories[1..], name)
      case None => None
      case Some(k) => Some(k + 1)
  }

  /** The `categoria` query parameter selects the first category with that
      name, ignoring case; no parameter, an empty one, no categories loaded or
      no match dispatch nothing. */
  function CategoryFromQuery(categoryName: Option<string>, categories: seq<Category>): Option<Action> {
    if categoryName.None? || categoryName.value == "" || |categories| == 0 then None
    else match FindByName(categories, categoryName.value)
      case None => None
      case Some(k) => Some(SetSelectedCategory(Some(categories[k].id)))
  }

  lemma CategoryFromQuerySpec(categoryName: Option<string>, categories: seq<Category>)
    ensures CategoryFromQuery(categoryName, categories).Some? <==>
      categoryName.Some? && categoryName.value != ""
      && exists j :: 0 <= j < |categories| && Text.Lower(categories[j].nombre) == Text.Lower(categoryName.value)
    ensures CategoryFromQuery(categoryName, categories).Some? ==>
      exists j :: 0 <= j < |categories|
        && Text.Lower(categories[j].nombre) == Text.Lower(categoryName.value)
        && (forall i :: 0 <= i < j ==> Text.Lower(categories[i].nombre) != Text.Lower(categoryName.value))
        && CategoryFromQuery(categoryName, categories).value == SetSelectedCategory(Some(categories[j].id))
  {
  }

  // ---------------------------------------------------------------------------
  // `promotionsData`: product id -> discount, for the products that have one.

  /** The discount of each product at `now`. */
  function DiscountAt(now: int): Product -> Option<PromotionUtils.PromotionData> {
    product => PromotionUtils.CalculateDiscountedPrice(product, now)
  }

  /** The record `reduce` builds over the products with their discounts
      given by `discount`: a later product with the same id overwrites an
      earlier entry. */
  function PromotionsOf(products: seq<Product>, discount: Product -> Option<PromotionUtils.PromotionData>)
    : map<Id, PromotionUtils.PromotionData>
    decreases |products|
  {
    if products == [] then map[]
    else
      var last := products[|products| - 1];
      var acc := PromotionsOf(products[..|products| - 1], discount);
      match discount(last)
      case None => acc
      case Some(d) => acc[last.id := d]
  }

  /** The `reduce` loop, with `calculateDiscountedPrice` at `now`. */
  method PromotionsData(products: seq<Product>, now: int) returns (data: map<Id, PromotionUtils.PromotionData>)
    ensures data == PromotionsOf(products, DiscountAt(now))
  {
    data := map[];
    var i := 0;
    while i < |products|
      invariant 0 <= i <= |products|
      invariant data == PromotionsOf(products[..i], DiscountAt(now))
    {
      var product := products[i];
      assert products[..i + 1][..i] == products[..i];
      var d := PromotionUtils.CalculateDiscountedPrice(product, now);
      if d != None {
        data := data[product.id := d.value];
      }
      i := i + 1;
    }
    assert products[..i] == products;
  }

  /** Some product with that id has a discount, and no later product with
      the same id has one. */
  predicate LastDiscounted(products: seq<Product>, discount: Product -> Option<PromotionUtils.PromotionData>, id: Id, j: int) {
    && 0 <= j < |products| && products[j].id == id && discount(products[j]).Some?
    && forall k :: j < k < |products| && products[k].id == id ==> discount(products[k]).None?
  }

  /** An id has an entry exactly when some product with that id has a
      discount. */
  lemma {:induction false} PromotionsOfKeys(products: seq<Product>, discount: Product -> Option<PromotionUtils.PromotionData>, id: Id)
    ensures id in PromotionsOf(products, discount) <==>
      exists j :: 0 <= j < |products| && products[j].id == id && discount(products[j]).Some?
    decreases |products|
  {
    if products != [] {
      var n := |products| - 1;
      var init := products[..n];
      PromotionsOfKeys(init, discount, id);
      if exists j :: 0 <= j < |products| && products[j].id == id && discount(products[j]).Some? {
        var j :| 0 <= j < |products| && products[j].id == id && discount(products[j]).Some?;
        if j < n {
          assert init[j] == products[j];
        }
      }
      if id in PromotionsOf(init, discount) {
        var j :| 0 <= j < |init| && init[j].id == id && discount(init[j]).Some?;
        assert products[j] == init[j];
      }
    }
  }

  /** An entry is the discount of the last product with that id that has
      one. */
  lemma {:induction false} PromotionsOfValues(products: seq<Product>, discount: Product -> Option<PromotionUtils.PromotionData>, id: Id)
    requires id in PromotionsOf(products, discount)
    ensures exists j :: LastDiscounted(products, discount, id, j)
                        && PromotionsOf(products, discount)[id] == discount(products[j]).value
    decreases |products|
  {
    var n := |products| - 1;
    var init := products[..n];
    var m := PromotionsOf(products, discount);
    if products[n].id == id && discount(products[n]).Some? {
      assert LastDiscounted(products, discount, id, n);
    } else {
      assert id in PromotionsOf(init, discount) && m[id] == PromotionsOf(init, discount)[id];
      PromotionsOfValues(init, discount, id);
      var j :| LastDiscounted(init, discount, id, j) && PromotionsOf(init, discount)[id] == discount(init[j]).value;
      assert init[j] == products[j];
      assert LastDiscounted(products, discount, id, j);
    }
  }

  /** With distinct product ids, a product has an entry exactly when
      `calculateDiscountedPrice` gives it a discount, and the entry is that
      discount. */
  lemma PromotionsOfDistinct(products: seq<Product>, now: int, j: int)
    requires forall a, b :: 0 <= a < b < |products| ==> products[a].id != products[b].id
    requires 0 <= j < |products|
    ensures products[j].id in PromotionsOf(products, DiscountAt(now)) <==>
      PromotionUtils.CalculateDiscountedPrice(products[j], now).Some?
    ensures products[j].id in PromotionsOf(products, DiscountAt(now)) ==>
      PromotionsOf(products, DiscountAt(now))[products[j].id] == PromotionUtils.CalculateDiscountedPrice(products[j], now).value
  {
    var id := products[j].id;
    var discount := DiscountAt(now);
    PromotionsOfKeys(products, discount, id);
    if id in PromotionsOf(products, discount) {
      PromotionsOfValues(products, discount, id);
      var k :| LastDiscounted(products, discount, id, k) && PromotionsOf(products, discount)[id] == discount(products[k]).value;
      assert k == j;
    }
  }
}
