/** The product table of the administration dashboard
    (`ProductoManagement`): the filter form and the filtered, name-sorted
    list it shows. */
module ProductoManagement {
  import opened Wrappers
  import opened Interfaces
  import Text
  import Seqs

  /** A price bound as typed: left empty, or some text that `parseFloat`
      reads as a number (`Some`) or as NaN (`None`). */
  datatype PriceInput = Blank | Typed(parsed: Option<real>)

  datatype Filters = Filters(
    nombre: string,
    categoria: string,
    activo: string,
    precioMin: PriceInput,
    precioMax: PriceInput)

  /** `initialFilters`, which `resetFilters` restores. */
  const InitialFilters := Filters("", "", "", Blank, Blank)

  function ResetFilters(): Filters {
    InitialFilters
  }

  predicate MatchNombre(product: Product, f: Filters) {
    Text.Contains(Text.Lower(product.nombre), Text.Lower(f.nombre))
  }

  /** Some category's lower-cased name includes the lower-cased filter. */
  predicate MatchCategoria(product: Product, f: Filters) {
    f.categoria == ""
    || exists i :: 0 <= i < |product.categories|
         && Text.Contains(Text.Lower(product.categories[i].nombre), Text.Lower(f.categoria))
  }

  /** `product.activo?.toString() === filters.activo`: an undefined flag
      never equals a string. */
  predicate MatchActivo(product: Product, f: Filters) {
    f.activo == "" || (product.activo.Some? && Text.BoolText(product.activo.value) == f.activo)
  }

  /** An empty minimum is 0; an empty maximum is Infinity; a bound that is
      NaN fails every comparison. */
  predicate MatchPrecio(product: Product, f: Filters) {
    && (match f.precioMin
        case Blank => product.precio >= 0.0
        case Typed(v) => v.Some? && product.precio >= v.value)
    && (match f.precioMax
        case Blank => true
        case Typed(v) => v.Some? && product.precio <= v.value)
  }

  predicate Matches(product: Product, f: Filters) {
    MatchNombre(product, f) && MatchCategoria(product, f) && MatchActivo(product, f) && MatchPrecio(product, f)
  }

  function MatchesFilters(f: Filters): Product -> bool {
    product => Matches(product, f)
  }

  predicate SortedByNombre(s: seq<Product>) {
    forall i, j :: 0 <= i < j < |s| ==> Text.LexLeq(s[i].nombre, s[j].nombre)
  }

  /** Insert `p` before the first product whose name does not precede its own. */
  function InsertByNombre(p: Product, s: seq<Product>): (r: seq<Product>)
    ensures multiset(r) == multiset(s) + multiset{p}
    ensures |r| == |s| + 1
    ensures forall k :: 0 <= k < |r| ==> r[k] == p || r[k] in s
  {
    if s == [] || Text.LexLeq(p.nombre, s[0].nombre) then [p] + s
    else
      var rest := InsertByNombre(p, s[1..]);
      assert s == [s[0]] + s[1..];
      [s[0]] + rest
  }

  lemma {:induction false} InsertByNombreSorted(p: Product, s: seq<Product>)
    requires SortedByNombre(s)
    ensures SortedByNombre(InsertByNombre(p, s))
  {
    if s == [] || Text.LexLeq(p.nombre, s[0].nombre) {
      var r := [p] + s;
      forall i, j | 0 <= i < j < |r| ensures Text.LexLeq(r[i].nombre, r[j].nombre) {
        if i == 0 {
          assert r[j] == s[j - 1];
          if j > 1 {
            Text.LexLeqTransitive(p.nombre, s[0].nombre, s[j - 1].nombre);
          }
        } else {
          assert r[i] == s[i - 1] && r[j] == s[j - 1];
        }
      }
    } else {
      Text.LexLeqTotal(p.nombre, s[0].nombre);
      var rest := InsertByNombre(p, s[1..]);
      assert SortedByNombre(s[1..]);
      InsertByNombreSorted(p, s[1..]);
      var r := [s[0]] + rest;
      forall i, j | 0 <= i < j < |r| ensures Text.LexLeq(r[i].nombre, r[j].nombre) {
        assert r[j] == rest[j - 1];
        if i == 0 {
          if rest[j - 1] != p {
            var k :| 0 <= k < |s[1..]| && s[1..][k] == rest[j - 1];
            assert s[k + 1] == rest[j - 1];
          }
        } else {
          assert r[i] == rest[i - 1];
        }
      }
    }
  }

  /** `.sort((a, b) => a.nombre.localeCompare(b.nombre))`, a stable sort. */
  function SortByNombre(s: seq<Product>): (r: seq<Product>)
    ensures multiset(r) == multiset(s) && |r| == |s|
    ensures SortedByNombre(r)
  {
    if s == [] then []
    else
      var rest := SortByNombre(s[1..]);
      InsertByNombreSorted(s[0], rest);
      assert s == [s[0]] + s[1..];
      InsertByNombre(s[0], rest)
  }

  /** `filteredProducts`. */
  function FilteredProducts(products: seq<Product>, f: Filters): seq<Product> {
    SortByNombre(Seqs.Filter(products, MatchesFilters(f)))
  }

  /** The table lists each matching product as often as the catalogue has it
      and no other, sorted by name. */
  lemma FilteredProductsSpec(products: seq<Product>, f: Filters)
    ensures forall p :: multiset(FilteredProducts(products, f))[p]
                        == if Matches(p, f) then multiset(products)[p] else 0
    ensures forall p :: p in FilteredProducts(products, f) <==> p in products && Matches(p, f)
    ensures SortedByNombre(FilteredProducts(products, f))
  {
    var r := FilteredProducts(products, f);
    forall p ensures p in r <==> p in products && Matches(p, f) {
      assert p in r <==> multiset(r)[p] > 0;
      assert p in products <==> multiset(products)[p] > 0;
    }
  }

  /** Each filter on its own: an empty text filter matches everything, the
      price bounds are inclusive, and a state filter never matches a product
      whose `activo` is undefined. */
  lemma FilterFacts(product: Product, f: Filters)
    ensures f.categoria == "" ==> MatchCategoria(product, f)
    ensures f.activo != "" && product.activo.None? ==> !MatchActivo(product, f)
    ensures f.precioMin == Typed(Some(product.precio)) && f.precioMax == Typed(Some(product.precio))
            ==> MatchPrecio(product, f)
    ensures f.precioMin == Typed(None) || f.precioMax == Typed(None) ==> !MatchPrecio(product, f)
    ensures f.nombre == "" ==> MatchNombre(product, f)
  {
    Text.ContainsEmpty(Text.Lower(product.nombre));
  }

  /** After a reset every product with a non-negative price is listed. */
  lemma ResetListsAll(products: seq<Product>, p: Product)
    requires p in products && p.precio >= 0.0
    ensures p in FilteredProducts(products, ResetFilters())
  {
    FilteredProductsSpec(products, ResetFilters());
    Text.ContainsEmpty(Text.Lower(p.nombre));
  }
}
