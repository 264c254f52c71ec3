/** The promotion resolver: whether a promotion applies at an instant, and
    which promotion of a product applies and at what price. The current instant
    `now` is a parameter. */
module PromotionUtils {
  import opened Wrappers
  import opened Interfaces
  import Seqs

  /** Milliseconds in a day. */
  const DAY: int := 86_400_000

  /** What the storefront shows for a discounted product. */
  datatype PromotionData = PromotionData(
    originalPrice: real,
    discountedPrice: real,
    discountPercentage: real,
    promotionName: string,
    promotionId: Id)

  /** `ensureDate`: a `Date` object is taken as it is (its time may be NaN,
      `None` here); a string is parsed, and one that cannot be parsed is
      replaced by the current instant. */
  function EnsureDate(d: DateValue, now: int): (t: Option<int>)
    ensures d.DateObject? ==> t == d.time
    ensures d.DateString? && d.parsed.Some? ==> t == d.parsed
    ensures d == DateString(None) ==> t == Some(now)
    ensures t.None? <==> d == DateObject(None)
  {
    match d
    case DateObject(time) => time
    case DateString(parsed) => if parsed.Some? then parsed else Some(now)
  }

  /** `setHours(23, 59, 59, 999)`: the last millisecond of the day of `t`. */
  function EndOfDay(t: int): int {
    (t / DAY) * DAY + DAY - 1
  }

  /** The end of the day lies in the same day, at or after `t`, and the next
      millisecond starts a new day. */
  lemma EndOfDaySameDay(t: int)
    ensures t <= EndOfDay(t) < t + DAY
    ensures EndOfDay(t) / DAY == t / DAY
    ensures (EndOfDay(t) + 1) % DAY == 0
  {
  }

  /** `isPromotionActive`: enabled, started (inclusive) and not past the end
      of the end date's day. NaN instants fail every comparison. */
  predicate IsPromotionActive(p: Promotion, now: int) {
    var start := EnsureDate(p.fechaInicio, now);
    var end := EnsureDate(p.fechaFin, now);
    p.activo && start.Some? && end.Some? && start.value <= now <= EndOfDay(end.value)
  }

  /** A disabled promotion is never active, whatever its dates. */
  lemma InactiveNeverActive(p: Promotion, now: int)
    requires !p.activo
    ensures !IsPromotionActive(p, now)
  {
  }

  /** With well-formed dates, an enabled promotion is active exactly from its
      start up to and including the last millisecond of its end date's day. */
  lemma ActiveWindow(p: Promotion, now: int, start: int, end: int)
    requires p.activo
    requires EnsureDate(p.fechaInicio, now) == Some(start)
    requires EnsureDate(p.fechaFin, now) == Some(end)
    ensures IsPromotionActive(p, now) <==> start <= now <= EndOfDay(end)
    ensures IsPromotionActive(p, now) ==> now < (end / DAY + 1) * DAY
    ensures start <= now && now / DAY == end / DAY ==> IsPromotionActive(p, now)
  {
    EndOfDaySameDay(end);
  }

  /** An end date that cannot be parsed is "now", so the promotion runs to the
      end of today; a start that cannot be parsed is "now", so it never blocks. */
  lemma UnparseableDatesFallBackToNow(p: Promotion, now: int)
    requires p.activo && p.fechaInicio == DateString(None)
    ensures IsPromotionActive(p, now) <==> EnsureDate(p.fechaFin, now).Some? && now <= EndOfDay(EnsureDate(p.fechaFin, now).value)
    ensures p.fechaFin == DateString(None) ==> IsPromotionActive(p, now)
  {
  }

  // ---------------------------------------------------------------------------
  // Choosing the promotion: a stable sort by `valor`, highest first, then the
  // first active one (`[...promotions].sort((a, b) => b.valor - a.valor).find(isPromotionActive)`).

  predicate SortedByValorDesc(s: seq<Promotion>) {
    forall i, j :: 0 <= i < j < |s| ==> s[i].valor >= s[j].valor
  }

  /** Insert `p` before the first element whose `valor` does not exceed its own. */
  function InsertByValor(p: Promotion, s: seq<Promotion>): (r: seq<Promotion>)
    ensures multiset(r) == multiset(s) + multiset{p}
    ensures |r| == |s| + 1
    ensures forall k :: 0 <= k < |r| ==> r[k] == p || r[k] in s
  {
    if s == [] || p.valor >= s[0].valor then [p] + s
    else
      var rest := InsertByValor(p, s[1..]);
      assert s == [s[0]] + s[1..];
      [s[0]] + rest
  }

  lemma {:induction false} InsertByValorSorted(p: Promotion, s: seq<Promotion>)
    requires SortedByValorDesc(s)
    ensures SortedByValorDesc(InsertByValor(p, s))
  {
    if s == [] || p.valor >= s[0].valor {
      var r := [p] + s;
      forall i, j | 0 <= i < j < |r| ensures r[i].valor >= r[j].valor {
        if i == 0 {
          assert r[j] == s[j - 1] && s[0].valor >= s[j - 1].valor;
        } else {
          assert r[i] == s[i - 1] && r[j] == s[j - 1];
        }
      }
    } else {
      var rest := InsertByValor(p, s[1..]);
      assert SortedByValorDesc(s[1..]);
      InsertByValorSorted(p, s[1..]);
      var r := [s[0]] + rest;
      forall i, j | 0 <= i < j < |r| ensures r[i].valor >= r[j].valor {
        assert r[j] == rest[j - 1];
        if i == 0 {
          assert rest[j - 1] == p || rest[j - 1] in s[1..];
          if rest[j - 1] != p {
            var k :| 0 <= k < |s[1..]| && s[1..][k] == rest[j - 1];
            assert s[k + 1] == rest[j - 1];
          }
        } else {
          assert r[i] == rest[i - 1];
        }
      }
    }
  }

  /** The stable sort of `calculateDiscountedPrice`, by `valor` descending. */
  function SortByValor(ps: seq<Promotion>): (r: seq<Promotion>)
    ensures multiset(r) == multiset(ps) && |r| == |ps|
    ensures SortedByValorDesc(r)
  {
    if ps == [] then []
    else
      assert ps == [ps[0]] + ps[1..];
      InsertByValorSorted(ps[0], SortByValor(ps[1..]));
      InsertByValor(ps[0], SortByValor(ps[1..]))
  }

  /** The promotions of `s` whose `valor` is `v`, in order. */
  function OfValor(s: seq<Promotion>, v: real): seq<Promotion> {
    if s == [] then []
    else (if s[0].valor == v then [s[0]] else []) + OfValor(s[1..], v)
  }

  /** The sort is stable: promotions of equal `valor` keep their input order. */
  lemma {:induction false} SortByValorStable(ps: seq<Promotion>, v: real)
    ensures OfValor(SortByValor(ps), v) == OfValor(ps, v)
  {
    if ps != [] {
      SortByValorStable(ps[1..], v);
      InsertByValorStable(ps[0], SortByValor(ps[1..]), v);
    }
  }

  lemma {:induction false} InsertByValorStable(p: Promotion, s: seq<Promotion>, v: real)
    ensures OfValor(InsertByValor(p, s), v) == (if p.valor == v then [p] else []) + OfValor(s, v)
  {
    if s == [] || p.valor >= s[0].valor {
      assert ([p] + s)[1..] == s;
    } else {
      var tail := InsertByValor(p, s[1..]);
      InsertByValorStable(p, s[1..], v);
      assert ([s[0]] + tail)[1..] == tail;
      var hp: seq<Promotion> := if p.valor == v then [p] else [];
      var hs: seq<Promotion> := if s[0].valor == v then [s[0]] else [];
      var rest := OfValor(s[1..], v);
      if hp == [] {
        assert hs + (hp + rest) == hs + rest == hp + (hs + rest);
      } else {
        assert hs == [];
        assert hs + (hp + rest) == hp + rest == hp + (hs + rest);
      }
    }
  }

  /** `find(isPromotionActive)`. */
  function FindFirstActive(s: seq<Promotion>, now: int): (r: Option<Promotion>)
    ensures r.Some? ==> r.value in s && IsPromotionActive(r.value, now)
    ensures r.Some? ==> exists k :: 0 <= k < |s| && s[k] == r.value
                                    && forall j :: 0 <= j < k ==> !IsPromotionActive(s[j], now)
    ensures r.None? <==> forall j :: 0 <= j < |s| ==> !IsPromotionActive(s[j], now)
  {
    if s == [] then None
    else if IsPromotionActive(s[0], now) then Some(s[0])
    else
      var r := FindFirstActive(s[1..], now);
      assert forall j :: 1 <= j < |s| ==> s[j] == s[1..][j - 1];
      assert r.Some? ==> exists k :: 0 <= k < |s| && s[k] == r.value
                                     && forall j :: 0 <= j < k ==> !IsPromotionActive(s[j], now) by {
        if r.Some? {
          var k :| 0 <= k < |s[1..]| && s[1..][k] == r.value
                   && forall j :: 0 <= j < k ==> !IsPromotionActive(s[1..][j], now);
          assert s[k + 1] == r.value;
        }
      }
      r
  }

  /** The promotion `calculateDiscountedPrice` settles on, before validation. */
  function SelectPromotion(ps: seq<Promotion>, now: int): Option<Promotion> {
    FindFirstActive(SortByValor(ps), now)
  }

  /** How one more promotion `p` changes the choice `sel` made among the others. */
  function Prefer(p: Promotion, sel: Option<Promotion>, now: int): Option<Promotion> {
    if !IsPromotionActive(p, now) then sel
    else if sel.None? || p.valor >= sel.value.valor then Some(p)
    else sel
  }

  lemma {:induction false} FindFirstActiveInsert(p: Promotion, s: seq<Promotion>, now: int)
    requires SortedByValorDesc(s)
    ensures FindFirstActive(InsertByValor(p, s), now) == Prefer(p, FindFirstActive(s, now), now)
  {
    if s == [] || p.valor >= s[0].valor {
      assert ([p] + s)[1..] == s;
      var y := FindFirstActive(s, now);
      if y.Some? {
        var k :| 0 <= k < |s| && s[k] == y.value;
        assert s[0].valor >= s[k].valor || k == 0;
      }
    } else {
      assert SortedByValorDesc(s[1..]);
      FindFirstActiveInsert(p, s[1..], now);
      assert ([s[0]] + InsertByValor(p, s[1..]))[1..] == InsertByValor(p, s[1..]);
    }
  }

  /** The chosen promotion is found by folding `Prefer` over the input. */
  lemma SelectPromotionUnfold(ps: seq<Promotion>, now: int)
    requires ps != []
    ensures SelectPromotion(ps, now) == Prefer(ps[0], SelectPromotion(ps[1..], now), now)
  {
    FindFirstActiveInsert(ps[0], SortByValor(ps[1..]), now);
  }

  /** `ps[i]` is active, no active promotion has a greater `valor`, and every
      active promotion before it has a smaller one. */
  predicate IsFirstHighestActive(ps: seq<Promotion>, i: int, now: int) {
    && 0 <= i < |ps|
    && IsPromotionActive(ps[i], now)
    && (forall j :: 0 <= j < |ps| && IsPromotionActive(ps[j], now) ==> ps[j].valor <= ps[i].valor)
    && (forall j :: 0 <= j < i && IsPromotionActive(ps[j], now) ==> ps[j].valor < ps[i].valor)
  }

  /** At most one position is the first highest active one. */
  lemma FirstHighestActiveUnique(ps: seq<Promotion>, i: int, k: int, now: int)
    requires IsFirstHighestActive(ps, i, now) && IsFirstHighestActive(ps, k, now)
    ensures i == k
  {
  }

  lemma SkipInactiveHead(ps: seq<Promotion>, i: int, now: int)
    requires ps != [] && !IsPromotionActive(ps[0], now)
    requires IsFirstHighestActive(ps[1..], i, now)
    ensures IsFirstHighestActive(ps, i + 1, now)
  {
    assert forall j :: 1 <= j < |ps| ==> ps[j] == ps[1..][j - 1];
  }

  lemma HeadOutbidsRest(ps: seq<Promotion>, now: int)
    requires ps != [] && IsPromotionActive(ps[0], now)
    requires forall j :: 0 <= j < |ps[1..]| && IsPromotionActive(ps[1..][j], now) ==> ps[1..][j].valor <= ps[0].valor
    ensures IsFirstHighestActive(ps, 0, now)
  {
    assert forall j :: 1 <= j < |ps| ==> ps[j] == ps[1..][j - 1];
  }

  lemma RestOutbidsHead(ps: seq<Promotion>, i: int, now: int)
    requires ps != [] && IsPromotionActive(ps[0], now)
    requires IsFirstHighestActive(ps[1..], i, now) && ps[0].valor < ps[1..][i].valor
    ensures IsFirstHighestActive(ps, i + 1, now)
  {
    assert forall j :: 1 <= j < |ps| ==> ps[j] == ps[1..][j - 1];
  }

  /** The resolver picks the active promotion with the highest `valor`, the
      earliest in the product's list among equals; none when none is active. */
  lemma {:induction false} SelectPromotionSpec(ps: seq<Promotion>, now: int)
    ensures SelectPromotion(ps, now).None? <==> forall j :: 0 <= j < |ps| ==> !IsPromotionActive(ps[j], now)
    ensures SelectPromotion(ps, now).Some? ==>
      exists i :: IsFirstHighestActive(ps, i, now) && ps[i] == SelectPromotion(ps, now).value
  {
    if ps != [] {
      var rest := ps[1..];
      SelectPromotionSpec(rest, now);
      SelectPromotionUnfold(ps, now);
      var sel := SelectPromotion(rest, now);
      if !IsPromotionActive(ps[0], now) {
        if sel.Some? {
          var i :| IsFirstHighestActive(rest, i, now) && rest[i] == sel.value;
          SkipInactiveHead(ps, i, now);
        }
      } else if sel.None? {
        HeadOutbidsRest(ps, now);
      } else if ps[0].valor >= sel.value.valor {
        var i :| IsFirstHighestActive(rest, i, now) && rest[i] == sel.value;
        HeadOutbidsRest(ps, now);
      } else {
        var i :| IsFirstHighestActive(rest, i, now) && rest[i] == sel.value;
        RestOutbidsHead(ps, i, now);
      }
    }
  }

  // ---------------------------------------------------------------------------
  // The discounted price.

  /** `Math.round`: halves round up. */
  function Round(x: real): int {
    (x + 0.5).Floor
  }

  /** `Math.round(x * 100) / 100`. */
  function RoundToCents(x: real): real {
    (Round(x * 100.0) as real) / 100.0
  }

  /** Rounding to cents moves a value by at most half a cent. */
  lemma RoundToCentsNear(x: real)
    ensures x - 0.005 < RoundToCents(x) <= x + 0.005
  {
  }

  /** The attached promotions; a missing list counts as empty. */
  function Attached(product: Product): seq<Promotion> {
    product.promotions.GetOr([])
  }

  /** The fraction of the price left after a discount of `valor` percent. */
  function Remaining(valor: real): real {
    1.0 - valor / 100.0
  }

  /** `precio` reduced by `valor` percent, rounded to cents. */
  function DiscountedPrice(precio: real, valor: real): real {
    RoundToCents(precio * Remaining(valor))
  }

  /** The figures reported for `product` under promotion `p`. */
  function Discount(product: Product, p: Promotion): PromotionData {
    PromotionData(
      product.precio,
      DiscountedPrice(product.precio, p.valor),
      p.valor,
      p.nombre,
      p.id)
  }

  /** The checks applied to the chosen promotion only: a percentage strictly
      between 0 and 100 and a positive price. */
  predicate AcceptsDiscount(product: Product, p: Promotion) {
    0.0 < p.valor < 100.0 && product.precio > 0.0
  }

  /** `calculateDiscountedPrice`: the chosen promotion's figures, or nothing
      when no promotion is active or the chosen one fails validation. */
  function CalculateDiscountedPrice(product: Product, now: int): (r: Option<PromotionData>)
    ensures r.Some? <==> SelectPromotion(Attached(product), now).Some?
                         && AcceptsDiscount(product, SelectPromotion(Attached(product), now).value)
    ensures r.Some? ==> r.value == Discount(product, SelectPromotion(Attached(product), now).value)
  {
    if product.promotions.None? || |product.promotions.value| == 0 then
      None
    else
      match SelectPromotion(product.promotions.value, now)
      case None => None
      case Some(best) =>
        if best.valor <= 0.0 || best.valor >= 100.0 then None
        else if product.precio <= 0.0 then None
        else Some(Discount(product, best))
  }

  /** No promotions, or an empty list: no discount. */
  lemma NoPromotionsNoDiscount(product: Product, now: int)
    requires product.promotions.None? || product.promotions == Some([])
    ensures CalculateDiscountedPrice(product, now).None?
  {
  }

  /** No attached promotion is active: no discount. */
  lemma NoActiveNoDiscount(product: Product, now: int)
    requires forall j :: 0 <= j < |Attached(product)| ==> !IsPromotionActive(Attached(product)[j], now)
    ensures CalculateDiscountedPrice(product, now).None?
  {
    SelectPromotionSpec(Attached(product), now);
  }

  /** A discount is given exactly when the first highest active promotion
      passes validation, and then it is that promotion's discount. */
  lemma DiscountIffFirstHighestAccepted(product: Product, now: int)
    ensures CalculateDiscountedPrice(product, now).Some? <==>
      exists i :: IsFirstHighestActive(Attached(product), i, now) && AcceptsDiscount(product, Attached(product)[i])
    ensures CalculateDiscountedPrice(product, now).Some? ==>
      exists i :: IsFirstHighestActive(Attached(product), i, now)
                  && CalculateDiscountedPrice(product, now).value == Discount(product, Attached(product)[i])
  {
    var ps := Attached(product);
    SelectPromotionSpec(ps, now);
    if SelectPromotion(ps, now).Some? {
      var i :| IsFirstHighestActive(ps, i, now) && ps[i] == SelectPromotion(ps, now).value;
      forall k | IsFirstHighestActive(ps, k, now) ensures k == i {
        FirstHighestActiveUnique(ps, i, k, now);
      }
    } else {
      forall k | 0 <= k < |ps| ensures !IsFirstHighestActive(ps, k, now) {
        assert !IsPromotionActive(ps[k], now);
      }
    }
  }

  /** The chosen promotion is rejected without falling back to the next one:
      an out-of-range `valor` on it, or a non-positive price, gives no
      discount even when a lower active promotion would be valid. */
  lemma NoFallbackAfterRejection(product: Product, i: int, now: int)
    requires IsFirstHighestActive(Attached(product), i, now)
    requires Attached(product)[i].valor <= 0.0 || Attached(product)[i].valor >= 100.0 || product.precio <= 0.0
    ensures CalculateDiscountedPrice(product, now).None?
  {
    var ps := Attached(product);
    SelectPromotionSpec(ps, now);
    assert IsPromotionActive(ps[i], now);
    var k :| IsFirstHighestActive(ps, k, now) && ps[k] == SelectPromotion(ps, now).value;
    FirstHighestActiveUnique(ps, i, k, now);
  }

  /** A discount reports the price, the percentage, and the name and id of an
      active promotion that no active promotion outbids. */
  lemma DiscountFigures(product: Product, now: int)
    requires CalculateDiscountedPrice(product, now).Some?
    ensures var d := CalculateDiscountedPrice(product, now).value;
      && d.originalPrice == product.precio > 0.0
      && 0.0 < d.discountPercentage < 100.0
      && (exists p :: p in Attached(product) && IsPromotionActive(p, now)
            && p.id == d.promotionId && p.nombre == d.promotionName && p.valor == d.discountPercentage
            && forall q :: q in Attached(product) && IsPromotionActive(q, now) ==> q.valor <= p.valor)
  {
    var ps := Attached(product);
    SelectPromotionSpec(ps, now);
    var i :| IsFirstHighestActive(ps, i, now) && ps[i] == SelectPromotion(ps, now).value;
    var p := ps[i];
    assert p in ps;
    forall q | q in ps && IsPromotionActive(q, now) ensures q.valor <= p.valor {
      var j :| 0 <= j < |ps| && ps[j] == q;
    }
  }

  /** The reported price is the price reduced by the percentage, to the
      nearest cent (within half a cent of the exact value). */
  lemma DiscountRounding(product: Product, p: Promotion)
    ensures var d := Discount(product, p);
      var exact := d.originalPrice * Remaining(d.discountPercentage);
      exact - 0.005 < d.discountedPrice <= exact + 0.005
  {
    RoundToCentsNear(product.precio * Remaining(p.valor));
  }

  /** A percentage strictly between 0 and 100 leaves a fraction strictly
      between 0 and 1 of the price. */
  lemma RemainingBounds(valor: real)
    requires 0.0 < valor < 100.0
    ensures 0.0 < Remaining(valor) < 1.0
  {
  }

  lemma ScaleBelow(a: real, f: real)
    requires a > 0.0 && 0.0 < f < 1.0
    ensures 0.0 < a * f < a
  {
  }

  /** Rounding to cents keeps a value between 0 and a whole-cent bound. */
  lemma CentsStayWithinPrice(y: real, precio: real)
    requires 0.0 <= y <= precio && (precio * 100.0).Floor as real == precio * 100.0
    ensures 0.0 <= RoundToCents(y) <= precio
  {
    var n := (precio * 100.0).Floor;
    assert 0 <= Round(y * 100.0) <= n;
  }

  lemma DiscountedPriceOf(precio: real, valor: real, y: real)
    requires y == precio * Remaining(valor)
    ensures DiscountedPrice(precio, valor) == RoundToCents(y)
  {
  }

  /** For a price in whole cents the discounted price is never negative and
      never above the original price. */
  lemma DiscountedPriceWithinPrice(product: Product, now: int)
    requires (product.precio * 100.0).Floor as real == product.precio * 100.0
    requires CalculateDiscountedPrice(product, now).Some?
    ensures var d := CalculateDiscountedPrice(product, now).value;
      0.0 <= d.discountedPrice <= d.originalPrice
  {
    var best := SelectPromotion(Attached(product), now).value;
    var f := Remaining(best.valor);
    RemainingBounds(best.valor);
    var y := product.precio * f;
    ScaleBelow(product.precio, f);
    CentsStayWithinPrice(y, product.precio);
    DiscountedPriceOf(product.precio, best.valor, y);
  }

  /** A 100.00 product with active promotions of 10% and 25% costs 75.00. */
  lemma HigherPromotionWins(product: Product, now: int, p10: Promotion, p25: Promotion)
    requires product.precio == 100.0 && product.promotions == Some([p10, p25])
    requires p10.valor == 10.0 && p25.valor == 25.0
    requires IsPromotionActive(p10, now) && IsPromotionActive(p25, now)
    ensures CalculateDiscountedPrice(product, now) == Some(PromotionData(100.0, 75.0, 25.0, p25.nombre, p25.id))
  {
    var ps := [p10, p25];
    assert ps[1..] == [p25];
    assert SortByValor([p25]) == [p25];
    assert SortByValor(ps) == InsertByValor(p10, [p25]) == [p25, p10];
    assert SelectPromotion(ps, now) == Some(p25);
    assert 100.0 * Remaining(25.0) * 100.0 == 7500.0;
    assert DiscountedPrice(100.0, 25.0) == 75.0;
  }

  /** 33.33 at 15% is 28.3305, reported as 28.33. */
  lemma RoundsToNearestCent(product: Product, now: int, p: Promotion)
    requires product.precio == 33.33 && product.promotions == Some([p])
    requires p.valor == 15.0 && IsPromotionActive(p, now)
    ensures CalculateDiscountedPrice(product, now).Some?
    ensures CalculateDiscountedPrice(product, now).value.discountedPrice == 28.33
  {
    assert SortByValor([p]) == [p];
    assert 33.33 * Remaining(15.0) * 100.0 == 2833.05;
    assert Round(2833.05) == 2833;
  }
}
