/** The promotion list of the administration dashboard
    (`PromotionsManagement`): which promotions are listed and the status
    badge each one gets. */
module PromotionsManagement {
  import opened Wrappers
  import opened Interfaces
  import Seqs
  import PromotionUtils

  /** The badge text; the badge colour follows it. */
  datatype Status = Inactiva | Pendiente | Finalizada | Activa

  /** `new Date(value)`: a `Date` keeps its time, a string is parsed; there is
      no fallback, an unparseable value stays invalid (`None`). */
  function AsDate(d: DateValue): Option<int> {
    match d
    case DateObject(t) => t
    case DateString(parsed) => parsed
  }

  /** `getPromotionStatus`. Comparisons with an invalid date are false. */
  function PromotionStatus(p: Promotion, now: int): Status {
    var start := AsDate(p.fechaInicio);
    var end := AsDate(p.fechaFin);
    if !p.activo then Inactiva
    else if start.Some? && now < start.value then Pendiente
    else if end.Some? && now > end.value then Finalizada
    else Activa
  }

  /** Each badge, characterised on its own: an inactive promotion is
      `Inactiva` whatever its dates; `Pendiente` before the start; `Finalizada`
      strictly after the end instant (no end-of-day extension); otherwise
      `Activa`. */
  lemma StatusSpec(p: Promotion, now: int)
    ensures PromotionStatus(p, now) == Inactiva <==> !p.activo
    ensures PromotionStatus(p, now) == Pendiente <==>
      p.activo && AsDate(p.fechaInicio).Some? && now < AsDate(p.fechaInicio).value
    ensures PromotionStatus(p, now) == Finalizada <==>
      && p.activo
      && !(AsDate(p.fechaInicio).Some? && now < AsDate(p.fechaInicio).value)
      && AsDate(p.fechaFin).Some? && now > AsDate(p.fechaFin).value
    ensures PromotionStatus(p, now) == Activa <==>
      && p.activo
      && (AsDate(p.fechaInicio).Some? ==> AsDate(p.fechaInicio).value <= now)
      && (AsDate(p.fechaFin).Some? ==> now <= AsDate(p.fechaFin).value)
  {
  }

  /** With valid dates, `Activa` holds exactly between start and end, both
      included. */
  lemma ActivaWithValidDates(p: Promotion, now: int, start: int, end: int)
    requires AsDate(p.fechaInicio) == Some(start) && AsDate(p.fechaFin) == Some(end)
    ensures PromotionStatus(p, now) == Activa <==> p.activo && start <= now <= end
  {
  }

  /** A promotion shown as `Activa` is one the price resolver applies,
      whether its dates are `Date` objects or the text dates the server sends
      (an unparseable text date is "now" to the resolver and is ignored by the
      badge); only an Invalid `Date` object is left out, which the resolver
      never applies. */
  lemma ActivaIsApplied(p: Promotion, now: int)
    requires p.fechaInicio != DateObject(None) && p.fechaFin != DateObject(None)
    requires PromotionStatus(p, now) == Activa
    ensures PromotionUtils.IsPromotionActive(p, now)
  {
    PromotionUtils.EndOfDaySameDay(PromotionUtils.EnsureDate(p.fechaFin, now).value);
  }

  /** The converse fails on the promotion's last day: after the end instant
      but before midnight the badge says `Finalizada` while the storefront
      still applies the discount. */
  lemma FinalizadaYetApplied(p: Promotion, now: int, start: int, end: int)
    requires AsDate(p.fechaInicio) == Some(start) && AsDate(p.fechaFin) == Some(end)
    requires p.activo && start <= end < now && now / PromotionUtils.DAY == end / PromotionUtils.DAY
    ensures PromotionStatus(p, now) == Finalizada
    ensures PromotionUtils.IsPromotionActive(p, now)
  {
    PromotionUtils.EndOfDaySameDay(end);
  }

  function IsEnabled(): Promotion -> bool {
    (p: Promotion) => p.activo
  }

  /** `filteredPromotions`. */
  function FilteredPromotions(promotions: seq<Promotion>, showInactive: bool): seq<Promotion> {
    if showInactive then promotions else Seqs.Filter(promotions, IsEnabled())
  }

  /** With `showInactive` the list is unchanged; otherwise it is exactly the
      enabled promotions, in order and with their multiplicity. */
  lemma FilteredPromotionsSpec(promotions: seq<Promotion>, showInactive: bool)
    ensures showInactive ==> FilteredPromotions(promotions, showInactive) == promotions
    ensures !showInactive ==>
      && Seqs.IsSubseq(FilteredPromotions(promotions, showInactive), promotions)
      && forall p :: multiset(FilteredPromotions(promotions, showInactive))[p]
                     == if p.activo then multiset(promotions)[p] else 0
  {
  }
}
