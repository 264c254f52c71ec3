/** The checks of the promotion form (`PromotionFormModal`): which fields get
    an error message, and how the discount input becomes a number. */
module PromotionFormModal {
  import opened Wrappers
  import opened Interfaces
  import Text
  import PromotionUtils

  /** The keys `validateForm` may set. */
  datatype Field = Nombre | Valor | FechaInicio | FechaFin

  /** A date input: its text (`''` when left empty) and the instant
      `new Date(text)` gives (`None` for an Invalid Date). */
  datatype DateInput = DateInput(text: string, time: Option<int>)

  datatype FormData = FormData(
    nombre: string,
    descripcion: string,
    valor: real,
    fechaInicio: DateInput,
    fechaFin: DateInput,
    activo: bool)

  const NombreRequired := "El nombre es obligatorio"
  const ValorRange := "El descuento debe estar entre 1 y 100%"
  const InicioRequired := "La fecha de inicio es obligatoria"
  const FinRequired := "La fecha de fin es obligatoria"
  const FinAfterInicio := "La fecha de fin debe ser posterior a la fecha de inicio"

  /** `startDate >= endDate` on two `Date`s: false when either is invalid. */
  predicate EndNotAfterStart(form: FormData) {
    form.fechaInicio.time.Some? && form.fechaFin.time.Some?
    && form.fechaInicio.time.value >= form.fechaFin.time.value
  }

  /** What the form accepts: a name that is not blank, a discount in
      (0, 100], both dates filled in, and no end at or before the start. */
  predicate FormAccepts(form: FormData) {
    && !Text.IsBlank(form.nombre)
    && 0.0 < form.valor <= 100.0
    && form.fechaInicio.text != ""
    && form.fechaFin.text != ""
    && !EndNotAfterStart(form)
  }

  /** `validateForm`: fills the error record field by field; the form is
      valid when no key was set. */
  method ValidateForm(form: FormData) returns (errors: map<Field, string>, valid: bool)
    ensures Nombre in errors <==> Text.IsBlank(form.nombre)
    ensures Valor in errors <==> form.valor <= 0.0 || form.valor > 100.0
    ensures FechaInicio in errors <==> form.fechaInicio.text == ""
    ensures FechaFin in errors <==>
      form.fechaFin.text == "" || (form.fechaInicio.text != "" && EndNotAfterStart(form))
    ensures Nombre in errors ==> errors[Nombre] == NombreRequired
    ensures Valor in errors ==> errors[Valor] == ValorRange
    ensures FechaInicio in errors ==> errors[FechaInicio] == InicioRequired
    ensures FechaFin in errors ==>
      errors[FechaFin] == if form.fechaInicio.text != "" && form.fechaFin.text != "" && EndNotAfterStart(form)
                          then FinAfterInicio else FinRequired
    ensures valid <==> errors == map[]
    ensures valid <==> FormAccepts(form)
  {
    errors := map[];
    Text.TrimEmptyIffBlank(form.nombre);
    if Text.Trim(form.nombre) == "" {
      errors := errors[Nombre := NombreRequired];
    }
    if form.valor <= 0.0 || form.valor > 100.0 {
      errors := errors[Valor := ValorRange];
    }
    if form.fechaInicio.text == "" {
      errors := errors[FechaInicio := InicioRequired];
    }
    if form.fechaFin.text == "" {
      errors := errors[FechaFin := FinRequired];
    }
    if form.fechaInicio.text != "" && form.fechaFin.text != "" {
      if EndNotAfterStart(form) {
        errors := errors[FechaFin := FinAfterInicio];
      }
    }
    valid := |errors| == 0;
    if !valid {
      var f :| f in errors;
    }
  }

  /** The `valor` branch of `handleChange`: `parseFloat` of the text, with a
      non-number (`None`) stored as 0. */
  function ValorFromInput(parsed: Option<real>): (v: real)
    ensures parsed.None? ==> v == 0.0
    ensures parsed.Some? ==> v == parsed.value
  {
    parsed.GetOr(0.0)
  }

  /** A discount typed as something that is not a number is stored as 0, which
      the form never accepts. */
  lemma NonNumericValorRejected(form: FormData)
    requires form.valor == ValorFromInput(None)
    ensures !FormAccepts(form)
  {
  }

  /** Equal start and end dates are rejected. */
  lemma SameDayRejected(form: FormData)
    requires form.fechaInicio.time.Some? && form.fechaInicio.time == form.fechaFin.time
    ensures !FormAccepts(form)
  {
  }

  /** The form accepts a 100% discount, which the price resolver then refuses:
      a saved promotion passes the resolver's check exactly when its discount
      is below 100 and the product has a positive price. */
  lemma FormAndResolverDisagreeAtHundred(form: FormData, product: Product, p: Promotion)
    requires FormAccepts(form) && p.valor == form.valor
    ensures PromotionUtils.AcceptsDiscount(product, p) <==> form.valor < 100.0 && product.precio > 0.0
    ensures form.valor == 100.0 ==> !PromotionUtils.AcceptsDiscount(product, p)
  {
  }
}
