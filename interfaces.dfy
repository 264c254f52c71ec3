/** The records the storefront and the dashboard exchange with the REST API.
    Optional properties (`x?: T`) and nullable ones (`T | null`) are `Option`s;
    numbers are reals; fields no modelled operation reads are omitted. */
module Interfaces {
  import opened Wrappers

  type Id = string

  /** `'ADMIN' | 'USER'`. */
  datatype Role = Admin | User

  /** The string a role travels as, which the role filter compares with. */
  function RoleName(r: Role): string {
    match r
    case Admin => "ADMIN"
    case User => "USER"
  }

  /** A promotion date as it reaches the client: either a `Date` object, whose
      time may be NaN (an "Invalid Date"), or an ISO-8601 string, given here by
      what `new Date(text)` makes of it (`None` when it cannot be parsed).
      Instants are milliseconds in local time. */
  datatype DateValue =
    | DateObject(time: Option<int>)
    | DateString(parsed: Option<int>)

  /** An entry of `Promotion.products`: a bare id string, an `{ id }` stub as
      appended by the reducer, or a full `ProductPromotion`. */
  datatype ProductLink =
    | IdString(id: Id)
    | IdStub(id: Id)
    | Summary(id: Id, nombre: string, precio: real, activo: bool)

  datatype Promotion = Promotion(
    id: Id,
    nombre: string,
    descripcion: Option<string>,
    valor: real,
    fechaInicio: DateValue,
    fechaFin: DateValue,
    activo: bool,
    products: Option<seq<ProductLink>>)

  datatype Category = Category(id: Id, nombre: string, activa: Option<bool>)

  datatype Image = Image(id: Id, url: string)

  datatype Product = Product(
    id: Id,
    nombre: string,
    descripcion: Option<string>,
    precio: real,
    activo: Option<bool>,
    fechaCreacion: string,
    categories: seq<Category>,
    images: seq<Image>,
    promotions: Option<seq<Promotion>>)

  /** `IUser`; the session's `UserAuth` is the same record without the
      registration date, and shares this type. */
  datatype IUser = IUser(
    id: Id,
    nombre: string,
    apellido: string,
    telefono: string,
    email: string,
    password: string,
    rol: Option<Role>,
    activo: Option<bool>,
    fechaRegistro: string)

  datatype ImageDashboard = ImageDashboard(
    id: Id,
    url: string,
    altText: string,
    principal: bool,
    publicId: string,
    productId: Option<Id>)
}
