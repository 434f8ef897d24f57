/** The persistent records of the shop (Entity.kt): the fields every table
    shares, the six record kinds with their constructor defaults, and the
    three-language product name. Associations are kept as the referenced
    row's id. */
module Entities {
  import opened Wrappers

  /** Columns every persisted record carries. The database assigns `id` on the
      first save; `deleted` marks a soft-deleted ("trashed") row, which stays in
      its table. Auditing dates and creator/modifier names are not modelled. */
  datatype BaseEntity = BaseEntity(id: Option<int> := None, deleted: bool := false)

  /** One row of a table: the shared base columns plus the table's own columns. */
  datatype Entity<T> = Entity(base: BaseEntity, fields: T)

  /** A record built by a constructor call and not yet saved. */
  function New<T>(fields: T): (e: Entity<T>)
    ensures !e.base.deleted && e.base.id == None
    ensures e.fields == fields
  {
    Entity(BaseEntity(), fields)
  }

  datatype Category = Category(name: string, order: int)

  /** A product name stored once per supported language. */
  datatype LocalizedName = LocalizedName(uz: string, ru: string, en: string)

  /** `amount` is the unit price; `categoryId` is the id of the referenced category. */
  datatype Product = Product(name: LocalizedName, count: int, amount: real, categoryId: int)

  datatype User = User(fullname: string, username: string, balance: real := 0.0)

  /** `date` is the creation time, supplied by the caller (the clock is not modelled). */
  datatype Transaction = Transaction(userId: int, totalAmount: real, date: int)

  datatype TransactionItem = TransactionItem(
    productId: int, count: int, amount: real, totalAmount: real, transactionId: int)

  datatype UserPaymentTransaction = UserPaymentTransaction(userId: int, amount: real, date: int)

  /** A user constructed without a balance starts with a zero balance and active. */
  lemma NewUserHasZeroBalance(fullname: string, username: string)
    ensures New(User(fullname, username)).fields.balance == 0.0
    ensures !New(User(fullname, username)).base.deleted
  {
  }

  /** The display name of a product in the request's language. The language
      code is an explicit argument instead of the thread's current locale. */
  function Localized(name: LocalizedName, language: string): (s: string)
    ensures s == name.uz || s == name.ru || s == name.en
    ensures language == "en" ==> s == name.en
    ensures language == "ru" ==> s == name.ru
    ensures language != "en" && language != "ru" ==> s == name.uz
  {
    match language
    case "en" => name.en
    case "ru" => name.ru
    case _ => name.uz
  }
}
