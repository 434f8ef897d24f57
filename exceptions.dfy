/** The closed set of domain errors (Exceptions.kt), the error code each one
    reports, and the boundary handler that turns any failure into a
    bad-request response with a `{code, message}` body. */
module Exceptions {
  import opened Wrappers

  /** The error codes the domain errors report. Their numeric values are
      defined outside the modelled files, so they are a parameter below. */
  datatype ErrorCode =
    | CategoryNotFound
    | UserNotFound
    | UserAlreadyExists
    | InvalidFullname
    | InvalidUsername
    | InvalidCategoryName
    | InvalidOrder
    | InvalidLocalizedName
    | ProductNotFound
    | TransactionNotFound
    | InsufficientBalance
    | InsufficientProduct
    | InvalidAmount

  /** The constant with the given name, as an enum's `valueOf` finds it; none for any other string. */
  function ValueOf(name: string): Option<ErrorCode> {
    match name
    case "CATEGORY_NOT_FOUND" => Some(CategoryNotFound)
    case "USER_NOT_FOUND" => Some(UserNotFound)
    case "USER_ALREADY_EXISTS" => Some(UserAlreadyExists)
    case "INVALID_FULLNAME_EXCEPTION" => Some(InvalidFullname)
    case "INVALID_USERNAME_EXCEPTION" => Some(InvalidUsername)
    case "INVALID_CATEGORYNAME_EXCEPTION" => Some(InvalidCategoryName)
    case "INVALID_ORDER_EXCEPTION" => Some(InvalidOrder)
    case "INVALID_LOCALIZEDNAME_EXCEPTION" => Some(InvalidLocalizedName)
    case "PRODUCT_NOT_FOUND" => Some(ProductNotFound)
    case "TRANSACTION_NOT_FOUND" => Some(TransactionNotFound)
    case "INSUFFICIENT_BALANCE" => Some(InsufficientBalance)
    case "INSUFFICIENT_PRODUCT" => Some(InsufficientProduct)
    case "INVALID_AMOUNT" => Some(InvalidAmount)
    case _ => None
  }

  /** The constant's name (`toString()`), which is also the key of its message
      template. Reading the name back gives the constant, so no two constants
      share a key. */
  function Name(c: ErrorCode): (s: string)
    ensures ValueOf(s) == Some(c)
  {
    match c
    case CategoryNotFound => "CATEGORY_NOT_FOUND"
    case UserNotFound => "USER_NOT_FOUND"
    case UserAlreadyExists => "USER_ALREADY_EXISTS"
    case InvalidFullname => "INVALID_FULLNAME_EXCEPTION"
    case InvalidUsername => "INVALID_USERNAME_EXCEPTION"
    case InvalidCategoryName => "INVALID_CATEGORYNAME_EXCEPTION"
    case InvalidOrder => "INVALID_ORDER_EXCEPTION"
    case InvalidLocalizedName => "INVALID_LOCALIZEDNAME_EXCEPTION"
    case ProductNotFound => "PRODUCT_NOT_FOUND"
    case TransactionNotFound => "TRANSACTION_NOT_FOUND"
    case InsufficientBalance => "INSUFFICIENT_BALANCE"
    case InsufficientProduct => "INSUFFICIENT_PRODUCT"
    case InvalidAmount => "INVALID_AMOUNT"
  }

  /** The sealed `ShopAppException` hierarchy: one constructor per subclass. */
  datatype ShopAppException =
    | CategoryNotFoundException
    | UserNotFoundException
    | UserAlreadyExistsException
    | InvalidFullnameException
    | InvalidUsernameException
    | InvalidCategoryNameException
    | InvalidOrderException
    | InvalidLocalizedNameException
    | ProductNotFoundException
    | TransactionNotFoundException
    | InsufficientBalanceException
    | InsufficientProductException
    | InvalidAmountException

  /** The subclass that reports error code `c`. */
  function ExceptionFor(c: ErrorCode): ShopAppException {
    match c
    case CategoryNotFound => CategoryNotFoundException
    case UserNotFound => UserNotFoundException
    case UserAlreadyExists => UserAlreadyExistsException
    case InvalidFullname => InvalidFullnameException
    case InvalidUsername => InvalidUsernameException
    case InvalidCategoryName => InvalidCategoryNameException
    case InvalidOrder => InvalidOrderException
    case InvalidLocalizedName => InvalidLocalizedNameException
    case ProductNotFound => ProductNotFoundException
    case TransactionNotFound => TransactionNotFoundException
    case InsufficientBalance => InsufficientBalanceException
    case InsufficientProduct => InsufficientProductException
    case InvalidAmount => InvalidAmountException
  }

  /** The error code each subclass reports (`errorType()`). Reading the code
      back gives the subclass, so the assignment is one-to-one. */
  function ErrorType(e: ShopAppException): (c: ErrorCode)
    ensures ExceptionFor(c) == e
  {
    match e
    case CategoryNotFoundException => CategoryNotFound
    case UserNotFoundException => UserNotFound
    case UserAlreadyExistsException => UserAlreadyExists
    case InvalidFullnameException => InvalidFullname
    case InvalidUsernameException => InvalidUsername
    case InvalidCategoryNameException => InvalidCategoryName
    case InvalidOrderException => InvalidOrder
    case InvalidLocalizedNameException => InvalidLocalizedName
    case ProductNotFoundException => ProductNotFound
    case TransactionNotFoundException => TransactionNotFound
    case InsufficientBalanceException => InsufficientBalance
    case InsufficientProductException => InsufficientProduct
    case InvalidAmountException => InvalidAmount
  }

  /** Each kind of domain error has an error code of its own. */
  lemma ErrorTypeInjective(a: ShopAppException, b: ShopAppException)
    ensures ErrorType(a) == ErrorType(b) ==> a == b
  {
  }

  /** Some of the fixed assignments. */
  lemma ErrorTypeExamples()
    ensures ErrorType(CategoryNotFoundException) == CategoryNotFound
    ensures ErrorType(InsufficientProductException) == InsufficientProduct
    ensures ErrorType(InvalidAmountException) == InvalidAmount
  {
  }

  /** Every error code is reported by exactly one subclass. */
  lemma ErrorTypeCoversCodes(c: ErrorCode)
    ensures ErrorType(ExceptionFor(c)) == c
  {
  }

  /** Distinct error codes have distinct message keys. */
  lemma NameInjective(c: ErrorCode, d: ErrorCode)
    ensures Name(c) == Name(d) ==> c == d
  {
  }

  /** Different domain errors look up different message templates. */
  lemma MessageKeysDistinct(a: ShopAppException, b: ShopAppException)
    ensures Name(ErrorType(a)) == Name(ErrorType(b)) ==> a == b
  {
    NameInjective(ErrorType(a), ErrorType(b));
  }

  /** A response body. */
  datatype BaseMessage = BaseMessage(code: Option<int> := None, message: Option<string> := None)

  /** The localized message templates: (key, arguments, language) to text. */
  datatype MessageSource = MessageSource(getMessage: (string, Option<seq<string>>, string) -> string)

  /** Template arguments of a domain error; no subclass supplies any. */
  function ErrorMessageArguments(e: ShopAppException): Option<seq<string>> {
    None
  }

  /** The body reported for a domain error: its code and its message template,
      resolved in `language`, with no arguments. */
  function GetErrorMessage(e: ShopAppException, source: MessageSource, code: ErrorCode -> int, language: string): (m: BaseMessage)
    ensures m.code == Some(code(ErrorType(e)))
    ensures m.message == Some(source.getMessage(Name(ErrorType(e)), None, language))
  {
    BaseMessage(
      Some(code(ErrorType(e))),
      Some(source.getMessage(Name(ErrorType(e)), ErrorMessageArguments(e), language)))
  }

  /** Anything that can reach the boundary: a domain error or any other failure. */
  datatype Throwable = ShopApp(exception: ShopAppException) | Other(description: string)

  const BadRequest := 400

  datatype ResponseEntity = ResponseEntity(status: int, body: BaseMessage)

  /** The body sent for a failure outside the domain taxonomy. */
  const SupportMessage := BaseMessage(Some(100), Some("Iltimos support bilan bog'laning"))

  /** Turns every failure into a bad-request response: a domain error reports
      its own code and message, anything else the fixed support message. */
  function HandleOtherExceptions(exception: Throwable, source: MessageSource, code: ErrorCode -> int, language: string): (r: ResponseEntity)
    ensures r.status == BadRequest
    ensures exception.ShopApp? ==> r.body == GetErrorMessage(exception.exception, source, code, language)
    ensures exception.Other? ==> r.body == BaseMessage(Some(100), Some("Iltimos support bilan bog'laning"))
  {
    match exception
    case ShopApp(e) => ResponseEntity(BadRequest, GetErrorMessage(e, source, code, language))
    case Other(_) => ResponseEntity(BadRequest, SupportMessage)
  }

  /** The fallback body reveals nothing about the failure: all non-domain
      failures get the same response. */
  lemma FallbackHidesDetail(a: string, b: string, source: MessageSource, code: ErrorCode -> int, language: string)
    ensures HandleOtherExceptions(Other(a), source, code, language) == HandleOtherExceptions(Other(b), source, code, language)
  {
  }
}
