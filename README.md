# Shop backend data layer, modelled in Dafny

This project models the data layer of a small Kotlin/Spring shop backend
(`uz.zero.shopapp`) and proves what it promises:

- **The soft-delete repository.** Every table inherits this base repository.
  A table is a finite map from id to row, and every row carries a `deleted`
  flag. `trash` sets the flag and saves the row back; it never removes the
  row. The active lookup and the active listing skip flagged rows. `trashList`
  trashes ids one by one. The class `Repository.BaseRepository` holds the
  table and a generated-id counter; its methods are proved against the pure
  functions `TrashRow`, `TrashAll`, `TrashResults` and `Select`.
- **The two product availability queries**, written in JPQL in the source.
  SQL's `LOWER` and `LIKE` are modelled in `SqlText`: `%` matches any run of
  characters and `_` matches one character. For a keyword with neither
  wildcard, the search is proved to be a case-insensitive substring test.
  A keyword that does contain `%` or `_` matches more than substrings, and
  the model keeps that behaviour.
- **The records** (`Entities`): the base columns, the six entity kinds with
  their constructor defaults, and the three-language product name.
  `Localized` picks one of the three names. The language is an explicit
  argument instead of the thread's locale.
- **The error taxonomy** (`Exceptions`): one constructor per
  `ShopAppException` subclass, its error code, and the message body built
  from it. The boundary handler turns every failure into a bad-request
  response.
- **The category service** (`Services.CategoryServiceImpl`): `getOne`,
  `add` and `getAllCategories`.

The numeric value of each error code is not in the modelled files, so it is
a parameter `code: ErrorCode -> int`. The model does not assume the values
are distinct. The localized message lookup is a parameter too: a function
from (key, arguments, language) to text.

Store order is ascending id. Ids are generated from 1 upward, so that is
also insertion order.

## Model

| member | source | states |
|---|---|---|
| `Entities.New` | src/main/kotlin/uz/zero/shopapp/Entity.kt:30-37 | a freshly constructed record has no id yet and `deleted = false` |
| `Entities.NewUserHasZeroBalance` | src/main/kotlin/uz/zero/shopapp/Entity.kt:59-63 | a user constructed without a balance has balance 0 and is active |
| `Entities.Localized` | src/main/kotlin/uz/zero/shopapp/Entity.kt:101-108 | the result is always one of the three stored names: `en` for language "en", `ru` for "ru", `uz` for any other code |
| `Repository.TrashRow` | src/main/kotlin/uz/zero/shopapp/Repository.kt:39-42 | absent id: no result and the table is unchanged. Present id: the same ids stay stored, that row is flagged deleted with its id and columns kept, the result is the saved row, and every other row is unchanged |
| `Repository.TrashKeepsKeyed` | src/main/kotlin/uz/zero/shopapp/Repository.kt:39-42 | trashing keeps every row stored under its own id |
| `Repository.TrashIdempotent` | src/main/kotlin/uz/zero/shopapp/Repository.kt:39-42 | the unfiltered lookup lets a second trash of the same id succeed with the same row, and the table does not change |
| `Repository.TrashHidesButKeeps` | src/main/kotlin/uz/zero/shopapp/Repository.kt:36-42 | after trashing a stored id, the row is still in the table and flagged, and the unfiltered lookup returns the saved row |
| `Repository.TrashAllEffect` | src/main/kotlin/uz/zero/shopapp/Repository.kt:46 | trashing a list keeps the same ids; exactly the stored rows whose ids are listed become flagged, and all other rows are unchanged |
| `Repository.TrashResultsSpec` | src/main/kotlin/uz/zero/shopapp/Repository.kt:46 | one result per id, in list order: the flagged row for a stored id (a repeated id too), nothing for an absent id |
| `Repository.Select` | src/main/kotlin/uz/zero/shopapp/Repository.kt:44-45 | filtering by a criterion returns exactly the stored rows in the id range that meet it, each once, in ascending id order |
| `Repository.IsNotDeleted` | src/main/kotlin/uz/zero/shopapp/Repository.kt:34 | a row passes the not-deleted specification exactly when trashing it would still change it, that is, when it is not flagged |
| `Repository.BaseRepository.FindAll` | src/main/kotlin/uz/zero/shopapp/Services.kt:19-22 | the unfiltered listing: every stored row, trashed ones included, each once, in store order |
| `Repository.BaseRepository.FindByIdAndDeletedFalse` | src/main/kotlin/uz/zero/shopapp/Repository.kt:36 | finds a row exactly when the id is stored and the row is not flagged; the row it returns is the stored one, unchanged |
| `Repository.BaseRepository.FindAllNotDeleted` | src/main/kotlin/uz/zero/shopapp/Repository.kt:34-44 | exactly the unflagged rows, each once, in store order |
| `Repository.BaseRepository.FindAllBy` | src/main/kotlin/uz/zero/shopapp/Repository.kt:44 | `findAll` with a specification: exactly the stored rows meeting it, in store order |
| `Repository.BaseRepository.Save` | src/main/kotlin/uz/zero/shopapp/Repository.kt:41 | a row whose id is stored overwrites that row. Any other row is stored under the next generated id, and the full listing grows by that row at its end |
| `Repository.BaseRepository.Trash` | src/main/kotlin/uz/zero/shopapp/Repository.kt:39-42 | the new table and the result are those of `TrashRow`. After a successful trash the row is still stored, but the active lookup finds nothing |
| `Repository.BaseRepository.TrashList` | src/main/kotlin/uz/zero/shopapp/Repository.kt:46 | same effect and results as trashing each id left to right; as many results as ids |
| `SqlText.LikeContains` | src/main/kotlin/uz/zero/shopapp/Repository.kt:79-81 | for a pattern without wildcards, `s LIKE '%k%'` holds exactly when `s` contains `k` |
| `SqlText.LowerPattern` | src/main/kotlin/uz/zero/shopapp/Repository.kt:79-81 | lower-casing `'%' + k + '%'` gives `'%' + lower(k) + '%'`, and lower-casing adds no wildcards |
| `Repository.MatchesKeywordIsContainment` | src/main/kotlin/uz/zero/shopapp/Repository.kt:79-81 | for a keyword without `%` or `_`, a product matches exactly when one of its lower-cased names contains the lower-cased keyword |
| `Repository.SearchAvailableProducts` | src/main/kotlin/uz/zero/shopapp/Repository.kt:77-85 | exactly the stored products that are in stock, not trashed and name-match the keyword. None of them is trashed or has count 0. For a wildcard-free keyword, name-matching means substring containment |
| `Repository.FindAvailableProductsByCategory` | src/main/kotlin/uz/zero/shopapp/Repository.kt:87-93 | exactly the stored products in the given category that are in stock and not trashed |
| `Exceptions.ErrorTypeInjective` | src/main/kotlin/uz/zero/shopapp/Exceptions.kt:55-101 | every domain error has its own error code |
| `Exceptions.ErrorType` | src/main/kotlin/uz/zero/shopapp/Exceptions.kt:55-101 | each subclass's `errorType()`: reading the code back gives the subclass, so the assignment is one-to-one |
| `Exceptions.ErrorTypeCoversCodes` | src/main/kotlin/uz/zero/shopapp/Exceptions.kt:55-101 | every error code used by the hierarchy is reported by exactly one subclass |
| `Exceptions.Name` | src/main/kotlin/uz/zero/shopapp/Exceptions.kt:46 | `errorType().toString()`: the constant's name, which reads back (as `valueOf` would) to that constant |
| `Exceptions.NameInjective` | src/main/kotlin/uz/zero/shopapp/Exceptions.kt:46 | distinct error codes have distinct message keys |
| `Exceptions.ErrorTypeExamples` | src/main/kotlin/uz/zero/shopapp/Exceptions.kt:55-101 | category-not-found, insufficient-product and invalid-amount map to their own fixed codes |
| `Exceptions.MessageKeysDistinct` | src/main/kotlin/uz/zero/shopapp/Exceptions.kt:42-51 | different domain errors look up different message keys (the code constant's name) |
| `Exceptions.GetErrorMessage` | src/main/kotlin/uz/zero/shopapp/Exceptions.kt:41-51 | the body's code is the error code's number; its message is the template under the code's name, resolved in the language, with no arguments |
| `Exceptions.HandleOtherExceptions` | src/main/kotlin/uz/zero/shopapp/Exceptions.kt:14-33 | every failure gives a bad-request response. A domain error's body is its error message; any other failure's body is `(100, "Iltimos support bilan bog'laning")` |
| `Exceptions.FallbackHidesDetail` | src/main/kotlin/uz/zero/shopapp/Exceptions.kt:24-30 | all failures outside the taxonomy get the same response, so nothing about them leaks |
| `Services.CategoryServiceImpl.GetOne` | src/main/kotlin/uz/zero/shopapp/Services.kt:27-31 | succeeds exactly when the category is stored and not trashed, returning its id, name and order; otherwise fails with `CategoryNotFoundException`. It changes nothing |
| `Services.AdminResponseDeterminesRecord` | src/main/kotlin/uz/zero/shopapp/Dtos.kt:24-29 | `toAdminResponse` keeps id, name and order and drops only the `deleted` flag: two stored categories give equal responses exactly when those three agree |
| `Services.CategoryServiceImpl.Add` | src/main/kotlin/uz/zero/shopapp/Services.kt:33-39 | stores one new, active category with the request's name and order under a fresh id. Existing rows are kept, and the new row comes last in the listing |
| `Services.CategoryServiceImpl.GetAllCategories` | src/main/kotlin/uz/zero/shopapp/Services.kt:18-25 | one response per stored category, trashed ones included, in store order. The product list built first is discarded and changes nothing |

## Left out

- Purchases, balance top-ups and the payment/purchase history: their service implementations are not part of this model, and the controllers only delegate to them.
- HTTP controllers, Spring configuration, the locale resolver and the `hl` header interceptor, Swagger, the message-source beans and the application bootstrap: these are framework wiring only.
- The localized message lookup is a parameter. A missing key, which throws in Spring's message source, is not modelled.
- The numeric error codes are a parameter. The `ErrorCode` enum is not part of this model.
- `printStackTrace` in the handler's fallback branch is output only.
- Transactions, JPA sessions, lazy loading and concurrent access are not modelled. Operations are sequential.
- Auditing columns (created/modified dates and users) are not modelled. Record dates are plain integers supplied by the caller.
- Pagination: `findAllNotDeleted(pageable)` and the paging of `getAllCategories` are not modelled; the model returns the whole list in store order.
- Store order is modelled as ascending id. The database does not promise an order for an unsorted `findAll`.
- Repository.BaseRepository.Save: a row whose id is set but not stored is modelled as an insert under a fresh id. What the persistence provider really does for such a detached row varies by version; the model never saves one.
- Derived queries known only by their method names (`findByUsername`, `existsByUsername`, `findByTransactionId`, `findByUserIdAndDeletedFalse`, `findByCountGreaterThanAndDeletedFalse`, the `OrderByDateDesc` variants, `findByTransactionUserId`): no modelled member uses them, and their callers (the user, product, purchase and payment services) are not part of this model.
- Repository.FindAvailableProductsByCategory: assumes the `categoryId` argument binds to the query parameter. The query text writes `=: categoryId`, with a space between the colon and the name. Whether the framework binds that parameter, or the query fails at run time with an unbound parameter, is not modelled; the model gives the evidently intended filter.
- SqlText.Lower: lower-cases ASCII letters only; the database's Unicode case mapping is not modelled.
- SqlText.Like: has no escape character. A database whose default escape is a backslash treats `\` in a keyword differently.
- Integer widths: ids, counts and orders are unbounded integers. `Long` overflow does not arise in the modelled code. Money amounts are exact reals with no arithmetic on them.
- `Category.description`: the category record has only a name and an order. The admin response in `Dtos.kt` reads a description the record does not declare, and `add` passes three constructor arguments where the record takes two. The model drops the description, so `CategoryRequest.description` is ignored.
- Null ids: stored rows always have an id, so the non-null assertions on `id` in the responses always succeed.
