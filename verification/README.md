# gt4-bookly: in-memory stores, book handlers and the deferred purge loop

A Dafny model of the core of gt4-bookly, a small REST backend for books and
users. It covers three parts:

- the in-memory user store `MapUserStorage` (register, log in) and book store
  `MapBookStorage` (add, list, fetch, hard delete, and the soft-delete and purge
  operations of the storage interface);
- the status codes the four book handlers answer with, given what the storage
  call returned;
- the background `deleter` loop. On each timer tick it checks whether the
  delete channel is full. If so, it drains the channel and asks the store to
  purge soft-deleted books once. A failed purge is reported on the error
  channel and stops the loop. Cancellation stops it too.

Modules, one per source file:

- `StorageErrors` (`storage_errors.dfy`): the sentinel errors of
  `internal/storage/storageerror/errors.go`. `errors.Is(err, ErrX)` becomes
  `err == X`. Every other error is `Other(message)`, which never equals a
  sentinel. This module also holds the `Result`/`Outcome` shapes of Go's
  `(value, error)` returns.
- `MapStorage` (`map_storage.dfy`): `internal/storage/mapstorage.go`. Each
  store is a class with one `map` field.
  - Each store operation is a method. It is proved against specification
    functions on maps (`SaveBookResult`/`SaveBookState`, `GetBookResult`,
    `DeleteBookResult`/`DeleteBookState`, `SaveUserResult`/`SaveUserState`,
    `LoginResult`). Lemmas relate these functions to each other.
  - Go's `range` over a map has no fixed order. The loops here pick each key
    with `:|`, so every result holds for every visiting order.
- `Server` (`server_books.dfy`): `internal/server/books.go`.
  - The handlers' status decisions are functions.
  - The `deleter` loop is the state machine `Next`/`Run` over `DeleterState`.
    The class `Deleter` has methods `Send`, `Tick` and `Cancel`, each proved to
    take exactly one step of `Next`.
  - `DeleteBookHandler` sends one signal to a `Deleter`.

Parameters of the model:

- `uuid.New()` is a fresh-id argument that is not yet a key of the map.
- bcrypt is split in two. `CompareHashAndPassword` succeeding is the store's
  `verify` relation. `GenerateFromPassword` is its outcome, passed to
  `SaveUser`. When it succeeded, the hash verifies against the password it was
  made from.
- The delete channel's capacity is the `capacity` of a `Deleter`. The API uses
  `DelChanCapacity` = 10 (`internal/server/server.go:38`).
- The timer is the event `Tick`. It carries what `DeleteBooks` would return if
  called. The context's cancellation is the event `Cancel`.
- A send on a full channel blocks. So `Send` is enabled only below capacity
  (`Enabled`, `Feasible`).

Behaviour of the code a reader may not expect:

- `addBookHandler` answers 500 when the month does not parse
  (`internal/server/books.go:32-37`).
- The in-memory store's `SetDeleteBookStatus` and `DeleteBooks` do nothing and
  always succeed (`internal/storage/mapstorage.go:107-113`). Soft-deleted books
  stay listed and fetchable, and the duplicate check in `SaveBook` counts every
  stored book.
- So with the in-memory store, deleting an unknown id answers 200 and sends a
  signal (`internal/server/books.go:100-111`).
- The in-memory user store's errors are fresh `errors.New` values ("user alredy
  exist", "invalid user password", "user no exist";
  `internal/storage/mapstorage.go:28,47,52`). None of them is a storage
  sentinel.
- The send on the delete channel (`internal/server/books.go:110`) blocks while
  the channel is full.

## Model

| member | source | states |
|---|---|---|
| `MapStorage.MapBookStorage.constructor` | internal/storage/mapstorage.go:59-63 | a new book store is empty and satisfies the store invariant |
| `MapStorage.MapBookStorage.SaveBook` | internal/storage/mapstorage.go:65-77 | if any stored book has the same title and author, returns BookAlredyExist and leaves the map as it was; otherwise adds exactly one entry under the fresh id, holding the input book with that id as bid, returns that id, and keeps "no two stored books share title and author" |
| `MapStorage.MapBookStorage.GetBooks` | internal/storage/mapstorage.go:79-88 | fails with EmptyStorage exactly when the map is empty; otherwise returns as many books as entries, the i-th one the entry under the i-th key visited, no key visited twice, in whatever order the map is visited; it holds for any map, whatever bids its books carry; it changes nothing |
| `MapStorage.MapBookStorage.GetBook` | internal/storage/mapstorage.go:90-96 | returns GetBookResult: the book stored under the id when the id is a key, and BookNoFound otherwise; it changes nothing |
| `MapStorage.MapBookStorage.DeleteBook` | internal/storage/mapstorage.go:98-105 | when the id is a key, removes exactly that key and succeeds; otherwise fails with BookNoFound and leaves the map unchanged |
| `MapStorage.MapBookStorage.DeleteBooks` | internal/storage/mapstorage.go:107-109 | always succeeds and leaves the book map unchanged |
| `MapStorage.MapBookStorage.SetDeleteBookStatus` | internal/storage/mapstorage.go:111-113 | succeeds for every id and leaves the book map unchanged |
| `MapStorage.SaveBookKeepsInvariant` | internal/storage/mapstorage.go:67-74 | SaveBook on a map where every book sits under its own bid and no title and author repeat keeps both properties |
| `MapStorage.GetAfterSave` | internal/storage/mapstorage.go:72-76 | a book just saved is found (GetBookResult, which GetBook returns) under the id SaveBook returned, with that id as its bid |
| `MapStorage.SecondSaveConflicts` | internal/storage/mapstorage.go:67-71 | once a title and author are stored, saving a book with them again returns BookAlredyExist and leaves the map unchanged |
| `MapStorage.DeleteUndoesSave` | internal/storage/mapstorage.go:98-105 | deleting the book just saved succeeds and gives back exactly the map before the save |
| `MapStorage.DeleteFreesWork` | internal/storage/mapstorage.go:98-105 | after a hard delete, a book with the deleted book's title and author can be saved again |
| `MapStorage.ListingCoversStore` | internal/storage/mapstorage.go:83-87 | a listing with one book per entry, visiting no key twice, contains every stored book, so GetBooks returns exactly the stored books |
| `MapStorage.MapUserStorage.constructor` | internal/storage/mapstorage.go:18-22 | a new user store is empty and satisfies the store invariant |
| `MapStorage.MapUserStorage.SaveUser` | internal/storage/mapstorage.go:24-41 | an email already stored gives "user alredy exist" and no change; a failed hash gives that error and no change; otherwise adds one entry under the fresh uid, holding the hash in place of the password, returns the uid, and keeps emails unique |
| `MapStorage.MapUserStorage.ValidateUser` | internal/storage/mapstorage.go:43-53 | returns LoginResult whatever order the map is visited in; it changes nothing |
| `MapStorage.LoginResult` | internal/storage/mapstorage.go:43-53 | with unique emails: succeeds exactly when some user has the email and the password verifies against that user's hash, and then returns that user's key; otherwise "invalid user password" when the email is stored and "user no exist" when it is not |
| `MapStorage.SaveUserKeepsInvariant` | internal/storage/mapstorage.go:26-38 | SaveUser keeps every user under its own uid and keeps emails unique |
| `MapStorage.SecondRegistrationFails` | internal/storage/mapstorage.go:26-30 | once an email is registered, registering it again fails with "user alredy exist" whatever the password, and changes nothing |
| `MapStorage.LoginAfterRegister` | internal/storage/mapstorage.go:31-49 | a user who has just registered logs in with the same email and password and gets the uid registration returned |
| `MapStorage.LoginKeyIsUnique` | internal/storage/mapstorage.go:44-50 | when a user holds the email, the login outcome is fixed by that user alone: its key if the password verifies, "invalid user password" otherwise |
| `Server.AddBookStatus` | internal/server/books.go:16-56 | no uid in the context gives 500 whatever storage would say; a body that does not bind gives 400; a month that does not parse gives 500; otherwise 201 exactly on success, 409 exactly for BookAlredyExist, 500 exactly for any other error |
| `Server.GetBooksStatus` | internal/server/books.go:58-71 | 200 exactly on success, 204 exactly for EmptyStorage, 500 exactly for any other error |
| `Server.GetBookStatus` | internal/server/books.go:73-95 | 200 exactly on success, 204 exactly for BookNoFound, 500 exactly for any other error |
| `Server.DeleteBookStatus` | internal/server/books.go:97-111 | 200 exactly when marking succeeded, 204 exactly for BookNoFound, 500 exactly for any other error |
| `Server.DeleteBookHandler` | internal/server/books.go:97-111 | answers DeleteBookStatus and sends exactly one signal to the deleter when marking succeeded, none otherwise |
| `Server.AddToMapStore` | internal/server/books.go:45-55 | with the in-memory store, adding answers 409 when the title and author are stored and 201 otherwise, never 500 |
| `Server.DuplicateAddConflicts` | internal/server/books.go:45-51 | adding the same title and author twice to the in-memory store answers 409 to the second request |
| `Server.ListMapStore` | internal/server/books.go:60-70 | listing the in-memory store answers 204 exactly when it is empty and 200 otherwise, never 500 |
| `Server.GetFromMapStore` | internal/server/books.go:77-94 | fetching from the in-memory store answers 200 exactly for a stored id and 204 otherwise |
| `Server.Next` | internal/server/books.go:114-136 | one step of the deleter keeps the capacity, keeps the channel within capacity, and leaves a stopped loop stopped, with no new purge or report |
| `Server.RunKeepsQueueBounded` | internal/server/books.go:110 | over any feasible sequence of sends, ticks and cancellations, the channel never holds more than its capacity |
| `Server.StoppedIsFinal` | internal/server/books.go:119-132 | once the loop has stopped, by cancellation or by a failed purge, no later event purges, reports or restarts it |
| `Server.SendsAreDrainedByPurges` | internal/server/books.go:123-127 | purges never decrease, and each purge drains exactly `capacity` signals: signals sent = signals still queued + capacity × purges |
| `Server.BelowCapacityNeverPurges` | internal/server/books.go:121-123 | while fewer signals than the capacity have ever been queued, no tick calls DeleteBooks |
| `Server.ReportOnlyOnStop` | internal/server/books.go:128-132 | the loop reports at most one error, and only as it stops for good |
| `Server.FullChannelPurgesOnTick` | internal/server/books.go:121-132 | from a fresh loop, `capacity` deletes and one tick call DeleteBooks once and empty the channel; the loop keeps running if the purge succeeded, and otherwise stops having reported exactly that error |
| `Server.Deleter.constructor` | internal/server/server.go:38 | a new deleter runs with an empty channel of the given capacity, no purges and no reports |
| `Server.Deleter.Send` | internal/server/books.go:110 | a send below capacity adds one signal and changes nothing else; it is one `Next` step |
| `Server.Deleter.Tick` | internal/server/books.go:121-133 | below capacity, or once stopped, nothing changes; on a full channel, drains all `capacity` signals and calls DeleteBooks once; a failure is appended to the reported errors and stops the loop, a success keeps it running |
| `Server.Deleter.Cancel` | internal/server/books.go:119-120 | stops the loop without draining, purging or reporting |

## Left out

- `internal/storage/dbstorage.go`, the PostgreSQL store: its behaviour lies in SQL and a schema that are not part of this model. The same goes for `Migrations`.
- bcrypt hashing and comparison, and `uuid.New()`: foreign library calls. They are parameters of the model (see above). Collisions of generated ids are excluded by a precondition.
- JWT issuance and checking (`internal/server/utils/jwttoken.go`), the auth middleware, routing, JSON binding and validation (`internal/server/server.go`, `internal/server/users.go`), and the process wiring (`cmd/gt4bookly/main.go`): HTTP and process plumbing. For `addBookHandler`, whether the uid is present, whether the body binds and whether the month parses are boolean inputs.
- `time.Parse("2006-01", …)` and `Format`: library calls. A book's month is a `Date(year, month)`, and parsing is the boolean `dateParses`.
- The response bodies (error texts, the JSON book, the formatted month): only status codes are modelled.
- Logging: no effect on state.
- Concurrency: goroutines, real timers and blocking channel operations. Events happen one at a time. A blocked send is a send that is not enabled. The race between checking the channel's length and draining it is not modelled.
- `MapStorage.SaveBookKeepsInvariant`, `MapStorage.SaveUserKeepsInvariant`: hold only when calls run one at a time. The in-memory stores hold a bare Go map with no lock (`internal/storage/mapstorage.go:14-16`, `55-57`), and the HTTP server runs each request on its own goroutine. Two concurrent `SaveBook` (or `SaveUser`) calls can both pass the duplicate loop (`internal/storage/mapstorage.go:67-71`, `26-30`) before either inserts, and concurrent map writes crash the Go runtime. The model runs every call to completion before the next.
- `MapStorage.MapUserStorage.ValidateUser` is specified only for stores whose emails are unique. Every store built by the constructor and changed only by the model's methods keeps that. Were two users to share an email, Go would answer for whichever of them the map visits first.
- Go errors made by `errors.New` compare by identity, so two calls give unequal errors. Here `Other(message)` values compare by message. No handler compares these errors, so nothing depends on it.
