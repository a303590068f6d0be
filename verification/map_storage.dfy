/**
 * The in-memory stores: `MapUserStorage` (users keyed by uid) and
 * `MapBookStorage` (books keyed by bid), each a class owning one map.
 *
 * Go's `for ... range` over a map visits the entries in an unspecified order;
 * the loops here pick the next key with `:|`, so every proof holds for every
 * visiting order. `uuid.New()` becomes a fresh-id argument that is not yet a
 * key. bcrypt becomes the store's `verify` relation (CompareHashAndPassword
 * succeeding) and the outcome of GenerateFromPassword passed in by the caller,
 * whose hash verifies against the password it was made from.
 */
module MapStorage {
  import opened StorageErrors

  /** The publication month of a book (`WritedAt`, parsed from "2006-01"). */
  datatype Date = Date(year: int, month: int)

  datatype Book = Book(bid: string, lable: string, author: string, description: string, writedAt: Date)

  datatype User = User(uid: string, name: string, email: string, password: string, age: int)

  datatype UserLogin = UserLogin(email: string, password: string)

  // ---------------------------------------------------------------------------
  // Books
  // ---------------------------------------------------------------------------

  /** The duplicate test of SaveBook: same title (`Lable`) and same author. */
  predicate SameWork(a: Book, b: Book) {
    a.lable == b.lable && a.author == b.author
  }

  /** Some stored book has the title and author of `b`. */
  ghost predicate Taken(m: map<string, Book>, b: Book) {
    exists k :: k in m && SameWork(m[k], b)
  }

  /**
   * What the book map keeps: every book is stored under its own bid, and no two
   * stored books share title and author.
   */
  ghost predicate BooksInvariant(m: map<string, Book>) {
    && (forall k :: k in m ==> m[k].bid == k)
    && (forall k1, k2 :: k1 in m && k2 in m && k1 != k2 ==> !SameWork(m[k1], m[k2]))
  }

  /** What SaveBook returns when `id` is the freshly generated bid. */
  ghost function SaveBookResult(m: map<string, Book>, book: Book, id: string): Result<string> {
    if Taken(m, book) then Err(BookAlredyExist) else Ok(id)
  }

  /** The book map after SaveBook. */
  ghost function SaveBookState(m: map<string, Book>, book: Book, id: string): map<string, Book> {
    if Taken(m, book) then m else m[id := book.(bid := id)]
  }

  /** What GetBook returns. */
  function GetBookResult(m: map<string, Book>, bid: string): Result<Book> {
    if bid in m then Ok(m[bid]) else Err(BookNoFound)
  }

  /** What DeleteBook returns. */
  function DeleteBookResult(m: map<string, Book>, bid: string): Outcome {
    if bid in m then Pass else Fail(BookNoFound)
  }

  /** The book map after DeleteBook. */
  function DeleteBookState(m: map<string, Book>, bid: string): map<string, Book> {
    m - {bid}
  }

  /**
   * `books` lists the entries of `m` once each, in the order `keys` visits
   * them: as many books as entries, the i-th one stored under `keys[i]`, no key
   * visited twice.
   */
  ghost predicate ListsEntries(books: seq<Book>, m: map<string, Book>, keys: seq<string>) {
    && |keys| == |books| == |m|
    && (forall i :: 0 <= i < |keys| ==> keys[i] in m && books[i] == m[keys[i]])
    && (forall i, j :: 0 <= i < j < |keys| ==> keys[i] != keys[j])
  }

  class MapBookStorage {
    var bStor: map<string, Book>

    ghost predicate Valid()
      reads this
    {
      BooksInvariant(bStor)
    }

    constructor ()
      ensures Valid() && bStor == map[]
    {
      bStor := map[];
    }

    /**
     * Rejects a book whose title and author are already stored, leaving the
     * map as it was; otherwise stores it under `freshId`, with its bid set to
     * `freshId`, and returns that id.
     */
    method SaveBook(book: Book, freshId: string) returns (r: Result<string>)
      requires Valid()
      requires freshId !in bStor
      modifies this
      ensures Valid()
      ensures r == SaveBookResult(old(bStor), book, freshId)
      ensures bStor == SaveBookState(old(bStor), book, freshId)
    {
      var remaining := bStor.Keys;
      while remaining != {}
        invariant remaining <= bStor.Keys
        invariant forall k :: k in bStor && k !in remaining ==> !SameWork(bStor[k], book)
        decreases remaining
      {
        var k :| k in remaining;
        if SameWork(bStor[k], book) {
          return Err(BookAlredyExist);
        }
        remaining := remaining - {k};
      }
      bStor := bStor[freshId := book.(bid := freshId)];
      r := Ok(freshId);
    }

    /**
     * Fails with EmptyStorage exactly when nothing is stored; otherwise lists
     * every stored book once, in map order; `keys` is that order.
     */
    method GetBooks() returns (r: Result<seq<Book>>, ghost keys: seq<string>)
      ensures r.Err? <==> |bStor| == 0
      ensures r.Err? ==> r.error == EmptyStorage
      ensures r.Ok? ==> ListsEntries(r.value, bStor, keys)
    {
      keys := [];
      if |bStor| == 0 {
        return Err(EmptyStorage), keys;
      }
      var books: seq<Book> := [];
      var remaining := bStor.Keys;
      while remaining != {}
        invariant remaining <= bStor.Keys
        invariant |keys| == |books| && |books| + |remaining| == |bStor.Keys|
        invariant forall i :: 0 <= i < |keys| ==> keys[i] in bStor && keys[i] !in remaining && books[i] == bStor[keys[i]]
        invariant forall i, j :: 0 <= i < j < |keys| ==> keys[i] != keys[j]
        decreases remaining
      {
        var k :| k in remaining;
        books := books + [bStor[k]];
        keys := keys + [k];
        remaining := remaining - {k};
      }
      assert |bStor.Keys| == |bStor|;
      r := Ok(books);
    }

    /** The book stored under `bid`, or BookNoFound. */
    method GetBook(bid: string) returns (r: Result<Book>)
      ensures r == GetBookResult(bStor, bid)
      ensures r.Ok? <==> bid in bStor
      ensures r.Ok? ==> r.value == bStor[bid]
      ensures r.Err? ==> r.error == BookNoFound
    {
      if bid !in bStor {
        return Err(BookNoFound);
      }
      r := Ok(bStor[bid]);
    }

    /** Removes the entry under `bid` and nothing else, or fails with BookNoFound. */
    method DeleteBook(bid: string) returns (r: Outcome)
      requires Valid()
      modifies this
      ensures Valid()
      ensures r == DeleteBookResult(old(bStor), bid)
      ensures bStor == DeleteBookState(old(bStor), bid)
    {
      if bid !in bStor {
        return Fail(BookNoFound);
      }
      bStor := bStor - {bid};
      r := Pass;
    }

    /** The purge of the storage interface: does nothing here and always succeeds. */
    method DeleteBooks() returns (r: Outcome)
      ensures r == Pass
    {
      r := Pass;
    }

    /** The soft delete of the storage interface: does nothing here and always succeeds. */
    method SetDeleteBookStatus(bid: string) returns (r: Outcome)
      ensures r == Pass
    {
      r := Pass;
    }
  }

  /** A successful SaveBook keeps the book map's invariant. */
  lemma SaveBookKeepsInvariant(m: map<string, Book>, book: Book, id: string)
    requires BooksInvariant(m) && id !in m
    ensures BooksInvariant(SaveBookState(m, book, id))
  {
  }

  /** A book just saved is found under the id SaveBook returned, with that id as its bid. */
  lemma GetAfterSave(m: map<string, Book>, book: Book, id: string)
    requires !Taken(m, book)
    ensures SaveBookResult(m, book, id) == Ok(id)
    ensures GetBookResult(SaveBookState(m, book, id), id) == Ok(book.(bid := id))
  {
  }

  /** Once a title and author are stored, saving them again fails and changes nothing. */
  lemma SecondSaveConflicts(m: map<string, Book>, book: Book, id: string, again: Book, id2: string)
    requires SameWork(again, book)
    ensures SaveBookResult(SaveBookState(m, book, id), again, id2) == Err(BookAlredyExist)
    ensures SaveBookState(SaveBookState(m, book, id), again, id2) == SaveBookState(m, book, id)
  {
    var m' := SaveBookState(m, book, id);
    if Taken(m, book) {
      var k :| k in m && SameWork(m[k], book);
      assert SameWork(m'[k], again);
    } else {
      assert SameWork(m'[id], again);
    }
  }

  /** Deleting the book just saved gives back the map as it was. */
  lemma DeleteUndoesSave(m: map<string, Book>, book: Book, id: string)
    requires id !in m && !Taken(m, book)
    ensures DeleteBookResult(SaveBookState(m, book, id), id) == Pass
    ensures DeleteBookState(SaveBookState(m, book, id), id) == m
  {
  }

  /**
   * A hard delete frees the deleted book's title and author: a book with them
   * can be saved again.
   */
  lemma DeleteFreesWork(m: map<string, Book>, bid: string, book: Book, id: string)
    requires BooksInvariant(m) && bid in m && SameWork(book, m[bid])
    ensures SaveBookResult(DeleteBookState(m, bid), book, id) == Ok(id)
  {
  }

  /** A sequence with no key twice has as many distinct keys as elements. */
  lemma {:induction false} DistinctKeysCount(keys: seq<string>)
    requires forall i, j :: 0 <= i < j < |keys| ==> keys[i] != keys[j]
    ensures |set i | 0 <= i < |keys| :: keys[i]| == |keys|
  {
    if keys != [] {
      var n := |keys| - 1;
      var init := keys[..n];
      DistinctKeysCount(init);
      var s := set i | 0 <= i < n :: init[i];
      var t := set i | 0 <= i < |keys| :: keys[i];
      assert t == s + {keys[n]} by {
        forall x | x in t ensures x in s + {keys[n]} {
          var i :| 0 <= i < |keys| && keys[i] == x;
          if i < n { assert init[i] == x; }
        }
        forall x | x in s ensures x in t {
          var i :| 0 <= i < n && init[i] == x;
          assert keys[i] == x;
        }
      }
      assert keys[n] !in s;
    }
  }

  /** A subset as large as its superset is the superset. */
  lemma SubsetOfSameSize<T>(a: set<T>, b: set<T>)
    requires a <= b && |a| == |b|
    ensures a == b
  {
    assert b == a + (b - a);
    assert |b - a| == 0;
  }

  /**
   * A listing misses no entry: every stored book appears in it, so it is the
   * store's contents in some order.
   */
  lemma ListingCoversStore(books: seq<Book>, m: map<string, Book>, keys: seq<string>)
    requires ListsEntries(books, m, keys)
    ensures forall k :: k in m ==> m[k] in books
  {
    var visited := set i | 0 <= i < |keys| :: keys[i];
    DistinctKeysCount(keys);
    assert visited <= m.Keys;
    assert |visited| == |m.Keys|;
    SubsetOfSameSize(visited, m.Keys);
    forall k | k in m ensures m[k] in books {
      assert k in visited;
      var i :| 0 <= i < |keys| && keys[i] == k;
      assert books[i] == m[k];
    }
  }

  // ---------------------------------------------------------------------------
  // Users
  // ---------------------------------------------------------------------------

  /** The map store's own ad-hoc errors; none of them is a storage sentinel. */
  const UserExistsError: Error := Other("user alredy exist")
  const WrongPasswordError: Error := Other("invalid user password")
  const NoSuchUserError: Error := Other("user no exist")

  /** Some stored user has this email. */
  ghost predicate EmailTaken(m: map<string, User>, email: string) {
    exists k :: k in m && m[k].email == email
  }

  /** No two stored users share an email. */
  ghost predicate UniqueEmails(m: map<string, User>) {
    forall k1, k2 :: k1 in m && k2 in m && k1 != k2 ==> m[k1].email != m[k2].email
  }

  /** What the user map keeps: every user under its own uid, emails unique. */
  ghost predicate UsersInvariant(m: map<string, User>) {
    && (forall k :: k in m ==> m[k].uid == k)
    && UniqueEmails(m)
  }

  /** What SaveUser returns, given what GenerateFromPassword returned. */
  ghost function SaveUserResult(m: map<string, User>, user: User, hashed: Result<string>, id: string): Result<string> {
    if EmailTaken(m, user.email) then Err(UserExistsError)
    else if hashed.Err? then Err(hashed.error)
    else Ok(id)
  }

  /** The user map after SaveUser: the hash replaces the password. */
  ghost function SaveUserState(m: map<string, User>, user: User, hashed: Result<string>, id: string): map<string, User> {
    if EmailTaken(m, user.email) || hashed.Err? then m
    else m[id := user.(uid := id, password := hashed.value)]
  }

  /**
   * What ValidateUser returns when emails are unique: the key of the user with
   * that email if the password verifies against its stored hash, otherwise
   * which of the two checks failed.
   */
  ghost function LoginResult(m: map<string, User>, verify: (string, string) -> bool, login: UserLogin): (r: Result<string>)
    requires UniqueEmails(m)
    ensures r.Ok? <==> exists k :: k in m && m[k].email == login.email && verify(m[k].password, login.password)
    ensures r.Ok? ==> r.value in m && m[r.value].email == login.email
    ensures r.Err? ==> r.error == if EmailTaken(m, login.email) then WrongPasswordError else NoSuchUserError
  {
    if EmailTaken(m, login.email) then
      var k :| k in m && m[k].email == login.email;
      if verify(m[k].password, login.password) then Ok(k) else Err(WrongPasswordError)
    else
      Err(NoSuchUserError)
  }

  class MapUserStorage {
    var stor: map<string, User>
    /** CompareHashAndPassword(hash, password) succeeds. */
    const verify: (string, string) -> bool

    ghost predicate Valid()
      reads this
    {
      UsersInvariant(stor)
    }

    constructor (verify: (string, string) -> bool)
      ensures Valid() && stor == map[] && this.verify == verify
    {
      stor := map[];
      this.verify := verify;
    }

    /**
     * Rejects an email already registered; otherwise stores the user under
     * `freshUid` with the hash in place of the password. `hashed` is what
     * GenerateFromPassword returned for `user.password`.
     */
    method SaveUser(user: User, hashed: Result<string>, freshUid: string) returns (r: Result<string>)
      requires Valid()
      requires freshUid !in stor
      requires hashed.Ok? ==> verify(hashed.value, user.password)
      modifies this
      ensures Valid()
      ensures r == SaveUserResult(old(stor), user, hashed, freshUid)
      ensures stor == SaveUserState(old(stor), user, hashed, freshUid)
    {
      var remaining := stor.Keys;
      while remaining != {}
        invariant remaining <= stor.Keys
        invariant forall k :: k in stor && k !in remaining ==> stor[k].email != user.email
        decreases remaining
      {
        var k :| k in remaining;
        if user.email == stor[k].email {
          return Err(UserExistsError);
        }
        remaining := remaining - {k};
      }
      if hashed.Err? {
        return Err(hashed.error);
      }
      stor := stor[freshUid := user.(uid := freshUid, password := hashed.value)];
      r := Ok(freshUid);
    }

    /** Authenticates by email and password against the stored hash. */
    method ValidateUser(login: UserLogin) returns (r: Result<string>)
      requires Valid()
      ensures r == LoginResult(stor, verify, login)
    {
      var remaining := stor.Keys;
      while remaining != {}
        invariant remaining <= stor.Keys
        invariant forall k :: k in stor && k !in remaining ==> stor[k].email != login.email
        decreases remaining
      {
        var k :| k in remaining;
        if login.email == stor[k].email {
          if !verify(stor[k].password, login.password) {
            return Err(WrongPasswordError);
          }
          return Ok(k);
        }
        remaining := remaining - {k};
      }
      r := Err(NoSuchUserError);
    }
  }

  /** A successful SaveUser keeps emails unique and users under their own uid. */
  lemma SaveUserKeepsInvariant(m: map<string, User>, user: User, hashed: Result<string>, id: string)
    requires UsersInvariant(m) && id !in m
    ensures UsersInvariant(SaveUserState(m, user, hashed, id))
  {
  }

  /** Once an email is registered, registering it again fails and changes nothing. */
  lemma SecondRegistrationFails(m: map<string, User>, user: User, hashed: Result<string>, id: string,
                                again: User, hashed2: Result<string>, id2: string)
    requires again.email == user.email
    requires SaveUserResult(m, user, hashed, id).Ok?
    ensures SaveUserResult(SaveUserState(m, user, hashed, id), again, hashed2, id2) == Err(UserExistsError)
    ensures SaveUserState(SaveUserState(m, user, hashed, id), again, hashed2, id2) == SaveUserState(m, user, hashed, id)
  {
    var m' := SaveUserState(m, user, hashed, id);
    assert m'[id].email == again.email;
  }

  /** A user who has just registered can log in with the same email and password. */
  lemma LoginAfterRegister(m: map<string, User>, verify: (string, string) -> bool,
                           user: User, hashed: Result<string>, id: string)
    requires UsersInvariant(m) && id !in m
    requires hashed.Ok? ==> verify(hashed.value, user.password)
    requires SaveUserResult(m, user, hashed, id).Ok?
    ensures UniqueEmails(SaveUserState(m, user, hashed, id))
    ensures LoginResult(SaveUserState(m, user, hashed, id), verify, UserLogin(user.email, user.password)) == Ok(id)
  {
    var m' := SaveUserState(m, user, hashed, id);
    SaveUserKeepsInvariant(m, user, hashed, id);
    assert m'[id].email == user.email && verify(m'[id].password, user.password);
  }

  /** When a user holds the email, the login outcome depends on that user alone. */
  lemma LoginKeyIsUnique(m: map<string, User>, verify: (string, string) -> bool, login: UserLogin, k: string)
    requires UniqueEmails(m)
    requires k in m && m[k].email == login.email
    ensures LoginResult(m, verify, login) == if verify(m[k].password, login.password) then Ok(k) else Err(WrongPasswordError)
  {
  }
}
