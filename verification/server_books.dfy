/**
 * The book handlers of the HTTP API and the background `deleter` loop.
 *
 * A handler's only decision is which status code to answer with, given what
 * the storage call returned; each is a function from that result to the code.
 * The delete handler also pushes one signal onto the delete channel, which the
 * `deleter` loop drains: on each timer tick, when the channel is exactly full,
 * it takes every signal out and asks the store to purge soft-deleted books
 * once. A failed purge is reported on the error channel and ends the loop, and
 * so does cancellation.
 *
 * The loop is modelled as a state machine over `DeleterState` (`Next`, with the
 * timer firing and the context being cancelled as events) and as the class
 * `Deleter` whose methods are proved to take exactly the steps of `Next`.
 */
module Server {
  import opened StorageErrors
  import MapStorage

  const StatusOK: int := 200
  const StatusCreated: int := 201
  const StatusNoContent: int := 204
  const StatusBadRequest: int := 400
  const StatusConflict: int := 409
  const StatusInternalServerError: int := 500

  /** The capacity the API gives its delete channel. */
  const DelChanCapacity: nat := 10

  // ---------------------------------------------------------------------------
  // Status decisions of the book handlers
  // ---------------------------------------------------------------------------

  /**
   * addBookHandler. `hasUid`: the auth middleware put a "uid" in the context;
   * `bodyBinds`: the JSON body binds to a book request; `dateParses`: its month
   * parses; `save`: what the store's SaveBook returned (not consulted unless all
   * three hold, that is, the store is called only then).
   */
  function AddBookStatus(hasUid: bool, bodyBinds: bool, dateParses: bool, save: Result<string>): (status: int)
    ensures !hasUid ==> status == StatusInternalServerError
    ensures hasUid && !bodyBinds ==> status == StatusBadRequest
    ensures hasUid && bodyBinds && !dateParses ==> status == StatusInternalServerError
    ensures hasUid && bodyBinds && dateParses ==>
      && (status == StatusCreated <==> save.Ok?)
      && (status == StatusConflict <==> save == Err(BookAlredyExist))
      && (status == StatusInternalServerError <==> save.Err? && save.error != BookAlredyExist)
  {
    if !hasUid then StatusInternalServerError
    else if !bodyBinds then StatusBadRequest
    else if !dateParses then StatusInternalServerError
    else match save
      case Ok(_) => StatusCreated
      case Err(e) => if e == BookAlredyExist then StatusConflict else StatusInternalServerError
  }

  /** getBooksHandler, given what GetBooks returned. */
  function GetBooksStatus(books: Result<seq<MapStorage.Book>>): (status: int)
    ensures status == StatusOK <==> books.Ok?
    ensures status == StatusNoContent <==> books == Err(EmptyStorage)
    ensures status == StatusInternalServerError <==> books.Err? && books.error != EmptyStorage
  {
    match books
    case Ok(_) => StatusOK
    case Err(e) => if e == EmptyStorage then StatusNoContent else StatusInternalServerError
  }

  /** getBookHandler, given what GetBook returned. */
  function GetBookStatus(book: Result<MapStorage.Book>): (status: int)
    ensures status == StatusOK <==> book.Ok?
    ensures status == StatusNoContent <==> book == Err(BookNoFound)
    ensures status == StatusInternalServerError <==> book.Err? && book.error != BookNoFound
  {
    match book
    case Ok(_) => StatusOK
    case Err(e) => if e == BookNoFound then StatusNoContent else StatusInternalServerError
  }

  /** deleteBookHandler, given what SetDeleteBookStatus returned. */
  function DeleteBookStatus(marked: Outcome): (status: int)
    ensures status == StatusOK <==> marked.Pass?
    ensures status == StatusNoContent <==> marked == Fail(BookNoFound)
    ensures status == StatusInternalServerError <==> marked.Fail? && marked.error != BookNoFound
  {
    match marked
    case Pass => StatusOK
    case Fail(e) => if e == BookNoFound then StatusNoContent else StatusInternalServerError
  }

  // ---------------------------------------------------------------------------
  // The handlers over the in-memory book store
  // ---------------------------------------------------------------------------

  /** Adding to the in-memory store answers 201, or 409 for a stored title and author; never 500. */
  lemma AddToMapStore(m: map<string, MapStorage.Book>, book: MapStorage.Book, id: string)
    ensures AddBookStatus(true, true, true, MapStorage.SaveBookResult(m, book, id))
            == if MapStorage.Taken(m, book) then StatusConflict else StatusCreated
  {
  }

  /** Adding the same title and author twice: the second request is answered 409. */
  lemma DuplicateAddConflicts(m: map<string, MapStorage.Book>, book: MapStorage.Book, id: string,
                              again: MapStorage.Book, id2: string)
    requires MapStorage.SameWork(again, book)
    ensures AddBookStatus(true, true, true,
                          MapStorage.SaveBookResult(MapStorage.SaveBookState(m, book, id), again, id2))
            == StatusConflict
  {
    MapStorage.SecondSaveConflicts(m, book, id, again, id2);
  }

  /** Listing the in-memory store answers 204 exactly when it is empty, otherwise 200; never 500. */
  lemma ListMapStore(m: map<string, MapStorage.Book>, books: Result<seq<MapStorage.Book>>)
    requires books.Err? <==> |m| == 0
    requires books.Err? ==> books.error == EmptyStorage
    ensures GetBooksStatus(books) == if |m| == 0 then StatusNoContent else StatusOK
  {
  }

  /** Fetching from the in-memory store answers 200 exactly for a stored bid, otherwise 204. */
  lemma GetFromMapStore(m: map<string, MapStorage.Book>, bid: string)
    ensures GetBookStatus(MapStorage.GetBookResult(m, bid)) == if bid in m then StatusOK else StatusNoContent
  {
  }

  // ---------------------------------------------------------------------------
  // The deleter loop as a state machine
  // ---------------------------------------------------------------------------

  datatype Phase = Running | Stopped

  /**
   * What the loop sees: a signal sent on the delete channel, the timer firing
   * (carrying what DeleteBooks returns if it is called), the context cancelled.
   */
  datatype Event = Send | Tick(deleteBooks: Outcome) | Cancel

  /**
   * `queued`: signals in the delete channel; `purges`: calls of DeleteBooks so
   * far; `reported`: errors sent on the error channel so far.
   */
  datatype DeleterState = DeleterState(capacity: nat, phase: Phase, queued: nat, purges: nat, reported: seq<Error>)

  function Initial(capacity: nat): DeleterState {
    DeleterState(capacity, Running, 0, 0, [])
  }

  /** A send on a full channel blocks: it can take place only below capacity. */
  predicate Enabled(s: DeleterState, e: Event) {
    e.Send? ==> s.queued < s.capacity
  }

  function Next(s: DeleterState, e: Event): (t: DeleterState)
    requires Enabled(s, e)
    ensures t.capacity == s.capacity
    ensures s.queued <= s.capacity ==> t.queued <= t.capacity
    ensures s.phase == Stopped ==> t.phase == Stopped && t.purges == s.purges && t.reported == s.reported
  {
    match e
    case Send => s.(queued := s.queued + 1)
    case Cancel => s.(phase := Stopped)
    case Tick(outcome) =>
      if s.phase == Stopped || s.queued != s.capacity then s
      else if outcome.Pass? then s.(queued := 0, purges := s.purges + 1)
      else s.(queued := 0, purges := s.purges + 1, phase := Stopped, reported := s.reported + [outcome.error])
  }

  /** Every event of `events` can take place in turn, starting from `s`. */
  predicate Feasible(s: DeleterState, events: seq<Event>)
    decreases |events|
  {
    events == [] || (Enabled(s, events[0]) && Feasible(Next(s, events[0]), events[1..]))
  }

  function Run(s: DeleterState, events: seq<Event>): DeleterState
    requires Feasible(s, events)
    decreases |events|
  {
    if events == [] then s else Run(Next(s, events[0]), events[1..])
  }

  function CountSends(events: seq<Event>): nat {
    if events == [] then 0 else (if events[0].Send? then 1 else 0) + CountSends(events[1..])
  }

  function Sends(n: nat): (events: seq<Event>)
    ensures |events| == n && forall i :: 0 <= i < n ==> events[i] == Send
  {
    if n == 0 then [] else [Send] + Sends(n - 1)
  }

  /** The channel never holds more signals than its capacity. */
  lemma {:induction false} RunKeepsQueueBounded(s: DeleterState, events: seq<Event>)
    requires Feasible(s, events) && s.queued <= s.capacity
    ensures Run(s, events).capacity == s.capacity
    ensures Run(s, events).queued <= s.capacity
    decreases |events|
  {
    if events != [] {
      RunKeepsQueueBounded(Next(s, events[0]), events[1..]);
    }
  }

  /** Once stopped, the loop never purges and never reports again, whatever happens. */
  lemma {:induction false} StoppedIsFinal(s: DeleterState, events: seq<Event>)
    requires Feasible(s, events) && s.phase == Stopped
    ensures Run(s, events).phase == Stopped
    ensures Run(s, events).purges == s.purges
    ensures Run(s, events).reported == s.reported
    decreases |events|
  {
    if events != [] {
      StoppedIsFinal(Next(s, events[0]), events[1..]);
    }
  }

  /**
   * Every purge drains exactly `capacity` signals: the signals sent are the ones
   * still queued plus `capacity` for each purge.
   */
  lemma {:induction false} SendsAreDrainedByPurges(s: DeleterState, events: seq<Event>)
    requires Feasible(s, events)
    ensures Run(s, events).purges >= s.purges
    ensures Run(s, events).queued + s.capacity * Run(s, events).purges
            == s.queued + s.capacity * s.purges + CountSends(events)
    decreases |events|
  {
    if events != [] {
      var t := Next(s, events[0]);
      SendsAreDrainedByPurges(t, events[1..]);
      if t.purges == s.purges + 1 {
        assert s.capacity * t.purges == s.capacity * s.purges + s.capacity;
      }
    }
  }

  /** While fewer than `capacity` signals have ever been queued, no tick purges. */
  lemma BelowCapacityNeverPurges(s: DeleterState, events: seq<Event>)
    requires Feasible(s, events)
    requires s.queued + CountSends(events) < s.capacity
    ensures Run(s, events).purges == s.purges
  {
    SendsAreDrainedByPurges(s, events);
    var t := Run(s, events);
    FewerThanOneBatch(s.capacity, s.queued + CountSends(events), t.queued, s.purges, t.purges);
  }

  /** A count below `c` cannot pay for a whole extra batch of `c`. */
  lemma FewerThanOneBatch(c: nat, before: nat, after: nat, p: nat, p': nat)
    requires after + c * p' == before + c * p && before < c && p' >= p
    ensures p' == p
  {
    if p' > p {
      Distribute(c, p, p' - p - 1);
      assert false;
    }
  }

  lemma Distribute(c: nat, p: nat, d: nat)
    ensures c * (p + 1 + d) == c * p + c + c * d && c * d >= 0
  {
  }

  /**
   * The loop reports at most one error, and only as it stops: a report means
   * the loop is stopped for good.
   */
  lemma {:induction false} ReportOnlyOnStop(s: DeleterState, events: seq<Event>)
    requires Feasible(s, events)
    ensures |Run(s, events).reported| <= |s.reported| + (if s.phase == Running then 1 else 0)
    ensures |Run(s, events).reported| > |s.reported| ==> Run(s, events).phase == Stopped
    decreases |events|
  {
    if events != [] {
      var t := Next(s, events[0]);
      if s.phase == Stopped {
        StoppedIsFinal(s, events);
      } else if t.phase == Stopped {
        StoppedIsFinal(t, events[1..]);
      } else {
        ReportOnlyOnStop(t, events[1..]);
      }
    }
  }

  /** Running `a` and then `b` is running `a + b`. */
  lemma {:induction false} RunAppend(s: DeleterState, a: seq<Event>, b: seq<Event>)
    requires Feasible(s, a) && Feasible(Run(s, a), b)
    ensures Feasible(s, a + b)
    ensures Run(s, a + b) == Run(Run(s, a), b)
    decreases |a|
  {
    if a != [] {
      assert (a + b)[0] == a[0] && (a + b)[1..] == a[1..] + b;
      RunAppend(Next(s, a[0]), a[1..], b);
    } else {
      assert a + b == b;
    }
  }

  /** Sends below capacity just fill the channel. */
  lemma {:induction false} RunSends(s: DeleterState, n: nat)
    requires s.queued + n <= s.capacity
    ensures Feasible(s, Sends(n))
    ensures Run(s, Sends(n)) == s.(queued := s.queued + n)
    decreases n
  {
    if n > 0 {
      var t := Next(s, Send);
      assert Sends(n)[0] == Send && Sends(n)[1..] == Sends(n - 1);
      RunSends(t, n - 1);
    }
  }

  /**
   * From a fresh loop, `capacity` deletes and one tick purge once and empty the
   * channel; the loop keeps running if the purge succeeded and otherwise stops
   * having reported its error.
   */
  lemma FullChannelPurgesOnTick(capacity: nat, outcome: Outcome)
    ensures Feasible(Initial(capacity), Sends(capacity) + [Tick(outcome)])
    ensures Run(Initial(capacity), Sends(capacity) + [Tick(outcome)])
            == if outcome.Pass? then DeleterState(capacity, Running, 0, 1, [])
               else DeleterState(capacity, Stopped, 0, 1, [outcome.error])
  {
    var s := Initial(capacity);
    RunSends(s, capacity);
    var full := Run(s, Sends(capacity));
    assert Feasible(full, [Tick(outcome)]) by {
      assert [Tick(outcome)][1..] == [];
    }
    RunAppend(s, Sends(capacity), [Tick(outcome)]);
  }

  // ---------------------------------------------------------------------------
  // The deleter loop and the delete handler, step by step
  // ---------------------------------------------------------------------------

  class Deleter {
    const capacity: nat
    var phase: Phase
    /** `len(delChan)` */
    var queued: nat
    var purges: nat
    /** What has been sent on `ErrChan`. */
    var reported: seq<Error>

    function State(): DeleterState
      reads this
    {
      DeleterState(capacity, phase, queued, purges, reported)
    }

    ghost predicate Valid()
      reads this
    {
      queued <= capacity
    }

    constructor (capacity: nat)
      ensures Valid() && State() == Initial(capacity)
    {
      this.capacity := capacity;
      phase := Running;
      queued := 0;
      purges := 0;
      reported := [];
    }

    /** `delChan <- struct{}{}`: blocks while the channel is full, so only below capacity. */
    method Send()
      requires Valid() && queued < capacity
      modifies this
      ensures Valid() && State() == Next(old(State()), Event.Send)
      ensures queued == old(queued) + 1 && phase == old(phase) && purges == old(purges) && reported == old(reported)
    {
      queued := queued + 1;
    }

    /**
     * The timer fires. Below capacity nothing happens; on a full channel every
     * signal is taken out and DeleteBooks called once; if it failed, its error
     * is reported and the loop stops. A stopped loop has no timer.
     */
    method Tick(deleteBooks: Outcome)
      requires Valid()
      modifies this
      ensures Valid() && State() == Next(old(State()), Event.Tick(deleteBooks))
      ensures old(phase) == Stopped || old(queued) < capacity ==> State() == old(State())
      ensures old(phase) == Running && old(queued) == capacity ==>
        && queued == 0 && purges == old(purges) + 1
        && (deleteBooks.Pass? ==> phase == Running && reported == old(reported))
        && (deleteBooks.Fail? ==> phase == Stopped && reported == old(reported) + [deleteBooks.error])
    {
      if phase == Stopped {
        return;
      }
      if queued == capacity {
        var i := 0;
        while i < capacity
          modifies this`queued
          invariant 0 <= i <= capacity
          invariant queued == capacity - i
        {
          queued := queued - 1;
          i := i + 1;
        }
        purges := purges + 1;
        if deleteBooks.Fail? {
          reported := reported + [deleteBooks.error];
          phase := Stopped;
        }
      }
    }

    /** The context is cancelled: the loop stops without draining or purging. */
    method Cancel()
      requires Valid()
      modifies this
      ensures Valid() && State() == Next(old(State()), Event.Cancel)
      ensures phase == Stopped && queued == old(queued) && purges == old(purges) && reported == old(reported)
    {
      phase := Stopped;
    }
  }

  /**
   * deleteBookHandler: answers from what SetDeleteBookStatus returned, and
   * sends one signal to the deleter exactly when it succeeded.
   */
  method DeleteBookHandler(d: Deleter, marked: Outcome) returns (status: int)
    requires d.Valid()
    requires marked.Pass? ==> d.queued < d.capacity
    modifies d
    ensures d.Valid()
    ensures status == DeleteBookStatus(marked)
    ensures d.State() == if marked.Pass? then Next(old(d.State()), Send) else old(d.State())
  {
    if marked.Fail? {
      return DeleteBookStatus(marked);
    }
    d.Send();
    status := StatusOK;
  }
}
