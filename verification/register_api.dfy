/** The registration handler (`POST /api/register`). A request passes, in
    order, a capacity gate (70 documents), a duplicate gate (same email or
    same USN, compared literally), the insert, and the welcome email, whose
    delivery does not change the answer once the document is stored.

    The document store is an in-memory sequence and requests are handled
    one after another. Failures of the store and of the email provider are
    inputs of the handler. */
module RegisterApi {
  import opened Wrappers
  import opened Records

  /** The capacity the handler enforces. */
  const Capacity: nat := 70

  type Store = seq<Record>

  /** How the document store behaves during one request. */
  datatype DbStatus =
    | DbUp          // every call succeeds
    | DbDown        // connecting or counting throws
    | FindFails     // the count succeeds, the duplicate search throws
    | InsertFails   // the gates run, the insert throws

  /** What the welcome email step meets after the insert. */
  datatype Mailer =
    | MailAccepted     // the provider answers ok
    | MailRejected     // the provider answers with a non-ok status
    | MailKeyMissing   // no provider key is configured
    | MailUnreachable  // the provider call itself throws

  /** The answer of one request. */
  datatype Outcome = WorkshopFull | AlreadyRegistered | Registered | InternalError {
    /** The HTTP status: a success code only for a registration, a client
        error for the two rejections, a server error otherwise. */
    function Status(): (code: nat)
      ensures 200 <= code < 300 <==> this == Registered
      ensures 400 <= code < 500 <==> this == WorkshopFull || this == AlreadyRegistered
      ensures code >= 500 <==> this == InternalError
    {
      match this
      case WorkshopFull => 400
      case AlreadyRegistered => 400
      case Registered => 201
      case InternalError => 500
    }

    function Message(): string
    {
      match this
      case WorkshopFull => "Workshop is full"
      case AlreadyRegistered => "You are already registered, Check your email for more deatils"
      case Registered => "Registration successful,Check your email for more deatils"
      case InternalError => "Internal Server Error"
    }
  }

  /** The two answers sharing status 400 are told apart by their text: the
      message determines the outcome. */
  lemma MessageIdentifiesOutcome(a: Outcome, b: Outcome)
    ensures a.Message() == b.Message() <==> a == b
  {
    if a != b {
      assert a.Message()[0] != b.Message()[0] || a.Message()[1] != b.Message()[1] || |a.Message()| != |b.Message()|;
    }
  }

  /** One request: the parsed JSON body (None when it is not valid JSON)
      and the behaviour of the two external services. */
  datatype Attempt = Attempt(body: Option<Record>, db: DbStatus, mail: Mailer)

  /** The duplicate query `{$or: [{email}, {usn}]}`: literal equality on
      either key. */
  predicate Clashes(stored: Record, body: Record)
  {
    stored.email == body.email || stored.usn == body.usn
  }

  ghost predicate AlreadyStored(store: Store, body: Record)
  {
    exists i :: 0 <= i < |store| && Clashes(store[i], body)
  }

  /** The store invariant admission keeps: within capacity, and no two
      documents share an email or a USN. */
  ghost predicate Valid(store: Store)
  {
    && |store| <= Capacity
    && forall i, j :: 0 <= i < j < |store| ==> !Clashes(store[i], store[j])
  }

  /** The request gets as far as the gates: its body parsed and the store
      answered. */
  predicate Reaches(attempt: Attempt)
  {
    attempt.body.Some? && attempt.db != DbDown
  }

  /** The request passes both gates. */
  ghost predicate Admissible(store: Store, attempt: Attempt)
  {
    && Reaches(attempt) && attempt.db != FindFails
    && |store| < Capacity && !AlreadyStored(store, attempt.body.value)
  }

  /** `findOne`: the first stored document that clashes with `body`. */
  method FindExisting(store: Store, body: Record) returns (found: Option<nat>)
    ensures found.None? <==> !AlreadyStored(store, body)
    ensures found.Some? ==> found.value < |store| && Clashes(store[found.value], body)
    ensures found.Some? ==> forall k :: 0 <= k < found.value ==> !Clashes(store[k], body)
  {
    var i := 0;
    while i < |store|
      invariant i <= |store|
      invariant forall k :: 0 <= k < i ==> !Clashes(store[k], body)
    {
      if Clashes(store[i], body) {
        return Some(i);
      }
      i := i + 1;
    }
    return None;
  }

  /** The handler. The answer and the store after the request. */
  method Post(store: Store, attempt: Attempt) returns (outcome: Outcome, store': Store)
    // unreadable body or unreachable store: 500, nothing written
    ensures !Reaches(attempt) ==> outcome == InternalError && store' == store
    // the capacity gate comes first, whatever the body
    ensures Reaches(attempt) && |store| >= Capacity ==> outcome == WorkshopFull && store' == store
    // below capacity, a search that throws gives 500 and writes nothing
    ensures Reaches(attempt) && |store| < Capacity && attempt.db == FindFails ==>
              outcome == InternalError && store' == store
    // then the duplicate gate
    ensures Reaches(attempt) && attempt.db != FindFails && |store| < Capacity && AlreadyStored(store, attempt.body.value) ==>
              outcome == AlreadyRegistered && store' == store
    // a failed insert writes nothing
    ensures Admissible(store, attempt) && attempt.db == InsertFails ==> outcome == InternalError && store' == store
    // past both gates the body is appended; the email only decides 201 or 500
    ensures Admissible(store, attempt) && attempt.db == DbUp ==>
              && store' == store + [attempt.body.value]
              && (outcome == Registered <==> attempt.mail in {MailAccepted, MailRejected})
              && (outcome != Registered ==> outcome == InternalError)
    // every answer either leaves the store alone or appends exactly the body
    ensures store' == store || (attempt.body.Some? && store' == store + [attempt.body.value])
    ensures outcome == Registered ==> attempt.body.Some? && store' == store + [attempt.body.value]
    // admission keeps the store invariant
    ensures Valid(store) ==> Valid(store')
  {
    if attempt.body.None? || attempt.db == DbDown {
      return InternalError, store;
    }
    var body := attempt.body.value;
    if |store| >= Capacity {
      return WorkshopFull, store;
    }
    if attempt.db == FindFails {
      return InternalError, store;
    }
    var existing := FindExisting(store, body);
    if existing.Some? {
      return AlreadyRegistered, store;
    }
    if attempt.db == InsertFails {
      return InternalError, store;
    }
    store' := store + [body];
    if attempt.mail == MailKeyMissing || attempt.mail == MailUnreachable {
      // the document stays stored although the client sees a failure
      return InternalError, store';
    }
    // a non-ok provider answer is only logged
    return Registered, store';
  }

  /** A run of requests handled one after another. */
  method AdmitAll(store: Store, attempts: seq<Attempt>) returns (outcomes: seq<Outcome>, final: Store)
    requires Valid(store)
    ensures Valid(final)
    ensures |outcomes| == |attempts|
    ensures |store| <= |final| && final[..|store|] == store
    ensures |final| - |store| <= |attempts|
    ensures forall k :: 0 <= k < |attempts| && outcomes[k] == Registered ==> attempts[k].body.Some? && attempts[k].body.value in final
  {
    outcomes := [];
    final := store;
    var k := 0;
    while k < |attempts|
      invariant k <= |attempts|
      invariant Valid(final)
      invariant |outcomes| == k
      invariant |store| <= |final| && final[..|store|] == store
      invariant |final| - |store| <= k
      invariant forall m :: 0 <= m < k && outcomes[m] == Registered ==> attempts[m].body.Some? && attempts[m].body.value in final
    {
      var outcome, next := Post(final, attempts[k]);
      assert final[..|store|] == next[..|store|];
      outcomes := outcomes + [outcome];
      final := next;
      k := k + 1;
    }
  }
}
