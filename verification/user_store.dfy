/**
 The duplicate-check-then-insert transaction of the user model, as a pure state
 transition over an abstract `users` table.

 The driver is replaced by `Faults`: for each driver call, the error it throws,
 if any. The outcome records the call's result (the new id or what was thrown),
 the committed table afterwards, and the driver calls issued, in order, so that
 commit, rollback and connection release can be stated about every path.
 */
module UserStore {
  import opened Wrappers
  import opened Readings

  /** A committed row of the `users` table; `id` is the generated identifier. */
  datatype Row = Row(id: nat, username: string, name: string, email: string, password: string, mobile: string)

  type Table = seq<Row>

  /** The object handed to the transaction; its password is already hashed by the caller. */
  datatype NewUser = NewUser(userName: string, name: string, email: string, password: string, mobile: string)

  /** What the transaction throws: a `code` (empty when the thrown value has none) and a message. */
  datatype Error = Error(code: string, message: string)

  const UserExistsCode: string := "USER_EXISTS"
  const BothTakenMessage: string := "Both email and username are already registered"
  const EmailTakenMessage: string := "Email address is already registered"
  const UsernameTakenMessage: string := "Username is already taken"

  /** The driver calls the transaction can issue on its connection. */
  datatype Call = BeginTransaction | SelectExisting | InsertUser | Commit | Rollback | Release

  /** For each driver call, the error it throws, or `None` when it succeeds. */
  datatype Faults = Faults(
    getConnection: Option<Error>,
    begin: Option<Error>,
    select: Option<Error>,
    insert: Option<Error>,
    commit: Option<Error>,
    rollback: Option<Error>)

  const NoFaults: Faults := Faults(None, None, None, None, None, None)

  datatype Outcome = Outcome(result: Result<nat, Error>, table: Table, calls: seq<Call>)

  // ---------------------------------------------------------------------------
  // Rows as JavaScript sees them

  /** A JavaScript value as far as strict equality on row properties is concerned. */
  datatype JsValue = Undefined | Str(s: string) | Num(n: int)

  /**
   A row returned by the duplicate query is a plain object keyed by column name;
   reading any other key, `userName` among them, gives `undefined`.
   */
  function Property(r: Row, key: string): JsValue {
    if key == "id" then Num(r.id)
    else if key == "username" then Str(r.username)
    else if key == "name" then Str(r.name)
    else if key == "email" then Str(r.email)
    else if key == "password" then Str(r.password)
    else if key == "mobile" then Str(r.mobile)
    else Undefined
  }

  // ---------------------------------------------------------------------------
  // The duplicate query and the conflict classification

  /** The duplicate query's condition: same email or same username. */
  predicate Clashes(r: Row, u: NewUser) {
    r.email == u.email || r.username == u.userName
  }

  /** The rows the duplicate query returns, in table order. */
  function Matching(t: Table, u: NewUser): (found: Table)
    ensures forall r :: r in found <==> r in t && Clashes(r, u)
    ensures |found| <= |t|
  {
    if t == [] then []
    else (if Clashes(t[0], u) then [t[0]] else []) + Matching(t[1..], u)
  }

  /** The email flag as written: each row's email compared with the same row's email. */
  predicate EmailFlagAsWritten(found: Table) {
    exists i :: 0 <= i < |found| && Property(found[i], "email") == Property(found[i], "email")
  }

  /** The username flag as written: each row's `username` compared with the same row's `userName`. */
  predicate UsernameFlagAsWritten(found: Table) {
    exists i :: 0 <= i < |found| && Property(found[i], "username") == Property(found[i], "userName")
  }

  /** Some returned row carries the new user's email. */
  predicate EmailTaken(found: Table, u: NewUser) {
    exists i :: 0 <= i < |found| && Property(found[i], "email") == Str(u.email)
  }

  /** Some returned row carries the new user's username. */
  predicate UsernameTaken(found: Table, u: NewUser) {
    exists i :: 0 <= i < |found| && Property(found[i], "username") == Str(u.userName)
  }

  /** The message of the `USER_EXISTS` error for the rows the duplicate query returned. */
  function ConflictMessage(found: Table, u: NewUser, reading: Reading): (msg: string)
    ensures msg == BothTakenMessage || msg == EmailTakenMessage || msg == UsernameTakenMessage
  {
    var emailExists := if reading == AsWritten then EmailFlagAsWritten(found) else EmailTaken(found, u);
    var usernameExists := if reading == AsWritten then UsernameFlagAsWritten(found) else UsernameTaken(found, u);
    if emailExists && usernameExists then BothTakenMessage
    else if emailExists then EmailTakenMessage
    else UsernameTakenMessage
  }

  // ---------------------------------------------------------------------------
  // The transaction

  /** One more than every id in the table: the identifier the insert generates. */
  function FreshId(t: Table): (id: nat)
    ensures 1 <= id
    ensures forall r :: r in t ==> r.id < id
  {
    if t == [] then 1
    else
      var rest := FreshId(t[1..]);
      if t[0].id < rest then rest else t[0].id + 1
  }

  function NewRow(id: nat, u: NewUser): Row {
    Row(id, u.userName, u.name, u.email, u.password, u.mobile)
  }

  /** The fault injected into a driver call; releasing the connection never fails. */
  function FaultOf(f: Faults, c: Call): Option<Error> {
    match c
    case BeginTransaction => f.begin
    case SelectExisting => f.select
    case InsertUser => f.insert
    case Commit => f.commit
    case Rollback => f.rollback
    case Release => None
  }

  /** What the try block reaches (the id to return, or what it throws) and the calls it issues. */
  datatype Attempt = Attempt(result: Result<nat, Error>, calls: seq<Call>)

  function TryBlock(t: Table, u: NewUser, f: Faults, reading: Reading): (a: Attempt)
    ensures multiset(a.calls)[Release] == 0
    ensures Rollback !in a.calls
    ensures a.result.Success? ==> Commit in a.calls
    ensures a.result.Success? ==> forall r :: r in t ==> r.id != a.result.value
  {
    if f.begin.Some? then Attempt(Failure(f.begin.value), [BeginTransaction])
    else if f.select.Some? then Attempt(Failure(f.select.value), [BeginTransaction, SelectExisting])
    else
      var found := Matching(t, u);
      if |found| > 0 then
        Attempt(Failure(Error(UserExistsCode, ConflictMessage(found, u, reading))), [BeginTransaction, SelectExisting])
      else if f.insert.Some? then
        Attempt(Failure(f.insert.value), [BeginTransaction, SelectExisting, InsertUser])
      else if f.commit.Some? then
        Attempt(Failure(f.commit.value), [BeginTransaction, SelectExisting, InsertUser, Commit])
      else
        Attempt(Success(FreshId(t)), [BeginTransaction, SelectExisting, InsertUser, Commit])
  }

  /** Every call but the last one of `calls` succeeded. */
  predicate SucceededBeforeLast(f: Faults, calls: seq<Call>) {
    forall i :: 0 <= i < |calls| - 1 ==> FaultOf(f, calls[i]).None?
  }

  /**
   The try block stops at its first failing call and throws that call's own
   error, or stops after the duplicate query with the clash error; on success no
   call it issued failed.
   */
  lemma TryBlockStopsAtFirstFault(t: Table, u: NewUser, f: Faults, reading: Reading)
    ensures var a := TryBlock(t, u, f, reading);
      && |a.calls| >= 1
      && SucceededBeforeLast(f, a.calls)
      && (a.result.Success? ==> FaultOf(f, a.calls[|a.calls| - 1]).None?)
      && (a.result.Failure? ==>
            || Some(a.result.error) == FaultOf(f, a.calls[|a.calls| - 1])
            || (a.calls == [BeginTransaction, SelectExisting] && a.result.error.code == UserExistsCode))
  {
    var a := TryBlock(t, u, f, reading);
    if f.begin.Some? {
      assert a.calls == [BeginTransaction] && a.result == Failure(f.begin.value);
    } else if f.select.Some? {
      assert a.calls == [BeginTransaction, SelectExisting] && a.result == Failure(f.select.value);
      assert FaultOf(f, a.calls[0]).None?;
    } else if |Matching(t, u)| > 0 {
      assert a.calls == [BeginTransaction, SelectExisting] && a.result.error.code == UserExistsCode;
      assert FaultOf(f, a.calls[0]).None?;
    } else if f.insert.Some? {
      assert a.calls == [BeginTransaction, SelectExisting, InsertUser] && a.result == Failure(f.insert.value);
      assert FaultOf(f, a.calls[0]).None? && FaultOf(f, a.calls[1]).None?;
    } else {
      assert a.calls == [BeginTransaction, SelectExisting, InsertUser, Commit];
      assert a.result.Failure? ==> a.result == Failure(f.commit.value);
      assert FaultOf(f, a.calls[0]).None? && FaultOf(f, a.calls[1]).None? && FaultOf(f, a.calls[2]).None?;
    }
  }

  /**
   The clash error is thrown only when the duplicate query itself succeeded and
   returned a row; a failing query throws its own error.
   */
  lemma ClashErrorOnlyAfterSelect(t: Table, u: NewUser, f: Faults, reading: Reading)
    ensures var a := TryBlock(t, u, f, reading);
      f.begin.None? && f.select.Some? ==> a.result == Failure(f.select.value)
    ensures var a := TryBlock(t, u, f, reading);
      a.result.Failure? && a.calls == [BeginTransaction, SelectExisting] && f.select.None? ==>
        a.result.error == Error(UserExistsCode, ConflictMessage(Matching(t, u), u, reading)) && |Matching(t, u)| > 0
  {
  }

  /**
   Obtains a connection (outside the try block), runs the try block, rolls back
   and rethrows on failure (a failing rollback throws its own error instead), and
   releases the connection in the finally block.
   */
  function CreateWithTransaction(t: Table, u: NewUser, f: Faults, reading: Reading): (o: Outcome)
    ensures o.result.Failure? ==> o.table == t
    ensures o.result.Success? ==> o.table == t + [NewRow(o.result.value, u)]
    ensures o.result.Success? ==> forall r :: r in t ==> r.id != o.result.value
    ensures f.getConnection.Some? ==> o.calls == []
    ensures f.getConnection.None? ==> multiset(o.calls)[Release] == 1 && o.calls[|o.calls| - 1] == Release
    ensures f.getConnection.None? && o.result.Failure? ==> |o.calls| >= 2 && o.calls[|o.calls| - 2] == Rollback
    ensures o.result.Success? ==> Rollback !in o.calls && Commit in o.calls
  {
    if f.getConnection.Some? then Outcome(Failure(f.getConnection.value), t, [])
    else
      var attempt := TryBlock(t, u, f, reading);
      match attempt.result
      case Success(id) =>
        Outcome(Success(id), t + [NewRow(id, u)], attempt.calls + [Release])
      case Failure(e) =>
        var thrown := if f.rollback.Some? then f.rollback.value else e;
        Outcome(Failure(thrown), t, attempt.calls + [Rollback, Release])
  }

  // ---------------------------------------------------------------------------
  // Properties

  /** The duplicate query returns some row exactly when some row of the table clashes. */
  lemma MatchingNonEmptyIff(t: Table, u: NewUser)
    ensures |Matching(t, u)| > 0 <==> exists r :: r in t && Clashes(r, u)
  {
    var found := Matching(t, u);
    if |found| > 0 {
      assert found[0] in found;
    }
  }

  /** A clash found by the duplicate query throws `USER_EXISTS`, inserts nothing, commits nothing and rolls back. */
  lemma ConflictRejectsWithoutInsert(t: Table, u: NewUser, f: Faults, reading: Reading)
    requires f.getConnection.None? && f.begin.None? && f.select.None?
    requires exists r :: r in t && Clashes(r, u)
    ensures var o := CreateWithTransaction(t, u, f, reading);
      && o.result.Failure?
      && o.table == t
      && o.calls == [BeginTransaction, SelectExisting, Rollback, Release]
      && (f.rollback.None? ==> o.result.error == Error(UserExistsCode, ConflictMessage(Matching(t, u), u, reading)))
  {
    MatchingNonEmptyIff(t, u);
    var a := TryBlock(t, u, f, reading);
    assert a.calls == [BeginTransaction, SelectExisting];
    assert a.result == Failure(Error(UserExistsCode, ConflictMessage(Matching(t, u), u, reading)));
  }

  /** The transaction succeeds exactly when no row clashes and no driver call before the release fails. */
  lemma SucceedsIff(t: Table, u: NewUser, f: Faults, reading: Reading)
    ensures var o := CreateWithTransaction(t, u, f, reading);
      o.result.Success? <==>
        && f.getConnection.None? && f.begin.None? && f.select.None? && f.insert.None? && f.commit.None?
        && (forall r :: r in t ==> !Clashes(r, u))
    ensures var o := CreateWithTransaction(t, u, f, reading);
      o.result.Success? ==> o.calls == [BeginTransaction, SelectExisting, InsertUser, Commit, Release]
  {
    MatchingNonEmptyIff(t, u);
    var a := TryBlock(t, u, f, reading);
    if f.getConnection.None? && f.begin.None? && f.select.None? && |Matching(t, u)| == 0 && f.insert.None? && f.commit.None? {
      assert a.result.Success?;
      assert a.calls == [BeginTransaction, SelectExisting, InsertUser, Commit];
    } else if f.getConnection.None? {
      assert a.result.Failure?;
    }
  }

  /**
   Whatever a failure throws is the `USER_EXISTS` error of a clash or one of the
   driver's own errors, passed on unchanged; when the rollback succeeds it is what
   the try block threw, which `TryBlock` pins to its first failing call or the clash.
   */
  lemma FailureIsRethrown(t: Table, u: NewUser, f: Faults, reading: Reading)
    ensures var o := CreateWithTransaction(t, u, f, reading);
      f.getConnection.Some? ==> o.result == Failure(f.getConnection.value)
    ensures var o := CreateWithTransaction(t, u, f, reading);
      o.result.Failure? && f.getConnection.None? && f.rollback.Some? ==> o.result.error == f.rollback.value
    ensures var o := CreateWithTransaction(t, u, f, reading);
      o.result.Failure? ==>
        || (o.result.error.code == UserExistsCode && |Matching(t, u)| > 0)
        || Some(o.result.error) in [f.getConnection, f.begin, f.select, f.insert, f.commit, f.rollback]
    ensures var o := CreateWithTransaction(t, u, f, reading);
      o.result.Failure? && f.getConnection.None? && f.rollback.None? ==> o.result.error == TryBlock(t, u, f, reading).result.error
  {
  }

  predicate UniqueIds(t: Table) {
    forall i, j :: 0 <= i < j < |t| ==> t[i].id != t[j].id
  }

  predicate UniqueEmails(t: Table) {
    forall i, j :: 0 <= i < j < |t| ==> t[i].email != t[j].email
  }

  predicate UniqueUsernames(t: Table) {
    forall i, j :: 0 <= i < j < |t| ==> t[i].username != t[j].username
  }

  /** The table invariant: ids, emails and usernames are each unique. */
  predicate WellKeyed(t: Table) {
    UniqueIds(t) && UniqueEmails(t) && UniqueUsernames(t)
  }

  /** Run one at a time, the transaction keeps ids, emails and usernames unique. */
  lemma PreservesUniqueness(t: Table, u: NewUser, f: Faults, reading: Reading)
    requires WellKeyed(t)
    ensures WellKeyed(CreateWithTransaction(t, u, f, reading).table)
  {
    var o := CreateWithTransaction(t, u, f, reading);
    if o.result.Success? {
      SucceedsIff(t, u, f, reading);
      var t' := o.table;
      forall i, j | 0 <= i < j < |t'|
        ensures t'[i].id != t'[j].id && t'[i].email != t'[j].email && t'[i].username != t'[j].username
      {
        if j == |t| {
          assert t'[i] == t[i] && t[i] in t;
        } else {
          assert t'[i] == t[i] && t'[j] == t[j];
        }
      }
    }
  }

  // ---------------------------------------------------------------------------
  // The conflict classification

  /** As written, every non-empty set of clashing rows is reported as an email clash. */
  lemma AsWrittenAlwaysBlamesEmail(found: Table, u: NewUser)
    requires |found| > 0
    ensures ConflictMessage(found, u, AsWritten) == EmailTakenMessage
  {
    assert Property(found[0], "email") == Property(found[0], "email");
    forall i | 0 <= i < |found|
      ensures Property(found[i], "username") != Property(found[i], "userName")
    {
      assert "userName" != "username" by { assert "userName"[4] != "username"[4]; }
    }
  }

  /** Some returned row carries the new email exactly when some row of the table does. */
  lemma EmailTakenIff(t: Table, u: NewUser)
    ensures EmailTaken(Matching(t, u), u) <==> exists r :: r in t && r.email == u.email
  {
    var found := Matching(t, u);
    if EmailTaken(found, u) {
      var i :| 0 <= i < |found| && Property(found[i], "email") == Str(u.email);
      assert found[i] in t;
    }
    if r :| r in t && r.email == u.email {
      assert r in found;
      var i :| 0 <= i < |found| && found[i] == r;
      assert Property(found[i], "email") == Str(u.email);
    }
  }

  /** Some returned row carries the new username exactly when some row of the table does. */
  lemma UsernameTakenIff(t: Table, u: NewUser)
    ensures UsernameTaken(Matching(t, u), u) <==> exists r :: r in t && r.username == u.userName
  {
    var found := Matching(t, u);
    if UsernameTaken(found, u) {
      var i :| 0 <= i < |found| && Property(found[i], "username") == Str(u.userName);
      assert found[i] in t;
    }
    if r :| r in t && r.username == u.userName {
      assert r in found;
      var i :| 0 <= i < |found| && found[i] == r;
      assert Property(found[i], "username") == Str(u.userName);
    }
  }

  /** As intended, the message names exactly which of the two fields clash. */
  lemma IntendedClassification(t: Table, u: NewUser)
    requires exists r :: r in t && Clashes(r, u)
    ensures var msg := ConflictMessage(Matching(t, u), u, AsIntended);
      && (msg == BothTakenMessage <==>
            (exists r :: r in t && r.email == u.email) && (exists r :: r in t && r.username == u.userName))
      && (msg == EmailTakenMessage <==>
            (exists r :: r in t && r.email == u.email) && !(exists r :: r in t && r.username == u.userName))
      && (msg == UsernameTakenMessage <==>
            !(exists r :: r in t && r.email == u.email) && (exists r :: r in t && r.username == u.userName))
  {
    EmailTakenIff(t, u);
    UsernameTakenIff(t, u);
  }

  /**
   A username clash is misreported as written: an existing `alice` with another
   email makes the code report the email, where the intended message names the username.
   */
  lemma AsWrittenMisreportsUsernameClash()
    ensures var t := [Row(1, "alice", "Alice", "alice@gmail.com", "h1", "0712345678")];
      var u := NewUser("alice", "Alice B", "aliceb@gmail.com", "h2", "0771234567");
      && CreateWithTransaction(t, u, NoFaults, AsWritten).result == Failure(Error(UserExistsCode, EmailTakenMessage))
      && CreateWithTransaction(t, u, NoFaults, AsIntended).result == Failure(Error(UserExistsCode, UsernameTakenMessage))
  {
    var t := [Row(1, "alice", "Alice", "alice@gmail.com", "h1", "0712345678")];
    var u := NewUser("alice", "Alice B", "aliceb@gmail.com", "h2", "0771234567");
    assert Matching(t, u) == t;
    AsWrittenAlwaysBlamesEmail(t, u);
    IntendedClassification(t, u);
    assert "alice@gmail.com" != "aliceb@gmail.com" by { assert "alice@gmail.com"[5] != "aliceb@gmail.com"[5]; }
  }
}
