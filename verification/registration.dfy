/**
 The `/register` handler: the presence check, the Gmail check, the mobile check,
 the password hash, the call into the user store and the mapping of what the
 store throws to an HTTP status.

 The hash is a parameter (`Env.hash`) together with the error it may throw
 instead; the store's driver behaviour is `Env.db`. A response body is either an
 error message or the created user, and the created user has no password field.
 */
module Registration {
  import opened Wrappers
  import opened Readings
  import Email
  import Mobile
  import opened UserStore

  /** The five fields of the JSON body; `None` for a field that was not sent. */
  datatype RequestBody = RequestBody(
    userName: Option<string>,
    name: Option<string>,
    email: Option<string>,
    password: Option<string>,
    mobile: Option<string>)

  /** A string field is truthy when it was sent and is not empty. */
  predicate Provided(field: Option<string>) {
    field.Some? && field.value != ""
  }

  predicate AllProvided(b: RequestBody) {
    Provided(b.userName) && Provided(b.name) && Provided(b.email) && Provided(b.password) && Provided(b.mobile)
  }

  const MissingFieldMessage: string := "Please provide name, email and password"
  const InvalidEmailMessage: string := "Please provide a valid Gmail address"
  const InvalidMobileMessage: string := "Please provide a valid Sri Lankan mobile number"
  const CreatedMessage: string := "Registration successfully"
  const DuplicateEntryCode: string := "ER_DUP_ENTRY"
  const DuplicateEntryMessage: string := "User with this email or username already exists"
  const FailedMessage: string := "Registration failed"

  datatype Rejection = MissingField | InvalidEmail | InvalidMobile

  function RejectionMessage(r: Rejection): string {
    match r
    case MissingField => MissingFieldMessage
    case InvalidEmail => InvalidEmailMessage
    case InvalidMobile => InvalidMobileMessage
  }

  /** The first failing check, in the order presence, email, mobile; `None` when all pass. */
  function Validate(b: RequestBody, reading: Reading): (r: Option<Rejection>)
    ensures r.None? <==>
      AllProvided(b) && Email.IsGmailAddress(b.email.value) && Mobile.IsSriLankanMobile(b.mobile.value, reading)
  {
    if !AllProvided(b) then Some(MissingField)
    else if !Email.IsGmailAddress(b.email.value) then Some(InvalidEmail)
    else if !Mobile.IsSriLankanMobile(b.mobile.value, reading) then Some(InvalidMobile)
    else None
  }

  /** The created user echoed back: every field of the request except the password. */
  datatype PublicUser = PublicUser(id: nat, userName: string, name: string, email: string, mobile: string)

  datatype ResponseBody = ErrorBody(error: string) | CreatedBody(message: string, user: PublicUser)

  datatype Response = Response(status: nat, body: ResponseBody)

  /** Everything outside the handler: the hash, its failure, the driver and the reading. */
  datatype Env = Env(hash: string -> string, hashFailure: Option<Error>, db: Faults, reading: Reading)

  /**
   One request: the response, the object handed to the store (`None` when the
   store is not called), the committed table afterwards and the driver calls.
   */
  datatype Exchange = Exchange(response: Response, storeInput: Option<NewUser>, table: Table, calls: seq<Call>)

  /** The catch block: what was thrown, by the hash or the store, mapped to a response. */
  function FailureResponse(e: Error): (r: Response)
    ensures r.status == 409 <==> e.code == UserExistsCode || e.code == DuplicateEntryCode
    ensures r.status == 409 || r.status == 500
    ensures r.body.ErrorBody?
  {
    if e.code == UserExistsCode then Response(409, ErrorBody(e.message))
    else if e.code == DuplicateEntryCode then Response(409, ErrorBody(DuplicateEntryMessage))
    else Response(500, ErrorBody(FailedMessage))
  }

  function Register(b: RequestBody, t: Table, env: Env): (x: Exchange)
    ensures x.response.status in {201, 400, 409, 500}
    ensures x.response.body.CreatedBody? <==> x.response.status == 201
    ensures x.table == t || (|x.table| == |t| + 1 && x.table[..|t|] == t)
  {
    match Validate(b, env.reading)
    case Some(rejection) =>
      Exchange(Response(400, ErrorBody(RejectionMessage(rejection))), None, t, [])
    case None =>
      if env.hashFailure.Some? then
        Exchange(FailureResponse(env.hashFailure.value), None, t, [])
      else
        var input := NewUser(b.userName.value, b.name.value, b.email.value, env.hash(b.password.value), b.mobile.value);
        var o := CreateWithTransaction(t, input, env.db, env.reading);
        match o.result
        case Success(id) =>
          var user := PublicUser(id, b.userName.value, b.name.value, b.email.value, b.mobile.value);
          Exchange(Response(201, CreatedBody(CreatedMessage, user)), Some(input), o.table, o.calls)
        case Failure(e) =>
          Exchange(FailureResponse(e), Some(input), o.table, o.calls)
  }

  // ---------------------------------------------------------------------------
  // Properties

  /** A missing or empty field is reported as such whatever the other fields hold, and the store is not called. */
  lemma MissingFieldDecides(b: RequestBody, t: Table, env: Env)
    requires !AllProvided(b)
    ensures var x := Register(b, t, env);
      x == Exchange(Response(400, ErrorBody(MissingFieldMessage)), None, t, [])
  {
  }

  /** A request is answered with 400 exactly when a check fails, and then nothing reaches the store. */
  lemma ValidationDecides400(b: RequestBody, t: Table, env: Env)
    ensures Register(b, t, env).response.status == 400 <==> Validate(b, env.reading).Some?
    ensures Validate(b, env.reading).Some? ==>
      Register(b, t, env) == Exchange(Response(400, ErrorBody(RejectionMessage(Validate(b, env.reading).value))), None, t, [])
  {
  }

  /** The checks run in order, presence then email then mobile, and the first failing one alone decides the rejection. */
  lemma FirstFailingCheckReported(b: RequestBody, reading: Reading)
    ensures AllProvided(b) && !Email.EmailPatternTest(b.email.value) ==>
      Validate(b, reading) == Some(InvalidEmail)
    ensures AllProvided(b) && Email.EmailPatternTest(b.email.value) && !Mobile.MobilePatternTest(b.mobile.value, reading) ==>
      Validate(b, reading) == Some(InvalidMobile)
    ensures !AllProvided(b) ==> Validate(b, reading) == Some(MissingField)
  {
    if AllProvided(b) {
      Email.EmailMatchesPattern(b.email.value);
      Mobile.MobileMatchesPattern(b.mobile.value, reading);
    }
  }

  /**
   A request is rejected with 400 exactly when one of the patterns (or the
   presence check) fails, and then the store is never called and nothing changes.
   */
  lemma RejectionLeavesStoreUntouched(b: RequestBody, t: Table, env: Env)
    ensures var x := Register(b, t, env);
      x.response.status == 400 <==>
        !(AllProvided(b) && Email.EmailPatternTest(b.email.value) && Mobile.MobilePatternTest(b.mobile.value, env.reading))
    ensures var x := Register(b, t, env);
      x.response.status == 400 ==> x.storeInput == None && x.table == t && x.calls == []
  {
    ValidationDecides400(b, t, env);
    if AllProvided(b) {
      Email.EmailMatchesPattern(b.email.value);
      Mobile.MobileMatchesPattern(b.mobile.value, env.reading);
    }
  }

  /**
   The store receives the hash of the password, never the raw field, and a 201
   echoes every field except the password and follows exactly one stored row.
   */
  lemma CreatedHidesPassword(b: RequestBody, t: Table, env: Env)
    ensures var x := Register(b, t, env);
      x.storeInput.Some? ==>
        && AllProvided(b)
        && x.storeInput.value == NewUser(b.userName.value, b.name.value, b.email.value, env.hash(b.password.value), b.mobile.value)
    ensures var x := Register(b, t, env);
      x.response.status == 201 ==>
        && AllProvided(b)
        && var id := x.response.body.user.id;
        && x.response.body == CreatedBody(CreatedMessage, PublicUser(id, b.userName.value, b.name.value, b.email.value, b.mobile.value))
        && x.table == t + [Row(id, b.userName.value, b.name.value, b.email.value, env.hash(b.password.value), b.mobile.value)]
        && (forall r :: r in t ==> r.id != id)
  {
  }

  /** A rejected hash is caught like a store failure, before the store is called. */
  lemma HashFailureMapped(b: RequestBody, t: Table, env: Env)
    requires Validate(b, env.reading).None? && env.hashFailure.Some?
    ensures Register(b, t, env) == Exchange(FailureResponse(env.hashFailure.value), None, t, [])
  {
  }

  /** The table changes only through a 201; every other response leaves it as it was. */
  lemma OnlyCreatedChangesTable(b: RequestBody, t: Table, env: Env)
    ensures var x := Register(b, t, env);
      x.response.status != 201 ==> x.table == t
  {
  }

  /**
   What the store throws decides the status: `USER_EXISTS` is 409 with the
   store's message, a duplicate-entry driver error is 409 with a fixed message,
   anything else is 500 without detail.
   */
  lemma StoreFailureMapping(b: RequestBody, t: Table, env: Env)
    requires Validate(b, env.reading).None? && env.hashFailure.None?
    ensures var x := Register(b, t, env);
      var o := CreateWithTransaction(t, x.storeInput.value, env.db, env.reading);
      && x.storeInput.Some?
      && (o.result.Failure? && o.result.error.code == UserExistsCode ==>
            x.response == Response(409, ErrorBody(o.result.error.message)))
      && (o.result.Failure? && o.result.error.code == DuplicateEntryCode ==>
            x.response == Response(409, ErrorBody(DuplicateEntryMessage)))
      && (o.result.Failure? && o.result.error.code != UserExistsCode && o.result.error.code != DuplicateEntryCode ==>
            x.response == Response(500, ErrorBody(FailedMessage)))
      && (o.result.Success? <==> x.response.status == 201)
      && x.calls == o.calls
  {
  }

  /**
   With a working driver, a second registration of the same body is refused with
   409 and leaves the table as the first one left it; as intended the message
   names both fields, as written it names the email only.
   */
  lemma SecondRegistrationConflicts(b: RequestBody, t: Table, hash: string -> string, reading: Reading)
    requires Register(b, t, Env(hash, None, NoFaults, reading)).response.status == 201
    ensures var env := Env(hash, None, NoFaults, reading);
      var t1 := Register(b, t, env).table;
      var x := Register(b, t1, env);
      && x.response.status == 409
      && x.table == t1
      && x.response.body.error == (if reading == AsIntended then BothTakenMessage else EmailTakenMessage)
  {
    var env := Env(hash, None, NoFaults, reading);
    var x1 := Register(b, t, env);
    var input := x1.storeInput.value;
    var t1 := x1.table;
    var row := t1[|t|];
    assert row in t1 && Clashes(row, input);
    ConflictRejectsWithoutInsert(t1, input, NoFaults, reading);
    var found := Matching(t1, input);
    assert row in found;
    if reading == AsIntended {
      IntendedClassification(t1, input);
    } else {
      AsWrittenAlwaysBlamesEmail(found, input);
    }
  }
}
