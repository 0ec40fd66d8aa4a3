// Author registration and login (src/controller/authorController.js).
// The field checks are pure short-circuit chains; the author collection is
// the state of an AuthorStore, which registration appends to and login reads.
module Authors {
  import opened Common
  import opened Chains
  import opened Js
  import opened Http
  import Validator
  import EmailPattern
  import opened StoreQuery

  /** A stored author; `id` is the identifier the store assigned. */
  datatype Author = Author(id: string, fname: Value, lname: Value, title: string, email: string, password: Value)

  /** The bearer token login issues: a signature over `{ authorId }` with the
      server's secret, kept abstract. */
  datatype Token = Signed(authorId: string)

  /** The field checks of registration and login, named after what passes them. */
  datatype Check =
    | NonEmptyBody
    | FnamePresent
    | LnamePresent
    | TitlePresent
    | TitleInSet
    | EmailPresent
    | EmailWellFormed
    | PasswordPresent

  /** The e-mail pattern test. A value that is not a string is taken not to match. */
  predicate EmailAccepted(v: Value)
  {
    v.Str? && EmailPattern.Matches(v.s)
  }

  /** Whether `body` passes check `c`; registration and login share these tests. */
  predicate Passes(c: Check, body: Dict)
  {
    match c
    case NonEmptyBody => Validator.IsValidRequestBody(body)
    case FnamePresent => Validator.IsValid(Get(body, "fname"))
    case LnamePresent => Validator.IsValid(Get(body, "lname"))
    case TitlePresent => Validator.IsValid(Get(body, "title"))
    case TitleInSet => Validator.IsValidTitle(Get(body, "title"))
    case EmailPresent => Validator.IsValid(Get(body, "email"))
    case EmailWellFormed => EmailAccepted(Get(body, "email"))
    case PasswordPresent => Validator.IsValid(Get(body, "password"))
  }

  const RegistrationOrder: seq<Check> :=
    [NonEmptyBody, FnamePresent, LnamePresent, TitlePresent, TitleInSet, EmailPresent, EmailWellFormed, PasswordPresent]

  const LoginOrder: seq<Check> := [NonEmptyBody, EmailPresent, EmailWellFormed, PasswordPresent]

  /** The checks as a test on one body. */
  function PassesOn(body: Dict): Check -> bool
  {
    c => Passes(c, body)
  }

  /** The fields registration stores. */
  datatype Registration = Registration(fname: Value, lname: Value, title: string, email: string, password: Value)

  /** The registration checks in the handler's order: the first failure decides. */
  function CheckRegistration(body: Dict): (r: Result<Registration, Check>)
    ensures r.Success? <==> AllPass(RegistrationOrder, PassesOn(body))
    ensures r.Failure? ==> FirstFailure(RegistrationOrder, PassesOn(body), r.error)
    ensures r.Success? ==>
              && r.value.fname == Get(body, "fname") && r.value.lname == Get(body, "lname")
              && Str(r.value.title) == Get(body, "title") && Str(r.value.email) == Get(body, "email")
              && r.value.password == Get(body, "password")
  {
    match FirstFailing(RegistrationOrder, PassesOn(body))
    case Some(c) => Failure(c)
    case None =>
      var title := Get(body, "title");
      var email := Get(body, "email");
      assert RegistrationOrder[4] == TitleInSet && RegistrationOrder[6] == EmailWellFormed;
      assert PassesOn(body)(TitleInSet) && PassesOn(body)(EmailWellFormed);
      assert Passes(TitleInSet, body) && Passes(EmailWellFormed, body);
      Success(Registration(Get(body, "fname"), Get(body, "lname"), title.s, email.s, Get(body, "password")))
  }

  /** The message each failed check sends; only the empty-body message differs
      between registration and login. */
  function Message(c: Check, forLogin: bool): string
  {
    match c
    case NonEmptyBody =>
      if forLogin then "Invalid request parameters. Please provide login details"
      else "Invalid request parameter, please provide author Detaills"
    case FnamePresent => "First name is required"
    case LnamePresent => "Last name is required"
    case TitlePresent => "Title is required"
    case TitleInSet => "Title should be among Mr, Mrs, Miss and Mast"
    case EmailPresent => "Email is required"
    case EmailWellFormed => "Email should be a valid email address"
    case PasswordPresent => "Password is required"
  }

  /** A failed registration check: 400, reported as a failure. */
  function RegistrationRejection(c: Check): (r: Response)
    ensures r.code == 400 && !r.status
  {
    Response(400, false, Message(c, false))
  }

  /** The registration rejections as the handler sends them: the first four
      carry `status: true`. */
  function RegistrationRejectionAsWritten(c: Check): Response
  {
    var early := c == NonEmptyBody || c == FnamePresent || c == LnamePresent || c == TitlePresent;
    Response(400, early, Message(c, false))
  }

  /** The handler's early registration rejections report success in their
      `status` flag; the code and message are those of the intended rejection. */
  lemma EarlyRejectionsClaimSuccess(c: Check)
    ensures RegistrationRejectionAsWritten(c).status <==> c in {NonEmptyBody, FnamePresent, LnamePresent, TitlePresent}
    ensures RegistrationRejectionAsWritten(c).code == RegistrationRejection(c).code
    ensures RegistrationRejectionAsWritten(c).message == RegistrationRejection(c).message
  {
  }

  /** The credentials login looks up. */
  datatype Credentials = Credentials(email: string, password: Value)

  /** The login checks in the handler's order: the first failure decides. */
  function CheckLogin(body: Dict): (r: Result<Credentials, Check>)
    ensures r.Success? <==> AllPass(LoginOrder, PassesOn(body))
    ensures r.Failure? ==> FirstFailure(LoginOrder, PassesOn(body), r.error)
    ensures r.Success? ==> Str(r.value.email) == Get(body, "email") && r.value.password == Get(body, "password")
  {
    match FirstFailing(LoginOrder, PassesOn(body))
    case Some(c) => Failure(c)
    case None =>
      var email := Get(body, "email");
      assert LoginOrder[2] == EmailWellFormed;
      assert PassesOn(body)(EmailWellFormed);
      assert Passes(EmailWellFormed, body);
      Success(Credentials(email.s, Get(body, "password")))
  }

  /** A failed login check: 400, reported as a failure. */
  function LoginRejection(c: Check): (r: Response)
    ensures r.code == 400 && !r.status
  {
    Response(400, false, Message(c, true))
  }

  /** Login as written: its first check calls a name the module never binds,
      so every request ends in the catch-all branch. */
  function LoginAsWritten(body: Dict): Response
  {
    ReferenceError("isValidRequestBody")
  }

  /** A body passing each login check passes the chain. */
  lemma PassingEachLoginCheck(body: Dict)
    requires Passes(NonEmptyBody, body) && Passes(EmailPresent, body)
    requires Passes(EmailWellFormed, body) && Passes(PasswordPresent, body)
    ensures CheckLogin(body).Success?
  {
    forall i | 0 <= i < |LoginOrder| ensures PassesOn(body)(LoginOrder[i]) {
      if i == 0 {
        assert LoginOrder[i] == NonEmptyBody;
      } else if i == 1 {
        assert LoginOrder[i] == EmailPresent;
      } else if i == 2 {
        assert LoginOrder[i] == EmailWellFormed;
      } else {
        assert LoginOrder[i] == PasswordPresent;
      }
    }
  }

  /** Well-formed credentials pass every login check, yet the handler as
      written answers 500 before looking them up. */
  lemma LoginAsWrittenRefusesGoodCredentials(email: string, password: string)
    requires EmailPattern.Matches(email)
    requires exists i :: 0 <= i < |password| && !IsWhitespace(password[i])
    ensures var body := map["email" := Str(email), "password" := Str(password)];
            CheckLogin(body).Success? && LoginAsWritten(body).code == 500
  {
    var body := map["email" := Str(email), "password" := Str(password)];
    assert Passes(NonEmptyBody, body) by { assert "email" in body; }
    assert Get(body, "email") == Str(email);
    assert Get(body, "password") == Str(password);
    EmailPattern.MatchHasOneAt(email);
    assert Passes(EmailPresent, body) by {
      var i :| EmailPattern.OnlyAtAt(email, i);
      assert !IsWhitespace(email[i]);
    }
    assert Passes(EmailWellFormed, body);
    assert Passes(PasswordPresent, body);
    PassingEachLoginCheck(body);
  }

  /** The two queries the handlers send to the author collection. */
  datatype Query = ByEmail(email: string) | ByCredentials(email: string, password: Value)

  predicate Satisfies(a: Author, q: Query)
  {
    match q
    case ByEmail(e) => a.email == e
    case ByCredentials(e, p) => a.email == e && a.password == p
  }

  /** findOne: the first author, in insertion order, that satisfies the query. */
  function FindOne(authors: seq<Author>, q: Query): (r: Option<Author>)
    ensures r.None? <==> forall a :: a in authors ==> !Satisfies(a, q)
    ensures r.Some? ==> exists i :: 0 <= i < |authors| && authors[i] == r.value && Satisfies(r.value, q)
                                    && forall j :: 0 <= j < i ==> !Satisfies(authors[j], q)
  {
    if |authors| == 0 then None
    else if Satisfies(authors[0], q) then Some(authors[0])
    else
      var r := FindOne(authors[1..], q);
      assert forall a :: a in authors ==> a == authors[0] || a in authors[1..];
      if r.Some? then
        var i :| 0 <= i < |authors[1..]| && authors[1..][i] == r.value && Satisfies(r.value, q)
                 && forall j :: 0 <= j < i ==> !Satisfies(authors[1..][j], q);
        assert authors[i + 1] == r.value;
        r
      else r
  }

  predicate EmailRegistered(authors: seq<Author>, email: string)
  {
    exists a :: a in authors && a.email == email
  }

  /** findOne({ email, password }) as the store reads it. The password goes
      into the filter unchanged, so an operator object or an array is read as
      a condition on the stored password rather than as a password. None: the
      store refuses the value; otherwise whether an author is found. */
  function LookupAsQueried(authors: seq<Author>, c: Credentials): Option<bool>
  {
    if Faults(StringKind, c.password) then None
    else Some(exists a :: a in authors && a.email == c.email && Holds(StringPath(a.password), c.password))
  }

  /** For a string password the store's reading is the exact match login
      intends. */
  lemma StringPasswordLookupIsExact(authors: seq<Author>, c: Credentials)
    requires c.password.Str?
    ensures LookupAsQueried(authors, c) == Some(FindOne(authors, ByCredentials(c.email, c.password)).Some?)
  {
    forall a | a in authors
      ensures Holds(StringPath(a.password), c.password) <==> a.password == c.password
    {
      PlainValueIsEquality(StringPath(a.password), c.password);
    }
    assert !Faults(StringKind, c.password);
  }

  /** A login body whose password is the operator object `{"$ne": "x"}`. */
  const NotEqualBody: Dict := map["email" := Str("a@b.com"), "password" := Obj(map["$ne" := Str("x")])]

  /** That body passes every login check. */
  lemma NotEqualBodyPassesChecks()
    ensures CheckLogin(NotEqualBody) == Success(Credentials("a@b.com", Obj(map["$ne" := Str("x")])))
  {
    var body := NotEqualBody;
    assert Passes(NonEmptyBody, body) by { assert "email" in body; }
    assert Get(body, "email") == Str("a@b.com");
    assert Get(body, "password") == Obj(map["$ne" := Str("x")]);
    EmailPattern.AcceptedExamples();
    assert Passes(EmailPresent, body) by { assert !IsWhitespace("a@b.com"[0]); }
    assert Passes(EmailWellFormed, body);
    assert Passes(PasswordPresent, body);
    PassingEachLoginCheck(body);
  }

  /** The password `{"$ne": "x"}` passes the login checks and finds an author
      whose password is "secret": the store lets the caller in without the
      password, where the exact match finds no one. */
  lemma OperatorPasswordLogsIn(a: Author)
    requires a.email == "a@b.com" && a.password == Str("secret")
    ensures CheckLogin(NotEqualBody).Success?
    ensures LookupAsQueried([a], CheckLogin(NotEqualBody).value) == Some(true)
    ensures FindOne([a], ByCredentials("a@b.com", Get(NotEqualBody, "password"))).None?
  {
    var password := Obj(map["$ne" := Str("x")]);
    NotEqualBodyPassesChecks();
    assert Get(NotEqualBody, "password") == password;
    NeMatchesOtherValues("secret", "x");
    assert a in [a] && Holds(StringPath(a.password), password);
    assert !Satisfies(a, ByCredentials("a@b.com", password));
  }

  /** The password `{"$gt": ""}` finds every author with the given e-mail
      and a non-empty password, where the exact match finds no one. */
  lemma GreaterThanEmptyLogsIn(a: Author)
    requires a.password.Str? && a.password.s != []
    ensures LookupAsQueried([a], Credentials(a.email, Obj(map["$gt" := Str("")]))) == Some(true)
    ensures FindOne([a], ByCredentials(a.email, Obj(map["$gt" := Str("")]))).None?
  {
    var password := Obj(map["$gt" := Str("")]);
    GreaterThanEmptyMatchesNonEmpty(a.password.s);
    assert a in [a] && Holds(StringPath(a.password), password);
    assert !Satisfies(a, ByCredentials(a.email, password));
  }

  /** The author collection. */
  class AuthorStore {
    var authors: seq<Author>

    /** No two authors share an e-mail address or an identifier. */
    ghost predicate Valid()
      reads this
    {
      forall i, j :: 0 <= i < j < |authors| ==> authors[i].email != authors[j].email && authors[i].id != authors[j].id
    }

    constructor ()
      ensures Valid() && authors == []
    {
      authors := [];
    }

    /** createAuthor. `newId` is the identifier the store assigns to a new
        record. A rejected request leaves the collection as it was; an accepted
        one appends exactly one author with the five given fields. */
    method Register(body: Dict, newId: string) returns (r: Response, created: Option<Author>)
      requires Valid()
      requires forall a :: a in authors ==> a.id != newId
      modifies this
      ensures Valid()
      ensures CheckRegistration(body).Failure? ==>
                r == RegistrationRejection(CheckRegistration(body).error) && created.None? && authors == old(authors)
      ensures CheckRegistration(body).Success? && EmailRegistered(old(authors), CheckRegistration(body).value.email) ==>
                && r == Response(400, false, CheckRegistration(body).value.email + " email address is already registered")
                && created.None? && authors == old(authors)
      ensures CheckRegistration(body).Success? && !EmailRegistered(old(authors), CheckRegistration(body).value.email) ==>
                var reg := CheckRegistration(body).value;
                && r == Response(201, true, "Author created successfully")
                && created == Some(Author(newId, reg.fname, reg.lname, reg.title, reg.email, reg.password))
                && authors == old(authors) + [created.value]
    {
      var checked := CheckRegistration(body);
      if checked.Failure? {
        r := RegistrationRejection(checked.error);
        created := None;
        return;
      }
      var reg := checked.value;
      var existing := FindOne(authors, ByEmail(reg.email));
      if existing.Some? {
        r := Response(400, false, reg.email + " email address is already registered");
        created := None;
        return;
      }
      var author := Author(newId, reg.fname, reg.lname, reg.title, reg.email, reg.password);
      assert forall a :: a in authors ==> a.email != reg.email && a.id != newId;
      authors := authors + [author];
      r := Response(201, true, "Author created successfully");
      created := Some(author);
    }

    /** loginAuthor. Succeeds exactly when some stored author has both the
        given e-mail and the given password; the token names that author and
        is sent both in the x-api-key header and in the body. */
    method Login(body: Dict) returns (r: Response, header: Option<Token>, token: Option<Token>)
      ensures CheckLogin(body).Failure? ==>
                r == LoginRejection(CheckLogin(body).error) && header.None? && token.None?
      ensures CheckLogin(body).Success? ==>
                (r.code == 200 <==> exists a :: a in authors && Str(a.email) == Get(body, "email") && a.password == Get(body, "password"))
      ensures CheckLogin(body).Success? && r.code != 200 ==>
                r == Response(401, false, "Invalid login Email") && header.None? && token.None?
      ensures r.code == 200 ==>
                && r == Response(200, true, "Author login successfull")
                && header.Some? && header == token
                && exists a :: a in authors && header.value == Signed(a.id)
                               && Str(a.email) == Get(body, "email") && a.password == Get(body, "password")
    {
      var checked := CheckLogin(body);
      if checked.Failure? {
        r := LoginRejection(checked.error);
        header, token := None, None;
        return;
      }
      var credentials := checked.value;
      var author := FindOne(authors, ByCredentials(credentials.email, credentials.password));
      if author.None? {
        r := Response(401, false, "Invalid login Email");
        header, token := None, None;
        return;
      }
      var signed := Signed(author.value.id);
      header := Some(signed);
      r := Response(200, true, "Author login successfull");
      token := Some(signed);
    }
  }
}
