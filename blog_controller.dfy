// The blog handlers (src/controller/blogController.js): creation, the
// filtered listing, the owner-only update and the two soft deletes. The blog
// collection is the state of a BlogStore, a map from store identifiers to
// records; the clock is the `now` parameter and the authenticated caller the
// `caller` parameter.
module Blogs {
  import opened Common
  import opened Chains
  import opened Js
  import opened Http
  import Validator
  import opened StoreQuery

  /** A point in time, as the handlers stamp it. */
  type Time = int

  /** A stored blog. Title, body and category keep the value the request gave. */
  datatype Blog = Blog(
    title: Value,
    body: Value,
    authorId: string,
    category: Value,
    tags: seq<Value>,
    subcategory: seq<Value>,
    isPublished: bool,
    publishedAt: Option<Time>,
    isDeleted: bool,
    deletedAt: Option<Time>)

  /** The record invariant: a publication date exactly when published, a
      deletion date exactly when deleted. */
  predicate WellStamped(b: Blog)
  {
    (b.publishedAt.Some? <==> b.isPublished) && (b.deletedAt.Some? <==> b.isDeleted)
  }

  /** A well-formed identifier is never blank. */
  lemma WellFormedIdIsNonBlank(v: Value)
    requires IsValidObjectId(v)
    ensures Validator.IsValid(v)
  {
    assert !IsWhitespace(v.s[0]);
  }

  /** The answer of the catch-all branch of the update and delete handlers. */
  const SomethingWentWrong := Response(500, false, "Something went wrong")

  /** The answer of the catch-all branch of createBlog when the store refuses
      to cast the isPublished field. */
  function CastFault(path: string): (r: Response)
    ensures r.code == 500 && !r.status
  {
    Fault("Cast to Boolean failed at path " + path)
  }

  // ---------------------------------------------------------------- create

  /** The checks of createBlog, named after what passes them. */
  datatype CreateCheck =
    | NonEmptyBody
    | TitlePresent
    | BodyPresent
    | AuthorIdPresent
    | AuthorIdWellFormed
    | AuthorExists
    | CategoryPresent

  /** Whether `body` passes check `c`; `authors` holds the identifiers of the
      stored authors. */
  predicate CreatePasses(c: CreateCheck, body: Dict, authors: set<string>)
  {
    match c
    case NonEmptyBody => Validator.IsValidRequestBody(body)
    case TitlePresent => Validator.IsValid(Get(body, "title"))
    case BodyPresent => Validator.IsValid(Get(body, "body"))
    case AuthorIdPresent => Validator.IsValid(Get(body, "authorId"))
    case AuthorIdWellFormed => IsValidObjectId(Get(body, "authorId"))
    case AuthorExists => Get(body, "authorId").Str? && Get(body, "authorId").s in authors
    case CategoryPresent => Validator.IsValid(Get(body, "category"))
  }

  const CreateOrder: seq<CreateCheck> :=
    [NonEmptyBody, TitlePresent, BodyPresent, AuthorIdPresent, AuthorIdWellFormed, AuthorExists, CategoryPresent]

  function CreatePassesOn(body: Dict, authors: set<string>): CreateCheck -> bool
  {
    c => CreatePasses(c, body, authors)
  }

  /** The checks of createBlog in the handler's order: the first failure
      decides; success yields the identifier of an existing author. */
  function CheckCreate(body: Dict, authors: set<string>): (r: Result<string, CreateCheck>)
    ensures r.Success? <==> AllPass(CreateOrder, CreatePassesOn(body, authors))
    ensures r.Failure? ==> FirstFailure(CreateOrder, CreatePassesOn(body, authors), r.error)
    ensures r.Success? ==> Get(body, "authorId") == Str(r.value) && r.value in authors
  {
    match FirstFailing(CreateOrder, CreatePassesOn(body, authors))
    case Some(c) => Failure(c)
    case None =>
      assert CreateOrder[5] == AuthorExists;
      assert CreatePassesOn(body, authors)(AuthorExists);
      assert CreatePasses(AuthorExists, body, authors);
      Success(Get(body, "authorId").s)
  }

  /** The 400 answer to a failed check of createBlog. */
  function CreateRejection(c: CreateCheck, body: Dict): (r: Response)
    ensures r.code == 400 && !r.status
    ensures c == AuthorIdWellFormed ==> r.message == ToJsString(Get(body, "authorId")) + " is not a valid author id"
  {
    var message :=
      match c
      case NonEmptyBody => "Invalid request parameters. Please provide blog details"
      case TitlePresent => "Blog Title is required"
      case BodyPresent => "Blog body is required"
      case AuthorIdPresent => "Author id is required"
      case AuthorIdWellFormed => ToJsString(Get(body, "authorId")) + " is not a valid author id"
      case AuthorExists => "Author does not exit"
      case CategoryPresent => "Blog category is required";
    Response(400, false, message)
  }

  /** A sequence field of a new blog: the given array copied element for
      element, empty when no array is given. */
  function ArrayOrEmpty(v: Value): (r: seq<Value>)
    ensures v.Arr? ==> r == v.elems
    ensures !v.Arr? ==> r == []
  {
    if Truthy(v) && v.Arr? then v.elems else []
  }

  /** The record createBlog stores for a checked body, or None when the store
      refuses to cast isPublished. It is published exactly when the given
      isPublished casts to true, and then stamped with `now`. */
  function NewBlog(body: Dict, authorId: string, now: Time): (r: Option<Blog>)
    ensures r.None? <==> Truthy(Get(body, "isPublished")) && CastBoolean(Get(body, "isPublished")).None?
    ensures r.Some? ==>
              && WellStamped(r.value) && !r.value.isDeleted
              && (r.value.isPublished <==> CastBoolean(Get(body, "isPublished")) == Some(true))
              && (r.value.isPublished ==> r.value.publishedAt == Some(now))
    ensures r.Some? ==>
              && r.value.title == Get(body, "title") && r.value.body == Get(body, "body")
              && r.value.authorId == authorId && r.value.category == Get(body, "category")
              && r.value.tags == ArrayOrEmpty(Get(body, "tags"))
              && r.value.subcategory == ArrayOrEmpty(Get(body, "subcategory"))
  {
    var given := Get(body, "isPublished");
    var published := CastBoolean(if Truthy(given) then given else Bool(false));
    if published.None? then None
    else
      Some(Blog(Get(body, "title"), Get(body, "body"), authorId, Get(body, "category"),
                ArrayOrEmpty(Get(body, "tags")), ArrayOrEmpty(Get(body, "subcategory")),
                published.value, if published.value then Some(now) else None, false, None))
  }

  /** The record as the handler builds it: the publication date follows the
      truthiness of the given isPublished, not the Boolean the store keeps. */
  function NewBlogAsWritten(body: Dict, authorId: string, now: Time): Option<Blog>
  {
    var given := Get(body, "isPublished");
    var published := CastBoolean(if Truthy(given) then given else Bool(false));
    if published.None? then None
    else
      Some(Blog(Get(body, "title"), Get(body, "body"), authorId, Get(body, "category"),
                ArrayOrEmpty(Get(body, "tags")), ArrayOrEmpty(Get(body, "subcategory")),
                published.value, if Truthy(given) then Some(now) else None, false, None))
  }

  /** As written, a publication date is stamped exactly when the given
      isPublished is truthy; for an absent, null or Boolean isPublished that is
      the intended record. */
  lemma NewBlogAsWrittenStampsTruthy(body: Dict, authorId: string, now: Time)
    ensures NewBlogAsWritten(body, authorId, now).Some? ==>
              (NewBlogAsWritten(body, authorId, now).value.publishedAt.Some? <==> Truthy(Get(body, "isPublished")))
    ensures Get(body, "isPublished").Undefined? || Get(body, "isPublished").Null? || Get(body, "isPublished").Bool? ==>
              NewBlogAsWritten(body, authorId, now) == NewBlog(body, authorId, now)
  {
    assert CastBoolean(Bool(false)) == Some(false) && CastBoolean(Bool(true)) == Some(true);
  }

  /** isPublished given as the string "false" is stored as false, yet the
      handler as written stamps a publication date. */
  lemma FalseStringIsStampedAsWritten(authorId: string, now: Time)
    ensures var body := map["isPublished" := Str("false")];
            && NewBlogAsWritten(body, authorId, now).Some?
            && !NewBlogAsWritten(body, authorId, now).value.isPublished
            && NewBlogAsWritten(body, authorId, now).value.publishedAt == Some(now)
            && !WellStamped(NewBlogAsWritten(body, authorId, now).value)
            && NewBlog(body, authorId, now).value.publishedAt.None?
  {
    var body := map["isPublished" := Str("false")];
    assert Get(body, "isPublished") == Str("false");
    assert CastBoolean(Str("false")) == Some(false);
  }

  /** createBlog as written: it calls `validator`, a name the module never
      binds, before anything else. */
  function CreateBlogAsWritten(body: Dict): Response
  {
    ReferenceError("validator")
  }

  /** A well-formed author identifier and a complete blog body by that author. */
  const GoodAuthorId := "0123456789abcdef01234567"
  const GoodBlogBody: Dict :=
    map["title" := Str("t"), "body" := Str("b"), "authorId" := Str(GoodAuthorId), "category" := Str("c")]

  lemma GoodAuthorIdIsWellFormed()
    ensures IsValidObjectId(Str(GoodAuthorId)) && Validator.IsValid(Str(GoodAuthorId))
  {
    assert IsValidObjectId(Str(GoodAuthorId));
    WellFormedIdIsNonBlank(Str(GoodAuthorId));
  }

  /** That body passes each creation check. */
  lemma GoodBlogMeetsEveryCheck()
    ensures forall c :: CreatePasses(c, GoodBlogBody, {GoodAuthorId})
  {
    var id, body := GoodAuthorId, GoodBlogBody;
    assert Get(body, "title") == Str("t") && Get(body, "body") == Str("b");
    assert Get(body, "authorId") == Str(id) && Get(body, "category") == Str("c");
    assert !IsWhitespace("t"[0]) && !IsWhitespace("b"[0]) && !IsWhitespace("c"[0]);
    GoodAuthorIdIsWellFormed();
    assert "title" in body;
    EveryCheckPasses(body, {id});
  }

  /** A body that passes every check of createBlog still gets 500 from the
      handler as written. */
  lemma CreateAsWrittenRefusesGoodBlog()
    ensures CheckCreate(GoodBlogBody, {GoodAuthorId}).Success?
    ensures CreateBlogAsWritten(GoodBlogBody).code == 500
  {
    GoodBlogMeetsEveryCheck();
    PassingEachCreateCheck(GoodBlogBody, {GoodAuthorId});
  }

  /** A body passing each check on its own passes the chain. */
  lemma PassingEachCreateCheck(body: Dict, authors: set<string>)
    requires forall c :: CreatePasses(c, body, authors)
    ensures CheckCreate(body, authors).Success?
  {
    assert AllPass(CreateOrder, CreatePassesOn(body, authors));
  }

  /** What each creation check asks of the body, taken together. */
  lemma EveryCheckPasses(body: Dict, authors: set<string>)
    requires Validator.IsValidRequestBody(body)
    requires Validator.IsValid(Get(body, "title")) && Validator.IsValid(Get(body, "body"))
    requires Validator.IsValid(Get(body, "authorId")) && IsValidObjectId(Get(body, "authorId"))
    requires Get(body, "authorId").s in authors
    requires Validator.IsValid(Get(body, "category"))
    ensures forall c :: CreatePasses(c, body, authors)
  {
    forall c: CreateCheck ensures CreatePasses(c, body, authors) {
    }
  }

  // --------------------------------------------------------------- listing

  /** The pieces of a comma-separated query value: the trimmed value split at
      every comma, each piece trimmed. One more piece than commas; no piece
      holds a comma or starts or ends with white space; joined back with
      commas, the untrimmed pieces give the trimmed value. */
  function Pieces(s: string): (r: seq<string>)
    ensures |r| == Occurrences(Trim(s), ',') + 1
    ensures forall i :: 0 <= i < |r| ==> Trimmed(r[i]) && ',' !in r[i]
    ensures exists parts :: Join(parts, ',') == Trim(s) && |parts| == |r|
                            && forall i :: 0 <= i < |r| ==> r[i] == Trim(parts[i])
  {
    SplitTrimmed(Trim(s));
    TrimAll(Split(Trim(s), ','))
  }

  /** What Pieces promises, of the trimmed value `t`. */
  lemma SplitTrimmed(t: string)
    ensures var r := TrimAll(Split(t, ','));
            && (forall i :: 0 <= i < |r| ==> Trimmed(r[i]) && ',' !in r[i])
            && exists parts :: Join(parts, ',') == t && |parts| == |r|
                               && forall i :: 0 <= i < |r| ==> r[i] == Trim(parts[i])
  {
    var parts := Split(t, ',');
    var r := TrimAll(parts);
    forall i | 0 <= i < |r|
      ensures Trimmed(r[i]) && ',' !in r[i]
    {
      TrimmedPiece(parts, i);
    }
    JoinSplit(t, ',');
    assert Join(parts, ',') == t && |parts| == |r| && forall i :: 0 <= i < |r| ==> r[i] == Trim(parts[i]);
  }

  /** One trimmed piece: trimmed, and without a comma when its source had none. */
  lemma TrimmedPiece(parts: seq<string>, i: int)
    requires 0 <= i < |parts| && ',' !in parts[i]
    ensures Trimmed(TrimAll(parts)[i]) && ',' !in TrimAll(parts)[i]
  {
    assert TrimAll(parts)[i] == Trim(parts[i]);
    TrimKeepsOut(parts[i], ',');
  }

  /** Every string of `parts` trimmed, in order. */
  function TrimAll(parts: seq<string>): (r: seq<string>)
    ensures |r| == |parts|
    ensures forall i :: 0 <= i < |r| ==> r[i] == Trim(parts[i])
  {
    if parts == [] then [] else [Trim(parts[0])] + TrimAll(parts[1..])
  }

  /** `field` holds every wanted string: the store's `$all` operator. */
  predicate ContainsAll(field: seq<Value>, wanted: seq<string>)
  {
    forall k :: 0 <= k < |wanted| ==> Str(wanted[k]) in field
  }

  /** The strings among the values of an array field. */
  function StringsOf(field: seq<Value>): set<string>
  {
    set v | v in field && v.Str? :: v.s
  }

  /** `$all` is the superset relation: the field's strings include every
      wanted string. */
  lemma ContainsAllIsSuperset(field: seq<Value>, wanted: seq<string>)
    ensures ContainsAll(field, wanted) <==> (set w | w in wanted) <= StringsOf(field)
  {
    if ContainsAll(field, wanted) {
      forall w | w in wanted ensures w in StringsOf(field) {
        var k :| 0 <= k < |wanted| && wanted[k] == w;
        assert Str(w) in field;
      }
    } else {
      var k :| 0 <= k < |wanted| && Str(wanted[k]) !in field;
      assert wanted[k] !in StringsOf(field);
    }
  }

  /** `$all` holds exactly when every wanted string is in the field. */
  lemma ContainsAllMembers(field: seq<Value>, wanted: seq<string>)
    ensures ContainsAll(field, wanted) <==> forall p :: p in wanted ==> Str(p) in field
  {
    if ContainsAll(field, wanted) {
      forall p | p in wanted ensures Str(p) in field {
        var k :| 0 <= k < |wanted| && wanted[k] == p;
      }
    }
  }

  /** Asking for more strings can only narrow the match. */
  lemma MoreWantedNarrows(field: seq<Value>, fewer: seq<string>, more: seq<string>)
    requires forall w :: w in fewer ==> w in more
    requires ContainsAll(field, more)
    ensures ContainsAll(field, fewer)
  {
    forall k | 0 <= k < |fewer| ensures Str(fewer[k]) in field {
      assert fewer[k] in more;
    }
  }

  /** The base conditions of the listing: published and not deleted. */
  predicate Visible(b: Blog)
  {
    !b.isDeleted && b.deletedAt.None? && b.isPublished
  }

  /** A non-blank comma-separated query value asks `field` to hold each of
      its pieces. */
  predicate HoldsPieces(v: Value, field: seq<Value>)
  {
    Validator.IsValid(v) && v.Str? ==> forall p :: p in Pieces(v.s) ==> Str(p) in field
  }

  /** The query the listing sends to the store beyond its base conditions. */
  datatype Filter = Filter(
    authorId: Option<string>,
    category: Option<string>,
    tags: Option<seq<string>>,
    subcategory: Option<seq<string>>)

  /** Whether the store returns `b` for filter `f`: never a deleted or
      unpublished blog, and only blogs meeting every refinement `f` sets. */
  predicate FilterMatches(f: Filter, b: Blog)
  {
    && Visible(b)
    && (f.authorId.Some? ==> b.authorId == f.authorId.value)
    && (f.category.Some? ==> b.category == Str(f.category.value))
    && (f.tags.Some? ==> ContainsAll(b.tags, f.tags.value))
    && (f.subcategory.Some? ==> ContainsAll(b.subcategory, f.subcategory.value))
  }

  /** The fault the listing runs into: a non-blank refinement that is not a
      string has no trim method. Checked in the handler's order. */
  function ListingFault(query: Dict): (r: Option<Response>)
    ensures r.Some? ==> r.value.code == 500
    ensures r.None? <==>
              && (Validator.IsValid(Get(query, "category")) ==> Get(query, "category").Str?)
              && (Validator.IsValid(Get(query, "tags")) ==> Get(query, "tags").Str?)
              && (Validator.IsValid(Get(query, "subcategory")) ==> Get(query, "subcategory").Str?)
  {
    var category, tags, subcategory := Get(query, "category"), Get(query, "tags"), Get(query, "subcategory");
    if Validator.IsValid(category) && !category.Str? then Some(NotAFunction("category.trim"))
    else if Validator.IsValid(tags) && !tags.Str? then Some(NotAFunction("tags.trim"))
    else if Validator.IsValid(subcategory) && !subcategory.Str? then Some(NotAFunction("subcategory.trim"))
    else None
  }

  /** Which blogs the listing should return, read off the query: published and
      not deleted, by the given author when a well-formed author id is given,
      in the given category (trimmed) when one is given, and holding every
      comma-separated tag and subcategory asked for. */
  predicate Listed(query: Dict, b: Blog)
  {
    var authorId, category := Get(query, "authorId"), Get(query, "category");
    var tags, subcategory := Get(query, "tags"), Get(query, "subcategory");
    && Visible(b)
    && (IsValidObjectId(authorId) ==> Str(b.authorId) == authorId)
    && (Validator.IsValid(category) && category.Str? ==> b.category == Str(Trim(category.s)))
    && HoldsPieces(tags, b.tags)
    && HoldsPieces(subcategory, b.subcategory)
  }

  /** An empty query lists exactly the published blogs that are not deleted. */
  lemma EmptyQueryListsPublished(b: Blog)
    ensures Listed(map[], b) <==> Visible(b)
  {
    assert Get(map[], "authorId") == Undefined;
  }

  /** A filter holding the refinements of the non-blank query values agrees
      with `Listed` on every blog. */
  lemma FilterAgrees(query: Dict, filter: Filter, b: Blog)
    requires ListingFault(query).None?
    requires var authorId := Get(query, "authorId");
             filter.authorId == if IsValidObjectId(authorId) then Some(authorId.s) else None
    requires var category := Get(query, "category");
             filter.category == if Validator.IsValid(category) && category.Str? then Some(Trim(category.s)) else None
    requires var tags := Get(query, "tags");
             filter.tags == if Validator.IsValid(tags) && tags.Str? then Some(Pieces(tags.s)) else None
    requires var subcategory := Get(query, "subcategory");
             filter.subcategory == if Validator.IsValid(subcategory) && subcategory.Str? then Some(Pieces(subcategory.s)) else None
    ensures FilterMatches(filter, b) <==> Listed(query, b)
  {
    var authorId, category := Get(query, "authorId"), Get(query, "category");
    var tags, subcategory := Get(query, "tags"), Get(query, "subcategory");
    assert (filter.authorId.Some? ==> b.authorId == filter.authorId.value)
       <==> (IsValidObjectId(authorId) ==> Str(b.authorId) == authorId);
    assert (filter.category.Some? ==> b.category == Str(filter.category.value))
       <==> (Validator.IsValid(category) && category.Str? ==> b.category == Str(Trim(category.s)));
    assert (filter.tags.Some? ==> ContainsAll(b.tags, filter.tags.value)) <==> HoldsPieces(tags, b.tags) by {
      if filter.tags.Some? {
        ContainsAllMembers(b.tags, filter.tags.value);
      }
    }
    assert (filter.subcategory.Some? ==> ContainsAll(b.subcategory, filter.subcategory.value))
       <==> HoldsPieces(subcategory, b.subcategory) by {
      if filter.subcategory.Some? {
        ContainsAllMembers(b.subcategory, filter.subcategory.value);
      }
    }
  }

  /** Building the listing's filter one refinement at a time, as the handler
      does. On success the store's answer to the filter is exactly `Listed`. */
  method BuildFilter(query: Dict) returns (r: Result<Filter, Response>)
    ensures r.Failure? <==> ListingFault(query).Some?
    ensures r.Failure? ==> r.error == ListingFault(query).value
    ensures r.Success? ==> forall b :: FilterMatches(r.value, b) <==> Listed(query, b)
  {
    var filter := Filter(None, None, None, None);
    var authorId, category := Get(query, "authorId"), Get(query, "category");
    var tags, subcategory := Get(query, "tags"), Get(query, "subcategory");
    if Validator.IsValidRequestBody(query) {
      if Validator.IsValid(authorId) && IsValidObjectId(authorId) {
        filter := filter.(authorId := Some(authorId.s));
      }
      if Validator.IsValid(category) {
        if !category.Str? {
          return Failure(NotAFunction("category.trim"));
        }
        filter := filter.(category := Some(Trim(category.s)));
      }
      if Validator.IsValid(tags) {
        if !tags.Str? {
          return Failure(NotAFunction("tags.trim"));
        }
        filter := filter.(tags := Some(Pieces(tags.s)));
      }
      if Validator.IsValid(subcategory) {
        if !subcategory.Str? {
          return Failure(NotAFunction("subcategory.trim"));
        }
        filter := filter.(subcategory := Some(Pieces(subcategory.s)));
      }
    } else {
      assert authorId == Undefined && category == Undefined;
      assert tags == Undefined && subcategory == Undefined;
    }
    if IsValidObjectId(authorId) {
      WellFormedIdIsNonBlank(authorId);
    }
    forall b ensures FilterMatches(filter, b) <==> Listed(query, b) {
      FilterAgrees(query, filter, b);
    }
    r := Success(filter);
  }

  /** getBlog as written: it calls `validator`, a name the module never binds. */
  function GetBlogAsWritten(query: Dict): Response
  {
    ReferenceError("validator")
  }

  /** Even the empty query, which the intended listing answers from the
      store, gets 500 from the handler as written. */
  lemma EmptyListingAsWrittenFails()
    ensures ListingFault(map[]).None? && GetBlogAsWritten(map[]).code == 500
  {
    assert Get(map[], "category") == Undefined;
  }

  // ---------------------------------------------------------------- update

  /** The ownership test of the update and delete handlers: the caller is the
      blog's author. */
  predicate IsOwner(caller: Option<string>, b: Blog)
  {
    caller == Some(b.authorId)
  }

  /** The caller the handlers see, as wired: the authentication step stores
      the token's subject under one name and the handlers read another. */
  function CallerAsWired(subject: string): Option<string>
  {
    None
  }

  /** The caller the handlers are meant to see: the token's subject. */
  function CallerFromToken(subject: string): Option<string>
  {
    Some(subject)
  }

  /** As wired, not even a blog's own author passes the ownership test; with
      the subject passed through, exactly the author does. */
  lemma OwnerCheckAsWired(b: Blog, subject: string)
    ensures !IsOwner(CallerAsWired(subject), b)
    ensures IsOwner(CallerFromToken(subject), b) <==> subject == b.authorId
  {
  }

  /** The update's all-or-nothing gate: title, body, tags and subcategory are
      all given (truthy). */
  predicate MandatoryGiven(body: Dict)
  {
    Truthy(Get(body, "title")) && Truthy(Get(body, "body")) && Truthy(Get(body, "tags")) && Truthy(Get(body, "subcategory"))
  }

  /** The isPublished the store keeps after an update: unchanged when the body
      gives none, otherwise the cast of the given value (None: refused). */
  function PublishedAfterUpdate(b: Blog, given: Value): (r: Option<bool>)
    ensures given.Undefined? || given.Null? ==> r == Some(b.isPublished)
    ensures given.Bool? ==> r == Some(given.b)
    ensures !given.Undefined? && !given.Null? ==> r == CastBoolean(given)
  {
    if given.Undefined? || given.Null? then Some(b.isPublished) else CastBoolean(given)
  }

  /** The stored record after a successful update, with the publication date
      fixed afterwards: now when published, none otherwise. Title and body are
      replaced, tags and subcategory grow at the end, the rest is kept. */
  function Updated(b: Blog, body: Dict, now: Time): (r: Option<Blog>)
    ensures r.None? <==> PublishedAfterUpdate(b, Get(body, "isPublished")).None?
    ensures r.Some? ==> r.value.isPublished == PublishedAfterUpdate(b, Get(body, "isPublished")).value
    ensures r.Some? ==>
              && (r.value.publishedAt.Some? <==> r.value.isPublished)
              && (r.value.isPublished ==> r.value.publishedAt == Some(now))
              && (WellStamped(b) ==> WellStamped(r.value))
    ensures r.Some? ==>
              && r.value.title == Get(body, "title") && r.value.body == Get(body, "body")
              && b.tags <= r.value.tags && r.value.tags[|b.tags|..] == AsList(Get(body, "tags"))
              && b.subcategory <= r.value.subcategory && r.value.subcategory[|b.subcategory|..] == AsList(Get(body, "subcategory"))
              && r.value.authorId == b.authorId && r.value.category == b.category
              && r.value.isDeleted == b.isDeleted && r.value.deletedAt == b.deletedAt
  {
    var published := PublishedAfterUpdate(b, Get(body, "isPublished"));
    if published.None? then None
    else
      var written := b.(title := Get(body, "title"), body := Get(body, "body"),
                        tags := b.tags + AsList(Get(body, "tags")),
                        subcategory := b.subcategory + AsList(Get(body, "subcategory")),
                        isPublished := published.value);
      Some(written.(publishedAt := if published.value then Some(now) else None))
  }

  /** An update with isPublished true publishes the blog as of now; one with
      isPublished false withdraws it and clears the date. */
  lemma UpdatePublishes(b: Blog, body: Dict, now: Time)
    ensures Get(body, "isPublished") == Bool(true) ==>
              Updated(b, body, now).Some? && Updated(b, body, now).value.isPublished
              && Updated(b, body, now).value.publishedAt == Some(now)
    ensures Get(body, "isPublished") == Bool(false) ==>
              Updated(b, body, now).Some? && !Updated(b, body, now).value.isPublished
              && Updated(b, body, now).value.publishedAt.None?
  {
  }

  /** The stored record after an update as written: the publication date is
      fixed only on the copy sent back, so the store keeps the old one. */
  function StoredAfterUpdateAsWritten(b: Blog, body: Dict): Option<Blog>
  {
    var published := PublishedAfterUpdate(b, Get(body, "isPublished"));
    if published.None? then None
    else
      Some(b.(title := Get(body, "title"), body := Get(body, "body"),
              tags := b.tags + AsList(Get(body, "tags")),
              subcategory := b.subcategory + AsList(Get(body, "subcategory")),
              isPublished := published.value))
  }

  /** Publishing a draft through the update as written leaves a published
      record without a publication date. */
  lemma PublishingDraftAsWrittenLosesDate(b: Blog, body: Dict, now: Time)
    requires WellStamped(b) && !b.isPublished
    requires Get(body, "isPublished") == Bool(true)
    ensures StoredAfterUpdateAsWritten(b, body).Some?
    ensures StoredAfterUpdateAsWritten(b, body).value.isPublished
    ensures !WellStamped(StoredAfterUpdateAsWritten(b, body).value)
    ensures Updated(b, body, now).value.publishedAt == Some(now)
  {
    assert CastBoolean(Bool(true)) == Some(true);
  }

  // ---------------------------------------------------------- delete by id

  /** A response and the collection it leaves behind. */
  datatype Outcome = Outcome(response: Response, blogs: map<string, Blog>)

  /** The record marked deleted at `now`. */
  function SoftDeleted(b: Blog, now: Time): (r: Blog)
    ensures r.isDeleted && r.deletedAt == Some(now)
    ensures r.(isDeleted := b.isDeleted, deletedAt := b.deletedAt) == b
    ensures !b.isDeleted && WellStamped(b) ==> WellStamped(r)
  {
    b.(isDeleted := true, deletedAt := Some(now))
  }

  /** deleteBlog: a blog not yet deleted is marked deleted at `now` with 200;
      an already deleted blog, an unknown identifier and an empty one get 404
      and change nothing; a malformed identifier makes the store fail. */
  function DeleteOutcome(blogs: map<string, Blog>, id: string, now: Time): (o: Outcome)
    ensures o.response.code == 200 <==> id in blogs && IsValidObjectId(Str(id)) && !blogs[id].isDeleted
    ensures o.response.code == 200 ==> o.blogs == blogs[id := SoftDeleted(blogs[id], now)]
    ensures o.response.code != 200 ==> o.blogs == blogs
    ensures o.response.code == 200 ==> o.response == Response(200, true, "successfully deleted blog")
    ensures id in blogs && IsValidObjectId(Str(id)) && blogs[id].isDeleted ==>
              o.response == Response(404, false, "Blog already deleted")
    ensures id == "" || (IsValidObjectId(Str(id)) && id !in blogs) ==>
              o.response == Response(404, false, "Blog Id not found")
    ensures id != "" && !IsValidObjectId(Str(id)) ==> o.response == SomethingWentWrong
  {
    if id == "" then Outcome(Response(404, false, "Blog Id not found"), blogs)
    else if !IsValidObjectId(Str(id)) then Outcome(SomethingWentWrong, blogs)
    else if id !in blogs then Outcome(Response(404, false, "Blog Id not found"), blogs)
    else if !blogs[id].isDeleted then
      Outcome(Response(200, true, "successfully deleted blog"), blogs[id := SoftDeleted(blogs[id], now)])
    else Outcome(Response(404, false, "Blog already deleted"), blogs)
  }

  /** Deleting twice is a no-op the second time: 404 and nothing changes. */
  lemma DeleteTwiceIsNoop(blogs: map<string, Blog>, id: string, first: Time, second: Time)
    ensures var once := DeleteOutcome(blogs, id, first);
            var twice := DeleteOutcome(once.blogs, id, second);
            twice.blogs == once.blogs && twice.response.code != 200
  {
    var once := DeleteOutcome(blogs, id, first);
    if once.response.code == 200 {
      assert once.blogs[id].isDeleted;
    }
  }

  /** deleteBlog as written: for an identifier the store does not hold, it
      reads the first element of an empty result and lands in the catch-all. */
  function DeleteOutcomeAsWritten(blogs: map<string, Blog>, id: string, now: Time): Outcome
  {
    if id != "" && IsValidObjectId(Str(id)) && id !in blogs then Outcome(SomethingWentWrong, blogs)
    else DeleteOutcome(blogs, id, now)
  }

  /** An unknown well-formed identifier gets 500 as written, 404 as intended,
      and the collection is unchanged either way. */
  lemma UnknownIdAsWrittenFails(blogs: map<string, Blog>, id: string, now: Time)
    requires IsValidObjectId(Str(id)) && id !in blogs
    ensures DeleteOutcomeAsWritten(blogs, id, now) == Outcome(SomethingWentWrong, blogs)
    ensures DeleteOutcome(blogs, id, now) == Outcome(Response(404, false, "Blog Id not found"), blogs)
  {
    assert id != "";
  }

  // ------------------------------------------------------ delete by filter

  /** The filter deleteSpecific sends: each field the query gives (truthy),
      copied unchanged. */
  datatype DeleteFilter = DeleteFilter(
    category: Option<Value>,
    authorId: Option<Value>,
    tags: Option<Value>,
    subcategory: Option<Value>,
    isPublished: Option<Value>)

  /** Whether the store finds `b` for filter `f`. Deleted blogs are not
      excluded. An undefined value reaches the store as null, which no
      stored Boolean equals. */
  predicate DeleteFilterMatches(f: DeleteFilter, b: Blog)
  {
    && (f.category.Some? ==> Holds(StringPath(b.category), f.category.value))
    && (f.authorId.Some? ==> Holds(IdPath(b.authorId), f.authorId.value))
    && (f.tags.Some? ==> Holds(ArrayPath(b.tags), f.tags.value))
    && (f.subcategory.Some? ==> Holds(ArrayPath(b.subcategory), f.subcategory.value))
    && (f.isPublished.Some? ==> Holds(BoolPath(b.isPublished), f.isPublished.value))
  }

  /** The store refuses a filter with a field value it cannot cast to the
      field's type. */
  predicate DeleteFilterFaults(f: DeleteFilter)
  {
    || (f.category.Some? && Faults(StringKind, f.category.value))
    || (f.authorId.Some? && Faults(IdKind, f.authorId.value))
    || (f.tags.Some? && Faults(ArrayKind, f.tags.value))
    || (f.subcategory.Some? && Faults(ArrayKind, f.subcategory.value))
    || (f.isPublished.Some? && Faults(BoolKind, f.isPublished.value))
  }

  /** The store refuses the filter a query yields: a given field whose value
      does not cast to the field's type. */
  predicate DeleteQueryFaults(query: Dict)
  {
    || (Truthy(Get(query, "category")) && Faults(StringKind, Get(query, "category")))
    || (Truthy(Get(query, "authorId")) && Faults(IdKind, Get(query, "authorId")))
    || (Truthy(Get(query, "tags")) && Faults(ArrayKind, Get(query, "tags")))
    || (Truthy(Get(query, "subcategory")) && Faults(ArrayKind, Get(query, "subcategory")))
    || (Truthy(Get(query, "isPublished")) && Faults(BoolKind, Get(query, "isPublished")))
  }

  /** At least one of the fields deleteSpecific requires is given. */
  predicate SelectorGiven(query: Dict)
  {
    Truthy(Get(query, "category")) || Truthy(Get(query, "authorId")) || Truthy(Get(query, "tags")) || Truthy(Get(query, "subcategory"))
  }

  /** Which blogs a query selects for deletion, read off the query: every
      given field must hold of the blog as the store reads its value (equal,
      any element of an array, or every operator of an operator object). */
  predicate Selected(query: Dict, b: Blog)
  {
    var category, authorId := Get(query, "category"), Get(query, "authorId");
    var tags, subcategory, published := Get(query, "tags"), Get(query, "subcategory"), Get(query, "isPublished");
    && (Truthy(category) ==> Holds(StringPath(b.category), category))
    && (Truthy(authorId) ==> Holds(IdPath(b.authorId), authorId))
    && (Truthy(tags) ==> Holds(ArrayPath(b.tags), tags))
    && (Truthy(subcategory) ==> Holds(ArrayPath(b.subcategory), subcategory))
    && (Truthy(published) ==> Holds(BoolPath(b.isPublished), published))
  }

  /** Building the filter of deleteSpecific one field at a time. A field is
      copied exactly when the query gives it; the store's answer to the
      filter is exactly `Selected`. */
  method BuildDeleteFilter(query: Dict) returns (f: DeleteFilter)
    ensures f.category.Some? <==> Truthy(Get(query, "category"))
    ensures f.authorId.Some? <==> Truthy(Get(query, "authorId"))
    ensures f.tags.Some? <==> Truthy(Get(query, "tags"))
    ensures f.subcategory.Some? <==> Truthy(Get(query, "subcategory"))
    ensures f.isPublished.Some? <==> Truthy(Get(query, "isPublished"))
    ensures DeleteFilterFaults(f) <==> DeleteQueryFaults(query)
    ensures forall b :: DeleteFilterMatches(f, b) <==> Selected(query, b)
  {
    f := DeleteFilter(None, None, None, None, None);
    if Truthy(Get(query, "category")) {
      f := f.(category := Some(Get(query, "category")));
    }
    if Truthy(Get(query, "authorId")) {
      f := f.(authorId := Some(Get(query, "authorId")));
    }
    if Truthy(Get(query, "tags")) {
      f := f.(tags := Some(Get(query, "tags")));
    }
    if Truthy(Get(query, "subcategory")) {
      f := f.(subcategory := Some(Get(query, "subcategory")));
    }
    if Truthy(Get(query, "isPublished")) {
      f := f.(isPublished := Some(Get(query, "isPublished")));
    }
  }

  /** The filter as written: isPublished is copied when the query gives a
      `published` field, and ignored otherwise. */
  function DeleteFilterAsWritten(query: Dict): DeleteFilter
  {
    var copied := (key: string) => if Truthy(Get(query, key)) then Some(Get(query, key)) else None;
    DeleteFilter(copied("category"), copied("authorId"), copied("tags"), copied("subcategory"),
                 if Truthy(Get(query, "published")) then Some(Get(query, "isPublished")) else None)
  }

  /** A query asking for published blogs of a category selects a draft of
      that category as written, but not as intended. */
  lemma PublishedGuardIgnoresIsPublished(b: Blog)
    requires b.category == Str("c") && !b.isPublished
    ensures var query := map["category" := Str("c"), "isPublished" := Str("true")];
            DeleteFilterMatches(DeleteFilterAsWritten(query), b) && !Selected(query, b)
  {
    var query := map["category" := Str("c"), "isPublished" := Str("true")];
    assert Get(query, "published") == Undefined;
    assert Get(query, "isPublished") == Str("true");
    assert CastBoolean(Str("true")) == Some(true);
  }

  /** The first steps of deleteSpecific: find the blog named by the path
      (`findOne({ _id: blogId })`) and check that the caller owns it. None:
      go on to the query. An undefined identifier reaches the store as null,
      which no stored identifier equals. */
  function PathCheck(blogs: map<string, Blog>, caller: Option<string>, pathId: Value): (r: Option<Response>)
    ensures r.None? <==> IsValidObjectId(pathId) && pathId.s in blogs && IsOwner(caller, blogs[pathId.s])
  {
    if pathId.Undefined? || pathId.Null? then Some(Response(400, false, "No such Blog found. Please register and try again"))
    else if !IsValidObjectId(pathId) then Some(SomethingWentWrong)
    else if pathId.s !in blogs then Some(Response(400, false, "No such Blog found. Please register and try again"))
    else if !IsOwner(caller, blogs[pathId.s]) then Some(Response(401, false, "Unauthorized access! Owner info doesn't match"))
    else None
  }

  /** As routed, DELETE /blogs binds no `:blogId`, so the handler reads an
      undefined path identifier: whatever the collection, the caller and
      the query, it answers 400 and deletes nothing, while the blog's own
      author naming a stored blog in the path gets past this step. */
  lemma UnboundPathIdAlwaysRefused(blogs: map<string, Blog>, caller: Option<string>, id: string)
    requires IsValidObjectId(Str(id)) && id in blogs && caller == Some(blogs[id].authorId)
    ensures PathCheck(blogs, caller, Get(map[], "blogId")) == Some(Response(400, false, "No such Blog found. Please register and try again"))
    ensures PathCheck(blogs, caller, Str(id)).None?
  {
  }

  /** Repeating a query key gives an array, which selects a blog in either
      category. */
  lemma RepeatedCategorySelectsEither(b: Blog)
    requires b.category == Str("a") || b.category == Str("b")
    ensures Selected(map["category" := Arr([Str("a"), Str("b")])], b)
    ensures !DeleteQueryFaults(map["category" := Arr([Str("a"), Str("b")])])
  {
    var query := map["category" := Arr([Str("a"), Str("b")])];
    assert Get(query, "category") == Arr([Str("a"), Str("b")]);
    assert b.category in [Str("a"), Str("b")];
  }

  // ----------------------------------------------------------------- store

  /** The blog collection. */
  class BlogStore {
    var blogs: map<string, Blog>

    /** Every key is a store identifier and every record keeps its stamps. */
    ghost predicate Valid()
      reads this
    {
      forall id :: id in blogs ==> IsValidObjectId(Str(id)) && WellStamped(blogs[id])
    }

    constructor ()
      ensures Valid() && blogs == map[]
    {
      blogs := map[];
    }

    /** createBlog. `authors` holds the identifiers of the stored authors and
        `newId` the identifier the store assigns. A rejected request changes
        nothing; an accepted one adds exactly the new record. */
    method Create(body: Dict, authors: set<string>, newId: string, now: Time) returns (r: Response, created: Option<Blog>)
      requires Valid()
      requires IsValidObjectId(Str(newId)) && newId !in blogs
      modifies this
      ensures Valid()
      ensures CheckCreate(body, authors).Failure? ==>
                r == CreateRejection(CheckCreate(body, authors).error, body) && created.None? && blogs == old(blogs)
      ensures CheckCreate(body, authors).Success? && NewBlog(body, CheckCreate(body, authors).value, now).None? ==>
                r == CastFault("isPublished") && created.None? && blogs == old(blogs)
      ensures CheckCreate(body, authors).Success? && NewBlog(body, CheckCreate(body, authors).value, now).Some? ==>
                && r == Response(201, true, "New blog created successfully")
                && created == NewBlog(body, CheckCreate(body, authors).value, now)
                && blogs == old(blogs)[newId := created.value]
    {
      var checked := CheckCreate(body, authors);
      if checked.Failure? {
        r, created := CreateRejection(checked.error, body), None;
        return;
      }
      var given := Get(body, "isPublished");
      var blogData := Blog(Get(body, "title"), Get(body, "body"), checked.value, Get(body, "category"),
                           [], [], false, None, false, None);
      var tags := Get(body, "tags");
      if Truthy(tags) {
        if tags.Arr? {
          blogData := blogData.(tags := tags.elems);
        }
      }
      var subcategory := Get(body, "subcategory");
      if Truthy(subcategory) {
        if subcategory.Arr? {
          blogData := blogData.(subcategory := subcategory.elems);
        }
      }
      var published := CastBoolean(if Truthy(given) then given else Bool(false));
      if published.None? {
        r, created := CastFault("isPublished"), None;
        return;
      }
      blogData := blogData.(isPublished := published.value, publishedAt := if published.value then Some(now) else None);
      blogs := blogs[newId := blogData];
      r, created := Response(201, true, "New blog created successfully"), Some(blogData);
    }

    /** getBlog. On a fault nothing is listed; otherwise exactly the blogs
        `Listed` for the query, 404 when there are none. */
    method List(query: Dict) returns (r: Response, listed: set<string>)
      ensures ListingFault(query).Some? ==> r == ListingFault(query).value && listed == {}
      ensures ListingFault(query).None? ==> listed == set id | id in blogs && Listed(query, blogs[id])
      ensures ListingFault(query).None? && listed == {} ==> r == Response(404, false, "No blogs found")
      ensures ListingFault(query).None? && listed != {} ==> r == Response(200, true, "Blogs list")
    {
      var filter := BuildFilter(query);
      if filter.Failure? {
        r, listed := filter.error, {};
        return;
      }
      listed := set id | id in blogs && FilterMatches(filter.value, blogs[id]);
      if listed == {} {
        r := Response(404, false, "No blogs found");
      } else {
        r := Response(200, true, "Blogs list");
      }
    }

    /** updateDetails. Only the blog's author may update it, only with title,
        body, tags and subcategory all given; every refusal changes nothing. */
    method Update(blogId: string, caller: Option<string>, body: Dict, now: Time) returns (r: Response)
      requires Valid()
      modifies this
      ensures Valid()
      ensures !IsValidObjectId(Str(blogId)) ==> r == SomethingWentWrong && blogs == old(blogs)
      ensures IsValidObjectId(Str(blogId)) && blogId !in old(blogs) ==>
                r == Response(400, false, "No such user found. Please register and try again") && blogs == old(blogs)
      ensures blogId in old(blogs) && !IsOwner(caller, old(blogs)[blogId]) ==>
                r == Response(401, false, "Unauthorized access! Owner info doesn't match") && blogs == old(blogs)
      ensures blogId in old(blogs) && IsOwner(caller, old(blogs)[blogId]) && !MandatoryGiven(body) ==>
                r == Response(404, false, "Mandatory body not given") && blogs == old(blogs)
      ensures blogId in old(blogs) && IsOwner(caller, old(blogs)[blogId]) && MandatoryGiven(body) ==>
                var after := Updated(old(blogs)[blogId], body, now);
                && (after.None? ==> r == SomethingWentWrong && blogs == old(blogs))
                && (after.Some? ==> r == Response(200, true, "Successfully updated blog details")
                                    && blogs == old(blogs)[blogId := after.value])
    {
      if !IsValidObjectId(Str(blogId)) {
        return SomethingWentWrong;
      }
      if blogId !in blogs {
        return Response(400, false, "No such user found. Please register and try again");
      }
      var found := blogs[blogId];
      if !IsOwner(caller, found) {
        return Response(401, false, "Unauthorized access! Owner info doesn't match");
      }
      if !MandatoryGiven(body) {
        return Response(404, false, "Mandatory body not given");
      }
      var published := PublishedAfterUpdate(found, Get(body, "isPublished"));
      if published.None? {
        return SomethingWentWrong;
      }
      var updated := found.(title := Get(body, "title"), body := Get(body, "body"),
                            tags := found.tags + AsList(Get(body, "tags")),
                            subcategory := found.subcategory + AsList(Get(body, "subcategory")),
                            isPublished := published.value);
      if updated.isPublished {
        updated := updated.(publishedAt := Some(now));
      } else {
        updated := updated.(publishedAt := None);
      }
      blogs := blogs[blogId := updated];
      r := Response(200, true, "Successfully updated blog details");
    }

    /** deleteBlog, as `DeleteOutcome` describes it. */
    method Delete(blogId: string, now: Time) returns (r: Response)
      requires Valid()
      modifies this
      ensures Valid()
      ensures r == DeleteOutcome(old(blogs), blogId, now).response
      ensures blogs == DeleteOutcome(old(blogs), blogId, now).blogs
    {
      if blogId == "" {
        return Response(404, false, "Blog Id not found");
      }
      if !IsValidObjectId(Str(blogId)) {
        return SomethingWentWrong;
      }
      if blogId !in blogs {
        return Response(404, false, "Blog Id not found");
      }
      if !blogs[blogId].isDeleted {
        blogs := blogs[blogId := blogs[blogId].(isDeleted := true, deletedAt := Some(now))];
        r := Response(200, true, "successfully deleted blog");
      } else {
        r := Response(404, false, "Blog already deleted");
      }
    }

    /** deleteSpecific. `pathId` is the identifier the handler reads from the
        path, and the caller must own that blog. The blog deleted is one the
        filter selects (`picked`), whoever its author; when the pick is already
        deleted the answer is 400, and every refusal changes nothing. */
    method DeleteMatching(pathId: string, caller: Option<string>, query: Dict, now: Time) returns (r: Response, picked: Option<string>)
      requires Valid()
      modifies this
      ensures Valid()
      ensures picked.Some? ==> picked.value in old(blogs) && Selected(query, old(blogs)[picked.value])
      ensures r.code == 200 <==> picked.Some? && !old(blogs)[picked.value].isDeleted
      ensures r.code == 200 ==> r == Response(200, true, "Deleted successfully")
                                && blogs == old(blogs)[picked.value := SoftDeleted(old(blogs)[picked.value], now)]
      ensures r.code != 200 ==> blogs == old(blogs)
      ensures !IsValidObjectId(Str(pathId)) ==> r == SomethingWentWrong
      ensures IsValidObjectId(Str(pathId)) && pathId !in old(blogs) ==>
                r == Response(400, false, "No such Blog found. Please register and try again")
      ensures pathId in old(blogs) && !IsOwner(caller, old(blogs)[pathId]) ==>
                r == Response(401, false, "Unauthorized access! Owner info doesn't match")
      ensures pathId in old(blogs) && IsOwner(caller, old(blogs)[pathId]) && !SelectorGiven(query) ==>
                r == Response(404, false, "Mandatory body missing")
      ensures pathId in old(blogs) && IsOwner(caller, old(blogs)[pathId]) && SelectorGiven(query) ==>
                && (DeleteQueryFaults(query) ==> r == SomethingWentWrong)
                && (!DeleteQueryFaults(query) ==>
                      && (picked.None? <==> forall id :: id in old(blogs) ==> !Selected(query, old(blogs)[id]))
                      && (picked.None? ==> r == Response(404, false, "The given data is Invalid"))
                      && (picked.Some? && old(blogs)[picked.value].isDeleted ==>
                            r == Response(400, false, "Blog has been already deleted")))
    {
      picked := None;
      var refused := PathCheck(blogs, caller, Str(pathId));
      if refused.Some? {
        return refused.value, None;
      }
      if !SelectorGiven(query) {
        return Response(404, false, "Mandatory body missing"), None;
      }
      var f := BuildDeleteFilter(query);
      if DeleteFilterFaults(f) {
        return SomethingWentWrong, None;
      }
      if forall id :: id in blogs ==> !DeleteFilterMatches(f, blogs[id]) {
        return Response(404, false, "The given data is Invalid"), None;
      }
      var id :| id in blogs && DeleteFilterMatches(f, blogs[id]);
      picked := Some(id);
      if !blogs[id].isDeleted {
        blogs := blogs[id := blogs[id].(isDeleted := true, deletedAt := Some(now))];
        r := Response(200, true, "Deleted successfully");
      } else {
        r := Response(400, false, "Blog has been already deleted");
      }
    }
  }
}
