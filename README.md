# Blog publishing backend: request handling

This project models the request handlers of a small blog publishing backend, an Express application over a Mongoose store. It covers three parts:

- the three validation predicates;
- author registration and login;
- the blog lifecycle: create, filtered listing, owner-only update, soft delete by identifier and soft delete by query.

## How the model is built

- A request body or query is a map from keys to JavaScript values (`Js.Value`). Reading a missing key gives `undefined`.
- A response is its HTTP code, the `status` flag of its JSON body and its message (`Http.Response`).
- The short-circuit check chains are pure functions built on `Chains.FirstFailing`. They return the first check that fails.
- The author collection is the field of `Authors.AuthorStore`.
- The blog collection is the field of `Blogs.BlogStore`, a `map` from store identifiers to `Blogs.Blog` records.
- Each handler is a method on its store. Each method states:
  - its response for every branch;
  - the new state of the collection.
- Several inputs are parameters:
  - the clock (`now`);
  - the authenticated caller (`caller`);
  - the identifier the store assigns to a new record (`newId`);
  - the identifiers of the stored authors, for blog creation (`authors`).
- The store's reading of a filter value is modelled in `StoreQuery`. The handlers put request values into filters unchanged. The store reads such a value against a field as follows:
  - a plain value is compared for equality;
  - an array on a single-valued field matches when any element is equal, as `$in` does;
  - an object with a key starting with '$' is a set of operators, each of which must hold (`$eq`, `$ne`, `$in`, `$nin`, the comparisons `$gt`, `$gte`, `$lt`, `$lte` and `$exists` are modelled);
  - a value that does not cast to the field's type makes the store refuse the query, which the handler answers with 500.
- The `$push` of an update is read as the store reads it. The store turns a pushed array into `$each` of its elements, so the elements are appended in order; any other value is appended as a single element (`StoreQuery.AsList`).
- The e-mail regular expression `/^\w+([\.-]?\w+)*@\w+([\.-]?\w+)*(\.\w{2,3})+$/` is written out as recursive predicates in `EmailPattern`.

The handlers as written have defects (see "## Findings"). For each defect the model keeps two things:

- an as-written member, with a lemma that exhibits the discrepancy;
- the corrected behaviour. The stores use it, with two exceptions:
  - `Blogs.CallerFromToken` is not called by the stores, which take the authenticated caller as the `caller` parameter;
  - `EmailPattern.ScanAddress` is called by no handler, which test the address with `EmailPattern.Matches`.

## Model

| member | source | states |
|---|---|---|
| Validator.IsValid | src/utils/validator.js:2-6 | false exactly for undefined, null and a string with no non-white-space character; true for every other value, `false`, `0` and arrays included |
| Validator.IsValidDependsOnTrim | src/utils/validator.js:4 | two strings with the same trimmed form get the same answer |
| Validator.IndexOf | src/utils/validator.js:9 | -1 exactly when no element is strictly equal to the value, otherwise the first position of an equal element |
| Validator.IsValidTitle | src/utils/validator.js:8-10 | holds exactly for the strings Mr, Mrs, Miss and Mast, case-sensitively; never for a non-string |
| Validator.IsValidRequestBody | src/utils/validator.js:14-16 | holds exactly when the object has at least one key |
| Js.TrimStart | src/utils/validator.js:4 | the suffix left after dropping only white space from the front; empty or starting with a non-white character |
| Js.TrimEnd | src/utils/validator.js:4 | the prefix left after dropping only white space from the end; empty or ending with a non-white character |
| Js.Trim | src/utils/validator.js:4 | a contiguous part of the input with only white space before and after it; neither starts nor ends with white space; empty exactly when the input is all white space |
| Js.TrimIdempotent | src/controller/blogController.js:95-98 | trimming a trimmed string changes nothing |
| Js.Split | src/controller/blogController.js:97 | one more piece than separators in the input, and no piece holds the separator |
| Js.TrimKeepsOut | src/controller/blogController.js:98 | trimming only removes characters: a character absent from a string is absent from its trim |
| Js.JoinSplit | src/controller/blogController.js:95-98 | joining the pieces of a split with the same separator gives back the input |
| Chains.FirstFailing | src/controller/authorController.js:11-44 | none exactly when every check of the chain passes; otherwise a failing check that every earlier check passes |
| EmailPattern.Matches | src/controller/authorController.js:37 | the expression's test, also at line 78: some '@' splits the address into a dotted word and a domain, and the domain into a dotted word and its labels (the properties follow) |
| EmailPattern.MatchHasOneAt | src/controller/authorController.js:37 | an accepted address holds exactly one '@' |
| EmailPattern.MatchEndsWithShortLabel | src/controller/authorController.js:37 | an accepted address ends in a dot followed by two or three word characters |
| EmailPattern.SplitShape | src/controller/authorController.js:37 | the induction over split points behind the two properties above |
| EmailPattern.AcceptedExamples | src/controller/authorController.js:37 | a@b.com and a@b.co.in are accepted |
| EmailPattern.RejectsOneLetterLabel | src/controller/authorController.js:37 | a@b.c is refused |
| EmailPattern.RejectsFourLetterLabel | src/controller/authorController.js:37 | a@b.info is refused |
| EmailPattern.RejectsTwoAts | src/controller/authorController.js:37 | a@b@c.com is refused |
| EmailPattern.ParsesExactlyWhenMatching | src/controller/authorController.js:37 | the number of ways `\w+([\.-]?\w+)*` and its repeated group match a string is positive exactly on the strings they denote |
| EmailPattern.WordRunParsesExponentially | src/controller/authorController.js:37 | every run of n word characters is matched by `\w+([\.-]?\w+)*` in 2^(n-1) ways |
| EmailPattern.ScanDottedWord | src/controller/authorController.js:37 | a single pass from the end decides `\w+([\.-]?\w+)*` exactly |
| EmailPattern.WordTailConcat | src/controller/authorController.js:37 | word tails, the strings that may follow the first character of `\w+([\.-]?\w+)*`, are closed under concatenation |
| EmailPattern.LabelsAreWordTail | src/controller/authorController.js:37 | every string of `(\.\w{2,3})+` is a word tail |
| EmailPattern.WordTailBeforeSeparator | src/controller/authorController.js:37 | the part of a word tail before one of its dots or dashes is again a word tail |
| EmailPattern.DomainFromSplit | src/controller/authorController.js:37 | the domain matches from a position exactly when some later split leaves a dotted word and labels |
| EmailPattern.DomainIsWordWithLabels | src/controller/authorController.js:37 | the domain part matches exactly when it is a dotted word whose labels start after its first character |
| EmailPattern.SplitFromAt | src/controller/authorController.js:37 | the address matches from a position exactly when some later '@' splits it into a dotted word and a domain |
| EmailPattern.MatchesAtFirstAt | src/controller/authorController.js:37 | the address matches exactly when its first '@' splits it into a dotted word and a domain |
| EmailPattern.LabelsStep | src/controller/authorController.js:37 | whether labels start at a position follows from its next four characters and the answers three and four positions on |
| EmailPattern.ScanLabels | src/controller/authorController.js:37 | a single pass from the end finds exactly whether labels start at some position after the first |
| EmailPattern.ScanDomain | src/controller/authorController.js:37 | two single passes decide the domain part `\w+([\.-]?\w+)*(\.\w{2,3})+` exactly |
| EmailPattern.ScanAddress | src/controller/authorController.js:37 | a search for the first '@' and single passes over the two parts decide the whole pattern exactly, for every input |
| StoreQuery.CastBoolean | src/controller/blogController.js:50 | a Boolean is kept; only Booleans, strings and numbers are accepted; a value cast to true is truthy |
| StoreQuery.Holds | src/controller/blogController.js:260-275 | the store's reading of a filter value against a field: a plain value by equality, an array on a single-valued field by any element, an operator object by every operator, comparisons by the order of values of one type (the partner lemmas follow) |
| StoreQuery.Faults | src/controller/blogController.js:260-275 | the store refuses a filter value that does not cast to the field's type, an `$exists` operand that does not cast to a Boolean, or an operator the model does not read |
| StoreQuery.PlainValueIsEquality | src/controller/blogController.js:260-275 | a plain filter value matches exactly the equal fields and is refused exactly when it does not cast |
| StoreQuery.ArrayIsIn | src/controller/blogController.js:260-275 | on a single-valued field an array matches and faults exactly as `$in` of its elements does |
| StoreQuery.NeNegatesEq | src/controller/authorController.js:87 | `$ne` of a value matches exactly where `$eq` of it does not |
| StoreQuery.NinNegatesIn | src/controller/blogController.js:260-275 | `$nin` of a value matches exactly where `$in` of it does not |
| StoreQuery.EqOfPlainValue | src/controller/blogController.js:260-275 | `$eq` of a plain value matches exactly what the value matches |
| StoreQuery.NeMatchesOtherValues | src/controller/authorController.js:87 | `$ne` of any other string matches a stored string, and the store accepts it |
| StoreQuery.StrLessTrichotomy | src/controller/authorController.js:87 | the store's order of strings is strict and total: of two different strings exactly one comes first |
| StoreQuery.GtNegatesLte | src/controller/authorController.js:87 | on a string field `$gt` of a string matches exactly where `$lte` of it does not |
| StoreQuery.GreaterThanEmptyMatchesNonEmpty | src/controller/authorController.js:87 | `$gt` of the empty string matches every non-empty stored string, and the store accepts it |
| Authors.CheckRegistration | src/controller/authorController.js:11-44 | succeeds exactly when all eight checks pass (non-empty body, fname, lname, title, title in set, email, email pattern, password); otherwise reports the first failing check in that order; on success carries the five given fields |
| Authors.RegistrationRejection | src/controller/authorController.js:11-44 | every failed registration check answers 400 with a failure flag |
| Authors.EarlyRejectionsClaimSuccess | src/controller/authorController.js:12-28 | as written, exactly the first four rejections carry `status: true`; code and message match the intended rejection |
| Authors.CheckLogin | src/controller/authorController.js:65-84 | succeeds exactly when the four login checks pass (non-empty body, email, email pattern, password); otherwise reports the first failure; on success carries the given e-mail and password |
| Authors.LoginRejection | src/controller/authorController.js:65-84 | every failed login check answers 400 with a failure flag |
| Authors.PassingEachLoginCheck | src/controller/authorController.js:65-84 | a body passing each login check on its own passes the chain |
| Authors.LoginAsWrittenRefusesGoodCredentials | src/controller/authorController.js:65 | credentials passing every login check still get 500 from the handler as written |
| Authors.FindOne | src/controller/authorController.js:45 | none exactly when no stored author satisfies the query, otherwise the first one that does in insertion order |
| Authors.AuthorStore.Register | src/controller/authorController.js:6-58 | a failed check answers its 400 and stores nothing; an e-mail already held answers 400 and stores nothing; otherwise 201 and exactly one author with the five given fields is appended; e-mails and identifiers stay unique |
| Authors.AuthorStore.Login | src/controller/authorController.js:62-98 | a failed check answers its 400; after the checks, 200 exactly when some stored author has both the given e-mail and the given password, otherwise 401; on 200 the same token, naming such an author, is in the header and the body |
| Authors.LookupAsQueried | src/controller/authorController.js:87 | the credentials lookup as the store reads it: refused when the password does not cast to a string or holds an operator the model does not read, otherwise whether an author with the e-mail meets the password condition |
| Authors.StringPasswordLookupIsExact | src/controller/authorController.js:87 | for a string password, the store's reading of the lookup finds an author exactly when the exact match does |
| Authors.NotEqualBodyPassesChecks | src/controller/authorController.js:65-84 | a body whose password is `{"$ne": "x"}` passes every login check |
| Authors.OperatorPasswordLogsIn | src/controller/authorController.js:87 | as the store reads it, the password `{"$ne": "x"}` finds an author whose password is "secret"; the exact match finds no one |
| Authors.GreaterThanEmptyLogsIn | src/controller/authorController.js:87 | as the store reads it, the password `{"$gt": ""}` finds every author with the e-mail and a non-empty password; the exact match finds no one |
| Blogs.WellFormedIdIsNonBlank | src/controller/blogController.js:88 | a well-formed identifier also passes the non-blank check |
| Blogs.CastFault | src/controller/blogController.js:75-76 | a refused cast answers 500 with a failure flag |
| Blogs.CheckCreate | src/controller/blogController.js:8-43 | succeeds exactly when all seven checks pass (non-empty body, title, body, author id present, well-formed, existing, category); otherwise reports the first failure; on success yields an existing author's identifier |
| Blogs.CreateRejection | src/controller/blogController.js:8-43 | every failed creation check answers 400 with a failure flag; a malformed author id is quoted in the message |
| Blogs.PassingEachCreateCheck | src/controller/blogController.js:8-43 | a body that passes every creation check on its own passes the chain |
| Blogs.EveryCheckPasses | src/controller/blogController.js:8-43 | a non-empty body with non-blank title, body and category and a well-formed identifier of an existing author passes every creation check |
| Blogs.ArrayOrEmpty | src/controller/blogController.js:54-65 | a given array is copied element for element, anything else gives an empty field |
| Blogs.NewBlog | src/controller/blogController.js:45-65 | refused exactly when a truthy isPublished does not cast; otherwise a stamped, undeleted record, published exactly when isPublished casts to true, then dated now; every other field is the given one |
| Blogs.NewBlogAsWrittenStampsTruthy | src/controller/blogController.js:50-51 | as written, a date is stamped exactly when isPublished is truthy; this matches the corrected record when isPublished is absent, null or a Boolean |
| Blogs.FalseStringIsStampedAsWritten | src/controller/blogController.js:50-51 | as written, isPublished "false" gives an unpublished record with a publication date |
| Blogs.CreateAsWrittenRefusesGoodBlog | src/controller/blogController.js:8 | a body passing every creation check still gets 500 from the handler as written |
| Blogs.Pieces | src/controller/blogController.js:95-98 | one piece more than the commas in the trimmed query value; no piece holds a comma or starts or ends with white space; each piece is the trim of a part, and the parts joined with commas give the trimmed value |
| Blogs.SplitTrimmed | src/controller/blogController.js:95-98 | the properties of the pieces, stated of the trimmed value |
| Blogs.TrimmedPiece | src/controller/blogController.js:98 | a trimmed part is trimmed, and has no comma when the part had none |
| Blogs.TrimAll | src/controller/blogController.js:98 | the same number of strings, each the trim of the one at its position |
| Blogs.ContainsAllIsSuperset | src/controller/blogController.js:99 | `$all` holds exactly when the field's strings include the set of wanted strings |
| Blogs.ContainsAllMembers | src/controller/blogController.js:99 | `$all` holds exactly when every wanted string is in the field |
| Blogs.MoreWantedNarrows | src/controller/blogController.js:99 | asking for more tags can only narrow the match |
| Blogs.ListingFault | src/controller/blogController.js:91-106 | the listing fails with 500 exactly when a non-blank category, tags or subcategory is not a string |
| Blogs.Listed | src/controller/blogController.js:84-106 | the listing's reference selection: published and not deleted, the given well-formed author, the given category trimmed, and every comma piece of the tags and subcategory asked for |
| Blogs.EmptyQueryListsPublished | src/controller/blogController.js:84-86 | an empty query lists exactly the published blogs that are not deleted |
| Blogs.FilterAgrees | src/controller/blogController.js:84-107 | the filter of the non-blank refinements matches a blog exactly when the query lists it |
| Blogs.BuildFilter | src/controller/blogController.js:84-108 | fails exactly on a listing fault; otherwise the store's answer to the built filter is exactly the blogs the query lists |
| Blogs.EmptyListingAsWrittenFails | src/controller/blogController.js:86-88 | even the empty query gets 500 from the handler as written |
| Blogs.IsOwner | src/controller/blogController.js:134 | the ownership test of the update, also at line 244 for the query delete: the caller is the blog's author |
| Blogs.OwnerCheckAsWired | src/controller/blogController.js:134 | as wired, no caller passes the ownership test; with the token's subject, exactly the blog's author does |
| Blogs.PublishedAfterUpdate | src/controller/blogController.js:159 | an absent or null isPublished keeps the stored value; a Boolean is taken as given; any other value is cast, and refused when the cast fails |
| Blogs.Updated | src/controller/blogController.js:153-169 | refused exactly when a given isPublished does not cast; otherwise the stored isPublished is the one requested, title and body replaced, tags and subcategory extended at the end by what was given, author, category and deletion kept, a publication date exactly when published and then now; the record invariant is kept |
| Blogs.UpdatePublishes | src/controller/blogController.js:159-169 | isPublished true publishes the blog dated now; isPublished false withdraws it with no date |
| Blogs.PublishingDraftAsWrittenLosesDate | src/controller/blogController.js:164-169 | as written, publishing a draft stores a published record with no date; the corrected update dates it now |
| Blogs.SoftDeleted | src/controller/blogController.js:202-206 | marks the record deleted at now, changes no other field, and keeps the record invariant |
| Blogs.DeleteOutcome | src/controller/blogController.js:196-221 | 200 exactly for a well-formed stored identifier of an undeleted blog, and then only that blog is marked deleted; every other answer changes nothing; an already deleted blog answers 404 "Blog already deleted"; an empty or unknown well-formed identifier answers 404 "Blog Id not found"; a malformed one answers 500 |
| Blogs.DeleteTwiceIsNoop | src/controller/blogController.js:201-218 | a second delete of the same identifier answers non-200 and changes nothing |
| Blogs.UnknownIdAsWrittenFails | src/controller/blogController.js:199-201 | for any collection and any well-formed identifier it does not hold: as written, 500; corrected, 404 "Blog Id not found"; the collection is unchanged either way |
| Blogs.Selected | src/controller/blogController.js:260-276 | the delete's reference selection: every field the query gives holds of the blog as the store reads the value |
| Blogs.BuildDeleteFilter | src/controller/blogController.js:260-275 | copies each field exactly when the query gives it; the store refuses it exactly when a given value does not cast to its field's type; it matches exactly the blogs the query selects, with arrays and operator objects read as the store reads them |
| Blogs.RepeatedCategorySelectsEither | src/controller/blogController.js:262 | a category given twice in the query selects a blog in either category, and the store accepts it |
| Blogs.PathCheck | src/controller/blogController.js:233-252 | the query delete goes past its first steps exactly when the path identifier is a well-formed identifier of a stored blog whose author is the caller |
| Blogs.UnboundPathIdAlwaysRefused | src/controller/blogController.js:233-243 | with the path identifier unbound, every collection and caller get 400; the author of a stored blog naming it gets past the first steps |
| Blogs.PublishedGuardIgnoresIsPublished | src/controller/blogController.js:273-274 | as written, a query for published blogs of a category selects a draft of that category |
| Blogs.BlogStore.Create | src/controller/blogController.js:5-78 | a failed check answers its 400 and a refused cast its 500, both storing nothing; otherwise 201 and exactly the new record under the new identifier; records stay stamped |
| Blogs.BlogStore.List | src/controller/blogController.js:82-118 | on a fault nothing is listed; otherwise exactly the stored blogs the query lists, 404 when none, 200 otherwise |
| Blogs.BlogStore.Update | src/controller/blogController.js:120-191 | a malformed identifier answers 500, an unknown one 400, a non-owner 401, a missing mandatory field 404, all changing nothing; otherwise only that blog becomes its updated record, with 200 |
| Blogs.BlogStore.Delete | src/controller/blogController.js:194-227 | answer and new collection are those of the deletion outcome; records stay stamped |
| Blogs.BlogStore.DeleteMatching | src/controller/blogController.js:230-310 | the path blog must exist and be the caller's (400, 401); without a selector 404; a malformed filter 500; no match 404; an already deleted match 400; otherwise only the selected blog is marked deleted with 200; every refusal changes nothing |

## Left out

- Request and response objects, async sequencing, routing and the catch-all blocks are not modelled as such. A handler is a method whose steps complete in order. A thrown error becomes the 500 response the catch block sends.
- Blogs.CastFault: the text of the store's cast error is paraphrased. Only its code and flag are stated.
- Mongoose casting is modelled for the Boolean isPublished path and for identifiers in filters. Every other field is stored as the value given, and a filter compares string fields with the value as given: the store's conversion of a number or a Boolean to a string is not modelled.
- StoreQuery.Faults, StoreQuery.Holds, Authors.LookupAsQueried, Blogs.DeleteFilterMatches and Blogs.Selected read only the operators `$eq`, `$ne`, `$in`, `$nin`, `$gt`, `$gte`, `$lt`, `$lte` and `$exists`. Any other `$` key, such as `$regex`, `$all`, `$size`, `$elemMatch`, `$not` or `$type`, is taken to make the store refuse the query, where the store evaluates them: a password `{"$regex": ""}` logs in as the store reads it, and the model refuses it.
- StoreQuery.Holds compares only values of one type (numbers, strings, Booleans), identifiers as their strings, and an array field by its elements; comparing a whole array operand with an array field is not modelled.
- Blogs.CheckCreate, Blogs.DeleteOutcome, Blogs.BlogStore.Update, Blogs.BlogStore.DeleteMatching, Blogs.DeleteFilterMatches, Blogs.Listed, Blogs.BuildFilter and Blogs.BlogStore.List compare identifiers as strings, case-sensitively. The store reads an identifier as 12 bytes and ignores the case of its hexadecimal digits. So an upper-case spelling of an existing identifier is refused in the model, where the store finds the record: creating a blog with such an author id answers 201 in the store and 400 in the model.
- EmailPattern.Matches states which addresses the expression accepts, not how long the matching takes. The backtracking cost is stated by EmailPattern.WordRunParsesExponentially, and the linear decision of the whole pattern by EmailPattern.ScanAddress. Neither handler is changed to use it.
- Numbers are integers: there is no floating point.
- A non-string e-mail is taken not to match the pattern. JavaScript would convert it to a string first.
- Identifiers are 24 hexadecimal digits. The 12-character form the store also accepts is not modelled.
- The identifier of a new record and the clock are parameters: the store chooses the first and the system clock gives the second.
- Signing the login token with the server secret is abstract: a token is the author's identifier.
- The authentication middleware (src/middleware/middleware.js) is not part of this model. Its effect is the `caller` parameter.
- Authors.AuthorStore.Login and Blogs.BlogStore.DeleteMatching do not fix which of several matching records the store returns. The store's natural order is not modelled, so the pick is any match.
- Blogs.BlogStore.DeleteMatching takes `pathId` as a string parameter: it models the handler with a bound path identifier. As routed the identifier is undefined, which Blogs.PathCheck and a finding below cover.
- Blogs.DeleteFilterMatches and Blogs.PathCheck take an undefined filter value to reach the store as null, as the database driver writes it by default. Under the driver's option to drop undefined values instead, both filters would lose that key.
- Blogs.PublishedAfterUpdate treats an explicit null isPublished as absent.
- Blogs.BlogStore.Delete has no ownership check, as in the source.
- The save after the query delete is not awaited in the source. The model treats it as completed.
- The data returned in responses and the name of the message field (`message` or `msg`) are not modelled.
- The response copy of the updated blog is not modelled separately from the stored one.

## Findings

| source | as written | input that shows it | evidently intended | confidence | as-written member | corrected member |
|---|---|---|---|---|---|---|
| src/controller/blogController.js:8 | `validator` is never imported, and validator.js exports no `isValidObjectId` | any body, e.g. a complete blog with an existing author | run the creation checks, with a well-formed-identifier test | not executed | Blogs.CreateBlogAsWritten, Blogs.CreateAsWrittenRefusesGoodBlog | Blogs.CheckCreate |
| src/controller/blogController.js:86-88 | `validator` and `isValidObjectId` are unbound in the listing | the empty query | list the published, undeleted blogs the query selects | not executed | Blogs.GetBlogAsWritten, Blogs.EmptyListingAsWrittenFails | Blogs.BuildFilter |
| src/controller/authorController.js:65 | `isValidRequestBody` is called unqualified and is unbound | {email: "a@b.com", password: "x"} | check the body, then look up the credentials | not executed | Authors.LoginAsWritten, Authors.LoginAsWrittenRefusesGoodCredentials | Authors.CheckLogin |
| src/controller/blogController.js:122 | the handlers read `req.userId`; the middleware sets `req.authorId` (src/middleware/middleware.js:17) | the blog's own author updating it | the caller is the token's subject | not executed | Blogs.CallerAsWired, Blogs.OwnerCheckAsWired | Blogs.CallerFromToken |
| src/controller/blogController.js:201 | `data[0]` is read without checking that the result is non-empty | an unknown well-formed identifier | 404 "Blog Id not found" | not executed | Blogs.DeleteOutcomeAsWritten, Blogs.UnknownIdAsWrittenFails | Blogs.DeleteOutcome |
| src/controller/blogController.js:273-274 | the guard tests `published` but copies `isPublished` | {category: "c", isPublished: "true"} and a draft in category c | filter on isPublished when it is given | not executed | Blogs.DeleteFilterAsWritten, Blogs.PublishedGuardIgnoresIsPublished | Blogs.Selected, Blogs.BuildDeleteFilter |
| src/controller/blogController.js:233 | the route DELETE /blogs (src/routes/route.js:16) binds no `:blogId`, so the handler looks up `_id: undefined`, which finds no blog | any query, from any caller | look up the caller's blog by an identifier the request gives | not executed | Blogs.PathCheck, Blogs.UnboundPathIdAlwaysRefused | Blogs.BlogStore.DeleteMatching |
| src/controller/blogController.js:164-169 | the publication date is fixed on the returned copy only, never saved | publishing a draft with isPublished true | store the date with the update | not executed | Blogs.StoredAfterUpdateAsWritten, Blogs.PublishingDraftAsWrittenLosesDate | Blogs.Updated |
| src/controller/authorController.js:12-28 | the first four rejections send `status: true` | an empty body | `status: false` on every rejection | not executed | Authors.RegistrationRejectionAsWritten, Authors.EarlyRejectionsClaimSuccess | Authors.RegistrationRejection |
| src/controller/blogController.js:50-51 | the date follows the truthiness of isPublished, and the store casts "false" to false | isPublished "false" | a date exactly when the stored blog is published | not executed | Blogs.NewBlogAsWritten, Blogs.FalseStringIsStampedAsWritten | Blogs.NewBlog |
| src/controller/authorController.js:87 | the password from the body goes into the lookup unchanged, so the store reads an object as operators; this is reached once the unbound call of line 65 is fixed | {email: "a@b.com", password: {"$ne": "x"}} for a stored author a@b.com whose password is "secret"; {"$gt": ""} for any non-empty password | find an author only by the exact password | not executed | Authors.LookupAsQueried, Authors.OperatorPasswordLogsIn, Authors.GreaterThanEmptyLogsIn | Authors.FindOne |
| src/controller/authorController.js:37 | the same expression is also tested at line 78; the nested repetition in `\w+([\.-]?\w+)*`, which both the local part and the domain hold, lets a backtracking matcher split a run of word characters in exponentially many ways before it fails | "aaaa…a!" or "a@aaaa…a!" with a few dozen letters | accept or refuse an address in time linear in its length | not executed | EmailPattern.Runs, EmailPattern.WordRunParsesExponentially | EmailPattern.ScanAddress |
