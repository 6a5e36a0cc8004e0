# KrushiMitra Q&A core, modelled in Dafny

KrushiMitra is a Spring Boot platform for farmers:
- Farmers ask questions.
- Approved experts answer them.
- The owner of a question, or an administrator, accepts one answer. Accepting an answer clears every other acceptance on that question and marks the question resolved.
- Farmers publish product listings, which an administrator approves.
- Users register and sign in with a bearer token, which a request filter reads back on every request.
- A crop service recommends crops for a season, a soil type and, optionally, a climate.

This project models that core as Dafny code over in-memory tables. The verifier proves the model's contracts and lemmas.

- `Store.Database` is the relational store.
  - The user table is a sequence whose index is the id.
  - The question, answer and listing tables are maps keyed by id.
  - Each table except users has a next-id counter.
  - `Valid()` states what the schema guarantees: unique usernames and emails, rows stored under their own ids, answers pointing at existing questions, questions meeting their not-blank constraints, and listings with a farmer.
- Two workflow rules are stated separately and kept by lemmas:
  - Rule I1 (`Store.OneAcceptedPerQuestion`): at most one accepted answer per question.
  - Rule I2 (`Store.AcceptedImpliesResolved`): a question with an accepted answer is resolved.
- The handlers are methods on the store. Each returns a `Common.Result` whose error kinds mirror the HTTP responses:
  - `Forbidden` is the role rule.
  - `NotFound` is a 404.
  - `EmptyBadRequest` is a 400 with no body.
  - `Rejected(message)` is a 400 with that message.
  - `Failed(prefix)` is a 400 from a caught exception.
- Each handler's contract has four parts: the guard chain in order, the success condition as an if-and-only-if, "nothing changes" on every error, and the exact new table on success.
- The `Question` entity is a class with nullable fields and lifecycle hooks. The question handlers load a row into it, set fields, let the dirty check and the hooks run, and flush it back.
- The repository queries are pure functions over a table's rows in scan order: a filter that keeps order, then, where the query has `ORDER BY`, a sort by a total preorder.
- The password encoder, the token provider and the clock are parameters.

## Model

| member | source | states |
|---|---|---|
| Entities.FindUserByUsername | src/main/java/com/krushimitra/repository/UserRepository.java:16 | a found user is stored and has that username; nothing is found exactly when no stored user has it |
| Entities.FindUserByEmail | src/main/java/com/krushimitra/repository/UserRepository.java:18 | a found user is stored and has that email; nothing is found exactly when no stored user has it |
| Entities.CurrentUser | src/main/java/com/krushimitra/controller/AnswerController.java:64 | the caller's user is found exactly when the request is authenticated and some stored user has its name, and is then that stored user |
| Text.EqualsIgnoreCaseSymmetric | src/main/java/com/krushimitra/service/CropService.java:64 | `equalsIgnoreCase` on two strings is symmetric |
| Text.LikeIsContains | src/main/java/com/krushimitra/repository/QuestionRepository.java:26 | `column LIKE %p%` with a parameter free of wildcards holds exactly when `p` occurs in the column |
| QuestionEntity.Question.constructor | src/main/java/com/krushimitra/entity/Question.java:28-32 | a new question has no views, is unresolved and approved, and every other field is null |
| QuestionEntity.Question.Load | src/main/java/com/krushimitra/entity/Question.java:13-38 | the managed entity of a stored row is valid, stamped and not dirty, and flushes back to the same row |
| QuestionEntity.Question.OnCreate | src/main/java/com/krushimitra/entity/Question.java:40-44 | the creation hook sets both timestamps, from one clock reading each; they are equal when the readings are |
| QuestionEntity.Question.OnUpdate | src/main/java/com/krushimitra/entity/Question.java:46-49 | the update hook moves only the update time; the creation time is kept |
| QuestionEntity.Question.RowAt | src/main/java/com/krushimitra/entity/Question.java:17-26 | a flushed question carries the entity's columns under the given id, has a farmer, and has a title and content that are not blank |
| QuestionRepository.FindByFarmer | src/main/java/com/krushimitra/repository/QuestionRepository.java:15 | every question of the farmer, approved or not, as often as stored, in scan order; no other question |
| QuestionRepository.FindApprovedQuestionsOrderByDate | src/main/java/com/krushimitra/repository/QuestionRepository.java:23-24 | exactly the approved questions (as a multiset), newest first |
| QuestionRepository.FindUnresolvedQuestions | src/main/java/com/krushimitra/repository/QuestionRepository.java:32-33 | exactly the approved, unresolved questions, newest first |
| QuestionRepository.FindByCategoryAndApproved | src/main/java/com/krushimitra/repository/QuestionRepository.java:29-30 | exactly the approved questions of the category, in scan order; a null category selects nothing |
| QuestionRepository.SearchQuestions | src/main/java/com/krushimitra/repository/QuestionRepository.java:26-27 | as written: a question is returned if its title matches, or if its content matches and it is approved |
| QuestionRepository.SearchReturnsUnapproved | src/main/java/com/krushimitra/repository/QuestionRepository.java:26-27 | an unapproved question whose title contains the searched text is returned |
| QuestionRepository.SearchApprovedQuestions | src/main/java/com/krushimitra/repository/QuestionRepository.java:26-27 | corrected search: only approved questions, whose title or content matches |
| AnswerRepository.OrdersArePreorders | src/main/java/com/krushimitra/repository/AnswerRepository.java:24-28 | both `ORDER BY` keys of the answer queries are total preorders |
| AnswerRepository.FindByQuestion | src/main/java/com/krushimitra/repository/AnswerRepository.java:16 | every answer of the question, approved or not, in scan order; no other answer |
| AnswerRepository.FindApprovedAnswersByQuestionOrderByVotes | src/main/java/com/krushimitra/repository/AnswerRepository.java:24-25 | exactly the approved answers of the question, most upvoted first, ties oldest first |
| AnswerRepository.FindApprovedAnswersByExpert | src/main/java/com/krushimitra/repository/AnswerRepository.java:27-28 | exactly the expert's approved answers, newest first |
| AnswerRepository.CountMatchesList | src/main/java/com/krushimitra/repository/AnswerRepository.java:27-31 | the count of the expert's approved answers equals the length of their list |
| AnswerController.CreateAnswer | src/main/java/com/krushimitra/controller/AnswerController.java:60-93 | the guards in order, each with its own error: the unknown user, then the unapproved expert, then the null question id (a caught exception), then the missing question; on success one new answer under a fresh id, approved, not accepted, no votes, with the caller as expert and the given question; otherwise nothing changes |
| AnswerController.UpdateAnswer | src/main/java/com/krushimitra/controller/AnswerController.java:95-120 | not found, then author-or-admin; only content and approval change, each only when the request carries it; otherwise nothing changes |
| AnswerController.AcceptAnswer | src/main/java/com/krushimitra/controller/AnswerController.java:122-156 | not found, then owner-of-question-or-admin (a 400); on success the answer table is `AcceptInAnswers` and the question table is `ResolveQuestion`; otherwise nothing changes |
| AnswerController.Accept | src/main/java/com/krushimitra/controller/AnswerController.java:139-150 | the unaccept loop, the resolve and the accept together yield `AcceptInAnswers` and `ResolveQuestion` |
| AnswerController.UnacceptAll | src/main/java/com/krushimitra/controller/AnswerController.java:139-144 | after the loop every answer of the question is unaccepted and every other answer is untouched |
| AnswerController.UnacceptEach | src/main/java/com/krushimitra/controller/AnswerController.java:141-144 | the loop clears the flag of exactly the listed answers (loop invariant) |
| AnswerController.MarkResolved | src/main/java/com/krushimitra/controller/AnswerController.java:148-149 | the question is resolved; its update time moves only if the flag changed |
| AnswerController.DeleteAnswer | src/main/java/com/krushimitra/controller/AnswerController.java:158-180 | not found, then author-or-admin; on success exactly that id is removed; otherwise nothing changes |
| AnswerController.ScanOfQuestion | src/main/java/com/krushimitra/controller/AnswerController.java:140 | the answers `findByQuestion` lists are the stored answers of the question, and all of them |
| AnswerController.ClearThenAccept | src/main/java/com/krushimitra/controller/AnswerController.java:139-150 | clearing the question's flags and then accepting the target gives `AcceptInAnswers` |
| AnswerController.CreateKeepsRules | src/main/java/com/krushimitra/controller/AnswerController.java:79-88 | adding an unaccepted answer keeps rules I1 and I2 |
| AnswerController.UpdateKeepsRules | src/main/java/com/krushimitra/controller/AnswerController.java:112-115 | editing content and approval keeps rules I1 and I2 |
| AnswerController.DeleteKeepsRules | src/main/java/com/krushimitra/controller/AnswerController.java:175 | removing an answer keeps rules I1 and I2 |
| AnswerController.AcceptKeepsSchema | src/main/java/com/krushimitra/controller/AnswerController.java:139-150 | acceptance keeps the schema guarantees on questions and answers |
| AnswerController.AcceptSelectsTarget | src/main/java/com/krushimitra/controller/AnswerController.java:139-150 | the target is the one accepted answer of its question; answers of other questions are unchanged; only the flag changes |
| AnswerController.AcceptThenAccept | src/main/java/com/krushimitra/controller/AnswerController.java:139-150 | accepting A1 and then A2 of the same question is the same as accepting A2 alone |
| AnswerController.AcceptIdempotent | src/main/java/com/krushimitra/controller/AnswerController.java:139-150 | accepting the same answer twice is the same as once |
| AnswerController.ResolveIdempotent | src/main/java/com/krushimitra/controller/AnswerController.java:148-149 | resolving an already resolved question changes nothing |
| AnswerController.AcceptPreservesRules | src/main/java/com/krushimitra/controller/AnswerController.java:139-150 | acceptance keeps rule I1 (one accepted per question) and rule I2 (accepted implies resolved) |
| QuestionController.WithoutQuestion | src/main/java/com/krushimitra/entity/Question.java:34-35 | the cascade removes exactly the answers of the question and keeps every other answer as it was |
| QuestionController.GetAllQuestions | src/main/java/com/krushimitra/controller/QuestionController.java:42-55 | an unknown user gets an empty 400; a farmer gets each of their own questions exactly once, in scan order; any other role gets each approved question exactly once, newest first |
| QuestionController.ScanListsOnce | src/main/java/com/krushimitra/controller/QuestionController.java:51-53 | the table scan the queries read lists each stored question exactly once |
| QuestionController.CreateQuestion | src/main/java/com/krushimitra/controller/QuestionController.java:70-94 | an unknown user, then a blank title or content, is refused; on success one new question under a fresh id, owned by the caller, approved, unresolved, no views, stamped by the hook; otherwise nothing changes |
| QuestionController.NewQuestion | src/main/java/com/krushimitra/controller/QuestionController.java:79-89 | the new entity flushes exactly when title and content are not blank, to the row with the request's columns and the defaults |
| QuestionController.UpdateQuestion | src/main/java/com/krushimitra/controller/QuestionController.java:96-124 | not found, then owner-or-admin, then validation (a blank title or content is the caught "Failed to update question: " error); on success the row is `Saved`, the edited row stamped only when it changed; otherwise nothing changes |
| QuestionController.SaveEdits | src/main/java/com/krushimitra/controller/QuestionController.java:105-119 | the entity path of an update yields `Saved` and fails exactly when the edited row breaks a constraint |
| QuestionController.EditedEntity | src/main/java/com/krushimitra/controller/QuestionController.java:113-117 | after the setters the entity is the edited row; it is dirty exactly when that row differs from the stored one |
| QuestionController.Flush | src/main/java/com/krushimitra/controller/QuestionController.java:119 | `save` runs the update hook only on a dirty entity and writes only a valid one |
| QuestionController.ApplyRequest | src/main/java/com/krushimitra/controller/QuestionController.java:113-117 | each of title, content, category, tags and resolved is replaced exactly when the request carries it |
| QuestionController.DeleteQuestion | src/main/java/com/krushimitra/controller/QuestionController.java:126-148 | not found, then owner-or-admin; on success the question and, by cascade, its answers are removed; otherwise nothing changes |
| QuestionController.SavedKeepsSchema | src/main/java/com/krushimitra/controller/QuestionController.java:113-119 | a valid edit keeps the schema guarantees |
| QuestionController.UpdateTwiceStampsOnce | src/main/java/com/krushimitra/controller/QuestionController.java:113-119 | saving the same edit again changes nothing, not even the update time |
| QuestionController.SavedKeepsIdentity | src/main/java/com/krushimitra/controller/QuestionController.java:113-119 | an edit keeps id, owner, approval, views and creation time; the update time moves only for a real change |
| QuestionController.CreateKeepsRules | src/main/java/com/krushimitra/controller/QuestionController.java:79-89 | a new question keeps rule I2 |
| QuestionController.UpdateKeepsRules | src/main/java/com/krushimitra/controller/QuestionController.java:113-117 | an edit that does not clear the resolved flag keeps rule I2 |
| QuestionController.UpdateCanBreakResolution | src/main/java/com/krushimitra/controller/QuestionController.java:117 | an edit that clears the resolved flag of a question with an accepted answer breaks rule I2 |
| QuestionController.DeleteKeepsRules | src/main/java/com/krushimitra/controller/QuestionController.java:143 | removing a question with its answers keeps rules I1 and I2 |
| AuthController.ParseRole | src/main/java/com/krushimitra/controller/AuthController.java:87 | a parsed role's name is exactly the requested string |
| AuthController.ParseRoleName | src/main/java/com/krushimitra/controller/AuthController.java:87 | every role name parses back to its role |
| AuthController.Login | src/main/java/com/krushimitra/controller/AuthController.java:30-66 | an unknown user and a wrong password get the same error; a disabled account is reported only after the password matches; success exactly for an enabled user with a matching password, with a token for the username and that user's view |
| AuthController.Register | src/main/java/com/krushimitra/controller/AuthController.java:68-116 | a taken username, then a taken email, then an unknown role name is refused with nothing added; otherwise exactly the new user is appended and a token for the name is returned |
| AuthController.RegisteredDefaults | src/main/java/com/krushimitra/controller/AuthController.java:81-95 | a new user is enabled and stores the encoded password; an expert starts unapproved with no answers |
| AuthController.LoginAfterRegister | src/main/java/com/krushimitra/controller/AuthController.java:30-116 | signing in right after signing up with the same name and password succeeds |
| ListingController.CreateListingAsWritten | src/main/java/com/krushimitra/controller/ProductListingController.java:60-69 | as written: the caller becomes the farmer; a body id naming a stored listing overwrites that listing, any other body is inserted under a fresh id |
| ListingController.CreateCanTakeOverListing | src/main/java/com/krushimitra/controller/ProductListingController.java:63-66 | the table `CreateListingAsWritten` yields for a body carrying another farmer's listing id hands that listing to the caller |
| ListingController.CreateListing | src/main/java/com/krushimitra/controller/ProductListingController.java:60-69 | corrected: the listing is inserted under a fresh id with the caller as farmer; no stored listing changes |
| ListingController.UpdateListing | src/main/java/com/krushimitra/controller/ProductListingController.java:71-84 | farmer only, no admin override; a missing or foreign listing is reported missing; the owner's listing becomes the body with the path id and the caller as farmer |
| ListingController.DeleteListing | src/main/java/com/krushimitra/controller/ProductListingController.java:86-98 | farmer only; a missing or foreign listing is reported missing; the owner's listing is removed |
| ListingController.ApproveListing | src/main/java/com/krushimitra/controller/ProductListingController.java:100-111 | administrator only; an existing listing becomes approved and nothing else changes; a missing one is not found |
| JwtFilter.GetJwtFromRequest | src/main/java/com/krushimitra/security/JwtAuthenticationFilter.java:60-66 | a token exactly when the header has text and starts with `Bearer `, and the header is then the prefix followed by the token |
| JwtFilter.BearerRoundTrip | src/main/java/com/krushimitra/security/JwtAuthenticationFilter.java:62-63 | the header `Bearer ` + t yields t |
| JwtFilter.ResolveIdentity | src/main/java/com/krushimitra/security/JwtAuthenticationFilter.java:38-55 | an identity exactly when the token has text, validates, has a subject and the subject is a stored user; the identity is that user's |
| JwtFilter.ValidTokenAuthenticates | src/main/java/com/krushimitra/security/JwtAuthenticationFilter.java:40-51 | a valid bearer token of a stored user authenticates that user, whether or not the account is enabled |
| JwtFilter.FilterChain.DoFilter | src/main/java/com/krushimitra/security/JwtAuthenticationFilter.java:57 | passing the request on is counted once |
| JwtFilter.DoFilterInternal | src/main/java/com/krushimitra/security/JwtAuthenticationFilter.java:35-58 | the resolved identity is attached, or else the context is left alone; the request is passed on exactly once |
| CropService.FindBySeasonAndSoilType | src/main/java/com/krushimitra/repository/CropRepository.java:20-21 | exactly the crops whose season and soil type equal the parameters, in scan order; null parameters select nothing |
| CropService.GetCropRecommendations | src/main/java/com/krushimitra/service/CropService.java:57-69 | always an order-keeping subsequence of the season and soil matches; equal to them for a null or empty climate; otherwise exactly the matches whose climate equals it ignoring case, so never one with a null climate |
| CropService.ClimateCaseInsensitive | src/main/java/com/krushimitra/service/CropService.java:62-66 | asking for the same climate in another case gives the same recommendations |
| CropService.RecommendationsStable | src/main/java/com/krushimitra/service/CropService.java:57-69 | recommending again from the recommendations changes nothing |

## Left out

- Password hashing and token signing, validation and expiry are opaque functions passed in. Their algorithms are not modelled.
- Concurrency is not modelled. The handlers run as sequential steps. The accept loop's lack of a transaction, and the thread-local security context, are out of scope.
- The clock is a parameter (`now`, `first`, `second`).
- The expert `rating` is a floating-point column and is not modelled.
- Answer.java, User.java and ProductListing.java are not part of this model.
  - Their columns are taken from the handlers that set them.
  - A new user who is not an expert keeps the approval flag `AuthController.DefaultApproval`, taken as approved.
- Answer.createdAt is assumed to be set from the clock on insert, as the question's creation hook does; Answer.java is not modelled. `CreateAnswer` stamps it with `now`, and both answer `ORDER BY` queries sort on it.
- QuestionEntity.Question.OnCreate: it does not promise that the creation and update times are equal. The hook reads the clock twice, so they are equal only when the two readings are.
- Text.EqualsIgnoreCase folds ASCII letters only. Java's `equalsIgnoreCase` also folds other Unicode letters.
- Text.LikeMatch handles `%` and `_` with no escape character. It compares case-sensitively; a database collation may not.
- The role rule of every handler yields `Forbidden`. Spring answers an anonymous caller with 401, not 403; the model does not tell the two apart.
- The handlers write their tables only when they return. A failure part-way through writes nothing, as it would inside a transaction.
- ListingController.CreateListing: a body id that names no stored listing is treated as an insert under a fresh id. The persistence provider's merge of an unknown id is not modelled further.
- Answer content is stored as given. Answer.java is not part of this model, so its own validation is not known here.
- AuthController.Login and AuthController.Register assume every request string is non-null.
  - The "Login failed: " path exists only for exceptions from the collaborators, which are not modelled.
  - A null field in a response map, which would throw, is not modelled.
  - Of the "Registration failed: " paths, only the unknown role name is modelled.
- JwtFilter.DoFilterInternal: the request details attached to the authentication, the authorities list and the logger are not modelled. The identity is the user's name and role.
- The CropService delegations other than `getCropsBySeasonAndSoilType` (getAllCrops, getCropById, saveCrop, deleteCrop, the single-column finders, searchCrops, findByNameContaining) are plain repository calls. They are not modelled.
- The repository queries the handlers do not use (`findByIsApproved`, `findByIsResolved`, `findByCategory`, `findByExpert`, `findByIsAccepted`) are not modelled. Their conditions are single-column filters of the same shape as those modelled.

## Findings

| source | as written | input that shows it | evidently intended | confidence | as-written member | corrected member |
|---|---|---|---|---|---|---|
| src/main/java/com/krushimitra/repository/QuestionRepository.java:26 | `title LIKE … OR content LIKE … AND isApproved = true`; `AND` binds tighter, so approval guards only the content match | an unapproved question whose title contains the searched text is returned | every public query returns approved questions only, so approval should guard both matches | not executed | QuestionRepository.SearchQuestions (with QuestionRepository.SearchReturnsUnapproved) | QuestionRepository.SearchApprovedQuestions |
| src/main/java/com/krushimitra/controller/ProductListingController.java:62-66 | the request body is saved as given apart from its farmer, so a body carrying an id is merged over the stored listing with that id | farmer B posts a listing with the id of farmer A's listing; it is overwritten and now belongs to B | creation always adds a new listing; replacing one is left to `updateListing`, which checks ownership | not executed | ListingController.CreateListingAsWritten (with ListingController.CreateCanTakeOverListing) | ListingController.CreateListing |
