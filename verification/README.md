# troqWEB offer and user store, in Dafny

troqWEB is a small marketplace. Users register and log in, publish offers (sell,
swap, service, buy) with an optional phone and address, browse offers by search term
and category, and edit or delete their own offers. This project models the part of it
that decides things:

- **`JsonStore`** (`json_store.dfy`) is the JSON-file backend, `db_json.js`. It is a
  class `JsonDb` holding the document's `users` and `offers` arrays. Each mutating
  operation is a method that changes the arrays in place. Each query is a function
  over them. The class invariant says user ids, e-mails and offer ids are unique.
- **`PgStore`** (`pg_store.dfy`) is the relational backend, `db_postgres.js`. It
  covers the `getAllOffers` query builder with its running `$n` counter, the
  blank-term guard of `findUsersByName`, and the check-then-act logic of `updateOffer`
  and `deleteOffer`. That logic is read over a table value. Lemmas compare these
  outcomes with the JSON backend's.
- **`Server`** (`server.dfy`) is the HTTP layer, `server.js`. It covers the backend
  selector, the required-field and phone checks, the answers of the login, read,
  password-change and user-search handlers, and the mapping from store errors to
  status codes.
- **`Client`** (`client.dfy`) is the browser script, `public/script.js`. It covers the
  e-mail and phone format tests, the phone input mask, `encodeURIComponent`, the
  offer-list URL builder, and the category bar's active category.
- **`Text`**, **`Seqs`** and **`Records`** hold what the above share: JavaScript's white
  space, `trim`, `includes`, `join` and `split`, and the phone pattern; `findIndex`,
  `find`, `filter` and a stable `sort`; and the record types, fallbacks and error
  messages.

Conventions:

- A JavaScript value that is `undefined` or `null` is `None`.
- An absent query parameter or store argument is the empty string, which JavaScript
  also treats as false.
- Fresh ids and timestamps are method parameters. Timestamps are integers.

## Model

| member | source | states |
|---|---|---|
| Text.Trim | db_json.js:119 | the trimmed string is the input with a white-space prefix and a white-space suffix cut off; it is empty exactly when the input is empty or all white space, and otherwise neither starts nor ends with white space |
| Text.ContainsAt | db_json.js:126 | `includes` holds exactly when the needle occurs at some position of the string |
| Text.NotContainsMissingChar | server.js:218 | a needle with a character the string lacks is not contained in it |
| Text.LexLeTotal | db_json.js:131 | the name order compares any two names |
| Text.LexLeTransitive | db_json.js:131 | the name order is transitive |
| Text.LexLeAntisymmetric | db_json.js:131 | names ordered both ways are equal |
| Text.ParseNatToString | db_postgres.js:44 | a printed placeholder number reads back as the same number |
| Text.SplitJoin | public/script.js:183 | joining parts that contain no separator and splitting again gives back the parts |
| Text.MatchesPhonePatternIff | server.js:23 | the phone test accepts exactly `(DD) ` + four or five digits + `-` + four digits |
| Seqs.FindIndex | db_json.js:89 | -1 exactly when no element matches; otherwise the first matching position |
| Seqs.Find | db_json.js:44 | nothing exactly when no element matches; otherwise a matching element of the array with no match before it, so the first match |
| Seqs.Filter | db_json.js:126 | the result keeps only matching elements of the array, and every matching element is kept |
| Seqs.FilterRemovesOne | db_json.js:263 | filtering out the one element that fails the test is `splice(i, 1)`: the others stay, in order |
| Seqs.SortBy | db_json.js:131 | sorting permutes the array (same multiset) |
| Seqs.SortBySorted | db_json.js:196 | with a total, transitive comparator the sorted array is ordered by it |
| Seqs.SortByMembers | db_json.js:233 | sorting keeps the length and exactly the same elements |
| Records.WithFields | db_json.js:246-252 | an update sets the seven editable fields and keeps id, owner and creation time |
| JsonStore.UserIndex | db_json.js:89 | -1 exactly when no user has the id, else the position of one that has it |
| JsonStore.OfferIndex | db_json.js:240 | -1 exactly when no offer has the id, else the position of one that has it |
| JsonStore.Author | db_json.js:189 | no author exactly when no user has the owner id; otherwise a user with that id |
| JsonStore.AuthorName | db_json.js:194 | the owner's name when the owner exists, otherwise "Usuário Desconhecido" |
| JsonStore.AuthorEmail | db_json.js:211 | the owner's e-mail when the owner exists, otherwise "email@desconhecido.com" |
| JsonStore.SelectOffers | db_json.js:158-184 | an offer survives the staged filters exactly when it passes the conjunctive smart filter `Listed`; with no filter every offer survives, in order |
| JsonStore.ViewsOf | db_json.js:187-195 | one author-joined row per selected offer |
| JsonStore.ViewsOfMembers | db_json.js:187-195 | the rows are exactly the author-joined views of the selected offers |
| JsonStore.NameOrderIsTotalPreorder | db_json.js:131 | ordering profiles by name is total and transitive |
| JsonStore.JsonDb.constructor | db_json.js:17 | the bootstrapped document is empty and valid |
| JsonStore.JsonDb.FindUserByEmail | db_json.js:41-45 | nothing exactly when no user has that exact e-mail, else such a user |
| JsonStore.JsonDb.FindUserById | db_json.js:65-74 | nothing exactly when the id is unknown, else that user without the password |
| JsonStore.JsonDb.FindUserByIdWithPassword | db_json.js:76-80 | nothing exactly when the id is unknown, else that user's full record |
| JsonStore.JsonDb.FindUsersByName | db_json.js:117-132 | empty for a blank term; otherwise exactly the users whose name contains the lower-cased term, without passwords, ordered by name |
| JsonStore.JsonDb.GetAllOffers | db_json.js:158-197 | exactly the listed offers joined with their author's name (fallback included), newest first; with no filter every offer |
| JsonStore.JsonDb.GetOfferById | db_json.js:200-213 | nothing exactly when the id is unknown, else that offer with its author's name and e-mail or their fallbacks |
| JsonStore.JsonDb.GetOfferByIdAndOwner | db_json.js:214-220 | a record exactly when one offer matches both id and owner, so an absent and a foreign offer look the same |
| JsonStore.JsonDb.GetMyOffers | db_json.js:223-234 | exactly the caller's offers as listings, newest first |
| JsonStore.JsonDb.CreateUser | db_json.js:46-63 | refused with "UNIQUE constraint failed", and nothing written, exactly when the e-mail is taken; otherwise one user appended with no avatar and its id returned; e-mails stay unique |
| JsonStore.JsonDb.UpdateUser | db_json.js:81-104 | duplicate e-mail first, then not found, both writing nothing; otherwise only that user's name, e-mail and (when passed) avatar change, and the result has no password |
| JsonStore.JsonDb.UpdateUserPassword | db_json.js:106-115 | an unknown id is refused and nothing is written; otherwise only that user's password changes |
| JsonStore.JsonDb.CreateOffer | db_json.js:137-155 | exactly one offer appended, with the given owner, fields and time; its id returned |
| JsonStore.JsonDb.UpdateOffer | db_json.js:237-256 | "not found" before "access denied", both writing nothing; otherwise only that offer's seven fields change and it is returned |
| JsonStore.JsonDb.DeleteOffer | db_json.js:258-266 | "not found" before "access denied", both writing nothing; otherwise exactly that offer is removed and the rest keep their order |
| JsonStore.CreateThenGetOffer | db_json.js:137-155 | an offer read back by id after creation carries every submitted field, its id and time, and the creator's name |
| PgStore.Placeholder | db_postgres.js:44 | `$n` is `$` followed by the decimal digits of n |
| PgStore.BuildOffersQuery | db_postgres.js:29-65 | one condition and one parameter per given filter; conditions numbered `$1, $2` in push order; search first, bound to `%term%`; `offer_type` for a type name and `category` otherwise, bound to the raw value; no WHERE without filters; always ORDER BY newest |
| PgStore.PushConditions | db_postgres.js:39-60 | the running parameter index numbers the search condition `$1` and the category condition after it; one parameter per condition |
| PgStore.ConditionsNameTheirPlaceholder | db_postgres.js:44-56 | each condition mentions the placeholder it was built with |
| PgStore.UsersByNameQuery | db_postgres.js:14 | no query exactly when the term is empty or blank; otherwise one ILIKE query bound to `%term%` |
| PgStore.OwnedOfferRow | db_postgres.js:82-86 | no row exactly when no offer matches both id and owner |
| PgStore.UpdateWhereId | db_postgres.js:96-99 | the UPDATE sets the fields of every row with the id and leaves the others |
| PgStore.PgUpdateOffer | db_postgres.js:94-102 | one refusal for both a missing and a foreign offer, leaving the table unchanged; otherwise the UPDATE runs and a row with that id is returned |
| PgStore.OwnersWhereId | db_postgres.js:104 | no owner rows exactly when no offer has the id |
| PgStore.PgDeleteOffer | db_postgres.js:104 | "not found" for a missing offer without touching the table; on success the rows with that id are gone; the row-count failure cannot occur after the checks |
| PgStore.DeleteBackendsAgree | db_postgres.js:104 | with unique ids the relational delete gives the JSON store's outcome and table in every case |
| PgStore.UpdateBackendsCompared | db_postgres.js:94-102 | with unique ids an owner's update gives the JSON store's record and table; every other case is the single collapsed refusal |
| Server.SelectBackend | server.js:12 | the JSON file exactly when `DB_MODE` is `json`; the database when unset or anything else |
| Server.PhoneAcceptedIff | server.js:92 | a phone is accepted exactly when it is absent, blank or of the phone pattern's shape |
| Server.AdmitOffer | server.js:88-98 | rejected with 400 exactly when type or title is missing or the phone is malformed, missing fields checked first; otherwise the store receives type, title, description, image URL, phone and address, and no category, as the handlers are written |
| Server.AdmitOfferWithCategory | server.js:88-98 | the corrected admission: the same answers as the handlers, and on admission the form's fields with its category |
| Server.OfferFieldsAsWritten | server.js:208-216 | as written, the store arguments carry no category |
| Server.OfferFieldsFromBody | server.js:208-216 | the store arguments are the form's fields, the category included, and the image URL |
| Server.CategoryLostOnEdit | server.js:208-216 | as written, an offer edited through an admitted form drops out of its own category list |
| Server.CategoryKeptOnEdit | server.js:208-216 | with the corrected admission, an edited offer is listed under the category the form sent |
| Server.AdmitRegistration | server.js:45-48 | passes exactly when name, e-mail and password are given and the e-mail is well formed; otherwise 400, missing fields first |
| Server.AdmitAccountUpdate | server.js:169-174 | passes exactly when name and e-mail are given and the e-mail is well formed; otherwise 400, missing fields first |
| Server.RegisterErrorResponse | server.js:53-56 | 409 exactly for code 23505 or a message containing "UNIQUE constraint failed", else 500 |
| Server.AccountErrorResponse | server.js:181-185 | 409 exactly for a duplicate e-mail, else 500 |
| Server.DeleteErrorResponse | server.js:146-151 | 403 exactly for "Acesso negado", 404 exactly for "Oferta não encontrada", 500 for anything else; the two messages pass through |
| Server.UpdateOfferErrorResponse | server.js:218 | 403 exactly when the message contains "Acesso negado", else 500 |
| Server.EmailErrorStatuses | server.js:53-56 | a taken e-mail is a 409 on registration and on an account update; the JSON store's missing-user error is a 500 |
| Server.OfferErrorStatuses | server.js:218 | the JSON not-found error of an edit is a 500, its access error and the relational refusal are 403s; the delete errors are 403, 404 and 500 |
| Server.DeleteStatusesAgree | server.js:148-149 | with unique ids the relational delete of a missing offer is an error answered 404, of a foreign one an error answered 403, and in both cases the table is unchanged |
| Server.MissingOfferEditStatusesDiffer | server.js:218 | editing a missing offer is a 500 on the JSON backend and a 403 on the relational one |
| Server.Login | server.js:61-70 | succeeds exactly when an e-mail is sent and well formed, a user is found, a password is sent and matches the hash; every refusal of the credentials is the same 401, a missing e-mail or password is a 500; the session gets the user's id, name, e-mail and avatar |
| Server.LoginAgainstStore | server.js:65-68 | on the JSON store a login succeeds exactly when the e-mail is well formed and the stored user with that e-mail has a hash the password matches |
| Server.SameEmailSameUser | db_json.js:47-49 | with unique e-mails two stored users with the same e-mail are the same record |
| Server.OfferRead | server.js:127-129 | 404 "Oferta não encontrada." exactly when nothing is found, otherwise the record found |
| Server.OfferReadAgainstStore | server.js:127-129 | on the JSON store 404 exactly for an unknown id, otherwise a stored offer with that id and its author's details |
| Server.AccountRead | server.js:157-162 | 404 with the session-ended message exactly when the user is gone, otherwise the user's id, name, e-mail and avatar |
| Server.AccountReadMatchesLogin | server.js:157-162 | for a stored user the account read answers exactly the fields a login puts in the session (server.js:69) |
| Server.SameIdSameUser | db_json.js:53-60 | with unique ids two stored users with the same id are the same record |
| Server.EditRead | server.js:202 | 404 "Oferta não encontrada ou acesso negado." exactly when nothing is found, otherwise the record found |
| Server.EditReadAgainstStore | server.js:202 | on the JSON store the owner gets the stored offer, and an absent offer and someone else's get the same 404 |
| Server.SameIdSameOffer | db_json.js:140-151 | with unique ids two stored offers with the same id are the same record |
| Server.ChangePassword | server.js:234-241 | 400 without both passwords, then 404 without the user, then 400 when the current password does not match; otherwise the new password goes on, exactly when all three checks pass |
| Server.ChangePasswordAgainstStore | server.js:236-239 | on the JSON store the change goes through exactly when both passwords are sent and the stored user with the session's id has a hash the current password matches |
| Server.UserSearch | server.js:249-251 | 400 exactly when no search term is sent or it is empty, otherwise the term goes to the store |
| Server.BlankSearchFindsNobody | server.js:250-251 | a term of white space only passes the check and both stores then find no users |
| Client.ValidateEmailFormatIff | public/script.js:36-39 | the e-mail test accepts exactly the language of `^[^\s@]+@[^\s@]+\.[^\s@]+$` |
| Client.ValidatePhoneFormat | public/script.js:40-43 | accepts exactly the phone pattern's shape |
| Client.PhoneRulesAgree | public/script.js:40-43 | on a non-blank phone the browser and the server accept the same strings |
| Client.StripNonDigits | public/script.js:46 | the result is made of digits only and is no longer than the input |
| Client.FirstThreeDigits | public/script.js:47 | the leftmost position where three digits follow in a row, or -1 when there is none |
| Client.PhoneMaskClosedForm | public/script.js:44-49 | the mask gives short input as bare digits, `(AB) rest` from three digits, and a hyphen before the last four from seven digits |
| Client.PhoneMaskKeepsDigits | public/script.js:44-49 | an empty value gives ""; the output's digits are the input's, in order, and only `(`, `)`, space and `-` are added |
| Client.PhoneMaskShort | public/script.js:44-49 | fewer than three digits come back unchanged |
| Client.PhoneMaskFormatsPhones | public/script.js:44-49 | ten or eleven digits come out in a form the browser and the server accept |
| Client.PhoneMaskFixesFormatted | public/script.js:44-49 | an already formatted phone is left as it is |
| Client.EncodeUriComponent | public/script.js:175 | the encoding is made of unreserved characters and `%` only, so it holds no `&` |
| Client.EncodeUriComponentDecodes | public/script.js:175 | percent-decoding the encoding gives the UTF-8 bytes of the original |
| Client.EncodeServico | public/script.js:180 | the offer type "serviço" is sent as `servi%C3%A7o` |
| Client.QueryParam | public/script.js:175 | a `name=` part with an encoded value holds no `&` |
| Client.OffersUrl | public/script.js:170-183 | `search=` only for a non-blank term, sent trimmed; `category=` only for a truthy category; values encoded; joined with `&`, and splitting at `&` recovers the parts |
| Client.NextActiveCategory | public/script.js:289 | cleared exactly when the click is on the active category or on one with an empty name; otherwise the clicked category |
| Client.ClickTwiceClears | public/script.js:289 | clicking the same category twice selects it and then clears it |
| Client.CategoryBar.constructor | public/script.js:298 | the page starts with the URL's category when it is truthy, else with none |
| Client.CategoryBar.Click | public/script.js:289 | the toggle is applied and the list is requested for the new category with no search term; a selected category is never empty |
| Client.CategoryBar.Search | public/script.js:286 | a search requests the term with the active category and changes no state |

## Left out

- Reading and writing `database.json` around each JSON-store operation. The store is the loaded document, and each method is one load-modify-save. The ENOENT bootstrap is the constructor.
- `crypto.randomUUID` and `new Date().toISOString()`. Ids and times are parameters. Fresh ids are required, as random UUIDs are unique. Times are integers compared as numbers, where the source parses ISO strings with `new Date`.
- Races between overlapping requests on the JSON file. Every operation is atomic here.
- Text.LowerChar: lower-cases ASCII and Latin-1 capitals only, because full Unicode `toLowerCase` tables are out of scope.
- JsonStore.NameOrder: code-point order on names stands for `localeCompare`, because locale collation is not modelled. Results are proved sorted by this order.
- JsonStore.JsonDb.FindUsersByName: states membership and order but not multiplicity, since two users can have equal profiles only in a document that already breaks the id invariant.
- JsonStore.JsonDb.GetAllOffers: states membership, order, and the full count only when no filter is given, for the same reason.
- JsonStore.JsonDb.GetMyOffers: states membership and order but not the count, for the same reason.
- The SQL engine: `pool.query`, ILIKE matching, the JOIN with `users`, the unique-e-mail constraint and RETURNING. Only the query text, the parameters and the equality-only statements of `updateOffer` and `deleteOffer` are modelled. So the relational listing dropping offers whose owner is missing is not modelled, and neither is any relational operation not named above (`createUser`, `updateUser` and the other lookups).
- PgStore.PgUpdateOffer: the RETURNING row is "some row with that id"; with unique ids UpdateBackendsCompared pins it to the updated offer.
- bcrypt, Cloudinary uploads, multer, express-session and routing. They become parameters: the image URL, and the `isEmail` verdict of the `validator` library, which is a foreign library.
- The auth-status and logout handlers (server.js:38-84). They only read or destroy the session, which is not modelled. The account read's `session.destroy()` (server.js:159) is left out for the same reason.
- bcrypt's hashing in registration and the password change. Its `compare` verdict is the `matches` parameter of Server.Login and Server.ChangePassword; a missing password given to `compare`, and a missing e-mail given to `validator.isEmail`, make the library throw, which the handlers answer with 500.
- The 500 answers of the `catch` blocks of the read, login, password and search handlers, which stand for failures to read the file or reach the database; those failures are not modelled.
- All DOM work in the browser script: rendering, the page title, theme, menus, Swiper, and the `fetch` calls.
- Client.EncodeUriComponent: no lone surrogates, because characters here are Unicode scalar values; the source's `URIError` on a lone surrogate is not modelled.

## Findings

| source | as written | input that shows it | evidently intended | confidence | as-written member | corrected member |
|---|---|---|---|---|---|---|
| server.js:208-216 | the create and edit handlers destructure `offerType, title, description, phone, address` from the body and never pass `category` to the store, while both stores accept and store it (db_json.js:137-155, 237-256; db_postgres.js:94-102) | an offer with `category: "eletronicos"` edited through the form with any body: afterwards `category` is `undefined`, and `getAllOffers("", "eletronicos")` no longer lists it | the body's `category` is passed to `createOffer` and `updateOffer`; the edit form loader (public/script.js:141-146) fills no category field either | not executed | Server.AdmitOffer, Server.CategoryLostOnEdit | Server.AdmitOfferWithCategory, Server.CategoryKeptOnEdit |
