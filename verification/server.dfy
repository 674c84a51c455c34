/** The request checks and error-to-status rules of the HTTP layer (server.js): which
    request bodies reach the store, which store errors become which status code, and
    which backend serves the requests. Request-body fields are `None` when the form
    did not send them; a field is truthy when it was sent and is not empty. */
module Server {
  import opened Seqs
  import opened Text
  import opened Records
  import JsonStore
  import PgStore

  /** The two persistence backends. */
  datatype Backend = JsonFile | Postgres

  /** The backend selector (server.js:12): only `DB_MODE=json` picks the JSON file;
      an unset variable or any other value picks the relational database. */
  function SelectBackend(dbMode: Option<string>): (b: Backend)
    ensures b == JsonFile <==> dbMode == Some("json")
    ensures dbMode.None? ==> b == Postgres
  {
    if dbMode == Some("json") then JsonFile else Postgres
  }

  /** A status code and the `message` of the JSON body. */
  datatype Response = Response(status: int, message: string)

  const MissingRegistrationFields: string := "Todos os campos são obrigatórios!"
  const InvalidEmailFormat: string := "Formato de e-mail inválido."
  const MissingAccountFields: string := "Nome e email são obrigatórios."
  const MissingOfferFields: string := "O tipo e o título da oferta são obrigatórios."
  const InvalidPhoneFormat: string := "Formato de telefone inválido. Use (XX) XXXXX-XXXX."
  const EmailInUse: string := "Este e-mail já está em uso."
  const EmailInUseByOther: string := "Este e-mail já está em uso por outra conta."
  const InternalError: string := "Erro interno no servidor."
  const SaveChangesError: string := "Erro interno ao salvar as alterações."
  const AccessDenied: string := "Acesso negado."
  const DuplicateKeyCode: string := "23505"

  /** JavaScript truthiness of a body field. */
  predicate Truthy(v: Option<string>) {
    v.Some? && v.value != ""
  }

  /** The optional-phone rule of server.js:92 and 212: rejected only when given,
      not blank, and not matching the phone pattern. */
  predicate PhoneAccepted(phone: Option<string>) {
    !(Truthy(phone) && Trim(phone.value) != "" && !MatchesPhonePattern(phone.value))
  }

  /** A phone is accepted exactly when it is absent, blank, or of the form
      `(DD) DDDD-DDDD` / `(DD) DDDDD-DDDD`. */
  lemma PhoneAcceptedIff(phone: Option<string>)
    ensures PhoneAccepted(phone) <==> phone.None? || IsBlank(phone.value) || PhoneShape(phone.value)
  {
    if phone.Some? {
      MatchesPhonePatternIff(phone.value);
    }
  }

  /** The fields of the offer forms (create and edit). */
  datatype OfferBody = OfferBody(offerType: Option<string>, title: Option<string>,
                                 category: Option<string>, description: Option<string>,
                                 phone: Option<string>, address: Option<string>)

  /** A request that is answered at once, or passed on with the store's arguments. */
  datatype Admission<T> = Rejected(response: Response) | Admitted(args: T)

  /** The store arguments the offer handlers build, as written (server.js:88, 98, 208,
      216): the body's `category` is never read, so the store receives none. */
  function OfferFieldsAsWritten(body: OfferBody, imageUrl: Option<string>): (f: OfferFields)
    requires Truthy(body.offerType) && Truthy(body.title)
    ensures f.category.None?
  {
    OfferFields(body.offerType.value, body.title.value, None, body.description, imageUrl,
                body.phone, body.address)
  }

  /** The store arguments with the category the form sent, which both stores accept
      and store. */
  function OfferFieldsFromBody(body: OfferBody, imageUrl: Option<string>): (f: OfferFields)
    requires Truthy(body.offerType) && Truthy(body.title)
    ensures Some(f.offerType) == body.offerType && Some(f.title) == body.title
    ensures f.category == body.category && f.description == body.description
    ensures f.imageUrl == imageUrl && f.phone == body.phone && f.address == body.address
  {
    OfferFields(body.offerType.value, body.title.value, body.category, body.description,
                imageUrl, body.phone, body.address)
  }

  /** Offer create and edit checks (server.js:88-98, 208-216): 400 without a type or a
      title, then 400 for a malformed phone; otherwise the store gets the form's
      fields and the image URL, and no category, since the handlers never read it. */
  function AdmitOffer(body: OfferBody, imageUrl: Option<string>): (r: Admission<OfferFields>)
    ensures r.Rejected? <==>
              !Truthy(body.offerType) || !Truthy(body.title) || !PhoneAccepted(body.phone)
    ensures r.Rejected? ==> r.response.status == 400
    ensures !Truthy(body.offerType) || !Truthy(body.title) ==>
              r == Rejected(Response(400, MissingOfferFields))
    ensures r.Admitted? ==> r.args == OfferFieldsAsWritten(body, imageUrl)
    ensures r.Admitted? ==>
              Some(r.args.offerType) == body.offerType && Some(r.args.title) == body.title &&
              r.args.description == body.description && r.args.imageUrl == imageUrl &&
              r.args.phone == body.phone && r.args.address == body.address &&
              r.args.category.None?
  {
    if !Truthy(body.offerType) || !Truthy(body.title) then
      Rejected(Response(400, MissingOfferFields))
    else if Truthy(body.phone) && Trim(body.phone.value) != "" && !MatchesPhonePattern(body.phone.value) then
      Rejected(Response(400, InvalidPhoneFormat))
    else
      Admitted(OfferFieldsAsWritten(body, imageUrl))
  }

  /** The offer checks with the category passed on: the same answers as the handlers
      give, and on admission the form's fields with its category. */
  function AdmitOfferWithCategory(body: OfferBody, imageUrl: Option<string>)
    : (r: Admission<OfferFields>)
    ensures r.Rejected? <==> AdmitOffer(body, imageUrl).Rejected?
    ensures r.Rejected? ==> r == AdmitOffer(body, imageUrl)
    ensures r.Admitted? ==> r.args == OfferFieldsFromBody(body, imageUrl)
    ensures r.Admitted? ==> r.args.category == body.category
  {
    match AdmitOffer(body, imageUrl)
    case Rejected(response) => Rejected(response)
    case Admitted(_) => Admitted(OfferFieldsFromBody(body, imageUrl))
  }

  /** As written, editing an offer through the form takes it out of its own category
      list, whatever category the form sends: before the edit getAllOffers lists it
      under `c`, after the admitted edit it does not. */
  lemma CategoryLostOnEdit(o: Offer, body: OfferBody, imageUrl: Option<string>, c: string)
    requires AdmitOffer(body, imageUrl).Admitted?
    requires o.category == Some(c) && c != "" && c !in OfferTypes
    ensures JsonStore.Listed(o, "", c)
    ensures !JsonStore.Listed(WithFields(o, AdmitOffer(body, imageUrl).args), "", c)
  {
  }

  /** With the form's category passed on, an edit that keeps the category keeps the
      offer in that category's list, and one that changes it moves the offer there. */
  lemma CategoryKeptOnEdit(o: Offer, body: OfferBody, imageUrl: Option<string>, c: string)
    requires AdmitOfferWithCategory(body, imageUrl).Admitted?
    requires body.category == Some(c) && c != "" && c !in OfferTypes
    ensures JsonStore.Listed(WithFields(o, AdmitOfferWithCategory(body, imageUrl).args), "", c)
  {
  }

  /** Registration checks (server.js:46-48): 400 unless the name, e-mail and password
      are all given, then 400 unless the e-mail is well formed (`isEmail` is the
      e-mail library's verdict). */
  function AdmitRegistration(fullname: Option<string>, email: Option<string>,
                             password: Option<string>, isEmail: bool): (r: Option<Response>)
    ensures r.None? <==> Truthy(fullname) && Truthy(email) && Truthy(password) && isEmail
    ensures r.Some? ==> r.value.status == 400
    ensures !(Truthy(fullname) && Truthy(email) && Truthy(password)) ==>
              r == Some(Response(400, MissingRegistrationFields))
  {
    if !Truthy(fullname) || !Truthy(email) || !Truthy(password) then
      Some(Response(400, MissingRegistrationFields))
    else if !isEmail then Some(Response(400, InvalidEmailFormat))
    else None
  }

  /** Account update checks (server.js:172-174): name and e-mail required, then a
      well-formed e-mail. */
  function AdmitAccountUpdate(fullname: Option<string>, email: Option<string>, isEmail: bool)
    : (r: Option<Response>)
    ensures r.None? <==> Truthy(fullname) && Truthy(email) && isEmail
    ensures r.Some? ==> r.value.status == 400
    ensures !(Truthy(fullname) && Truthy(email)) ==> r == Some(Response(400, MissingAccountFields))
  {
    if !Truthy(fullname) || !Truthy(email) then Some(Response(400, MissingAccountFields))
    else if !isEmail then Some(Response(400, InvalidEmailFormat))
    else None
  }

  /** A thrown store error: the driver's SQLSTATE `code`, if any, and its message. */
  datatype Thrown = Thrown(code: Option<string>, message: string)

  /** How the register and account handlers recognise a taken e-mail (server.js:54,
      183): the relational duplicate-key code or the JSON store's message. */
  predicate IsDuplicateEmail(e: Thrown) {
    e.code == Some(DuplicateKeyCode) || Contains(e.message, UniqueViolation)
  }

  /** The register handler's catch (server.js:53-56). */
  function RegisterErrorResponse(e: Thrown): (r: Response)
    ensures r.status == 409 <==> IsDuplicateEmail(e)
    ensures r.status == 409 || r == Response(500, InternalError)
  {
    if e.code == Some(DuplicateKeyCode) || Contains(e.message, UniqueViolation) then
      Response(409, EmailInUse)
    else
      Response(500, InternalError)
  }

  /** The account handler's store-error branch (server.js:181-185). */
  function AccountErrorResponse(e: Thrown): (r: Response)
    ensures r.status == 409 <==> IsDuplicateEmail(e)
    ensures r.status == 409 || r == Response(500, SaveChangesError)
  {
    if e.code == Some(DuplicateKeyCode) || Contains(e.message, UniqueViolation) then
      Response(409, EmailInUseByOther)
    else
      Response(500, SaveChangesError)
  }

  /** The delete handler's catch (server.js:146-151): the two store messages pass
      through with 403 and 404, anything else is a 500. */
  function DeleteErrorResponse(message: string): (r: Response)
    ensures r.status == 403 <==> message == DeleteOfferDenied
    ensures r.status == 404 <==> message == DeleteOfferNotFound
    ensures r.status != 500 ==> r.message == message
    ensures r.status == 500 <==> message != DeleteOfferDenied && message != DeleteOfferNotFound
  {
    var status := if message == DeleteOfferDenied then 403
                  else if message == DeleteOfferNotFound then 404 else 500;
    var text := if message == DeleteOfferDenied then DeleteOfferDenied
                else if message == DeleteOfferNotFound then DeleteOfferNotFound else InternalError;
    Response(status, text)
  }

  /** The edit handler's store-error branch (server.js:218): any message mentioning
      "Acesso negado" is a 403, everything else a 500. */
  function UpdateOfferErrorResponse(message: string): (r: Response)
    ensures r.status == 403 <==> Contains(message, "Acesso negado")
    ensures r == Response(403, AccessDenied) || r == Response(500, SaveChangesError)
  {
    if Contains(message, "Acesso negado") then Response(403, AccessDenied)
    else Response(500, SaveChangesError)
  }

  /** The statuses a taken e-mail reaches the client with: a 409 on registration and
      on an account update, where the JSON store's missing-user error is not mistaken
      for it and stays a 500. */
  lemma EmailErrorStatuses()
    ensures RegisterErrorResponse(Thrown(None, UniqueViolation)).status == 409
    ensures AccountErrorResponse(Thrown(None, UniqueViolation)).status == 409
    ensures AccountErrorResponse(Thrown(None, UserNotFound)).status == 500
  {
    assert UniqueViolation <= UniqueViolation;
    NotContainsMissingChar(UserNotFound, UniqueViolation, 'Q');
  }

  /** The statuses each offer-store error reaches the client with. The JSON store's
      two update errors split into 403 and 500, the relational store's single refusal
      is a 403, and the delete errors are 403, 404 and 500. */
  lemma OfferErrorStatuses()
    ensures UpdateOfferErrorResponse(UpdateOfferDenied).status == 403
    ensures UpdateOfferErrorResponse(UpdateOfferNotFound).status == 500
    ensures UpdateOfferErrorResponse(PgUpdateOfferRefused).status == 403
    ensures DeleteErrorResponse(DeleteOfferDenied).status == 403
    ensures DeleteErrorResponse(DeleteOfferNotFound).status == 404
    ensures DeleteErrorResponse(PgDeleteFailed).status == 500
  {
    assert "Acesso negado" <= UpdateOfferDenied;
    assert "Acesso negado" <= PgUpdateOfferRefused;
    NotContainsMissingChar(UpdateOfferNotFound, "Acesso negado", 'A');
  }

  /** Deleting an offer that does not exist: both backends answer 404 and change
      nothing. Deleting someone else's: both answer 403. */
  lemma DeleteStatusesAgree(offers: seq<Offer>, offerId: string, userId: string)
    requires JsonStore.UniqueOfferIds(offers)
    ensures var r := PgStore.PgDeleteOffer(offers, offerId, userId);
            && (!JsonStore.HasOffer(offers, offerId) ==>
                  r.result.Err? && DeleteErrorResponse(r.result.message).status == 404 &&
                  r.offers == offers)
            && (var i := JsonStore.OfferIndex(offers, offerId);
                i != -1 && offers[i].userId != userId ==>
                  r.result.Err? && DeleteErrorResponse(r.result.message).status == 403 &&
                  r.offers == offers)
  {
    PgStore.DeleteBackendsAgree(offers, offerId, userId);
  }

  /** Editing an offer that does not exist: the JSON backend's error is a 500, the
      relational backend's is a 403. The backends differ here. */
  lemma MissingOfferEditStatusesDiffer(offers: seq<Offer>, offerId: string, userId: string,
                                       f: OfferFields)
    requires !JsonStore.HasOffer(offers, offerId)
    ensures UpdateOfferErrorResponse(UpdateOfferNotFound).status == 500
    ensures PgStore.PgUpdateOffer(offers, offerId, userId, f).result.Err?
    ensures UpdateOfferErrorResponse(PgStore.PgUpdateOffer(offers, offerId, userId, f).result.message).status == 403
  {
    OfferErrorStatuses();
  }

  const BadCredentials: string := "Email ou senha inválidos."
  const OfferReadNotFound: string := "Oferta não encontrada."
  const AccountGone: string := "Usuário não encontrado, sessão encerrada."
  const EditReadRefused: string := "Oferta não encontrada ou acesso negado."
  const PasswordsRequired: string := "Senha atual e nova senha são obrigatórias."
  const PasswordChangeUserMissing: string := "Usuário não encontrado."
  const WrongCurrentPassword: string := "Senha atual incorreta."
  const SearchTermRequired: string := "Termo de busca é obrigatório."

  /** The session's user and the account read's answer: id, name, e-mail and avatar
      URL, neither the password hash nor the creation time. */
  datatype SessionUser = SessionUser(id: string, fullname: string, email: string,
                                     avatarUrl: Option<string>)

  function SessionUserOf(u: User): SessionUser {
    SessionUser(u.id, u.fullname, u.email, u.avatarUrl)
  }

  /** The login handler (server.js:61-70). `isEmail` is the validator's verdict,
      `found` what findUserByEmail returned and `matches(password, hash)` bcrypt's
      comparison. A missing e-mail or password makes the validator or bcrypt throw,
      which the handler answers with 500. Every refusal of the credentials is the
      same 401, so the answer does not tell an unknown e-mail from a wrong password. */
  function Login(email: Option<string>, password: Option<string>, isEmail: string -> bool,
                 found: Option<User>, matches: (string, string) -> bool): (r: Admission<SessionUser>)
    ensures r.Admitted? <==>
              email.Some? && isEmail(email.value) && found.Some? && password.Some? &&
              matches(password.value, found.value.password)
    ensures r == Rejected(Response(401, BadCredentials)) <==>
              email.Some? && (!isEmail(email.value) || found.None? ||
                              (password.Some? && !matches(password.value, found.value.password)))
    ensures r.Rejected? ==> r.response == Response(401, BadCredentials) || r.response == Response(500, InternalError)
    ensures r.Admitted? ==>
              r.args.id == found.value.id && r.args.fullname == found.value.fullname &&
              r.args.email == found.value.email && r.args.avatarUrl == found.value.avatarUrl
  {
    if email.None? then Rejected(Response(500, InternalError))
    else if !isEmail(email.value) then Rejected(Response(401, BadCredentials))
    else if found.None? then Rejected(Response(401, BadCredentials))
    else if password.None? then Rejected(Response(500, InternalError))
    else if !matches(password.value, found.value.password) then Rejected(Response(401, BadCredentials))
    else Admitted(SessionUserOf(found.value))
  }

  /** Against the JSON store: a login succeeds exactly when the e-mail is well formed
      and the stored user with that e-mail has a hash the password matches. */
  lemma LoginAgainstStore(db: JsonStore.JsonDb, email: string, password: string,
                          isEmail: string -> bool, matches: (string, string) -> bool)
    requires db.Valid()
    ensures Login(Some(email), Some(password), isEmail, db.FindUserByEmail(email), matches).Admitted? <==>
              isEmail(email) &&
              exists u :: u in db.users && u.email == email && matches(password, u.password)
  {
    if isEmail(email) && exists u :: u in db.users && u.email == email && matches(password, u.password) {
      var u :| u in db.users && u.email == email && matches(password, u.password);
      var f := db.FindUserByEmail(email).value;
      SameEmailSameUser(db.users, u, f);
    }
  }

  /** No two stored users share an e-mail, so the e-mail names one record. */
  lemma SameEmailSameUser(users: seq<User>, u: User, v: User)
    requires JsonStore.UniqueEmails(users)
    requires u in users && v in users && u.email == v.email
    ensures u == v
  {
    var i :| 0 <= i < |users| && users[i] == u;
    var j :| 0 <= j < |users| && users[j] == v;
    assert i == j;
  }

  /** The offer read (server.js:125-129): 404 when getOfferById finds nothing,
      otherwise the record it found. */
  function OfferRead(offer: Option<OfferDetail>): (r: Admission<OfferDetail>)
    ensures r.Rejected? <==> offer.None?
    ensures r.Rejected? ==> r.response == Response(404, OfferReadNotFound)
    ensures r.Admitted? ==> Some(r.args) == offer
  {
    match offer
    case None => Rejected(Response(404, OfferReadNotFound))
    case Some(d) => Admitted(d)
  }

  /** Against the JSON store: 404 exactly for an unknown id; otherwise the stored
      offer's listing with its author's name and e-mail. */
  lemma OfferReadAgainstStore(db: JsonStore.JsonDb, id: string)
    ensures OfferRead(db.GetOfferById(id)).Rejected? <==> !JsonStore.HasOffer(db.offers, id)
    ensures OfferRead(db.GetOfferById(id)).Admitted? ==>
              exists o :: o in db.offers && o.id == id &&
                          OfferRead(db.GetOfferById(id)).args == JsonStore.DetailOf(db.users, o)
  {
  }

  /** The account read (server.js:155-162): 404 and the session ended when the
      session's user is gone; otherwise the user's id, name, e-mail and avatar. */
  function AccountRead(user: Option<Profile>): (r: Admission<SessionUser>)
    ensures r.Rejected? <==> user.None?
    ensures r.Rejected? ==> r.response == Response(404, AccountGone)
    ensures r.Admitted? ==>
              r.args.id == user.value.id && r.args.fullname == user.value.fullname &&
              r.args.email == user.value.email && r.args.avatarUrl == user.value.avatarUrl
  {
    match user
    case None => Rejected(Response(404, AccountGone))
    case Some(p) => Admitted(SessionUser(p.id, p.fullname, p.email, p.avatarUrl))
  }

  /** A stored user's account read answers the same four fields a login puts in
      the session. */
  lemma AccountReadMatchesLogin(db: JsonStore.JsonDb, u: User)
    requires db.Valid() && u in db.users
    ensures AccountRead(db.FindUserById(u.id)) == Admitted(SessionUserOf(u))
  {
    var p := db.FindUserById(u.id).value;
    var v :| v in db.users && v.id == u.id && p == WithoutPassword(v);
    SameIdSameUser(db.users, u, v);
  }

  /** No two stored users share an id. */
  lemma SameIdSameUser(users: seq<User>, u: User, v: User)
    requires JsonStore.UniqueUserIds(users)
    requires u in users && v in users && u.id == v.id
    ensures u == v
  {
    var i :| 0 <= i < |users| && users[i] == u;
    var j :| 0 <= j < |users| && users[j] == v;
    assert i == j;
  }

  /** The read for the edit form (server.js:202): 404 when getOfferByIdAndOwner
      finds nothing, otherwise the whole offer record. */
  function EditRead(offer: Option<Offer>): (r: Admission<Offer>)
    ensures r.Rejected? <==> offer.None?
    ensures r.Rejected? ==> r.response == Response(404, EditReadRefused)
    ensures r.Admitted? ==> Some(r.args) == offer
  {
    match offer
    case None => Rejected(Response(404, EditReadRefused))
    case Some(o) => Admitted(o)
  }

  /** Against the JSON store: the owner gets the stored offer; an absent offer and
      someone else's get the same 404. */
  lemma EditReadAgainstStore(db: JsonStore.JsonDb, offerId: string, userId: string)
    requires db.Valid()
    ensures var r := EditRead(db.GetOfferByIdAndOwner(offerId, userId));
            && (r.Admitted? ==> r.args in db.offers && r.args.id == offerId && r.args.userId == userId)
            && (!JsonStore.HasOffer(db.offers, offerId) ==> r == Rejected(Response(404, EditReadRefused)))
            && ((exists o :: o in db.offers && o.id == offerId && o.userId != userId) ==>
                  r == Rejected(Response(404, EditReadRefused)))
  {
    if exists o :: o in db.offers && o.id == offerId && o.userId != userId {
      var o :| o in db.offers && o.id == offerId && o.userId != userId;
      forall o' | o' in db.offers && o'.id == offerId
        ensures o'.userId != userId
      {
        SameIdSameOffer(db.offers, o, o');
      }
    }
  }

  /** No two stored offers share an id. */
  lemma SameIdSameOffer(offers: seq<Offer>, o: Offer, o': Offer)
    requires JsonStore.UniqueOfferIds(offers)
    requires o in offers && o' in offers && o.id == o'.id
    ensures o == o'
  {
    var i :| 0 <= i < |offers| && offers[i] == o;
    var j :| 0 <= j < |offers| && offers[j] == o';
    assert i == j;
  }

  /** The password change (server.js:232-241): 400 without both passwords, 404 when
      the session's user is gone, 400 when the current password does not match the
      stored hash; otherwise the new password goes on to be hashed and stored. */
  function ChangePassword(currentPassword: Option<string>, newPassword: Option<string>,
                          user: Option<User>, matches: (string, string) -> bool): (r: Admission<string>)
    ensures !Truthy(currentPassword) || !Truthy(newPassword) ==>
              r == Rejected(Response(400, PasswordsRequired))
    ensures Truthy(currentPassword) && Truthy(newPassword) && user.None? ==>
              r == Rejected(Response(404, PasswordChangeUserMissing))
    ensures Truthy(currentPassword) && Truthy(newPassword) && user.Some? &&
            !matches(currentPassword.value, user.value.password) ==>
              r == Rejected(Response(400, WrongCurrentPassword))
    ensures r.Admitted? <==>
              Truthy(currentPassword) && Truthy(newPassword) && user.Some? &&
              matches(currentPassword.value, user.value.password)
    ensures r.Admitted? ==> Some(r.args) == newPassword && r.args != ""
  {
    if !Truthy(currentPassword) || !Truthy(newPassword) then Rejected(Response(400, PasswordsRequired))
    else if user.None? then Rejected(Response(404, PasswordChangeUserMissing))
    else if !matches(currentPassword.value, user.value.password) then
      Rejected(Response(400, WrongCurrentPassword))
    else Admitted(newPassword.value)
  }

  /** Against the JSON store: the change goes through exactly when both passwords
      are sent and the stored user with the session's id has a hash the current
      password matches. */
  lemma ChangePasswordAgainstStore(db: JsonStore.JsonDb, userId: string, currentPassword: string,
                                   newPassword: string, matches: (string, string) -> bool)
    requires db.Valid()
    ensures ChangePassword(Some(currentPassword), Some(newPassword),
                           db.FindUserByIdWithPassword(userId), matches).Admitted? <==>
              currentPassword != "" && newPassword != "" &&
              exists u :: u in db.users && u.id == userId && matches(currentPassword, u.password)
  {
    if currentPassword != "" && newPassword != "" &&
       exists u :: u in db.users && u.id == userId && matches(currentPassword, u.password) {
      var u :| u in db.users && u.id == userId && matches(currentPassword, u.password);
      var f := db.FindUserByIdWithPassword(userId).value;
      SameIdSameUser(db.users, u, f);
    }
  }

  /** The user search's check (server.js:249-250): 400 without a search term;
      otherwise the term goes to findUsersByName. */
  function UserSearch(searchTerm: Option<string>): (r: Admission<string>)
    ensures r.Rejected? <==> !Truthy(searchTerm)
    ensures r.Rejected? ==> r.response == Response(400, SearchTermRequired)
    ensures r.Admitted? ==> Some(r.args) == searchTerm && r.args != ""
  {
    if !Truthy(searchTerm) then Rejected(Response(400, SearchTermRequired))
    else Admitted(searchTerm.value)
  }

  /** A term of white space only passes the handler's check, and then both stores
      answer with no users rather than a 400. */
  lemma BlankSearchFindsNobody(db: JsonStore.JsonDb, searchTerm: string)
    requires searchTerm != "" && IsBlank(searchTerm)
    ensures UserSearch(Some(searchTerm)).Admitted?
    ensures db.FindUsersByName(UserSearch(Some(searchTerm)).args) == []
    ensures PgStore.UsersByNameQuery(UserSearch(Some(searchTerm)).args).None?
  {
  }
}
