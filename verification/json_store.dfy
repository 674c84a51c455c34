/** The JSON persistence backend (db_json.js): the document's `users` and `offers`
    arrays, held in memory, with every exported operation as a scan, a
    filter/map/sort chain or an in-place update. Reading and writing the file around
    each operation is not part of this model. */
module JsonStore {
  import opened Seqs
  import opened Text
  import opened Records

  ghost predicate UniqueUserIds(users: seq<User>) {
    forall i, j :: 0 <= i < j < |users| ==> users[i].id != users[j].id
  }

  /** The uniqueness constraint on `email` that createUser and updateUser emulate. */
  ghost predicate UniqueEmails(users: seq<User>) {
    forall i, j :: 0 <= i < j < |users| ==> users[i].email != users[j].email
  }

  ghost predicate UniqueOfferIds(offers: seq<Offer>) {
    forall i, j :: 0 <= i < j < |offers| ==> offers[i].id != offers[j].id
  }

  ghost predicate HasUser(users: seq<User>, id: string) {
    exists u :: u in users && u.id == id
  }

  ghost predicate HasOffer(offers: seq<Offer>, id: string) {
    exists o :: o in offers && o.id == id
  }

  /** Some user other than `userId` already has `email` (db_json.js:84). */
  ghost predicate EmailTakenByOther(users: seq<User>, email: string, userId: string) {
    exists u :: u in users && u.email == email && u.id != userId
  }

  /** `db.users.findIndex(user => user.id === id)` */
  function UserIndex(users: seq<User>, id: string): (i: int)
    ensures -1 <= i < |users|
    ensures i == -1 <==> !HasUser(users, id)
    ensures 0 <= i ==> users[i].id == id
  {
    FindIndex(users, (u: User) => u.id == id)
  }

  /** `db.offers.findIndex(o => o.id === id)` */
  function OfferIndex(offers: seq<Offer>, id: string): (i: int)
    ensures -1 <= i < |offers|
    ensures i == -1 <==> !HasOffer(offers, id)
    ensures 0 <= i ==> offers[i].id == id
  {
    FindIndex(offers, (o: Offer) => o.id == id)
  }

  /** The emulated join `db.users.find(user => user.id === offer.user_id)`. */
  function Author(users: seq<User>, userId: string): (r: Option<User>)
    ensures r.None? <==> !HasUser(users, userId)
    ensures r.Some? ==> r.value in users && r.value.id == userId
  {
    Find(users, (u: User) => u.id == userId)
  }

  /** The owner's current name, or "Usuário Desconhecido" when no user has that id. */
  function AuthorName(users: seq<User>, userId: string): (r: string)
    ensures HasUser(users, userId) ==> exists u :: u in users && u.id == userId && r == u.fullname
    ensures !HasUser(users, userId) ==> r == UnknownAuthorName
  {
    match Author(users, userId)
    case Some(u) => u.fullname
    case None => UnknownAuthorName
  }

  /** The owner's e-mail, or "email@desconhecido.com" when no user has that id. */
  function AuthorEmail(users: seq<User>, userId: string): (r: string)
    ensures HasUser(users, userId) ==> exists u :: u in users && u.id == userId && r == u.email
    ensures !HasUser(users, userId) ==> r == UnknownAuthorEmail
  {
    match Author(users, userId)
    case Some(u) => u.email
    case None => UnknownAuthorEmail
  }

  function ViewOf(users: seq<User>, o: Offer): OfferView {
    OfferView(ListingOf(o), AuthorName(users, o.userId))
  }

  function DetailOf(users: seq<User>, o: Offer): OfferDetail {
    OfferDetail(ListingOf(o), AuthorName(users, o.userId), AuthorEmail(users, o.userId))
  }

  /** The search test of db_json.js:167-171, given the already lower-cased term. */
  predicate SearchHit(o: Offer, lowerTerm: string) {
    || (o.title != "" && Contains(Lower(o.title), lowerTerm))
    || (o.description.Some? && o.description.value != "" &&
        Contains(Lower(o.description.value), lowerTerm))
  }

  /** Whether getAllOffers(searchTerm, category) lists `o`: the search test when a
      term is given, AND the smart category filter when a category is given, which
      reads `offer_type` for the four offer types and `category` for anything else. */
  predicate Listed(o: Offer, searchTerm: string, category: string) {
    && (searchTerm == "" || SearchHit(o, Lower(searchTerm)))
    && (|| category == ""
        || (category in OfferTypes && o.offerType == category)
        || (category !in OfferTypes && o.category == Some(category)))
  }

  /** The two filter stages of db_json.js:160-184, in the source's order. */
  function SelectOffers(offers: seq<Offer>, searchTerm: string, category: string): (r: seq<Offer>)
    ensures forall o :: o in r <==> o in offers && Listed(o, searchTerm, category)
    ensures searchTerm == "" && category == "" ==> r == offers
  {
    var lowerTerm := Lower(searchTerm);
    var bySearch :=
      if searchTerm != "" then Filter(offers, (o: Offer) => SearchHit(o, lowerTerm)) else offers;
    assert forall o :: o in bySearch <==> o in offers && (searchTerm == "" || SearchHit(o, lowerTerm)) by {
      forall o ensures o in bySearch <==> o in offers && (searchTerm == "" || SearchHit(o, lowerTerm)) {
        if searchTerm != "" && o in offers && SearchHit(o, lowerTerm) {
          var k :| 0 <= k < |offers| && offers[k] == o;
        }
      }
    }
    if category == "" then bySearch
    else if category in OfferTypes then
      var r := Filter(bySearch, (o: Offer) => o.offerType == category);
      assert forall o :: o in r <==> o in bySearch && o.offerType == category by {
        forall o | o in bySearch && o.offerType == category ensures o in r {
          var k :| 0 <= k < |bySearch| && bySearch[k] == o;
        }
      }
      r
    else
      var r := Filter(bySearch, (o: Offer) => o.category == Some(category));
      assert forall o :: o in r <==> o in bySearch && o.category == Some(category) by {
        forall o | o in bySearch && o.category == Some(category) ensures o in r {
          var k :| 0 <= k < |bySearch| && bySearch[k] == o;
        }
      }
      r
  }

  /** The `map` of db_json.js:187-195 over the selected offers. */
  function ViewsOf(users: seq<User>, offers: seq<Offer>): (r: seq<OfferView>)
    ensures |r| == |offers|
  {
    seq(|offers|, k requires 0 <= k < |offers| => ViewOf(users, offers[k]))
  }

  lemma ViewsOfMembers(users: seq<User>, offers: seq<Offer>)
    ensures forall v :: v in ViewsOf(users, offers) <==> exists o :: o in offers && v == ViewOf(users, o)
  {
    var r := ViewsOf(users, offers);
    forall v ensures v in r <==> exists o :: o in offers && v == ViewOf(users, o) {
      if v in r {
        var k :| 0 <= k < |r| && r[k] == v;
        assert offers[k] in offers;
      }
      if exists o :: o in offers && v == ViewOf(users, o) {
        var o :| o in offers && v == ViewOf(users, o);
        var k :| 0 <= k < |offers| && offers[k] == o;
        assert r[k] == v;
      }
    }
  }

  /** The password-free profile of each user, in order. */
  function ProfilesOf(users: seq<User>): (r: seq<Profile>)
    ensures |r| == |users|
  {
    seq(|users|, k requires 0 <= k < |users| => WithoutPassword(users[k]))
  }

  lemma ProfilesOfMembers(users: seq<User>)
    ensures forall p :: p in ProfilesOf(users) <==> exists u :: u in users && p == WithoutPassword(u)
  {
    var r := ProfilesOf(users);
    forall p ensures p in r <==> exists u :: u in users && p == WithoutPassword(u) {
      if p in r {
        var k :| 0 <= k < |r| && r[k] == p;
        assert users[k] in users;
      }
      if exists u :: u in users && p == WithoutPassword(u) {
        var u :| u in users && p == WithoutPassword(u);
        var k :| 0 <= k < |users| && users[k] == u;
        assert r[k] == p;
      }
    }
  }

  /** The public listing of each offer, in order. */
  function ListingsOf(offers: seq<Offer>): (r: seq<Listing>)
    ensures |r| == |offers|
  {
    seq(|offers|, k requires 0 <= k < |offers| => ListingOf(offers[k]))
  }

  lemma ListingsOfMembers(offers: seq<Offer>)
    ensures forall l :: l in ListingsOf(offers) <==> exists o :: o in offers && l == ListingOf(o)
  {
    var r := ListingsOf(offers);
    forall l ensures l in r <==> exists o :: o in offers && l == ListingOf(o) {
      if l in r {
        var k :| 0 <= k < |r| && r[k] == l;
        assert offers[k] in offers;
      }
      if exists o :: o in offers && l == ListingOf(o) {
        var o :| o in offers && l == ListingOf(o);
        var k :| 0 <= k < |offers| && offers[k] == o;
        assert r[k] == l;
      }
    }
  }

  /** `new Date(b.created_at) - new Date(a.created_at)`: newest first. */
  predicate ViewNewerFirst(a: OfferView, b: OfferView) {
    a.listing.createdAt >= b.listing.createdAt
  }

  predicate ListingNewerFirst(a: Listing, b: Listing) {
    a.createdAt >= b.createdAt
  }

  /** `a.fullname.localeCompare(b.fullname)`: by name, ascending. */
  predicate NameOrder(a: Profile, b: Profile) {
    LexLe(a.fullname, b.fullname)
  }

  lemma NameOrderIsTotalPreorder()
    ensures Total(NameOrder) && Transitive(NameOrder)
  {
    forall a: Profile, b: Profile ensures NameOrder(a, b) || NameOrder(b, a) {
      LexLeTotal(a.fullname, b.fullname);
    }
    forall a: Profile, b: Profile, c: Profile | NameOrder(a, b) && NameOrder(b, c)
      ensures NameOrder(a, c)
    {
      LexLeTransitive(a.fullname, b.fullname, c.fullname);
    }
  }

  /** The name test of db_json.js:126, given the already lower-cased term. */
  predicate NameHit(u: User, lowerTerm: string) {
    u.fullname != "" && Contains(Lower(u.fullname), lowerTerm)
  }

  /** The `avatarUrl` argument of updateUser: `undefined`, or a value (`null` or a URL). */
  datatype AvatarArg = Keep | Set(url: Option<string>)

  /** db_json.js:93-99: name and e-mail replaced, the avatar only when one is passed. */
  function EditProfile(u: User, fullname: string, email: string, avatar: AvatarArg): User {
    u.(fullname := fullname, email := email,
       avatarUrl := if avatar.Set? then avatar.url else u.avatarUrl)
  }

  /** The in-memory document `{ users, offers }`. */
  class JsonDb {
    var users: seq<User>
    var offers: seq<Offer>

    /** Ids are unique (fresh UUIDs) and no two users share an e-mail. */
    ghost predicate Valid()
      reads this
    {
      UniqueUserIds(users) && UniqueEmails(users) && UniqueOfferIds(offers)
    }

    /** The document readData bootstraps when the file is missing. */
    constructor ()
      ensures Valid() && users == [] && offers == []
    {
      users, offers := [], [];
    }

    /** findUserByEmail: the user with that exact e-mail, password included. */
    function FindUserByEmail(email: string): (r: Option<User>)
      reads this
      ensures r.None? <==> forall u :: u in users ==> u.email != email
      ensures r.Some? ==> r.value in users && r.value.email == email
    {
      Find(users, (u: User) => u.email == email)
    }

    /** findUserById: the user with that id, without the password. */
    function FindUserById(id: string): (r: Option<Profile>)
      reads this
      ensures r.None? <==> !HasUser(users, id)
      ensures r.Some? ==> exists u :: u in users && u.id == id && r.value == WithoutPassword(u)
    {
      match Find(users, (u: User) => u.id == id)
      case Some(u) => Some(WithoutPassword(u))
      case None => None
    }

    /** findUserByIdWithPassword: the whole user record with that id. */
    function FindUserByIdWithPassword(id: string): (r: Option<User>)
      reads this
      ensures r.None? <==> !HasUser(users, id)
      ensures r.Some? ==> r.value in users && r.value.id == id
    {
      Find(users, (u: User) => u.id == id)
    }

    /** findUsersByName: nothing for a blank term; otherwise the users whose name
        contains the term ignoring case, without passwords, by name ascending. */
    function FindUsersByName(searchTerm: string): (r: seq<Profile>)
      reads this
      ensures IsBlank(searchTerm) ==> r == []
      ensures !IsBlank(searchTerm) ==>
        forall p :: p in r <==>
          exists u :: u in users && NameHit(u, Lower(searchTerm)) && p == WithoutPassword(u)
      ensures SortedBy(r, NameOrder)
    {
      if searchTerm == "" || Trim(searchTerm) == "" then []
      else
        var lowerTerm := Lower(searchTerm);
        var hits := Filter(users, (u: User) => NameHit(u, lowerTerm));
        var profiles := ProfilesOf(hits);
        var r := SortBy(profiles, NameOrder);
        SortByMembers(profiles, NameOrder);
        NameOrderIsTotalPreorder();
        SortBySorted(profiles, NameOrder);
        ProfilesOfMembers(hits);
        r
    }

    /** getAllOffers: the listed offers with their author's name, newest first; with
        neither a term nor a category, every offer. Offers whose owner is missing are
        kept, under "Usuário Desconhecido". */
    function GetAllOffers(searchTerm: string, category: string): (r: seq<OfferView>)
      reads this
      ensures forall v :: v in r <==>
        exists o :: o in offers && Listed(o, searchTerm, category) && v == ViewOf(users, o)
      ensures SortedBy(r, ViewNewerFirst)
      ensures searchTerm == "" && category == "" ==>
        |r| == |offers| && forall o :: o in offers ==> ViewOf(users, o) in r
    {
      var selected := SelectOffers(offers, searchTerm, category);
      var views := ViewsOf(users, selected);
      var r := SortBy(views, ViewNewerFirst);
      SortByMembers(views, ViewNewerFirst);
      SortBySorted(views, ViewNewerFirst);
      ViewsOfMembers(users, selected);
      r
    }

    /** getOfferById: nothing for an unknown id; otherwise the listing with its
        author's name and e-mail, or their fallbacks when the owner is missing. */
    function GetOfferById(id: string): (r: Option<OfferDetail>)
      reads this
      ensures r.None? <==> !HasOffer(offers, id)
      ensures r.Some? ==> exists o :: o in offers && o.id == id && r.value == DetailOf(users, o)
    {
      match Find(offers, (o: Offer) => o.id == id)
      case None => None
      case Some(o) => Some(DetailOf(users, o))
    }

    /** getOfferByIdAndOwner: a record only when one offer matches both the id and
        the owner, so an absent and a foreign offer look the same. */
    function GetOfferByIdAndOwner(offerId: string, userId: string): (r: Option<Offer>)
      reads this
      ensures r.Some? <==> exists o :: o in offers && o.id == offerId && o.userId == userId
      ensures r.Some? ==> r.value in offers && r.value.id == offerId && r.value.userId == userId
    {
      Find(offers, (o: Offer) => o.id == offerId && o.userId == userId)
    }

    /** getMyOffers: exactly the caller's offers, newest first. */
    function GetMyOffers(userId: string): (r: seq<Listing>)
      reads this
      ensures forall l :: l in r <==> exists o :: o in offers && o.userId == userId && l == ListingOf(o)
      ensures SortedBy(r, ListingNewerFirst)
    {
      var mine := Filter(offers, (o: Offer) => o.userId == userId);
      var listings := ListingsOf(mine);
      var r := SortBy(listings, ListingNewerFirst);
      SortByMembers(listings, ListingNewerFirst);
      SortBySorted(listings, ListingNewerFirst);
      ListingsOfMembers(mine);
      r
    }

    /** createUser: refused with "UNIQUE constraint failed" when the exact e-mail is
        taken; otherwise one user is appended, without avatar, and only its id returned. */
    method CreateUser(fullname: string, email: string, hashedPassword: string,
                      newId: string, now: int) returns (r: Result<string>)
      requires Valid()
      requires !HasUser(users, newId)
      modifies this
      ensures Valid() && offers == old(offers)
      ensures r.Err? <==> exists u :: u in old(users) && u.email == email
      ensures r.Err? ==> r.message == UniqueViolation && users == old(users)
      ensures r.Ok? ==> r.value == newId &&
                        users == old(users) + [User(newId, fullname, email, hashedPassword, now, None)]
    {
      if exists u :: u in users && u.email == email {
        return Err(UniqueViolation);
      }
      var newUser := User(newId, fullname, email, hashedPassword, now, None);
      users := users + [newUser];
      r := Ok(newUser.id);
    }

    /** updateUser: the duplicate-e-mail check against other users comes first, then
        the not-found check; on success only that user's name, e-mail and (when an
        avatar argument is passed) avatar change, and the record is returned without
        its password. */
    method UpdateUser(userId: string, fullname: string, email: string, avatar: AvatarArg)
      returns (r: Result<Profile>)
      requires Valid()
      modifies this
      ensures Valid() && offers == old(offers)
      ensures EmailTakenByOther(old(users), email, userId) ==>
                r == Err(UniqueViolation) && users == old(users)
      ensures !EmailTakenByOther(old(users), email, userId) && !HasUser(old(users), userId) ==>
                r == Err(UserNotFound) && users == old(users)
      ensures !EmailTakenByOther(old(users), email, userId) && HasUser(old(users), userId) ==>
                var i := UserIndex(old(users), userId);
                && users == old(users)[i := EditProfile(old(users)[i], fullname, email, avatar)]
                && r == Ok(WithoutPassword(users[i]))
    {
      if exists u :: u in users && u.email == email && u.id != userId {
        return Err(UniqueViolation);
      }
      var i := UserIndex(users, userId);
      if i == -1 {
        return Err(UserNotFound);
      }
      var edited := EditProfile(users[i], fullname, email, avatar);
      forall j | 0 <= j < |users| && j != i ensures users[j].email != email {
        assert users[j].id != userId;
      }
      users := users[i := edited];
      r := Ok(WithoutPassword(users[i]));
    }

    /** updateUserPassword: only the password of that user changes; an unknown id is
        refused and nothing is written. */
    method UpdateUserPassword(userId: string, hashedPassword: string) returns (r: Result<string>)
      requires Valid()
      modifies this
      ensures Valid() && offers == old(offers)
      ensures !HasUser(old(users), userId) ==> r == Err(PasswordUserNotFound) && users == old(users)
      ensures HasUser(old(users), userId) ==>
                var i := UserIndex(old(users), userId);
                && users == old(users)[i := old(users)[i].(password := hashedPassword)]
                && r == Ok(userId)
    {
      var i := UserIndex(users, userId);
      if i == -1 {
        return Err(PasswordUserNotFound);
      }
      users := users[i := users[i].(password := hashedPassword)];
      r := Ok(userId);
    }

    /** createOffer: one offer appended with the given owner and fields; its id returned. */
    method CreateOffer(userId: string, f: OfferFields, newId: string, now: int) returns (id: string)
      requires Valid()
      requires !HasOffer(offers, newId)
      modifies this
      ensures Valid() && users == old(users)
      ensures id == newId
      ensures offers == old(offers) + [Offer(newId, userId, f.offerType, f.title, f.category,
                                             f.description, f.imageUrl, f.phone, f.address, now)]
    {
      var newOffer := Offer(newId, userId, f.offerType, f.title, f.category,
                            f.description, f.imageUrl, f.phone, f.address, now);
      offers := offers + [newOffer];
      id := newOffer.id;
    }

    /** updateOffer: "Oferta não encontrada." for an unknown id, before the ownership
        test; "Acesso negado." for someone else's offer; both leave the store as it was.
        On success only the seven editable fields of that offer change. */
    method UpdateOffer(offerId: string, userId: string, f: OfferFields) returns (r: Result<Offer>)
      requires Valid()
      modifies this
      ensures Valid() && users == old(users)
      ensures !HasOffer(old(offers), offerId) ==> r == Err(UpdateOfferNotFound) && offers == old(offers)
      ensures HasOffer(old(offers), offerId) ==>
                var i := OfferIndex(old(offers), offerId);
                if old(offers)[i].userId != userId then
                  r == Err(UpdateOfferDenied) && offers == old(offers)
                else
                  && offers == old(offers)[i := WithFields(old(offers)[i], f)]
                  && r == Ok(offers[i])
    {
      var i := OfferIndex(offers, offerId);
      if i == -1 {
        return Err(UpdateOfferNotFound);
      }
      if offers[i].userId != userId {
        return Err(UpdateOfferDenied);
      }
      offers := offers[i := WithFields(offers[i], f)];
      r := Ok(offers[i]);
    }

    /** deleteOffer: the same two refusals (without the final period), leaving the
        store as it was; on success exactly that offer is removed and the others keep
        their order. */
    method DeleteOffer(offerId: string, userId: string) returns (r: Result<string>)
      requires Valid()
      modifies this
      ensures Valid() && users == old(users)
      ensures !HasOffer(old(offers), offerId) ==> r == Err(DeleteOfferNotFound) && offers == old(offers)
      ensures HasOffer(old(offers), offerId) ==>
                var i := OfferIndex(old(offers), offerId);
                if old(offers)[i].userId != userId then
                  r == Err(DeleteOfferDenied) && offers == old(offers)
                else
                  && r == Ok(OfferDeleted)
                  && offers == old(offers)[..i] + old(offers)[i + 1..]
                  && offers == Filter(old(offers), (o: Offer) => o.id != offerId)
    {
      var i := OfferIndex(offers, offerId);
      if i == -1 {
        return Err(DeleteOfferNotFound);
      }
      if offers[i].userId != userId {
        return Err(DeleteOfferDenied);
      }
      FilterRemovesOne(offers, i, (o: Offer) => o.id != offerId);
      offers := offers[..i] + offers[i + 1..];
      r := Ok(OfferDeleted);
    }
  }

  /** Creating an offer and reading it back by id gives every submitted field and
      the creator's current name. */
  method CreateThenGetOffer(db: JsonDb, userId: string, f: OfferFields, newId: string, now: int)
    returns (d: Option<OfferDetail>)
    requires db.Valid() && !HasOffer(db.offers, newId)
    modifies db
    ensures db.Valid()
    ensures d.Some? && FieldsOfListing(d.value.listing) == f
    ensures d.value.listing.id == newId && d.value.listing.createdAt == now
    ensures d.value.authorName == AuthorName(db.users, userId)
  {
    var id := db.CreateOffer(userId, f, newId, now);
    d := db.GetOfferById(id);
    var o := Offer(newId, userId, f.offerType, f.title, f.category,
                   f.description, f.imageUrl, f.phone, f.address, now);
    assert db.offers[|db.offers| - 1] == o;
  }

  function FieldsOfListing(l: Listing): OfferFields {
    OfferFields(l.offerType, l.title, l.category, l.description, l.imageUrl, l.phone, l.address)
  }
}
