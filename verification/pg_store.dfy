/** The decision logic of the relational backend (db_postgres.js): the query and
    parameter list getAllOffers builds, the blank-term guard of findUsersByName, and
    the check-then-act structure of updateOffer and deleteOffer. The database engine
    is not modelled; the equality-only statements those two operations issue are
    read as selections over a table value. */
module PgStore {
  import opened Seqs
  import opened Text
  import opened Records
  import JsonStore

  /** The SELECT ... JOIN prefix of db_postgres.js:33-38, white space included. */
  const OffersSelect: string :=
    "\n            SELECT o.id, o.offer_type, o.title, o.description, o.created_at, o.image_url, o.phone, o.address, o.category,\n                   u.fullname AS author_name\n            FROM offers o\n            JOIN users u ON o.user_id = u.id\n        "

  const OrderByNewest: string := " ORDER BY o.created_at DESC"

  /** The positional parameter `$n`. */
  function Placeholder(n: nat): (r: string)
    ensures |r| >= 2 && r[0] == '$' && AllDigits(r[1..]) && ParseNat(r[1..]) == n
  {
    ParseNatToString(n);
    assert ("$" + NatToString(n))[1..] == NatToString(n);
    "$" + NatToString(n)
  }

  /** One parameter, used twice, for the title and the description. */
  function SearchCondition(n: nat): string {
    " (o.title ILIKE " + Placeholder(n) + " OR o.description ILIKE " + Placeholder(n) + ") "
  }

  function TypeCondition(n: nat): string {
    " o.offer_type = " + Placeholder(n) + " "
  }

  function CategoryCondition(n: nat): string {
    " o.category = " + Placeholder(n) + " "
  }

  /** getAllOffers' query builder (db_postgres.js:29-65): at most one search and one
      category condition, numbered `$1, $2` in push order, each with its parameter;
      no WHERE without conditions; always newest first. `conditions` is the local
      list the WHERE clause is joined from. */
  method BuildOffersQuery(searchTerm: string, category: string)
    returns (query: string, params: seq<string>, conditions: seq<string>)
    ensures |conditions| == |params| ==
            (if searchTerm != "" then 1 else 0) + (if category != "" then 1 else 0)
    ensures searchTerm != "" ==>
              conditions[0] == SearchCondition(1) && params[0] == "%" + searchTerm + "%"
    ensures category != "" ==>
              var n := |conditions|;
              && conditions[n - 1] == CategoryFilter(category, n)
              && params[n - 1] == category
    ensures query == OffersSelect + WhereClause(conditions) + OrderByNewest
    ensures searchTerm == "" && category == "" ==> query == OffersSelect + OrderByNewest
  {
    query := OffersSelect;
    params, conditions := PushConditions(searchTerm, category);
    if |conditions| > 0 {
      query := query + " WHERE " + Join(conditions, " AND ");
    }
    assert query == OffersSelect + WhereClause(conditions);
    query := query + OrderByNewest;
  }

  /** The condition-pushing part of the builder: the running `paramIndex` numbers
      each condition after the parameters pushed before it. */
  method PushConditions(searchTerm: string, category: string)
    returns (params: seq<string>, conditions: seq<string>)
    ensures |conditions| == |params| ==
            (if searchTerm != "" then 1 else 0) + (if category != "" then 1 else 0)
    ensures searchTerm != "" ==>
              conditions[0] == SearchCondition(1) && params[0] == "%" + searchTerm + "%"
    ensures category != "" ==>
              var n := |conditions|;
              && conditions[n - 1] == CategoryFilter(category, n)
              && params[n - 1] == category
  {
    params := [];
    var paramIndex: nat := 1;
    conditions := [];

    if searchTerm != "" {
      conditions := conditions + [SearchCondition(paramIndex)];
      params := params + ["%" + searchTerm + "%"];
      paramIndex := paramIndex + 1;
    }
    assert paramIndex == |conditions| + 1 == |params| + 1;

    if category != "" {
      if category in OfferTypes {
        conditions := conditions + [TypeCondition(paramIndex)];
      } else {
        conditions := conditions + [CategoryCondition(paramIndex)];
      }
      assert conditions[|conditions| - 1] == CategoryFilter(category, paramIndex);
      params := params + [category];
      paramIndex := paramIndex + 1;
    }

  }

  /** The category condition: a type name selects on `offer_type`, anything else on
      `category`. */
  function CategoryFilter(category: string, n: nat): string {
    if category in OfferTypes then TypeCondition(n) else CategoryCondition(n)
  }

  function WhereClause(conditions: seq<string>): string {
    if conditions == [] then "" else " WHERE " + Join(conditions, " AND ")
  }

  /** Each condition mentions the placeholder it was built with. */
  lemma ConditionsNameTheirPlaceholder(n: nat)
    ensures Contains(SearchCondition(n), Placeholder(n))
    ensures Contains(TypeCondition(n), Placeholder(n))
    ensures Contains(CategoryCondition(n), Placeholder(n))
  {
    var p := Placeholder(n);
    ContainsSuffix(" (o.title ILIKE " + p + " OR o.description ILIKE ", p);
    ContainsExtend(" (o.title ILIKE " + p + " OR o.description ILIKE " + p, ") ", p);
    ContainsSuffix(" o.offer_type = ", p);
    ContainsExtend(" o.offer_type = " + p, " ", p);
    ContainsSuffix(" o.category = ", p);
    ContainsExtend(" o.category = " + p, " ", p);
  }

  /** The statement findUsersByName issues, with its parameter. */
  datatype Query = Query(sql: string, params: seq<string>)

  const UsersByNameSql: string :=
    " SELECT id, fullname, email, avatar_url FROM users WHERE fullname ILIKE $1 ORDER BY fullname ASC; "

  /** findUsersByName (db_postgres.js:14): no query at all for an empty or blank
      term; otherwise one ILIKE query on the untrimmed term wrapped in `%`. */
  function UsersByNameQuery(searchTerm: string): (q: Option<Query>)
    ensures q.None? <==> IsBlank(searchTerm)
    ensures q.Some? ==> q.value.params == ["%" + searchTerm + "%"] && q.value.sql == UsersByNameSql
  {
    if searchTerm == "" || Trim(searchTerm) == "" then None
    else Some(Query(UsersByNameSql, ["%" + searchTerm + "%"]))
  }

  /** The row test `id = $1`. */
  function IdIs(offerId: string): Offer -> bool {
    (o: Offer) => o.id == offerId
  }

  /** The complement `id <> $1`: the rows a `DELETE ... WHERE id = $1` keeps. */
  function IdIsNot(offerId: string): Offer -> bool {
    (o: Offer) => o.id != offerId
  }

  /** A statement's result and the `offers` table after it. */
  datatype Outcome<T> = Outcome(result: Result<T>, offers: seq<Offer>)

  /** getOfferByIdAndOwner (db_postgres.js:84): the first row matching id and owner. */
  function OwnedOfferRow(offers: seq<Offer>, offerId: string, userId: string): (r: Option<Offer>)
    ensures r.None? <==> forall o :: o in offers ==> !(o.id == offerId && o.userId == userId)
    ensures r.Some? ==> r.value in offers && r.value.id == offerId && r.value.userId == userId
  {
    Find(offers, (o: Offer) => o.id == offerId && o.userId == userId)
  }

  /** `UPDATE offers SET ... WHERE id = $8`: every row with that id gets the fields. */
  function UpdateWhereId(offers: seq<Offer>, offerId: string, f: OfferFields): (r: seq<Offer>)
    ensures |r| == |offers|
    ensures forall k :: 0 <= k < |r| ==>
              r[k] == if offers[k].id == offerId then WithFields(offers[k], f) else offers[k]
  {
    seq(|offers|, k requires 0 <= k < |offers| =>
      if offers[k].id == offerId then WithFields(offers[k], f) else offers[k])
  }

  /** updateOffer (db_postgres.js:94-101): one refusal for both a missing offer and a
      foreign one, and the UPDATE only after the check; the first RETURNING row is
      the result. */
  function PgUpdateOffer(offers: seq<Offer>, offerId: string, userId: string, f: OfferFields)
    : (r: Outcome<Offer>)
    ensures r.result.Err? <==> forall o :: o in offers ==> !(o.id == offerId && o.userId == userId)
    ensures r.result.Err? ==> r.result.message == PgUpdateOfferRefused && r.offers == offers
    ensures r.result.Ok? ==>
              r.offers == UpdateWhereId(offers, offerId, f) &&
              r.result.value in r.offers && r.result.value.id == offerId
  {
    match OwnedOfferRow(offers, offerId, userId)
    case None => Outcome(Err(PgUpdateOfferRefused), offers)
    case Some(row) =>
      var updated := UpdateWhereId(offers, offerId, f);
      var returning := Filter(updated, IdIs(offerId));
      assert WithFields(row, f) in returning by {
        var k :| 0 <= k < |offers| && offers[k] == row;
        assert updated[k] == WithFields(row, f);
      }
      Outcome(Ok(returning[0]), updated)
  }

  /** `SELECT user_id FROM offers WHERE id = $1`. */
  function OwnersWhereId(offers: seq<Offer>, offerId: string): (r: seq<string>)
    ensures r == [] <==> !JsonStore.HasOffer(offers, offerId)
  {
    var rows := Filter(offers, IdIs(offerId));
    assert rows != [] ==> rows[0] in offers && rows[0].id == offerId;
    assert JsonStore.HasOffer(offers, offerId) ==> rows != [] by {
      if JsonStore.HasOffer(offers, offerId) {
        var o :| o in offers && o.id == offerId;
        var k :| 0 <= k < |offers| && offers[k] == o;
        assert offers[k] in rows;
      }
    }
    seq(|rows|, k requires 0 <= k < |rows| => rows[k].userId)
  }

  /** deleteOffer (db_postgres.js:104): "Oferta não encontrada" without a row,
      "Acesso negado" for another owner, and only then the DELETE, whose row count
      is checked. */
  function PgDeleteOffer(offers: seq<Offer>, offerId: string, userId: string): (r: Outcome<string>)
    ensures !JsonStore.HasOffer(offers, offerId) ==> r == Outcome(Err(DeleteOfferNotFound), offers)
    ensures r.result.Ok? ==> r == Outcome(Ok(OfferDeleted), Filter(offers, IdIsNot(offerId)))
    ensures r.result != Err(PgDeleteFailed)
  {
    var owners := OwnersWhereId(offers, offerId);
    if owners == [] then Outcome(Err(DeleteOfferNotFound), offers)
    else if owners[0] != userId then Outcome(Err(DeleteOfferDenied), offers)
    else
      var remaining := Filter(offers, IdIsNot(offerId));
      assert |remaining| < |offers| by {
        var o :| o in offers && o.id == offerId;
        var k :| 0 <= k < |offers| && offers[k] == o;
        FilterDropsOne(offers, k, IdIsNot(offerId));
      }
      var rowCount := |offers| - |remaining|;
      if rowCount == 0 then Outcome(Err(PgDeleteFailed), remaining)
      else Outcome(Ok(OfferDeleted), remaining)
  }

  /** Filtering out an element that fails the test shortens the sequence. */
  lemma {:induction false} FilterDropsOne<T>(s: seq<T>, i: int, p: T -> bool)
    requires 0 <= i < |s| && !p(s[i])
    ensures |Filter(s, p)| < |s|
  {
    if i > 0 {
      FilterDropsOne(s[1..], i - 1, p);
    }
  }

  /** With unique ids, deleting through either backend gives the same outcome and
      the same table: not found, access denied, or exactly that offer removed with the
      others in order. */
  lemma DeleteBackendsAgree(offers: seq<Offer>, offerId: string, userId: string)
    requires JsonStore.UniqueOfferIds(offers)
    ensures var i := JsonStore.OfferIndex(offers, offerId);
            PgDeleteOffer(offers, offerId, userId) ==
              if i == -1 then Outcome(Err(DeleteOfferNotFound), offers)
              else if offers[i].userId != userId then Outcome(Err(DeleteOfferDenied), offers)
              else Outcome(Ok(OfferDeleted), offers[..i] + offers[i + 1..])
  {
    var i := JsonStore.OfferIndex(offers, offerId);
    if i != -1 {
      OnlyRowWithId(offers, i, offerId);
      assert OwnersWhereId(offers, offerId) == [offers[i].userId];
    }
  }

  /** With unique ids, the offer at `i` is the one row `id = $1` selects, and the
      DELETE keeps everything else. */
  lemma OnlyRowWithId(offers: seq<Offer>, i: int, offerId: string)
    requires JsonStore.UniqueOfferIds(offers)
    requires 0 <= i < |offers| && offers[i].id == offerId
    ensures Filter(offers, IdIs(offerId)) == [offers[i]]
    ensures Filter(offers, IdIsNot(offerId)) == offers[..i] + offers[i + 1..]
  {
    OtherIdsDiffer(offers, i);
    FilterSelectsOne(offers, i, IdIs(offerId));
    FilterRemovesOne(offers, i, IdIsNot(offerId));
  }

  /** Unique ids: no other row has the id of the row at `i`. */
  lemma OtherIdsDiffer(offers: seq<Offer>, i: int)
    requires JsonStore.UniqueOfferIds(offers)
    requires 0 <= i < |offers|
    ensures forall k :: 0 <= k < |offers| && k != i ==> offers[k].id != offers[i].id
  {
    forall k | 0 <= k < |offers| && k != i ensures offers[k].id != offers[i].id {
      if k < i {
        assert offers[k].id != offers[i].id;
      } else {
        assert offers[i].id != offers[k].id;
      }
    }
  }

  /** With unique ids, an owner's update gives the same record and table in both
      backends (the JSON store's in-place assignment); every refusal of the relational
      backend is the one collapsed message, where the JSON store tells "not found"
      from "access denied". */
  lemma UpdateBackendsCompared(offers: seq<Offer>, offerId: string, userId: string, f: OfferFields)
    requires JsonStore.UniqueOfferIds(offers)
    ensures var i := JsonStore.OfferIndex(offers, offerId);
            PgUpdateOffer(offers, offerId, userId, f) ==
              if i != -1 && offers[i].userId == userId then
                Outcome(Ok(WithFields(offers[i], f)), offers[i := WithFields(offers[i], f)])
              else
                Outcome(Err(PgUpdateOfferRefused), offers)
  {
    var i := JsonStore.OfferIndex(offers, offerId);
    if i != -1 && offers[i].userId == userId {
      UpdateAtOnlyRow(offers, i, offerId, f);
    } else if i != -1 {
      OtherIdsDiffer(offers, i);
    }
  }

  /** With unique ids, the UPDATE changes the row at `i` only, and RETURNING yields it. */
  lemma UpdateAtOnlyRow(offers: seq<Offer>, i: int, offerId: string, f: OfferFields)
    requires JsonStore.UniqueOfferIds(offers)
    requires 0 <= i < |offers| && offers[i].id == offerId
    ensures UpdateWhereId(offers, offerId, f) == offers[i := WithFields(offers[i], f)]
    ensures Filter(offers[i := WithFields(offers[i], f)], IdIs(offerId)) == [WithFields(offers[i], f)]
  {
    OtherIdsDiffer(offers, i);
    var updated := offers[i := WithFields(offers[i], f)];
    assert UpdateWhereId(offers, offerId, f) == updated;
    FilterSelectsOne(updated, i, IdIs(offerId));
  }
}
