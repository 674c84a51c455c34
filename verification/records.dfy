/** The records both persistence backends store and return, and the constants
    (offer types, fallbacks, error messages) the store and the server agree on. */
module Records {
  import opened Seqs

  /** An operation's value, or the message of the `Error` it throws. */
  datatype Result<T> = Ok(value: T) | Err(message: string)

  /** A user record as db_json.js:53-60 writes it. `password` holds the bcrypt hash;
      `avatarUrl` is `None` for JSON `null`. */
  datatype User = User(id: string, fullname: string, email: string, password: string,
                       createdAt: int, avatarUrl: Option<string>)

  /** A user record with the `password` field taken out (`const { password, ...rest }`). */
  datatype Profile = Profile(id: string, fullname: string, email: string,
                             createdAt: int, avatarUrl: Option<string>)

  function WithoutPassword(u: User): Profile {
    Profile(u.id, u.fullname, u.email, u.createdAt, u.avatarUrl)
  }

  /** An offer record as db_json.js:140-151 writes it; absent (`undefined`) and
      `null` fields are both `None`. */
  datatype Offer = Offer(id: string, userId: string, offerType: string, title: string,
                         category: Option<string>, description: Option<string>,
                         imageUrl: Option<string>, phone: Option<string>,
                         address: Option<string>, createdAt: int)

  /** The seven fields an owner chooses: what createOffer stores besides the owner
      and what updateOffer overwrites. */
  datatype OfferFields = OfferFields(offerType: string, title: string,
                                     category: Option<string>, description: Option<string>,
                                     imageUrl: Option<string>, phone: Option<string>,
                                     address: Option<string>)

  function FieldsOf(o: Offer): OfferFields {
    OfferFields(o.offerType, o.title, o.category, o.description, o.imageUrl, o.phone, o.address)
  }

  /** The offer with its seven editable fields replaced: identity, owner and creation
      time are kept. */
  function WithFields(o: Offer, f: OfferFields): (r: Offer)
    ensures FieldsOf(r) == f
    ensures r.id == o.id && r.userId == o.userId && r.createdAt == o.createdAt
  {
    o.(offerType := f.offerType, title := f.title, category := f.category,
       description := f.description, imageUrl := f.imageUrl, phone := f.phone,
       address := f.address)
  }

  /** The offer columns every listing shows (no `user_id`), as getMyOffers maps them. */
  datatype Listing = Listing(id: string, offerType: string, title: string,
                             description: Option<string>, createdAt: int,
                             imageUrl: Option<string>, phone: Option<string>,
                             address: Option<string>, category: Option<string>)

  function ListingOf(o: Offer): Listing {
    Listing(o.id, o.offerType, o.title, o.description, o.createdAt, o.imageUrl,
            o.phone, o.address, o.category)
  }

  /** A row of the public offer list: the listing joined with its author's name. */
  datatype OfferView = OfferView(listing: Listing, authorName: string)

  /** The single-offer page: the listing joined with its author's name and e-mail. */
  datatype OfferDetail = OfferDetail(listing: Listing, authorName: string, authorEmail: string)

  /** The `category` values that select on `offer_type` instead of `category`. */
  const OfferTypes: seq<string> := ["vender", "trocar", "serviço", "comprar"]

  const UnknownAuthorName: string := "Usuário Desconhecido"
  const UnknownAuthorEmail: string := "email@desconhecido.com"

  // Messages of the errors the JSON store throws.
  const UniqueViolation: string := "UNIQUE constraint failed"
  const UserNotFound: string := "Usuário não encontrado"
  const PasswordUserNotFound: string := "Usuário não encontrado para atualização de senha"
  const UpdateOfferNotFound: string := "Oferta não encontrada."
  const UpdateOfferDenied: string := "Acesso negado."
  const DeleteOfferNotFound: string := "Oferta não encontrada"
  const DeleteOfferDenied: string := "Acesso negado"
  const OfferDeleted: string := "Oferta deletada com sucesso!"

  // Messages the relational store throws where it differs from the JSON one.
  const PgUpdateOfferRefused: string := "Acesso negado ou oferta não encontrada."
  const PgDeleteFailed: string := "Falha ao deletar a oferta"
}
