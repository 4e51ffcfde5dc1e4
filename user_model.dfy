/**
 * The mapping between a user and its persistence shape
 * (src/user/user-model.ts, src/user/user-persistence.ts): the scalar fields
 * are copied and the certificate list travels as one JSON string.
 */
module UserModel {
  import opened Wrappers
  import opened Records
  import JsonStringList

  datatype UserPersistence = UserPersistence(
    id: string,
    name: string,
    email: string,
    publicKey: string,
    certificates: string)

  /** `UserModel.mapToPersistence`. */
  function MapToPersistence(user: User): (p: UserPersistence)
    ensures p.id == user.id && p.name == user.name
    ensures p.email == user.email && p.publicKey == user.publicKey
    ensures JsonStringList.Parse(p.certificates) == Some(user.certificates)
  {
    JsonStringList.ParseStringify(user.certificates);
    UserPersistence(user.id, user.name, user.email, user.publicKey,
                    JsonStringList.Stringify(user.certificates))
  }

  /** `UserModel.mapFromPersistence`; None where `JSON.parse` of the certificate field fails. */
  function MapFromPersistence(p: UserPersistence): (r: Option<User>)
    ensures r.Some? <==> JsonStringList.Parse(p.certificates).Some?
    ensures r.Some? ==> && r.value.id == p.id && r.value.name == p.name
                        && r.value.email == p.email && r.value.publicKey == p.publicKey
                        && Some(r.value.certificates) == JsonStringList.Parse(p.certificates)
  {
    match JsonStringList.Parse(p.certificates)
    case None => None
    case Some(certificates) => Some(User(p.id, p.name, p.email, p.publicKey, certificates))
  }

  /** Storing a user and reading it back gives the same user. */
  lemma RoundTrip(user: User)
    ensures MapFromPersistence(MapToPersistence(user)) == Some(user)
  {
  }

  /** A stored shape whose certificate field is `JSON.stringify` of a list reads back with that list and is reproduced exactly. */
  lemma CanonicalRoundTrip(p: UserPersistence, certificates: seq<string>)
    requires p.certificates == JsonStringList.Stringify(certificates)
    ensures MapFromPersistence(p) == Some(User(p.id, p.name, p.email, p.publicKey, certificates))
    ensures MapToPersistence(MapFromPersistence(p).value) == p
  {
    JsonStringList.ParseStringify(certificates);
  }
}
