/** The one persisted entity: a contact row of the contacts table. */
module ContactEntity {
  import opened Wrappers

  /** Row identifier; the database assigns a fresh one on insert. */
  type Id = nat

  /** Identifier of the owning user, as carried by the authentication token. */
  type UserId = string

  /** Creation instant; only its order matters to the model. */
  type Timestamp = int

  datatype Contact = Contact(
    id: Id,
    name: string,
    email: string,
    phone: string,
    photo: Option<string>,   // None is the database NULL
    userId: UserId,
    createdAt: Timestamp)
}
