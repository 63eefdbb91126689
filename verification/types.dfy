/** The records of the application and the compiled-in account directory. */
module Types {

  /** A registered account: opaque id, plain-text credentials, display name. */
  datatype User = User(id: string, username: string, password: string, name: string)

  /** One message. `timestamp` is the millisecond instant of sending; the
      model keeps it as an unbounded integer (`Date.now()` only yields
      integers). A letter has exactly these seven fields. */
  datatype Letter = Letter(
    id: string,
    from: string,
    to: string,
    subject: string,
    content: string,
    timestamp: int,
    read: bool)

  /** The account directory, in search order. */
  type Directory = seq<User>

  /** The shipped directory: exactly two accounts. */
  const Users: Directory := [
    User("user1", "alex", "password1", "Alex"),
    User("user2", "jordan", "password2", "Jordan")
  ]

  /** No two accounts share an id. */
  predicate UniqueIds(dir: Directory) {
    forall i, j :: 0 <= i < j < |dir| ==> dir[i].id != dir[j].id
  }

  /** No two accounts share a username, so a credential pair matches at most
      one account. */
  predicate UniqueUsernames(dir: Directory) {
    forall i, j :: 0 <= i < j < |dir| ==> dir[i].username != dir[j].username
  }

  /** Every id is a non-empty string, which a session cookie can carry. */
  predicate NonEmptyIds(dir: Directory) {
    forall i :: 0 <= i < |dir| ==> dir[i].id != ""
  }

  /** The shape of the shipped directory. */
  lemma ShippedDirectory()
    ensures |Users| == 2
    ensures Users[0].id == "user1" && Users[1].id == "user2"
    ensures UniqueIds(Users) && UniqueUsernames(Users) && NonEmptyIds(Users)
  {
  }
}
