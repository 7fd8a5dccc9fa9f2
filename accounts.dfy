/** The user repository as a value: stored accounts keyed by their generated id,
    and the derived single-result queries the controller calls on it. */
module Accounts {

  type Id = int

  /** A stored account; `password` holds the encoder's digest, never the plaintext. */
  datatype ApplicationUser = ApplicationUser(username: string, email: string, password: string)

  type Users = map<Id, ApplicationUser>

  /** The two columns the controller searches by. */
  datatype Field = Username | Email

  function Get(user: ApplicationUser, f: Field): string {
    match f
    case Username => user.username
    case Email => user.email
  }

  /** Some stored account holds `value` in column `f`. */
  predicate Taken(users: Users, f: Field, value: string) {
    exists id :: id in users && Get(users[id], f) == value
  }

  /** Exactly one stored account holds `value` in column `f`. */
  predicate HeldOnce(users: Users, f: Field, value: string) {
    && Taken(users, f, value)
    && forall i, j :: i in users && j in users && Get(users[i], f) == value && Get(users[j], f) == value ==> i == j
  }

  /** No two distinct accounts share a value in column `f`. */
  predicate UniqueOn(users: Users, f: Field) {
    forall i, j :: i in users && j in users && i != j ==> Get(users[i], f) != Get(users[j], f)
  }

  /** Every stored id lies below the next id the generator will hand out. */
  predicate IdsBelow(users: Users, nextId: Id) {
    forall id :: id in users ==> id < nextId
  }

  /** What a single-result finder (`findByUsername`, `findByEmail`) does: null when
      nothing matches, the one match, or an exception when several match. */
  datatype Lookup = Absent | Unique(id: Id) | Duplicated

  function FindBy(users: Users, f: Field, value: string): (r: Lookup)
    ensures r.Absent? <==> !Taken(users, f, value)
    ensures r.Unique? <==> HeldOnce(users, f, value)
    ensures r.Duplicated? <==> Taken(users, f, value) && !HeldOnce(users, f, value)
    ensures r.Unique? ==> r.id in users && Get(users[r.id], f) == value
    ensures UniqueOn(users, f) ==> !r.Duplicated?
  {
    if !Taken(users, f, value) then
      Absent
    else if exists i, j :: i in users && j in users && i != j && Get(users[i], f) == value && Get(users[j], f) == value then
      Duplicated
    else
      var id :| id in users && Get(users[id], f) == value;
      Unique(id)
  }
}
