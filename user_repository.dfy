/** The user queries. EmailAlredyInUse compares ignoring case; GetByEmail compares
    exactly. */
module UserRepository {
  import opened Wrappers
  import opened Entities
  import opened Text
  import opened Tables

  /** The first user whose email equals `email` exactly, if there is one. */
  function GetByEmail(users: map<int, User>, email: string): (r: Option<User>)
    ensures r.None? <==> forall k :: k in users ==> users[k].email != email
    ensures r.Some? ==> r.value in users.Values && r.value.email == email
  {
    FirstWhere(users, (u: User) => u.email == email)
  }

  /** Whether a user other than the one with id `id` has this email, ignoring case. */
  predicate EmailAlredyInUse(users: map<int, User>, email: string, id: int) {
    exists k :: k in users && EqualsIgnoreCase(users[k].email, email) && users[k].id != id
  }

  /** The uniqueness the user validators keep: no two users have emails that differ
      only by case. */
  predicate EmailsUnique(users: map<int, User>) {
    forall a, b :: a in users && b in users && a != b ==>
      !EqualsIgnoreCase(users[a].email, users[b].email)
  }

  predicate KeysMatch(users: map<int, User>) {
    forall k :: k in users ==> users[k].id == k && k != 0
  }

  /** An email that GetByEmail finds is in use for the create validator. */
  lemma FoundEmailIsInUse(users: map<int, User>, email: string)
    requires KeysMatch(users)
    requires GetByEmail(users, email).Some?
    ensures EmailAlredyInUse(users, email, 0)
  {
    var u := GetByEmail(users, email).value;
    ValueHasKey(users, u);
    var k :| k in users && users[k] == u;
    assert EqualsIgnoreCase(users[k].email, email);
  }

  /** The two queries disagree on an email that differs from a stored one only by
      case: it counts as in use, yet signing in with it finds no user. */
  lemma CaseVariantEmail(users: map<int, User>, k: int, email: string)
    requires KeysMatch(users) && EmailsUnique(users) && k in users
    requires EqualsIgnoreCase(users[k].email, email) && email != users[k].email
    ensures EmailAlredyInUse(users, email, 0)
    ensures GetByEmail(users, email).None?
  {
  }

  /** When emails are unique ignoring case, GetByEmail finds the user with that exact
      email. */
  lemma GetByEmailExact(users: map<int, User>, k: int)
    requires EmailsUnique(users)
    requires k in users
    ensures GetByEmail(users, users[k].email) == Some(users[k])
  {
    var u := GetByEmail(users, users[k].email).value;
    ValueHasKey(users, u);
    var j :| j in users && users[j] == u;
    if j != k {
      assert EqualsIgnoreCase(users[j].email, users[k].email);
    }
  }
}
