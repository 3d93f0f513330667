/**
  The part of the user record the charger job reads: an identity and a role.
  Only users whose role is 'user' take part in charger allocation.
 */
module UserModel {
  type UserId = nat

  datatype Role = Admin | RegularUser

  datatype User = User(id: UserId, role: Role)

  /** `User.find({ role: 'user' })`: the users with role 'user', in collection order. */
  function RegularUsers(users: seq<User>): (r: seq<User>)
    ensures |r| <= |users|
    ensures forall u :: u in r <==> u in users && u.role == RegularUser
    ensures forall u :: multiset(r)[u] == if u.role == RegularUser then multiset(users)[u] else 0
  {
    if |users| == 0 then []
    else
      var rest := RegularUsers(users[..|users| - 1]);
      var last := users[|users| - 1];
      assert users == users[..|users| - 1] + [last];
      if last.role == RegularUser then rest + [last] else rest
  }

  /** Selection distributes over concatenation: the users a longer collection
      adds are selected after the ones already selected, so the result keeps
      collection order. */
  lemma {:induction false} RegularUsersAppend(a: seq<User>, b: seq<User>)
    ensures RegularUsers(a + b) == RegularUsers(a) + RegularUsers(b)
    decreases |b|
  {
    if |b| == 0 {
      assert a + b == a;
    } else {
      var b' := b[..|b| - 1];
      assert (a + b)[..|a + b| - 1] == a + b';
      assert (a + b)[|a + b| - 1] == b[|b| - 1];
      RegularUsersAppend(a, b');
    }
  }

  /** One user is selected exactly when its role is 'user'. */
  lemma RegularUsersSingle(u: User)
    ensures RegularUsers([u]) == if u.role == RegularUser then [u] else []
  {
  }
}
