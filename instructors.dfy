/** `Instructor`: a user that also holds the user database and the special access
    group, and can tell whether any instructor is registered yet. */
module Instructors {
  import Users

  /** No user in the database holds the Instructor role. */
  predicate NoInstructor(db: map<string, Users.User>)
    reads db.Values
  {
    forall name :: name in db ==> !db[name].HasRole("Instructor")
  }

  /** The empty database has no instructor. */
  lemma EmptyHasNoInstructor()
    ensures NoInstructor(map[])
  {
  }

  /** An account without roles, such as a new Instructor's own, does not count:
      registering it under a name leaves the answer as it is without that name. */
  lemma RolelessAccountDoesNotCount(db: map<string, Users.User>, name: string, u: Users.User)
    requires u.roles == {}
    ensures NoInstructor(db[name := u]) <==> NoInstructor(map n | n in db && n != name :: db[n])
  {
    var rest := map n | n in db && n != name :: db[n];
    var updated := db[name := u];
    if NoInstructor(rest) {
      forall n | n in updated ensures !updated[n].HasRole("Instructor") {
        if n != name {
          assert n in rest;
        }
      }
    }
    if NoInstructor(updated) {
      forall n | n in rest ensures !rest[n].HasRole("Instructor") {
        assert n in updated;
      }
    }
  }

  class Instructor {
    /** The `User` part of the instructor. */
    const account: Users.User
    var userDatabase: map<string, Users.User>
    var specialAccessGroup: map<string, Users.User>

    /** The constructor stores the two maps; the account starts with the defaults of
        every new user, so it holds no role. */
    constructor (userName: string, userDatabase: map<string, Users.User>,
                 specialAccessGroup: map<string, Users.User>)
      ensures fresh(account) && account.Snapshot() == Users.NewProfile(userName)
      ensures !account.HasRole("Instructor")
      ensures this.userDatabase == userDatabase && this.specialAccessGroup == specialAccessGroup
    {
      account := new Users.User(userName);
      this.userDatabase := userDatabase;
      this.specialAccessGroup := specialAccessGroup;
    }

    /** `checkIfFirstInstructor`: scans the database and stops at the first user with
        the Instructor role. */
    method CheckIfFirstInstructor() returns (first: bool)
      ensures first <==> NoInstructor(userDatabase)
    {
      var remaining := userDatabase.Keys;
      while remaining != {}
        invariant remaining <= userDatabase.Keys
        invariant forall name :: name in userDatabase && name !in remaining ==> !userDatabase[name].HasRole("Instructor")
        decreases remaining
      {
        var name :| name in remaining;
        if userDatabase[name].HasRole("Instructor") {
          return false;
        }
        remaining := remaining - {name};
      }
      return true;
    }
  }
}
