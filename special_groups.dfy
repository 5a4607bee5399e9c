/** The special access group: a map from a group name to the one user filed under it,
    beside the map of registered users (`SpecialGroup_Interface.addUserTest` and
    `removeUserTest`, whose maps are static fields there). */
module SpecialGroups {
  import Users

  class Registry {
    var userDatabase: map<string, Users.User>
    var specialAccessGroup: map<string, Users.User>

    constructor (specialAccessGroup: map<string, Users.User>, userDatabase: map<string, Users.User>)
      ensures this.specialAccessGroup == specialAccessGroup && this.userDatabase == userDatabase
    {
      this.specialAccessGroup := specialAccessGroup;
      this.userDatabase := userDatabase;
    }

    /** The registered account under `username`, if any: what `addUserTest` may change. */
    function Account(username: string): set<object>
      reads this
    {
      if username in userDatabase then {userDatabase[username]} else {}
    }

    /** The groups whose member has the `isAdmin` flag: the entries
        `values().stream().filter(User::getIsAdmin)` counts. */
    function AdminGroups(): set<string>
      reads this, specialAccessGroup.Values
    {
      set g | g in specialAccessGroup && specialAccessGroup[g].isAdmin
    }

    function AdminCount(): nat
      reads this, specialAccessGroup.Values
    {
      |AdminGroups()|
    }

    /** Some group's member has that user name. */
    predicate HasMember(username: string)
      reads this, specialAccessGroup.Values
    {
      exists g :: g in specialAccessGroup && specialAccessGroup[g].userName == username
    }

    /** `addUserTest`: an unknown user name changes nothing; otherwise the user is
        filed under `group` (replacing whoever was there) and joins that group. The
        first user filed in an empty map, if an Instructor, becomes Admin (role and
        flag); anyone else loses the Admin role but keeps the flag. */
    method AddUserTest(username: string, group: string) returns (added: bool)
      modifies this, Account(username)
      ensures added <==> username in old(userDatabase)
      ensures userDatabase == old(userDatabase)
      ensures !added ==> specialAccessGroup == old(specialAccessGroup)
      ensures added ==>
                var u := userDatabase[username];
                && specialAccessGroup == old(specialAccessGroup)[group := u]
                && u.HasGroup(group)
                && (old(specialAccessGroup) == map[] && old(u.HasRole("Instructor")) ==>
                      u.Snapshot() == old(u.Snapshot()).(groups := old(u.groups) + {group},
                                                         roles := old(u.roles) + {"Admin"},
                                                         isAdmin := true))
                && (!(old(specialAccessGroup) == map[] && old(u.HasRole("Instructor"))) ==>
                      u.Snapshot() == old(u.Snapshot()).(groups := old(u.groups) + {group},
                                                         roles := old(u.roles) - {"Admin"}))
    {
      if username !in userDatabase {
        return false;
      }
      var user := userDatabase[username];
      var isFirstInstructor := specialAccessGroup == map[];
      specialAccessGroup := specialAccessGroup[group := user];
      user.AddGroup(group);
      if isFirstInstructor && user.HasRole("Instructor") {
        user.AddRole("Admin");
        user.SetIsAdmin();
      } else {
        user.RemoveRole("Admin");
      }
      added := true;
    }

    /** `removeUserTest` as written: the first entry whose member has that user name
        is removed, unless that member holds the Admin role while at most one entry's
        member has the `isAdmin` flag. The `group` argument is not used, and which of
        several matching entries is "first" is left open (hash order). */
    method RemoveUserTest(username: string, group: string) returns (removed: bool)
      modifies this
      ensures userDatabase == old(userDatabase)
      ensures !removed ==> specialAccessGroup == old(specialAccessGroup)
      ensures !old(HasMember(username)) ==> !removed
      ensures removed ==>
                exists g :: g in old(specialAccessGroup) && old(specialAccessGroup)[g].userName == username
                  && specialAccessGroup == old(specialAccessGroup) - {g}
                  && (!old(specialAccessGroup)[g].HasRole("Admin") || old(AdminCount()) > 1)
      ensures old(HasMember(username)) && !removed ==>
                old(AdminCount()) <= 1
                && exists g :: g in old(specialAccessGroup) && old(specialAccessGroup)[g].userName == username
                     && old(specialAccessGroup)[g].HasRole("Admin")
    {
      if !HasMember(username) {
        return false;
      }
      var key :| key in specialAccessGroup && specialAccessGroup[key].userName == username;
      var user := specialAccessGroup[key];
      if user.HasRole("Admin") {
        var adminCount := AdminCount();
        if adminCount <= 1 {
          return false;
        }
      }
      specialAccessGroup := specialAccessGroup - {key};
      removed := true;
    }

    /** Removal as evidently intended: the guard tests the same `isAdmin` flag it
        counts, so the last flagged member cannot be removed. */
    method RemoveMember(username: string) returns (removed: bool)
      modifies this
      ensures userDatabase == old(userDatabase)
      ensures !removed ==> specialAccessGroup == old(specialAccessGroup)
      ensures !old(HasMember(username)) ==> !removed
      ensures removed ==>
                exists g :: g in old(specialAccessGroup) && old(specialAccessGroup)[g].userName == username
                  && specialAccessGroup == old(specialAccessGroup) - {g}
                  && (!old(specialAccessGroup)[g].isAdmin || old(AdminCount()) > 1)
      ensures old(HasMember(username)) && !removed ==>
                old(AdminCount()) <= 1
                && exists g :: g in old(specialAccessGroup) && old(specialAccessGroup)[g].userName == username
                     && old(specialAccessGroup)[g].isAdmin
      ensures old(AdminCount()) >= 1 ==> AdminCount() >= 1
    {
      if !HasMember(username) {
        return false;
      }
      var key :| key in specialAccessGroup && specialAccessGroup[key].userName == username;
      var user := specialAccessGroup[key];
      if user.isAdmin {
        var adminCount := AdminCount();
        if adminCount <= 1 {
          return false;
        }
      }
      ghost var before := AdminGroups();
      specialAccessGroup := specialAccessGroup - {key};
      assert AdminGroups() == before - {key};
      removed := true;
    }
  }

  /** JT1 and JT2: a registered user without roles is filed, and can then be removed. */
  method AddThenRemove() returns (added: bool, removed: bool)
    ensures added && removed
  {
    var stu := new Users.User("stu");
    var registry := new Registry(map[], map["stu" := stu]);
    added := registry.AddUserTest("stu", "group1");
    assert registry.specialAccessGroup == map["group1" := stu];
    assert stu.userName == "stu" && !stu.HasRole("Admin");
    assert "group1" in registry.specialAccessGroup && registry.specialAccessGroup["group1"].userName == "stu";
    removed := registry.RemoveUserTest("stu", "group1");
  }

  /** An Instructor "ada" filed first under "g1" becomes Admin; "bob", filed next
      under "g2", does not. */
  method AdminThenMember() returns (registry: Registry, ada: Users.User, bob: Users.User)
    ensures fresh(registry) && fresh(ada) && fresh(bob)
    ensures registry.userDatabase == map["ada" := ada, "bob" := bob]
    ensures registry.specialAccessGroup == map["g1" := ada, "g2" := bob]
    ensures ada.userName == "ada" && bob.userName == "bob"
    ensures ada.isAdmin && ada.HasRole("Admin") && ada.HasRole("Instructor") && !bob.isAdmin
  {
    ada := new Users.User("ada");
    ada.AddRole("Instructor");
    bob := new Users.User("bob");
    registry := new Registry(map[], map["ada" := ada, "bob" := bob]);
    var first := registry.AddUserTest("ada", "g1");
    assert ada.isAdmin;
    var second := registry.AddUserTest("bob", "g2");
  }

  /** Filed again under "g1" once the map is no longer empty, "ada" loses the Admin
      role but keeps the flag. */
  method DemotedAdmin() returns (registry: Registry, ada: Users.User, bob: Users.User)
    ensures fresh(registry) && fresh(ada) && fresh(bob)
    ensures registry.specialAccessGroup == map["g1" := ada, "g2" := bob]
    ensures ada.userName == "ada" && bob.userName == "bob"
    ensures ada.isAdmin && !ada.HasRole("Admin") && !bob.isAdmin
  {
    registry, ada, bob := AdminThenMember();
    assert "g1" in registry.specialAccessGroup;
    var again := registry.AddUserTest("ada", "g1");
  }

  /** Removing the demoted Admin: the guard of `removeUserTest` tests the role she no
      longer holds, so the last flagged member is removed and no member is flagged. */
  method LastAdminEscapesGuard() returns (before: nat, removed: bool, after: nat)
    ensures before == 1 && removed && after == 0
  {
    var registry, ada, bob := DemotedAdmin();
    assert registry.AdminGroups() == {"g1"};
    before := registry.AdminCount();
    assert registry.specialAccessGroup["g1"].userName == "ada";
    removed := registry.RemoveUserTest("ada", "g1");
    assert registry.specialAccessGroup == map["g2" := bob];
    assert registry.AdminGroups() == {};
    after := registry.AdminCount();
  }

  /** The same removal with the corrected guard: the last flagged member stays. */
  method LastAdminKept() returns (removed: bool, after: nat)
    ensures !removed && after == 1
  {
    var registry, ada, bob := DemotedAdmin();
    assert registry.AdminGroups() == {"g1"};
    assert registry.specialAccessGroup["g1"].userName == "ada";
    assert registry.specialAccessGroup["g2"].userName != "ada";
    removed := registry.RemoveMember("ada");
    assert registry.specialAccessGroup == map["g1" := ada, "g2" := bob];
    assert registry.AdminGroups() == {"g1"};
    after := registry.AdminCount();
  }
}
