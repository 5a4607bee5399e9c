/** `User`: a mutable account record with a role set, a group set, set-only role
    flags, account-setup and reset switches, a skill level and a one-time code. */
module Users {
  import opened Wrappers

  /** The skill levels `setLevel` indexes into. */
  const Levels: seq<string> := ["beginner", "intermediate", "advanced", "expert"]

  /** The group every new user belongs to, and the one an article without a group is filed under. */
  const GeneralGroup: string := "general"

  /** A snapshot of every field the model keeps, so that a mutator can say in one
      clause what it changed and that nothing else changed. */
  datatype Profile = Profile(
    userName: string,
    roles: set<string>,
    groups: set<string>,
    accountSetUp: bool,
    reset: bool,
    otc: Option<string>,
    isAdmin: bool,
    isStudent: bool,
    isInstructor: bool,
    level: string,
    isSpecial: bool)

  /** The state the constructor leaves behind. */
  function NewProfile(userName: string): (p: Profile)
    ensures p.roles == {} && p.groups == {GeneralGroup}
    ensures !p.accountSetUp && !p.reset && p.otc == None
    ensures !p.isAdmin && !p.isStudent && !p.isInstructor && !p.isSpecial
    ensures p.level == "intermediate"
  {
    Profile(userName, {}, {GeneralGroup}, false, false, None, false, false, false, Levels[1], false)
  }

  class User {
    var userName: string
    var roles: set<string>
    var groups: set<string>
    var accountSetUp: bool
    var reset: bool
    var otc: Option<string>
    var isAdmin: bool
    var isStudent: bool
    var isInstructor: bool
    var level: string
    var isSpecial: bool

    function Snapshot(): Profile
      reads this
    {
      Profile(userName, roles, groups, accountSetUp, reset, otc,
              isAdmin, isStudent, isInstructor, level, isSpecial)
    }

    constructor (userName: string)
      ensures Snapshot() == NewProfile(userName)
    {
      this.userName := userName;
      roles := {};
      groups := {GeneralGroup};
      accountSetUp := false;
      reset := false;
      otc := None;
      isAdmin := false;
      isStudent := false;
      isInstructor := false;
      level := Levels[1];
      isSpecial := false;
    }

    predicate HasRole(role: string): (b: bool)
      reads this
      ensures b <==> role in Snapshot().roles
    {
      role in roles
    }

    predicate HasGroup(group: string): (b: bool)
      reads this
      ensures b <==> group in Snapshot().groups
    {
      group in groups
    }

    /** Adding a role twice has the effect of adding it once. */
    method AddRole(role: string)
      modifies this
      ensures Snapshot() == old(Snapshot()).(roles := old(roles) + {role})
      ensures HasRole(role)
      ensures old(HasRole(role)) ==> Snapshot() == old(Snapshot())
    {
      roles := roles + {role};
    }

    method RemoveRole(role: string)
      modifies this
      ensures Snapshot() == old(Snapshot()).(roles := old(roles) - {role})
      ensures !HasRole(role)
      ensures forall other :: other != role ==> (HasRole(other) <==> old(HasRole(other)))
    {
      roles := roles - {role};
    }

    method AddGroup(group: string)
      modifies this
      ensures Snapshot() == old(Snapshot()).(groups := old(groups) + {group})
      ensures HasGroup(group)
      ensures old(HasGroup(group)) ==> Snapshot() == old(Snapshot())
    {
      groups := groups + {group};
    }

    method RemoveGroup(group: string)
      modifies this
      ensures Snapshot() == old(Snapshot()).(groups := old(groups) - {group})
      ensures !HasGroup(group)
      ensures forall other :: other != group ==> (HasGroup(other) <==> old(HasGroup(other)))
    {
      groups := groups - {group};
    }

    /** The three role flags can only be raised; none of them touches the role set. */
    method SetIsAdmin()
      modifies this
      ensures Snapshot() == old(Snapshot()).(isAdmin := true)
    {
      isAdmin := true;
    }

    method SetIsStudent()
      modifies this
      ensures Snapshot() == old(Snapshot()).(isStudent := true)
    {
      isStudent := true;
    }

    method SetIsInstructor()
      modifies this
      ensures Snapshot() == old(Snapshot()).(isInstructor := true)
    {
      isInstructor := true;
    }

    method SetIsSpecial(special: bool)
      modifies this
      ensures Snapshot() == old(Snapshot()).(isSpecial := special)
    {
      isSpecial := special;
    }

    method FinishAccountSetup()
      modifies this
      ensures Snapshot() == old(Snapshot()).(accountSetUp := true)
    {
      accountSetUp := true;
    }

    method DoReset()
      modifies this
      ensures Snapshot() == old(Snapshot()).(reset := true)
    {
      reset := true;
    }

    method UndoReset()
      modifies this
      ensures Snapshot() == old(Snapshot()).(reset := false)
    {
      reset := false;
    }

    /** `setLevel(i)` indexes the four-element level array; an index outside it
        throws before anything is assigned, which `ok == false` stands for here. */
    method SetLevel(levelIndex: int) returns (ok: bool)
      modifies this
      ensures ok <==> 0 <= levelIndex < |Levels|
      ensures ok ==> Snapshot() == old(Snapshot()).(level := Levels[levelIndex])
      ensures !ok ==> Snapshot() == old(Snapshot())
    {
      ok := 0 <= levelIndex < |Levels|;
      if ok {
        level := Levels[levelIndex];
      }
    }

    /** The one-time code is the fixed placeholder "123". */
    method SetOTC()
      modifies this
      ensures Snapshot() == old(Snapshot()).(otc := Some("123"))
    {
      otc := Some("123");
    }
  }
}
