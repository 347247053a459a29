/**
 * The user service: registration with a role chosen by name (falling back to
 * the end-user role, then to any role), and login by username and password
 * hash. Every error it reports is `BusinessRule` or `NotFound`; a store
 * failure is re-reported as `BusinessRule`.
 */
module Accounts {
  import opened Wrappers
  import opened Text
  import opened Seqs
  import opened Entities
  import opened Schema
  import opened Repositories

  /**
   * The role a registration gets: the one named as requested if there is one,
   * otherwise the end-user role, otherwise the first role; none only when
   * there are no roles at all.
   */
  function ChooseRole(roles: seq<Role>, requested: string): (r: Option<Role>)
    ensures r.None? <==> |roles| == 0
    ensures r.Some? ==> r.value in roles
    ensures (exists i | 0 <= i < |roles| :: roles[i].name == requested) ==> r.Some? && r.value.name == requested
    ensures (forall i | 0 <= i < |roles| :: roles[i].name != requested)
            && (exists i | 0 <= i < |roles| :: roles[i].name == EndUserRole)
            ==> r.Some? && r.value.name == EndUserRole
    ensures (forall i | 0 <= i < |roles| :: roles[i].name != requested && roles[i].name != EndUserRole) && |roles| > 0
            ==> r == Some(roles[0])
  {
    match FirstWhere(roles, (x: Role) => x.name == requested)
    case Some(named) => Some(named)
    case None =>
      match FirstWhere(roles, (x: Role) => x.name == EndUserRole)
      case Some(endUser) => Some(endUser)
      case None => if |roles| == 0 then None else Some(roles[0])
  }

  /** On the seeded roles a known name gets that role and any other name the end-user role. */
  lemma ChooseSeededRole(requested: string)
    ensures ChooseRole(SeedRoles(), requested)
            == Some(if requested == DeveloperRole then Role(2, DeveloperRole)
                    else if requested == ModeratorRole then Role(3, ModeratorRole)
                    else Role(1, EndUserRole))
  {
    var roles := SeedRoles();
    var r := ChooseRole(roles, requested);
    if requested == EndUserRole || requested == DeveloperRole || requested == ModeratorRole {
      var i := if requested == EndUserRole then 0 else if requested == DeveloperRole then 1 else 2;
      assert roles[i].name == requested;
      assert r.value in roles;
    } else {
      assert roles[0].name == EndUserRole;
      assert r.value in roles;
    }
  }

  class UserService {
    const db: Store
    /** The password hash (SHA-256 of the UTF-8 bytes, as lower-case hex). */
    const hashPassword: string -> string

    constructor(db: Store, hashPassword: string -> string)
      ensures this.db == db && this.hashPassword == hashPassword
    {
      this.db := db;
      this.hashPassword := hashPassword;
    }

    /**
     * Blank username or password is BusinessRule; an unknown username or a
     * wrong password is NotFound, without saying which; otherwise the stored
     * user with its role.
     */
    function LoginAsync(username: string, password: string): (r: Result<LoadedUser>)
      reads db
      ensures IsBlank(username) || IsBlank(password) ==> r == Failure(BusinessRule)
      ensures !IsBlank(username) && !IsBlank(password) ==>
                (r.Success? <==> db.GetUserByUsername(username).Some?
                                 && db.GetUserByUsername(username).value.passwordHash == hashPassword(password))
      ensures r.Failure? && !IsBlank(username) && !IsBlank(password) ==> r.error == NotFound
      ensures r.Success? ==> && r.value.user in db.users
                             && r.value.user.username == username
                             && r.value.user.passwordHash == hashPassword(password)
      ensures r.Success? && db.Constrained() ==> && r.value.role.Some? && r.value.role.value in db.roles
                                                 && r.value.role.value.id == r.value.user.roleId
    {
      if IsBlank(username) || IsBlank(password) then Failure(BusinessRule)
      else
        match db.GetUserByUsernameWithRole(username)
        case None => Failure(NotFound)
        case Some(loaded) =>
          if loaded.user.passwordHash != hashPassword(password) then Failure(NotFound)
          else Success(loaded)
    }

    /** Any stored user logs in with a password whose hash is the stored one, and gets its own role. */
    lemma StoredUserLogsIn(u: User, role: Role, password: string)
      requires db.Constrained()
      requires u in db.users && role in db.roles && role.id == u.roleId
      requires !IsBlank(u.username) && !IsBlank(password) && u.passwordHash == hashPassword(password)
      ensures LoginAsync(u.username, password) == Success(LoadedUser(u, Some(role)))
    {
      var d := db.State();
      var i :| 0 <= i < |d.users| && d.users[i] == u;
      var found := db.GetUserByUsername(u.username).value;
      var j :| 0 <= j < |d.users| && d.users[j] == found;
      assert UniqueBy(d.users, (x: User) => x.username);
      assert i == j;
      var k :| 0 <= k < |d.roles| && d.roles[k] == role;
      var loaded := db.GetRoleById(u.roleId).value;
      var l :| 0 <= l < |d.roles| && d.roles[l] == loaded;
      assert UniqueBy(d.roles, (x: Role) => x.id);
      assert k == l;
    }

    /**
     * Blank username, email or password, a taken username, a taken email and
     * a store without roles are each BusinessRule and change nothing.
     * Otherwise exactly one user is stored, with the password's hash and the
     * role `ChooseRole` picks, and that username and password then log in as
     * the returned user.
     */
    method RegisterAsync(username: string, email: string, password: string, roleName: string, now: Timestamp)
      returns (r: Result<LoadedUser>)
      requires db.Valid()
      modifies db
      ensures db.Valid()
      ensures r.Failure? ==> r.error == BusinessRule && db.State() == old(db.State())
      ensures r.Success? <==> && !IsBlank(username) && !IsBlank(email) && !IsBlank(password)
                              && old(db.GetUserByUsername(username)).None?
                              && old(db.GetUserByEmail(email)).None?
                              && |old(db.roles)| > 0
      ensures r.Success? ==>
                && r.value.role == ChooseRole(old(db.roles), roleName)
                && r.value.user == User(old(db.next.userId), username, email, hashPassword(password), now,
                                        r.value.role.value.id)
      ensures r.Success? ==> db.State() == old(db.State()).(users := old(db.users) + [r.value.user],
                                                           next := old(db.next).(userId := old(db.next.userId) + 1))
      ensures r.Success? ==> LoginAsync(username, password) == Success(r.value)
    {
      if IsBlank(username) || IsBlank(email) || IsBlank(password) {
        return Failure(BusinessRule);
      }
      if db.GetUserByUsername(username).Some? {
        return Failure(BusinessRule);
      }
      if db.GetUserByEmail(email).Some? {
        return Failure(BusinessRule);
      }
      var role := db.GetRoleByName(roleName);
      if role.None? {
        var allRoles := db.GetAllRoles();
        role := FirstWhere(allRoles, (x: Role) => x.name == EndUserRole);
        if role.None? && |allRoles| > 0 {
          role := Some(allRoles[0]);
        }
        if role.None? {
          return Failure(BusinessRule);
        }
      }
      assert role == ChooseRole(db.roles, roleName);
      var user := User(0, username, email, hashPassword(password), now, role.value.id);
      ghost var before := db.users;
      var added := db.AddUser(user);
      if added.Failure? {
        return Failure(BusinessRule);
      }
      r := Success(LoadedUser(added.value, role));
      assert db.users[|before|] == added.value;
      StoredUserLogsIn(added.value, role.value, password);
    }
  }
}
