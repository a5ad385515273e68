/** Start-up seeding of the database: the three roles, the default
    university and department, and a first super admin. Each step is
    guarded by an emptiness check and committed on its own; a failed
    super-admin insert is rolled back and re-raised, so the steps already
    committed stay. The super admin's credentials come from the environment
    and are parameters here. */
module Seeding {
  import opened Wrappers
  import opened Models
  import Middleware
  import UserCrud
  import UserRouter
  import Login
  import opened Jwt

  /** The four tables the seeding reads and writes. */
  datatype Db = Db(roles: seq<Role>, universities: seq<University>, departments: seq<Department>, users: seq<User>)

  /** `FIRST_SUPERADMIN_USERNAME` and `FIRST_SUPERADMIN_PASSWORD`. */
  datatype SuperAdminConfig = SuperAdminConfig(username: string, password: string)

  const SuperAdminRoleId: nat := 3

  const DefaultRoles: seq<Role> := [
    Role(1, "user", Some("normal_user")),
    Role(2, "admin", Some("admin")),
    Role(3, "superadmin", Some("owner"))]

  const DefaultUniversity := University(1, "lorestan-lu")
  const DefaultDepartment := Department(1, "science")

  /** The fixed profile of the seeded super admin. */
  const SuperAdminProfile := Profile(
    Some("Super"), "11111111111", "Admin", "Admin", "09000000000", None, "0000000000",
    None, None, None, None, None, None, Some(true))

  /** The super-admin row: role 3, the hashed environment password. */
  function SuperAdmin(id: nat, cfg: SuperAdminConfig, h: Middleware.Hasher): (u: User)
    ensures u.id == id && u.username == cfg.username && u.roleId == SuperAdminRoleId
    ensures u.password == Middleware.GetPasswordHash(h, cfg.password)
    ensures u.isActive && u.email.None? && u.profile.status == Some(true)
  {
    User(id, cfg.username, None, Middleware.GetPasswordHash(h, cfg.password), SuperAdminRoleId,
         0, None, true, None, None, SuperAdminProfile)
  }

  predicate HasSuperAdmin(users: seq<User>) {
    exists j :: 0 <= j < |users| && users[j].roleId == SuperAdminRoleId
  }

  predicate HasRole(roles: seq<Role>, id: nat) {
    exists j :: 0 <= j < |roles| && roles[j].id == id
  }

  /** The tables after the run, and whether it ended by re-raising a
      database error. */
  datatype SeedOutcome = SeedOutcome(db: Db, failed: bool)

  /** The guarded reference tables: each is filled only when empty. */
  function SeedReferenceTables(db: Db): (d: Db)
    ensures |db.roles| == 0 ==> d.roles == DefaultRoles
    ensures |db.roles| > 0 ==> d.roles == db.roles
    ensures |db.universities| == 0 ==> d.universities == [DefaultUniversity]
    ensures |db.universities| > 0 ==> d.universities == db.universities
    ensures |db.departments| == 0 ==> d.departments == [DefaultDepartment]
    ensures |db.departments| > 0 ==> d.departments == db.departments
    ensures d.users == db.users
  {
    db.(roles := if |db.roles| == 0 then DefaultRoles else db.roles,
        universities := if |db.universities| == 0 then [DefaultUniversity] else db.universities,
        departments := if |db.departments| == 0 then [DefaultDepartment] else db.departments)
  }

  /** `initialize_super_admin`. The super-admin insert fails, leaving the
      users untouched, when its username is already held (unique column) or
      no role 3 exists for its foreign key. */
  function InitializeSuperAdmin(db: Db, cfg: SuperAdminConfig, h: Middleware.Hasher): (r: SeedOutcome)
    ensures r.db.roles == SeedReferenceTables(db).roles
    ensures r.db.universities == SeedReferenceTables(db).universities
    ensures r.db.departments == SeedReferenceTables(db).departments
    ensures HasSuperAdmin(db.users) ==> r.db.users == db.users && !r.failed
    ensures !HasSuperAdmin(db.users) ==>
      (r.failed <==> UserCrud.UsernameTaken(db.users, cfg.username) || !HasRole(r.db.roles, SuperAdminRoleId))
    ensures r.failed ==> r.db.users == db.users
    ensures !r.failed ==> HasSuperAdmin(r.db.users)
    ensures r.db.users == db.users || r.db.users == db.users + [SuperAdmin(NextUserId(db.users), cfg, h)]
  {
    var seeded := SeedReferenceTables(db);
    if HasSuperAdmin(db.users) then SeedOutcome(seeded, false)
    else if UserCrud.UsernameTaken(db.users, cfg.username) || !HasRole(seeded.roles, SuperAdminRoleId) then
      SeedOutcome(seeded, true)
    else
      var admin := SuperAdmin(NextUserId(db.users), cfg, h);
      assert admin == (db.users + [admin])[|db.users|];
      SeedOutcome(seeded.(users := db.users + [admin]), false)
  }

  /** Running the seeding a second time changes nothing and ends the same
      way as the first run. */
  lemma SeedIdempotent(db: Db, cfg: SuperAdminConfig, h: Middleware.Hasher)
    ensures var once := InitializeSuperAdmin(db, cfg, h);
      InitializeSuperAdmin(once.db, cfg, h) == once
  {
    var once := InitializeSuperAdmin(db, cfg, h);
    var twice := InitializeSuperAdmin(once.db, cfg, h);
    assert |DefaultRoles| > 0;
    assert SeedReferenceTables(once.db) == once.db;
    if once.failed {
      assert !HasSuperAdmin(db.users);
      if |db.roles| == 0 {
        assert DefaultRoles[2].id == SuperAdminRoleId;
        assert HasRole(once.db.roles, SuperAdminRoleId);
      }
    }
  }

  /** On an empty database the run succeeds and leaves the three roles, the
      default university and department, and exactly the super admin. */
  lemma SeedEmptyDatabase(cfg: SuperAdminConfig, h: Middleware.Hasher)
    ensures var r := InitializeSuperAdmin(Db([], [], [], []), cfg, h);
      && !r.failed
      && r.db == Db(DefaultRoles, [DefaultUniversity], [DefaultDepartment], [SuperAdmin(1, cfg, h)])
  {
    assert DefaultRoles[2].id == SuperAdminRoleId;
    assert HasRole(DefaultRoles, SuperAdminRoleId);
  }

  /** The seeded roles have distinct ids and distinct names, as the primary
      key and the unique name column require. */
  lemma DefaultRolesDistinct()
    ensures forall i, j :: 0 <= i < j < |DefaultRoles| ==>
      DefaultRoles[i].id != DefaultRoles[j].id && DefaultRoles[i].name != DefaultRoles[j].name
  {
  }

  /** The seeding keeps every uniqueness constraint of the users table. */
  lemma SeedKeepsTableValid(db: Db, cfg: SuperAdminConfig, h: Middleware.Hasher)
    requires UsersValid(db.users)
    ensures UsersValid(InitializeSuperAdmin(db, cfg, h).db.users)
  {
    var users := db.users;
    var after := InitializeSuperAdmin(db, cfg, h).db.users;
    if after != users {
      var admin := SuperAdmin(NextUserId(users), cfg, h);
      assert after == users + [admin];
      assert !UserCrud.UsernameTaken(users, cfg.username);
      assert forall j :: 0 <= j < |users| ==> after[j] == users[j];
      assert after[|users|] == admin;
    }
  }

  /** With a sound hasher, the super admin a run creates can log in with the
      configured credentials: the row stores the hash of the configured
      password, and its username is held by no earlier row. */
  lemma SeededAdminCanLogIn(db: Db, cfg: SuperAdminConfig, h: Middleware.Hasher, key: SigningKey, now: int)
    requires Middleware.SoundHasher(h)
    ensures var r := InitializeSuperAdmin(db, cfg, h);
      !HasSuperAdmin(db.users) && !r.failed ==> Login.Login(r.db.users, cfg.username, cfg.password, h, key, now).Success?
  {
    var r := InitializeSuperAdmin(db, cfg, h);
    if !HasSuperAdmin(db.users) && !r.failed {
      var users := db.users;
      var admin := SuperAdmin(NextUserId(users), cfg, h);
      assert r.db.users == users + [admin];
      assert UserCrud.IsFirstNamed(r.db.users, cfg.username, |users|);
      var k :| UserCrud.IsFirstNamed(r.db.users, cfg.username, k)
        && r.db.users[k] == UserCrud.GetUser(r.db.users, cfg.username).value;
      UserCrud.FirstNamedUnique(r.db.users, cfg.username, |users|, k);
      assert h.verify(cfg.password, h.hash(cfg.password));
    }
  }

  /** The super admin's fixed phone number, id number and student id obey
      the same rules the registration form imposes. */
  lemma SuperAdminProfileWellFormed()
    ensures UserRouter.ValidPhoneNumber(SuperAdminProfile.phoneNumber)
    ensures UserRouter.ValidIdNumber(SuperAdminProfile.idNumber)
    ensures |SuperAdminProfile.sid| == 11
    ensures UserRouter.InRange(SuperAdminProfile.lname, 3, 20) && UserRouter.InRange(SuperAdminProfile.faName, 3, 20)
  {
    UserRouter.PhoneNumberShape(SuperAdminProfile.phoneNumber);
    UserRouter.IdNumberShape(SuperAdminProfile.idNumber);
  }
}
