/**
  Seeding of the permission matrix and role administration (backend/app/services/rbac.py),
  with the guards that the user endpoints put in front of it
  (backend/app/services/authorization.py, backend/app/api/v1/users.py).
*/
module Rbac {
  import opened FiniteSets

  type UserId = string
  const SUPER_ADMIN := "SUPER_ADMIN"
  const ADMIN := "ADMIN"
  const MANAGE := "users.manage"

  /** Rows are told apart by their unique codes; `roles` and `permissions` hold the texts. */
  datatype Db = Db(users: set<UserId>, active: set<UserId>, roles: map<string, string>,
                   permissions: map<string, string>, grants: set<(string, string)>,
                   assignments: set<(UserId, string)>)

  /** The seed lists of the source: codes with texts, and the matrix by role. */
  datatype Catalog = Catalog(permissions: seq<(string, string)>, roles: seq<(string, string)>,
                             matrix: map<string, seq<string>>)

  datatype Outcome = Done | Forbidden | UnknownPermission | UserNotFound | UnknownRoles | LastSuperAdmin | Conflict

  // --------------------------------------------------------------------- seeding

  /** `ROLE_PERMISSIONS.get(role, [])` */
  function MatrixOf(c: Catalog, role: string): set<string> {
    if role in c.matrix then set p | p in c.matrix[role] else {}
  }

  /** Upserts by code, the last text winning. */
  function Upserted(rows: map<string, string>, entries: seq<(string, string)>): map<string, string>
    decreases |entries|
  {
    if entries == [] then rows else Upserted(rows[entries[0].0 := entries[0].1], entries[1..])
  }

  function Codes(entries: seq<(string, string)>): set<string> {
    set e | e in entries :: e.0
  }

  /** Every permission that a seeded role mentions is seeded as well. */
  predicate Closed(c: Catalog) {
    forall role :: role in Codes(c.roles) ==> MatrixOf(c, role) <= Codes(c.permissions)
  }

  function MatrixGrants(c: Catalog, roles: set<string>): set<(string, string)> {
    set role, p | role in roles && p in MatrixOf(c, role) :: (role, p)
  }

  function Seeded(db: Db, c: Catalog): Db {
    db.(permissions := Upserted(db.permissions, c.permissions), roles := Upserted(db.roles, c.roles),
        grants := db.grants + MatrixGrants(c, Codes(c.roles)))
  }

  /** `load_user_permissions`: the join of assignments and grants. */
  function LoadUserPermissions(db: Db, user: UserId): set<string> {
    set a, g | a in db.assignments && g in db.grants && a.0 == user && a.1 == g.0 :: g.1
  }

  // ---------------------------------------------------------- role administration

  function SuperAdmins(db: Db): set<UserId> {
    set a | a in db.assignments && a.1 == SUPER_ADMIN :: a.0
  }

  predicate IsSuperAdmin(db: Db, user: UserId) {
    (user, SUPER_ADMIN) in db.assignments
  }

  /** `assert_not_last_super_admin` raises: the target is the only row of the role. */
  predicate IsLastSuperAdmin(db: Db, user: UserId) {
    IsSuperAdmin(db, user) && |SuperAdmins(db)| <= 1
  }

  function RolesReplaced(db: Db, user: UserId, codes: seq<string>): Db {
    db.(assignments := (set a | a in db.assignments && a.0 != user) + (set code | code in codes :: (user, code)))
  }

  /** `set_user_roles` */
  function SetUserRoles(db: Db, user: UserId, codes: seq<string>): (Db, Outcome) {
    if user !in db.users then (db, UserNotFound)
    else if exists code :: code in codes && code !in db.roles then (db, UnknownRoles)
    else (RolesReplaced(db, user, codes), Done)
  }

  /** What `require_permission("users.manage")` lets through. */
  predicate MayManage(db: Db, actor: UserId) {
    actor in db.users && actor in db.active && MANAGE in LoadUserPermissions(db, actor)
  }

  /** The role part of the user endpoint. */
  function EditRoles(db: Db, actor: UserId, user: UserId, codes: seq<string>): (Db, Outcome) {
    if !MayManage(db, actor) then (db, Forbidden)
    else if user !in db.users then (db, UserNotFound)
    else if user == actor then (db, Conflict)
    else if SUPER_ADMIN in codes && !IsSuperAdmin(db, user) then (db, Conflict)
    else if SUPER_ADMIN !in codes && IsLastSuperAdmin(db, user) then (db, LastSuperAdmin)
    else SetUserRoles(db, user, codes)
  }

  /** The activity part of the user endpoint. */
  function Deactivate(db: Db, actor: UserId, user: UserId): (Db, Outcome) {
    if !MayManage(db, actor) then (db, Forbidden)
    else if user !in db.users then (db, UserNotFound)
    else if user == actor then (db, Conflict)
    else if IsLastSuperAdmin(db, user) then (db, LastSuperAdmin)
    else (db.(active := db.active - {user}), Done)
  }

  class RbacStore {
    var users: set<UserId>
    var active: set<UserId>
    var roles: map<string, string>
    var permissions: map<string, string>
    var grants: set<(string, string)>
    var assignments: set<(UserId, string)>

    constructor (db: Db)
      ensures Abs() == db
    {
      users, active, roles, permissions, grants, assignments :=
        db.users, db.active, db.roles, db.permissions, db.grants, db.assignments;
    }

    function Abs(): Db
      reads this
    {
      Db(users, active, roles, permissions, grants, assignments)
    }

    /** Works in a session that is rolled back when a matrix entry has no permission row. */
    method SeedRbac(c: Catalog) returns (r: Outcome)
      modifies this
      ensures r == if Closed(c) then Done else UnknownPermission
      ensures Abs() == if Closed(c) then Seeded(old(Abs()), c) else old(Abs())
    {
      var perms := UpsertRows(permissions, c.permissions);
      var roleRows := UpsertRows(roles, c.roles);
      var rows, ok := SeedGrants(grants, c);
      if !ok {
        return UnknownPermission;
      }
      permissions, roles, grants := perms, roleRows, rows;
      r := Done;
    }

    /** The loop over the roles, which looks every permission of the matrix up. */
    static method SeedGrants(grants: set<(string, string)>, c: Catalog) returns (rows: set<(string, string)>, ok: bool)
      ensures ok <==> Closed(c)
      ensures ok ==> rows == grants + MatrixGrants(c, Codes(c.roles))
    {
      rows, ok := grants, true;
      var i := 0;
      while i < |c.roles|
        invariant 0 <= i <= |c.roles|
        invariant rows == grants + MatrixGrants(c, Codes(c.roles[..i]))
        invariant forall role :: role in Codes(c.roles[..i]) ==> MatrixOf(c, role) <= Codes(c.permissions)
      {
        var role := c.roles[i].0;
        assert Codes(c.roles[..i + 1]) == Codes(c.roles[..i]) + {role} by {
          assert c.roles[..i + 1] == c.roles[..i] + [c.roles[i]];
        }
        var desired := MatrixOf(c, role);
        if !(desired <= Codes(c.permissions)) {
          assert c.roles[i] in c.roles;
          ok := false;
          return;
        }
        rows := InsertGrants(rows, role, desired);
        i := i + 1;
      }
      assert c.roles[..i] == c.roles;
    }

    static method UpsertRows(rows: map<string, string>, entries: seq<(string, string)>) returns (r: map<string, string>)
      ensures r == Upserted(rows, entries)
    {
      r := rows;
      var i := 0;
      while i < |entries|
        invariant 0 <= i <= |entries|
        invariant Upserted(r, entries[i..]) == Upserted(rows, entries)
      {
        assert entries[i..][1..] == entries[i + 1..];
        r := r[entries[i].0 := entries[i].1];
        i := i + 1;
      }
    }

    /** `for pid in desired - existing: insert` */
    static method InsertGrants(rows: set<(string, string)>, role: string, desired: set<string>)
      returns (r: set<(string, string)>)
      ensures r == rows + set p | p in desired :: (role, p)
    {
      r := rows;
      var missing := desired - set g | g in rows && g.0 == role :: g.1;
      while missing != {}
        invariant missing <= desired
        invariant forall g :: g in r <==> g in rows || (g.0 == role && g.1 in desired && g.1 !in missing)
        decreases missing
      {
        var p :| p in missing;
        missing := missing - {p};
        r := r + {(role, p)};
      }
    }

    method ReplaceUserRoles(user: UserId, codes: seq<string>) returns (r: Outcome)
      modifies `assignments
      ensures (Abs(), r) == SetUserRoles(old(Abs()), user, codes)
    {
      if user !in users {
        return UserNotFound;
      }
      if exists code :: code in codes && code !in roles {
        return UnknownRoles;
      }
      var rows := set a | a in assignments && a.0 != user;
      var i := 0;
      while i < |codes|
        invariant 0 <= i <= |codes|
        invariant rows == (set a | a in assignments && a.0 != user) + set code | code in codes[..i] :: (user, code)
      {
        assert codes[..i + 1] == codes[..i] + [codes[i]];
        rows := rows + {(user, codes[i])};
        i := i + 1;
      }
      assert codes[..i] == codes;
      assignments := rows;
      r := Done;
    }

    method UpdateRoles(actor: UserId, user: UserId, codes: seq<string>) returns (r: Outcome)
      modifies `assignments
      ensures (Abs(), r) == EditRoles(old(Abs()), actor, user, codes)
    {
      if !MayManage(Abs(), actor) {
        return Forbidden;
      }
      if user !in users {
        return UserNotFound;
      }
      if user == actor || (SUPER_ADMIN in codes && !IsSuperAdmin(Abs(), user)) {
        return Conflict;
      }
      if SUPER_ADMIN !in codes && IsLastSuperAdmin(Abs(), user) {
        return LastSuperAdmin;
      }
      r := ReplaceUserRoles(user, codes);
    }

    method DeactivateUser(actor: UserId, user: UserId) returns (r: Outcome)
      modifies `active
      ensures (Abs(), r) == Deactivate(old(Abs()), actor, user)
    {
      if !MayManage(Abs(), actor) {
        return Forbidden;
      }
      if user !in users {
        return UserNotFound;
      }
      if user == actor {
        return Conflict;
      }
      if IsLastSuperAdmin(Abs(), user) {
        return LastSuperAdmin;
      }
      active := active - {user};
      r := Done;
    }
  }

  // ------------------------------------------------------------------ the matrix

  /** Seeding adds what the matrix lists for a seeded role, and takes nothing away. */
  lemma SeedUnitesGrants(db: Db, c: Catalog, role: string, p: string)
    ensures (role, p) in Seeded(db, c).grants
       <==> || (role, p) in db.grants
            || ((exists entry :: entry in c.roles && entry.0 == role) && role in c.matrix && p in c.matrix[role])
    ensures Seeded(db, c).assignments == db.assignments && Seeded(db, c).users == db.users
    ensures Seeded(db, c).active == db.active
  {
    if entry :| entry in c.roles && entry.0 == role {
      assert role in Codes(c.roles);
    }
  }

  /** The matrix lists `p` for a seeded role, and no seeded permission has that code. */
  predicate Dangles(c: Catalog, entry: (string, string), p: string) {
    && entry in c.roles && entry.0 in c.matrix && p in c.matrix[entry.0]
    && forall known :: known in c.permissions ==> known.0 != p
  }

  /** It fails exactly if the matrix lists a permission for a seeded role that is not seeded itself. */
  lemma SeedFailsIff(c: Catalog)
    ensures !Closed(c) <==> exists entry, p :: Dangles(c, entry, p)
  {
    if !Closed(c) {
      var role :| role in Codes(c.roles) && !(MatrixOf(c, role) <= Codes(c.permissions));
      var entry :| entry in c.roles && entry.0 == role;
      var p :| p in MatrixOf(c, role) && p !in Codes(c.permissions);
      assert Dangles(c, entry, p);
    }
    if entry, p :| Dangles(c, entry, p) {
      assert entry.0 in Codes(c.roles) && p in MatrixOf(c, entry.0) && p !in Codes(c.permissions);
    }
  }

  /** A seeded row has the text of the last entry for its code; other rows keep theirs. */
  lemma {:induction false} UpsertedText(rows: map<string, string>, entries: seq<(string, string)>, code: string, i: nat)
    ensures (forall entry :: entry in entries ==> entry.0 != code) ==>
      (code in Upserted(rows, entries) <==> code in rows)
      && (code in rows ==> Upserted(rows, entries)[code] == rows[code])
    ensures i < |entries| && entries[i].0 == code && (forall j :: i < j < |entries| ==> entries[j].0 != code) ==>
      code in Upserted(rows, entries) && Upserted(rows, entries)[code] == entries[i].1
    decreases |entries|
  {
    if entries != [] {
      var rest := entries[1..];
      assert forall j :: 0 <= j < |rest| ==> rest[j] == entries[j + 1];
      UpsertedText(rows[entries[0].0 := entries[0].1], rest, code, if i > 0 then i - 1 else 0);
      if forall j :: 0 < j < |entries| ==> entries[j].0 != code {
        assert forall entry :: entry in rest ==> entry.0 != code;
      }
    }
  }

  lemma {:induction false} UpsertedRows(rows: map<string, string>, entries: seq<(string, string)>)
    ensures Upserted(rows, entries).Keys == rows.Keys + Codes(entries)
    ensures Upserted(Upserted(rows, entries), entries) == Upserted(rows, entries)
    decreases |entries|
  {
    UpsertedKeys(rows, entries);
    UpsertedIsLast(rows, entries);
    UpsertedIsLast(Upserted(rows, entries), entries);
    UpsertedKeys(Upserted(rows, entries), entries);
  }

  lemma {:induction false} UpsertedKeys(rows: map<string, string>, entries: seq<(string, string)>)
    ensures Upserted(rows, entries).Keys == rows.Keys + Codes(entries)
    decreases |entries|
  {
    if entries != [] {
      UpsertedKeys(rows[entries[0].0 := entries[0].1], entries[1..]);
      assert entries == [entries[0]] + entries[1..];
      assert Codes(entries) == {entries[0].0} + Codes(entries[1..]);
    }
  }

  /** The text that the last entry for a code gives. */
  function LastText(entries: seq<(string, string)>, code: string): string
    requires code in Codes(entries)
  {
    assert entries == [entries[0]] + entries[1..];
    if code in Codes(entries[1..]) then LastText(entries[1..], code) else entries[0].1
  }

  lemma {:induction false} UpsertedIsLast(rows: map<string, string>, entries: seq<(string, string)>)
    ensures forall code :: code in Upserted(rows, entries) ==>
      if code in Codes(entries) then Upserted(rows, entries)[code] == LastText(entries, code)
      else code in rows && Upserted(rows, entries)[code] == rows[code]
    decreases |entries|
  {
    if entries != [] {
      UpsertedIsLast(rows[entries[0].0 := entries[0].1], entries[1..]);
      assert entries == [entries[0]] + entries[1..];
      assert Codes(entries) == {entries[0].0} + Codes(entries[1..]);
    }
  }

  /** A second run changes nothing at all. */
  lemma SeedIsFixpoint(db: Db, c: Catalog)
    ensures Seeded(Seeded(db, c), c) == Seeded(db, c)
  {
    UpsertedRows(db.permissions, c.permissions);
    UpsertedRows(db.roles, c.roles);
  }

  /** Nobody loses a permission by seeding; users gain the matrix of their seeded roles. */
  lemma SeedGrowsPermissions(db: Db, c: Catalog, user: UserId, p: string)
    ensures p in LoadUserPermissions(Seeded(db, c), user)
       <==> (p in LoadUserPermissions(db, user)
             || exists role :: (user, role) in db.assignments && role in Codes(c.roles) && p in MatrixOf(c, role))
  {
    PermissionIff(db, user, p);
    PermissionIff(Seeded(db, c), user, p);
    if exists role :: (user, role) in db.assignments && role in Codes(c.roles) && p in MatrixOf(c, role) {
      var role :| (user, role) in db.assignments && role in Codes(c.roles) && p in MatrixOf(c, role);
      assert (role, p) in Seeded(db, c).grants;
    }
  }

  lemma PermissionIff(db: Db, user: UserId, p: string)
    ensures p in LoadUserPermissions(db, user)
       <==> exists role :: (user, role) in db.assignments && (role, p) in db.grants
  {
    if p in LoadUserPermissions(db, user) {
      var a, g :| a in db.assignments && g in db.grants && a.0 == user && a.1 == g.0 && g.1 == p;
      assert a == (user, a.1) && g == (a.1, p);
    }
    if exists role :: (user, role) in db.assignments && (role, p) in db.grants {
      var role :| (user, role) in db.assignments && (role, p) in db.grants;
      assert (user, role).0 == user && (user, role).1 == (role, p).0 && (role, p).1 == p;
    }
  }

  /** A replacement gives the user exactly the grants of the new roles, and nobody else anything. */
  lemma ReplacedPermissions(db: Db, user: UserId, codes: seq<string>, other: UserId, p: string)
    requires SetUserRoles(db, user, codes).1 == Done
    ensures p in LoadUserPermissions(SetUserRoles(db, user, codes).0, other)
       <==> if other == user then exists code :: code in codes && (code, p) in db.grants
            else p in LoadUserPermissions(db, other)
  {
    var db' := SetUserRoles(db, user, codes).0;
    PermissionIff(db, other, p);
    PermissionIff(db', other, p);
    forall role ensures (other, role) in db'.assignments
      <==> if other == user then role in codes else (other, role) in db.assignments
    {
      assert (other, role).0 == other;
    }
  }

  /** `user` has exactly the roles `codes`, and everybody else the ones from before. */
  ghost predicate OnlyReplaces(db: Db, db': Db, user: UserId, codes: seq<string>) {
    && db' == db.(assignments := db'.assignments)
    && forall u, role ::
         (u, role) in db'.assignments <==> if u == user then role in codes else (u, role) in db.assignments
  }

  /** `set_user_roles` refuses unknown users and unknown codes, and else replaces the user's roles alone. */
  lemma SetUserRolesOutcome(db: Db, user: UserId, codes: seq<string>)
    ensures user !in db.users ==> SetUserRoles(db, user, codes) == (db, UserNotFound)
    ensures user in db.users && (exists code :: code in codes && code !in db.roles) ==>
      SetUserRoles(db, user, codes) == (db, UnknownRoles)
    ensures user in db.users && (forall code :: code in codes ==> code in db.roles) ==>
      SetUserRoles(db, user, codes).1 == Done && OnlyReplaces(db, SetUserRoles(db, user, codes).0, user, codes)
  {
    var db' := RolesReplaced(db, user, codes);
    forall u, role
      ensures (u, role) in db'.assignments <==> if u == user then role in codes else (u, role) in db.assignments
    {
      assert (u, role).0 == u;
    }
  }

  // ------------------------------------------------------------ who may edit whom

  /** An existing, active user with a role that grants the management of users. */
  ghost predicate Manages(db: Db, actor: UserId) {
    && actor in db.users && actor in db.active
    && exists role :: (actor, role) in db.assignments && (role, "users.manage") in db.grants
  }

  /** The only user with the role of super admins. */
  ghost predicate OnlySuperAdmin(db: Db, user: UserId) {
    forall u :: (u, "SUPER_ADMIN") in db.assignments <==> u == user
  }

  lemma LastIsOnly(db: Db, user: UserId)
    ensures IsLastSuperAdmin(db, user) <==> OnlySuperAdmin(db, user)
  {
    var admins := SuperAdmins(db);
    assert forall u :: u in admins <==> (u, SUPER_ADMIN) in db.assignments by {
      forall u | (u, SUPER_ADMIN) in db.assignments ensures u in admins {
        assert (u, SUPER_ADMIN).0 == u;
      }
    }
    if OnlySuperAdmin(db, user) {
      assert admins == {user};
    }
    if IsLastSuperAdmin(db, user) {
      SubsetSize({user}, admins);
    }
  }

  /** Without the permission nothing changes; then come the guards, in this order, for an edit of roles. */
  lemma EditRolesOutcome(db: Db, actor: UserId, user: UserId, codes: seq<string>)
    ensures !Manages(db, actor) ==> EditRoles(db, actor, user, codes) == (db, Forbidden)
    ensures Manages(db, actor) && user !in db.users ==> EditRoles(db, actor, user, codes) == (db, UserNotFound)
    ensures Manages(db, actor) && user == actor ==> EditRoles(db, actor, user, codes) == (db, Conflict)
    ensures Manages(db, actor) && user in db.users && user != actor ==>
      if "SUPER_ADMIN" in codes && (user, "SUPER_ADMIN") !in db.assignments then
        EditRoles(db, actor, user, codes) == (db, Conflict)
      else if "SUPER_ADMIN" !in codes && OnlySuperAdmin(db, user) then
        EditRoles(db, actor, user, codes) == (db, LastSuperAdmin)
      else EditRoles(db, actor, user, codes) == SetUserRoles(db, user, codes)
  {
    PermissionIff(db, actor, MANAGE);
    LastIsOnly(db, user);
  }

  /** The same for a deactivation, which takes one user out of the active ones and touches nothing else. */
  lemma DeactivateOutcome(db: Db, actor: UserId, user: UserId)
    ensures !Manages(db, actor) ==> Deactivate(db, actor, user) == (db, Forbidden)
    ensures Manages(db, actor) && user !in db.users ==> Deactivate(db, actor, user) == (db, UserNotFound)
    ensures Manages(db, actor) && user == actor ==> Deactivate(db, actor, user) == (db, Conflict)
    ensures Manages(db, actor) && user in db.users && user != actor ==>
      if OnlySuperAdmin(db, user) then Deactivate(db, actor, user) == (db, LastSuperAdmin)
      else Deactivate(db, actor, user) == (db.(active := db.active - {user}), Done)
  {
    PermissionIff(db, actor, MANAGE);
    LastIsOnly(db, user);
  }

  // ----------------------------------------------------------- the last super admin

  datatype Operation =
    | Edit(actor: UserId, user: UserId, codes: seq<string>)
    | Switch(actor: UserId, user: UserId)
    | Reactivate(user: UserId)
    | Seed(catalog: Catalog)

  function Apply(db: Db, op: Operation): Db {
    match op
    case Edit(actor, user, codes) => EditRoles(db, actor, user, codes).0
    case Switch(actor, user) => Deactivate(db, actor, user).0
    case Reactivate(user) => if user in db.users then db.(active := db.active + {user}) else db
    case Seed(catalog) => if Closed(catalog) then Seeded(db, catalog) else db
  }

  function Run(db: Db, ops: seq<Operation>): Db
    decreases |ops|
  {
    if ops == [] then db else Run(Apply(db, ops[0]), ops[1..])
  }

  lemma EditKeepsASuperAdmin(db: Db, actor: UserId, user: UserId, codes: seq<string>)
    requires SuperAdmins(db) != {}
    ensures SuperAdmins(EditRoles(db, actor, user, codes).0) != {}
  {
    var db' := EditRoles(db, actor, user, codes).0;
    if db' != db {
      if SUPER_ADMIN in codes {
        assert (user, SUPER_ADMIN) in db'.assignments;
        assert user in SuperAdmins(db');
      } else {
        var other := OtherSuperAdmin(db, user);
        assert (other, SUPER_ADMIN) in db'.assignments;
        assert other in SuperAdmins(db');
      }
    }
  }

  /** Unless the user is the last one, some other super admin exists. */
  lemma OtherSuperAdmin(db: Db, user: UserId) returns (other: UserId)
    requires SuperAdmins(db) != {} && !IsLastSuperAdmin(db, user)
    ensures other != user && IsSuperAdmin(db, other)
  {
    var admins := SuperAdmins(db);
    if user in admins {
      assert IsSuperAdmin(db, user);
      if admins - {user} == {} {
        SubsetSize(admins, {user});
      }
      other :| other in admins - {user};
    } else {
      other :| other in admins;
    }
  }

  /** Over every sequence of guarded edits some user keeps the SUPER_ADMIN role. */
  lemma {:induction false} ASuperAdminRemains(db: Db, ops: seq<Operation>)
    requires SuperAdmins(db) != {}
    ensures SuperAdmins(Run(db, ops)) != {}
    decreases |ops|
  {
    if ops != [] {
      if ops[0].Edit? {
        EditKeepsASuperAdmin(db, ops[0].actor, ops[0].user, ops[0].codes);
      }
      ASuperAdminRemains(Apply(db, ops[0]), ops[1..]);
    }
  }

  /** A super admin who can still sign in. */
  ghost predicate SomeoneInCharge(db: Db) {
    exists user :: IsSuperAdmin(db, user) && user in db.active
  }

  /** A deactivation that the guard lets through keeps someone in charge exactly if another one is active. */
  lemma DeactivationKeepsChargeIff(db: Db, actor: UserId, user: UserId)
    requires SomeoneInCharge(db) && Deactivate(db, actor, user).1 == Done
    ensures SomeoneInCharge(Deactivate(db, actor, user).0)
       <==> exists other :: other != user && IsSuperAdmin(db, other) && other in db.active
  {
    var db' := Deactivate(db, actor, user).0;
    if SomeoneInCharge(db') {
      var other :| IsSuperAdmin(db', other) && other in db'.active;
      assert other != user && IsSuperAdmin(db, other);
    }
    if exists other :: other != user && IsSuperAdmin(db, other) && other in db.active {
      var other :| other != user && IsSuperAdmin(db, other) && other in db.active;
      assert IsSuperAdmin(db', other) && other in db'.active;
    }
  }

  /** The guard suffices as long as every super admin is active. */
  lemma GuardSufficesWhileAllActive(db: Db, actor: UserId, user: UserId)
    requires SomeoneInCharge(db) && Deactivate(db, actor, user).1 == Done
    requires forall u :: IsSuperAdmin(db, u) ==> u in db.active
    ensures SomeoneInCharge(Deactivate(db, actor, user).0)
  {
    var u :| IsSuperAdmin(db, u) && u in db.active;
    assert u in SuperAdmins(db) by {
      assert (u, SUPER_ADMIN) in db.assignments;
    }
    var other := OtherSuperAdmin(db, user);
    assert IsSuperAdmin(Deactivate(db, actor, user).0, other);
  }

  /** The foreign keys hold: assignments and grants refer to rows that exist. */
  ghost predicate Consistent(db: Db) {
    && db.active <= db.users
    && (forall a :: a in db.assignments ==> a.0 in db.users && a.1 in db.roles)
    && (forall g :: g in db.grants ==> g.0 in db.roles && g.1 in db.permissions)
  }

  /** Three active users on a freshly seeded database: two super admins and an admin. */
  function ThreeUsers(c: Catalog): Db {
    var users := {"admin", "a", "b"};
    Seeded(Db(users, users, map[], map[], {}, {("a", SUPER_ADMIN), ("b", SUPER_ADMIN), ("admin", ADMIN)}), c)
  }

  /** A catalog that seeds both roles and lets admins manage users, as the shipped one does. */
  predicate AdminsManage(c: Catalog) {
    Closed(c) && {SUPER_ADMIN, ADMIN} <= Codes(c.roles) && MANAGE in MatrixOf(c, ADMIN)
  }

  lemma ThreeUsersAreConsistent(c: Catalog)
    requires AdminsManage(c)
    ensures Consistent(ThreeUsers(c)) && (ADMIN, MANAGE) in ThreeUsers(c).grants
  {
    UpsertedKeys(map[], c.permissions);
    UpsertedKeys(map[], c.roles);
  }

  /** The admin may deactivate any user as long as two super admins exist and the grant is there. */
  lemma AdminMayDeactivate(db: Db, user: UserId)
    requires db.users == {"admin", "a", "b"} && user in {"a", "b"} && "admin" in db.active
    requires db.assignments == {("a", SUPER_ADMIN), ("b", SUPER_ADMIN), ("admin", ADMIN)}
    requires (ADMIN, MANAGE) in db.grants
    ensures Deactivate(db, "admin", user) == (db.(active := db.active - {user}), Done)
  {
    assert ("admin", ADMIN) in db.assignments;
    PermissionIff(db, "admin", MANAGE);
    var admins := SuperAdmins(db);
    assert ("a", SUPER_ADMIN) in db.assignments && ("b", SUPER_ADMIN) in db.assignments;
    assert "a" in admins && "b" in admins;
    SubsetSize({"a", "b"}, admins);
    assert "a" != "b" && |{"a", "b"}| == 2;
  }

  lemma RunOfTwo(db: Db, first: Operation, second: Operation)
    ensures Run(db, [first, second]) == Apply(Apply(db, first), second)
  {
    var ops := [first, second];
    var db1 := Apply(db, first);
    assert ops[1..] == [second] && [second][1..] == [];
    assert Run(db1, [second]) == Run(Apply(db1, second), []);
  }

  /**
    It counts inactive ones too: on a seeded database where everyone is active, two permitted
    deactivations in a row leave nobody in charge.
  */
  lemma TwoDeactivationsLeaveNobody(c: Catalog)
    requires AdminsManage(c)
    ensures exists db: Db, actor, a, b ::
      && Consistent(db) && db == Seeded(db, c) && db.active == db.users && SomeoneInCharge(db)
      && Deactivate(db, actor, a).1 == Done && Deactivate(Deactivate(db, actor, a).0, actor, b).1 == Done
      && !SomeoneInCharge(Run(db, [Switch(actor, a), Switch(actor, b)]))
  {
    var db := ThreeUsers(c);
    ThreeUsersAreConsistent(c);
    SeedIsFixpoint(Db(db.users, db.users, map[], map[], {}, db.assignments), c);
    AdminMayDeactivate(db, "a");
    var db1 := Deactivate(db, "admin", "a").0;
    AdminMayDeactivate(db1, "b");
    var db2 := Deactivate(db1, "admin", "b").0;
    assert IsSuperAdmin(db, "a") && "a" in db.active;
    RunOfTwo(db, Switch("admin", "a"), Switch("admin", "b"));
    forall u | IsSuperAdmin(db2, u) ensures u !in db2.active {
      assert (u, SUPER_ADMIN) != ("admin", ADMIN);
    }
  }
}
