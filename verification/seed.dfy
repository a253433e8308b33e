/** First-run seeding: the three catalog roles, then the bootstrap administrator.
    Everything happens in one transaction, so a failure leaves the database as
    it was; that is why every operation here maps a database to a `Result<Db>`. */
module Seeding {
  import opened Outcomes
  import opened Text
  import opened Tables
  import opened Models
  import opened Permissions
  import Deps

  const AdminUsername: string := "admin"
  const AdminEmail: string := "admin@library.com"
  const AdminFullName: string := "System Administrator"
  const AdminPassword: string := "Admin@1234"

  /** `json.dumps` on a list of strings, left opaque. */
  type Dumps = seq<string> -> string

  /** The row filter `Role.name == name`. */
  function NamedAs(name: string): Role -> bool {
    (role: Role) => role.name == name
  }

  /** `f"{name.capitalize()} role"`. */
  function RoleDescription(name: RoleName): string {
    Capitalize(RoleValue(name)) + " role"
  }

  /** The descriptions the three catalog roles are seeded with, one lemma each. */
  lemma AdminDescription()
    ensures RoleDescription(Admin) == "Admin role"
  {
  }

  lemma LibrarianDescription()
    ensures RoleDescription(Librarian) == "Librarian role"
  {
  }

  lemma MemberDescription()
    ensures RoleDescription(Member) == "Member role"
  {
  }

  /** The row seeding writes for catalog role `name` under key `id`. */
  function CatalogRole(dumps: Dumps, name: RoleName, id: int): Role {
    RolesNested(BookRead, name);
    Role(id, RoleValue(name), Some(RoleDescription(name)), dumps(PermissionsToStrings(RolePermissions[name])))
  }

  /** The administrator row seeding writes under key `id`. */
  function AdminUser(passwordHash: string, id: int, roleId: int): User {
    User(id, AdminEmail, AdminUsername, passwordHash, AdminFullName, true, roleId)
  }

  /** Every row of `before` is still in `after`, unchanged. */
  predicate Keeps<V(==)>(before: map<int, V>, after: map<int, V>) {
    forall id :: id in before ==> id in after && after[id] == before[id]
  }

  /** Exactly one role row carries `name`. */
  predicate OneNamed(roles: map<int, Role>, name: string) {
    HasRow(roles, NamedAs(name)) && AtMostOneRow(roles, NamedAs(name))
  }

  /** One turn of the role loop: insert the catalog row unless one with that
      name exists; more than one such row is `MultipleResultsFound`. */
  function SeedRole(dumps: Dumps, roles: map<int, Role>, name: RoleName): (r: Result<map<int, Role>>)
    ensures r.Err? <==> !AtMostOneRow(roles, NamedAs(RoleValue(name)))
    ensures r.Err? ==> r.error == MultipleResultsFound
    ensures r.Ok? && HasRow(roles, NamedAs(RoleValue(name))) ==> r.value == roles
    ensures !HasRow(roles, NamedAs(RoleValue(name))) ==>
      var id := FreshKey(roles.Keys);
      id !in roles && r == Ok(roles[id := CatalogRole(dumps, name, id)])
    ensures r.Ok? ==> OneNamed(r.value, RoleValue(name))
  {
    match FindRow(roles, NamedAs(RoleValue(name)))
    case ManyRows => Err(MultipleResultsFound)
    case OneRow(_) => Ok(roles)
    case NoRow =>
      var id := FreshKey(roles.Keys);
      var after := roles[id := CatalogRole(dumps, name, id)];
      InsertOnlyMatch(roles, NamedAs(RoleValue(name)), id, CatalogRole(dumps, name, id));
      Ok(after)
  }

  /** The role loop over `names`, stopping at the first failure. */
  function SeedRoles(dumps: Dumps, roles: map<int, Role>, names: seq<RoleName>): (r: Result<map<int, Role>>)
    ensures r.Err? ==> r.error == MultipleResultsFound
    ensures r.Ok? ==> Keeps(roles, r.value)
    decreases |names|
  {
    if names == [] then Ok(roles)
    else
      match SeedRole(dumps, roles, names[0])
      case Err(e) => Err(e)
      case Ok(next) => SeedRoles(dumps, next, names[1..])
  }

  /** The administrator step: `scalar_one` on the admin role (none is
      `NoResultFound`), then insert the admin user unless a user named "admin"
      exists. The insert fails at commit if another user already holds the
      administrator's e-mail address, which the schema keeps unique. */
  function SeedAdmin(passwordHash: string, db: Db): (r: Result<Db>)
    ensures r.Err? <==>
      !OneNamed(db.roles, RoleValue(Admin)) || !AtMostOneRow(db.users, UsernameIs(AdminUsername)) ||
      (!HasRow(db.users, UsernameIs(AdminUsername)) && exists id :: id in db.users && db.users[id].email == AdminEmail)
    ensures !HasRow(db.roles, NamedAs(RoleValue(Admin))) ==> r == Err(NoResultFound)
    ensures r.Ok? ==> r.value == db.(users := r.value.users) && Keeps(db.users, r.value.users)
    ensures r.Ok? && HasRow(db.users, UsernameIs(AdminUsername)) ==> r.value == db
    ensures r.Ok? && !HasRow(db.users, UsernameIs(AdminUsername)) ==>
      exists roleId :: roleId in db.roles && db.roles[roleId].name == RoleValue(Admin) &&
        var id := FreshKey(db.users.Keys);
        id !in db.users && r.value.users == db.users[id := AdminUser(passwordHash, id, roleId)]
    ensures r.Ok? ==> HasRow(r.value.users, UsernameIs(AdminUsername)) && AtMostOneRow(r.value.users, UsernameIs(AdminUsername))
  {
    match FindRow(db.roles, NamedAs(RoleValue(Admin)))
    case NoRow => Err(NoResultFound)
    case ManyRows => Err(MultipleResultsFound)
    case OneRow(roleId) =>
      match FindRow(db.users, UsernameIs(AdminUsername))
      case ManyRows => Err(MultipleResultsFound)
      case OneRow(_) => Ok(db)
      case NoRow =>
        if exists id | id in db.users :: db.users[id].email == AdminEmail then Err(IntegrityError)
        else
          var id := FreshKey(db.users.Keys);
          var users := db.users[id := AdminUser(passwordHash, id, roleId)];
          InsertOnlyMatch(db.users, UsernameIs(AdminUsername), id, AdminUser(passwordHash, id, roleId));
          Ok(db.(users := users))
  }

  /** `seed()`: roles in catalog order, then the administrator, committed
      together. `hash` is `hash_password`. */
  function Seed(dumps: Dumps, hash: string -> string, db: Db): (r: Result<Db>)
    ensures r.Err? ==> r.error == MultipleResultsFound || r.error == IntegrityError
    ensures r.Ok? ==> r.value.apiKeys == db.apiKeys && r.value.books == db.books && r.value.borrows == db.borrows
  {
    match SeedRoles(dumps, db.roles, RoleOrder)
    case Err(e) => Err(e)
    case Ok(roles) =>
      SeedCatalogRoles(dumps, db.roles);
      SeedAdmin(hash(AdminPassword), db.(roles := roles))
  }

  // ---- what seeding leaves behind ----

  /** Each row in `after` but not in `before` is the catalog row of a name in
      `names` that had no row in `before`. */
  predicate AddedFrom(dumps: Dumps, before: map<int, Role>, after: map<int, Role>, names: seq<RoleName>) {
    forall id :: id in after && id !in before ==>
      exists n :: n in names && !HasRow(before, NamedAs(RoleValue(n))) && after[id] == CatalogRole(dumps, n, id)
  }

  /** A name with exactly one row keeps it when only rows of names that had no
      row are added. */
  lemma OneNamedSurvives(dumps: Dumps, next: map<int, Role>, after: map<int, Role>, names: seq<RoleName>, name: string)
    requires OneNamed(next, name) && Keeps(next, after) && AddedFrom(dumps, next, after, names)
    ensures OneNamed(after, name)
  {
    var k :| k in next && NamedAs(name)(next[k]);
    assert NamedAs(name)(after[k]);
    forall a | a in after && NamedAs(name)(after[a]) ensures a in next {
      if a !in next {
        assert false;
      }
    }
  }

  /** Rows added after a turn that kept everything also count as added from the start. */
  lemma AddedCompose(dumps: Dumps, roles: map<int, Role>, next: map<int, Role>, after: map<int, Role>, names: seq<RoleName>)
    requires |names| > 0 && Keeps(roles, next) && Keeps(next, after)
    requires AddedFrom(dumps, roles, next, names[..1]) && AddedFrom(dumps, next, after, names[1..])
    ensures AddedFrom(dumps, roles, after, names)
  {
    forall id | id in after && id !in roles
      ensures exists n :: n in names && !HasRow(roles, NamedAs(RoleValue(n))) && after[id] == CatalogRole(dumps, n, id)
    {
      if id in next {
        var n :| n in names[..1] && !HasRow(roles, NamedAs(RoleValue(n))) && next[id] == CatalogRole(dumps, n, id);
        assert n in names;
      } else {
        var n :| n in names[1..] && !HasRow(next, NamedAs(RoleValue(n))) && after[id] == CatalogRole(dumps, n, id);
        assert n in names;
        forall k | k in roles ensures !NamedAs(RoleValue(n))(roles[k]) {
          assert next[k] == roles[k];
        }
      }
    }
  }

  /** The role loop keeps every row it found, ends with exactly one row per
      visited name, and each row it adds is the catalog row of a name that had
      none. */
  lemma {:induction false} SeedRolesEffect(dumps: Dumps, roles: map<int, Role>, names: seq<RoleName>)
    requires SeedRoles(dumps, roles, names).Ok?
    ensures var after := SeedRoles(dumps, roles, names).value;
      Keeps(roles, after) && AddedFrom(dumps, roles, after, names) &&
      forall n :: n in names ==> OneNamed(after, RoleValue(n))
    decreases |names|
  {
    if names != [] {
      var next := SeedRole(dumps, roles, names[0]).value;
      SeedRolesEffect(dumps, next, names[1..]);
      var after := SeedRoles(dumps, roles, names).value;
      assert after == SeedRoles(dumps, next, names[1..]).value;
      assert AddedFrom(dumps, roles, next, names[..1]) by {
        assert names[0] in names[..1];
      }
      AddedCompose(dumps, roles, next, after, names);
      OneNamedSurvives(dumps, next, after, names[1..], RoleValue(names[0]));
      forall n | n in names ensures OneNamed(after, RoleValue(n)) {
        if n != names[0] {
          assert n in names[1..];
        }
      }
    }
  }

  /** Once every visited name has exactly one row, the role loop changes nothing. */
  lemma {:induction false} SeedRolesNoop(dumps: Dumps, roles: map<int, Role>, names: seq<RoleName>)
    requires forall n :: n in names ==> OneNamed(roles, RoleValue(n))
    ensures SeedRoles(dumps, roles, names) == Ok(roles)
    decreases |names|
  {
    if names != [] {
      assert names[0] in names;
      assert SeedRole(dumps, roles, names[0]) == Ok(roles);
      SeedRolesNoop(dumps, roles, names[1..]);
    }
  }

  /** Over the catalog's role order, the loop leaves exactly one row for every role name. */
  lemma SeedCatalogRoles(dumps: Dumps, roles: map<int, Role>)
    requires SeedRoles(dumps, roles, RoleOrder).Ok?
    ensures var after := SeedRoles(dumps, roles, RoleOrder).value;
      Keeps(roles, after) && AddedFrom(dumps, roles, after, RoleOrder) &&
      forall n: RoleName :: OneNamed(after, RoleValue(n))
  {
    SeedRolesEffect(dumps, roles, RoleOrder);
    var after := SeedRoles(dumps, roles, RoleOrder).value;
    forall n: RoleName ensures OneNamed(after, RoleValue(n)) {
      RolesNested(BookRead, n);
    }
  }

  /** Seeding touches only the role and user tables, keeps every row it found,
      leaves exactly one row per catalog role and one user named "admin", and
      every role row it adds is a catalog row for a name that had none. */
  lemma SeedEffect(dumps: Dumps, hash: string -> string, db: Db)
    requires Seed(dumps, hash, db).Ok?
    ensures var after := Seed(dumps, hash, db).value;
      after.apiKeys == db.apiKeys && after.books == db.books && after.borrows == db.borrows &&
      Keeps(db.roles, after.roles) && Keeps(db.users, after.users) &&
      AddedFrom(dumps, db.roles, after.roles, RoleOrder) &&
      (forall n: RoleName :: OneNamed(after.roles, RoleValue(n))) &&
      HasRow(after.users, UsernameIs(AdminUsername)) && AtMostOneRow(after.users, UsernameIs(AdminUsername))
  {
    var roles := SeedRoles(dumps, db.roles, RoleOrder).value;
    SeedCatalogRoles(dumps, db.roles);
    var after := Seed(dumps, hash, db).value;
    assert after == SeedAdmin(hash(AdminPassword), db.(roles := roles)).value;
  }

  /** A missing catalog role is added exactly once, as the catalog row: name,
      description "<Name> role", and the JSON dump of its permission values. */
  lemma SeedAddsMissingRole(dumps: Dumps, hash: string -> string, db: Db, n: RoleName)
    requires Seed(dumps, hash, db).Ok?
    requires !HasRow(db.roles, NamedAs(RoleValue(n)))
    ensures var after := Seed(dumps, hash, db).value;
      exists id :: id in after.roles && id !in db.roles && after.roles[id] == CatalogRole(dumps, n, id)
  {
    SeedEffect(dumps, hash, db);
    var after := Seed(dumps, hash, db).value;
    var id :| id in after.roles && NamedAs(RoleValue(n))(after.roles[id]);
    assert id !in db.roles;
    var m :| m in RoleOrder && !HasRow(db.roles, NamedAs(RoleValue(m))) && after.roles[id] == CatalogRole(dumps, m, id);
    assert after.roles[id].name == RoleValue(m);
    RoleValueInjective(m, n);
  }

  /** The administrator is created only when no user is named "admin"; it is
      then the only new user, active, with the fixed name and e-mail address,
      and it refers to the admin role. */
  lemma SeedCreatesAdminOnlyWhenAbsent(dumps: Dumps, hash: string -> string, db: Db)
    requires Seed(dumps, hash, db).Ok?
    ensures var after := Seed(dumps, hash, db).value;
      (HasRow(db.users, UsernameIs(AdminUsername)) ==> after.users == db.users) &&
      (!HasRow(db.users, UsernameIs(AdminUsername)) ==>
        exists id, roleId :: id !in db.users && roleId in after.roles && after.roles[roleId].name == RoleValue(Admin) &&
          after.users == db.users[id := AdminUser(hash(AdminPassword), id, roleId)])
  {
    SeedEffect(dumps, hash, db);
  }

  /** Running the seed a second time changes nothing. */
  lemma SeedIsIdempotent(dumps: Dumps, hash: string -> string, db: Db)
    requires Seed(dumps, hash, db).Ok?
    ensures Seed(dumps, hash, Seed(dumps, hash, db).value) == Seed(dumps, hash, db)
  {
    var after := Seed(dumps, hash, db).value;
    SeedEffect(dumps, hash, db);
    forall n | n in RoleOrder ensures OneNamed(after.roles, RoleValue(n)) { }
    SeedRolesNoop(dumps, after.roles, RoleOrder);
    assert after.(roles := after.roles) == after;
  }

  // ---- the seeded roles at work ----

  /** `json.loads` reads back the list `json.dumps` wrote, as a set, and the
      dump is never the empty string. */
  ghost predicate JsonRoundTrip(loads: string -> Option<set<string>>, dumps: Dumps) {
    forall l :: dumps(l) != "" && loads(dumps(l)) == Some(set x | x in l)
  }

  /** A role whose text is the dump of a permission list grants exactly the
      permissions on that list. */
  lemma DumpedListGrants(loads: string -> Option<set<string>>, dumps: Dumps, role: Role, ps: seq<Permission>, p: Permission)
    requires JsonRoundTrip(loads, dumps)
    requires role.permissions == dumps(PermissionsToStrings(ps))
    ensures Value(p) in Deps.AssignedPermissions(loads, role) <==> p in ps
  {
    var strings := PermissionsToStrings(ps);
    assert Deps.AssignedPermissions(loads, role) == set x | x in strings;
    if p in ps {
      var i :| 0 <= i < |ps| && ps[i] == p;
      assert strings[i] == Value(p);
    }
    if Value(p) in strings {
      var i :| 0 <= i < |strings| && strings[i] == Value(p);
      ValueInjective(ps[i], p);
    }
  }

  /** A role row seeding wrote grants exactly its catalog permissions. */
  lemma CatalogRoleGrants(loads: string -> Option<set<string>>, dumps: Dumps, n: RoleName, id: int, p: Permission)
    requires JsonRoundTrip(loads, dumps)
    ensures Value(p) in Deps.AssignedPermissions(loads, CatalogRole(dumps, n, id)) <==> p in RolePermissions[n]
  {
    RolesNested(p, n);
    DumpedListGrants(loads, dumps, CatalogRole(dumps, n, id), RolePermissions[n], p);
  }

  /** The seeded admin row grants the value of every permission. */
  lemma AdminRowGrantsAll(loads: string -> Option<set<string>>, dumps: Dumps, role: Role, required: seq<Permission>)
    requires JsonRoundTrip(loads, dumps)
    requires role.permissions == dumps(PermissionsToStrings(AdminPermissions))
    ensures forall i :: 0 <= i < |required| ==> Value(required[i]) in Deps.AssignedPermissions(loads, role)
  {
    forall i | 0 <= i < |required|
      ensures Value(required[i]) in Deps.AssignedPermissions(loads, role)
    {
      AdminHasEveryPermission(required[i]);
      DumpedListGrants(loads, dumps, role, AdminPermissions, required[i]);
    }
  }

  /** The seeded admin row stores the dump of the whole admin list. */
  lemma AdminCatalogText(dumps: Dumps, id: int)
    ensures CatalogRole(dumps, Admin, id).permissions == dumps(PermissionsToStrings(AdminPermissions))
  {
    assert RolePermissions[Admin] == AdminPermissions;
  }

  /** A user whose role row is the seeded admin row passes every permission check. */
  lemma AdminRoleAllowsEverything(
    loads: string -> Option<set<string>>, dumps: Dumps, db: Db, user: User, required: seq<Permission>)
    requires JsonRoundTrip(loads, dumps)
    requires user.roleId in db.roles && db.roles[user.roleId] == CatalogRole(dumps, Admin, user.roleId)
    ensures Deps.RequirePermissions(loads, db, user, required) == Ok(user)
  {
    var role := db.roles[user.roleId];
    AdminCatalogText(dumps, user.roleId);
    AdminRowGrantsAll(loads, dumps, role, required);
    assert RoleOf(db, user) == Some(role);
  }

  /** On a fresh database the seeded administrator passes every permission check. */
  lemma SeededAdminIsAllowedEverything(
    loads: string -> Option<set<string>>, dumps: Dumps, hash: string -> string, db: Db, required: seq<Permission>)
    requires JsonRoundTrip(loads, dumps)
    requires !HasRow(db.roles, NamedAs(RoleValue(Admin)))
    requires !HasRow(db.users, UsernameIs(AdminUsername))
    requires Seed(dumps, hash, db).Ok?
    ensures var after := Seed(dumps, hash, db).value;
      exists id :: id in after.users && after.users[id].username == AdminUsername &&
        Deps.RequirePermissions(loads, after, after.users[id], required) == Ok(after.users[id])
  {
    var after := Seed(dumps, hash, db).value;
    SeedCreatesAdminOnlyWhenAbsent(dumps, hash, db);
    SeedAddsMissingRole(dumps, hash, db, Admin);
    SeedEffect(dumps, hash, db);
    var id, roleId :| id !in db.users && roleId in after.roles && after.roles[roleId].name == RoleValue(Admin) &&
      after.users == db.users[id := AdminUser(hash(AdminPassword), id, roleId)];
    var rid :| rid in after.roles && rid !in db.roles && after.roles[rid] == CatalogRole(dumps, Admin, rid);
    assert roleId == rid by {
      assert NamedAs(RoleValue(Admin))(after.roles[roleId]);
      assert NamedAs(RoleValue(Admin))(after.roles[rid]);
      assert AtMostOneRow(after.roles, NamedAs(RoleValue(Admin)));
    }
    var admin := after.users[id];
    assert admin.username == AdminUsername && admin.roleId == rid;
    AdminRoleAllowsEverything(loads, dumps, after, admin, required);
  }
}
