/** Development seeding of four demo users, one per role: the permission group
    is ensured first, then each user is created only if its username is
    absent, and the usernames created are returned in the fixed order. */
module SeedUsers {
  import opened Db
  import Permissions

  /** A row to seed: a username and the user created under it. */
  type Row = (string, User)

  /** The demo rows, in creation order; `allPermissions` is the permission
      table at creation time, all of which `adminuser` receives individually. */
  function SeedRows(allPermissions: set<Permission>): seq<Row>
  {
    [ ("superadmin", Superadmin()),
      ("adminuser", AdminUser(allPermissions)),
      ("limiteduser", LimitedUser()),
      ("nopermissionsuser", NoPermissionsUser()) ]
  }

  /** `superadmin`: a superuser. */
  function Superadmin(): User
  {
    NewSuperuser("superadmin@example.com", "superpass123")
  }

  /** `adminuser`: staff, then given every permission individually. */
  function AdminUser(allPermissions: set<Permission>): User
  {
    NewUser("admin@example.com", "adminpass123", true).(userPermissions := allPermissions)
  }

  /** `limiteduser`: staff, then added to the `LimitedUsers` group. */
  function LimitedUser(): User
  {
    NewUser("user@example.com", "userpass123", true).(groups := {LimitedUsers})
  }

  /** `nopermissionsuser`: neither staff nor in any group. */
  function NoPermissionsUser(): User
  {
    NewUser("user@example.com", "userpass123", false)
  }

  /** The demo usernames, in creation order. */
  const SeedUsernames: seq<string> := ["superadmin", "adminuser", "limiteduser", "nopermissionsuser"]

  /** No username occurs twice among `rows`. */
  predicate DistinctNames(rows: seq<Row>)
  {
    forall i, j :: 0 <= i < j < |rows| ==> rows[i].0 != rows[j].0
  }

  /** The demo usernames are distinct, so each creates its own row. */
  lemma SeedNamesDistinct(perms: set<Permission>)
    ensures DistinctNames(SeedRows(perms))
  {
  }

  /** The usernames of `rows`, in order, that are not in `present`. */
  function Absent(rows: seq<Row>, present: set<string>): (r: seq<string>)
    ensures |r| <= |rows|
  {
    if rows == [] then []
    else
      var last := rows[|rows| - 1];
      Absent(rows[..|rows| - 1], present) + (if last.0 in present then [] else [last.0])
  }

  /** The rows the seeding inserts: one per absent username. */
  function Inserted(rows: seq<Row>, present: set<string>): map<string, User>
  {
    if rows == [] then map[]
    else
      var last := rows[|rows| - 1];
      var m := Inserted(rows[..|rows| - 1], present);
      if last.0 in present then m else m[last.0 := last.1]
  }

  /** The user table after seeding. */
  function UsersAfterSeed(users: map<string, User>, perms: set<Permission>): map<string, User>
  {
    users + Inserted(SeedRows(perms), users.Keys)
  }

  /** The usernames reported created are exactly the absent ones. */
  lemma {:induction false} AbsentMembers(rows: seq<Row>, present: set<string>, n: string)
    ensures n in Absent(rows, present) <==> n !in present && exists i :: 0 <= i < |rows| && rows[i].0 == n
  {
    if rows != [] {
      var init := rows[..|rows| - 1];
      AbsentMembers(init, present, n);
      if n !in present && exists i :: 0 <= i < |rows| && rows[i].0 == n {
        var i :| 0 <= i < |rows| && rows[i].0 == n;
        if i < |rows| - 1 {
          assert init[i].0 == n;
        }
      }
    }
  }

  /** A username is inserted iff it is reported created; so no existing row
      is overwritten. */
  lemma {:induction false} InsertedKeys(rows: seq<Row>, present: set<string>, n: string)
    ensures n in Inserted(rows, present) <==> n in Absent(rows, present)
    ensures n in Inserted(rows, present) ==> n !in present
  {
    if rows != [] {
      InsertedKeys(rows[..|rows| - 1], present, n);
    }
  }

  /** Without repeated usernames, the row inserted under an absent username
      is that username's seed row. */
  lemma {:induction false} InsertedValue(rows: seq<Row>, present: set<string>, i: nat)
    requires DistinctNames(rows)
    requires i < |rows| && rows[i].0 !in present
    ensures rows[i].0 in Inserted(rows, present) && Inserted(rows, present)[rows[i].0] == rows[i].1
  {
    var init := rows[..|rows| - 1];
    if i < |init| {
      assert DistinctNames(init) by {
        forall p, q | 0 <= p < q < |init|
          ensures init[p].0 != init[q].0
        {
          assert init[p] == rows[p] && init[q] == rows[q];
        }
      }
      InsertedValue(init, present, i);
      assert rows[i].0 != rows[|rows| - 1].0;
    }
  }

  /** Without repeated usernames, no username is reported twice. */
  lemma {:induction false} AbsentDistinct(rows: seq<Row>, present: set<string>)
    requires DistinctNames(rows)
    ensures forall i, j :: 0 <= i < j < |Absent(rows, present)| ==> Absent(rows, present)[i] != Absent(rows, present)[j]
  {
    if rows != [] {
      var init := rows[..|rows| - 1];
      AbsentDistinct(init, present);
      AbsentMembers(init, present, rows[|rows| - 1].0);
    }
  }

  lemma {:induction false} DistinctCard(s: seq<string>)
    requires forall i, j :: 0 <= i < j < |s| ==> s[i] != s[j]
    ensures |set n | n in s| == |s|
  {
    if s != [] {
      var init := s[..|s| - 1];
      DistinctCard(init);
      assert (set n | n in s) == (set n | n in init) + {s[|s| - 1]};
    }
  }

  /** Each created user adds one row: the user table grows by exactly the
      number of usernames returned. */
  lemma SeedGrowsByCreated(users: map<string, User>, perms: set<Permission>)
    ensures |UsersAfterSeed(users, perms)| == |users| + |Absent(SeedRows(perms), users.Keys)|
  {
    var rows := SeedRows(perms);
    var ins := Inserted(rows, users.Keys);
    var created := Absent(rows, users.Keys);
    SeedNamesDistinct(perms);
    forall n
      ensures n in ins <==> n in created
      ensures n in ins ==> n !in users
    {
      InsertedKeys(rows, users.Keys, n);
    }
    assert ins.Keys == set n | n in created;
    AbsentDistinct(rows, users.Keys);
    DistinctCard(created);
    assert (users + ins).Keys == users.Keys + ins.Keys;
    assert |(users + ins).Keys| == |users.Keys| + |ins.Keys|;
  }

  /** Nobody is created when every username is already present. */
  lemma {:induction false} AbsentCovered(rows: seq<Row>, present: set<string>)
    requires forall i :: 0 <= i < |rows| ==> rows[i].0 in present
    ensures Absent(rows, present) == []
  {
    if rows != [] {
      AbsentCovered(rows[..|rows| - 1], present);
    }
  }

  /** Existing users are left untouched, and afterwards every demo username
      exists. */
  lemma SeedKeepsExisting(users: map<string, User>, perms: set<Permission>)
    ensures forall n :: n in users ==> n in UsersAfterSeed(users, perms) && UsersAfterSeed(users, perms)[n] == users[n]
    ensures forall i :: 0 <= i < |SeedRows(perms)| ==> SeedRows(perms)[i].0 in UsersAfterSeed(users, perms)
  {
    var rows := SeedRows(perms);
    SeedNamesDistinct(perms);
    forall n | n in users
      ensures n in UsersAfterSeed(users, perms) && UsersAfterSeed(users, perms)[n] == users[n]
    {
      InsertedKeys(rows, users.Keys, n);
    }
    forall i | 0 <= i < |rows| && rows[i].0 !in users
      ensures rows[i].0 in UsersAfterSeed(users, perms)
    {
      InsertedValue(rows, users.Keys, i);
    }
  }

  /** Seeding is idempotent: a second run creates nobody and changes no row. */
  lemma SecondSeedCreatesNothing(users: map<string, User>, perms: set<Permission>)
    ensures Absent(SeedRows(perms), UsersAfterSeed(users, perms).Keys) == []
    ensures UsersAfterSeed(UsersAfterSeed(users, perms), perms) == UsersAfterSeed(users, perms)
  {
    var after := UsersAfterSeed(users, perms);
    SeedKeepsExisting(users, perms);
    AbsentCovered(SeedRows(perms), after.Keys);
    forall n
      ensures n !in Inserted(SeedRows(perms), after.Keys)
    {
      InsertedKeys(SeedRows(perms), after.Keys, n);
    }
    assert UsersAfterSeed(after, perms) == after;
  }

  /** The usernames in creation order, and the roles of the demo users:
      `superadmin` is a superuser, `adminuser` is staff holding every
      permission, `limiteduser` is staff and a member of `LimitedUsers`,
      `nopermissionsuser` is neither staff nor in any group. */
  lemma SeedRoles(perms: set<Permission>)
    ensures DistinctNames(SeedRows(perms))
    ensures forall i :: 0 <= i < 4 ==> SeedRows(perms)[i].0 == SeedUsernames[i]
    ensures SeedRows(perms)[0].1.isSuperuser && SeedRows(perms)[0].1.isStaff
    ensures SeedRows(perms)[1].1.isStaff && !SeedRows(perms)[1].1.isSuperuser
    ensures SeedRows(perms)[1].1.userPermissions == perms
    ensures SeedRows(perms)[2].1.isStaff && SeedRows(perms)[2].1.groups == {LimitedUsers}
    ensures SeedRows(perms)[2].1.userPermissions == {}
    ensures !SeedRows(perms)[3].1.isStaff && SeedRows(perms)[3].1.groups == {}
    ensures SeedRows(perms)[3].1.userPermissions == {}
  {
  }

  /** One check-then-insert step: the k-th username is found in the table
      built so far iff it was there at the start (the usernames are distinct),
      and the step extends the inserted rows and the created list by that
      username when it was absent. */
  lemma SeedStep(rows: seq<Row>, k: nat, start: map<string, User>)
    requires k < |rows| && DistinctNames(rows)
    ensures start + Inserted(rows[..k + 1], start.Keys)
      == Step(start + Inserted(rows[..k], start.Keys), rows[k].0, rows[k].1)
    ensures Absent(rows[..k + 1], start.Keys)
      == Note(Absent(rows[..k], start.Keys), start + Inserted(rows[..k], start.Keys), rows[k].0)
  {
    var n := rows[k].0;
    assert rows[..k + 1][..k] == rows[..k];
    var m := Inserted(rows[..k], start.Keys);
    InsertedKeys(rows[..k], start.Keys, n);
    AbsentMembers(rows[..k], start.Keys, n);
    if n !in start {
      assert start + m[n := rows[k].1] == (start + m)[n := rows[k].1];
    }
  }

  /** The demo rows keep the table's references valid. */
  lemma SeedRowsReferToExisting(users: map<string, User>, perms: set<Permission>)
    ensures forall n :: n in Inserted(SeedRows(perms), users.Keys) ==>
      && Inserted(SeedRows(perms), users.Keys)[n].groups <= {LimitedUsers}
      && Inserted(SeedRows(perms), users.Keys)[n].userPermissions <= perms
  {
    var rows := SeedRows(perms);
    SeedNamesDistinct(perms);
    forall n | n in Inserted(rows, users.Keys)
      ensures Inserted(rows, users.Keys)[n].groups <= {LimitedUsers}
      ensures Inserted(rows, users.Keys)[n].userPermissions <= perms
    {
      InsertedKeys(rows, users.Keys, n);
      AbsentMembers(rows, users.Keys, n);
      var i :| 0 <= i < |rows| && rows[i].0 == n;
      InsertedValue(rows, users.Keys, i);
    }
  }

  /** Seeding keeps every user's groups and permissions among existing rows. */
  lemma SeedKeepsReferences(users: map<string, User>, perms: set<Permission>, groupNames: set<string>)
    requires LimitedUsers in groupNames
    requires UsersReferToGroups(users, groupNames, perms)
    ensures UsersReferToGroups(UsersAfterSeed(users, perms), groupNames, perms)
  {
    SeedRowsReferToExisting(users, perms);
  }

  /** One check-then-insert step on the user table. */
  function Step(users: map<string, User>, name: string, user: User): map<string, User>
  {
    if name in users then users else users[name := user]
  }

  /** The created list after one step. */
  function Note(created: seq<string>, users: map<string, User>, name: string): seq<string>
  {
    if name in users then created else created + [name]
  }

  /** The check-then-insert steps over `rows`, in order, from the user table
      `start`: the resulting table and the usernames created. */
  function Run(start: map<string, User>, rows: seq<Row>): (map<string, User>, seq<string>)
  {
    if rows == [] then (start, [])
    else
      var prev := Run(start, rows[..|rows| - 1]);
      var last := rows[|rows| - 1];
      (Step(prev.0, last.0, last.1), Note(prev.1, prev.0, last.0))
  }

  /** Running the steps over rows with distinct usernames inserts exactly the
      rows whose username is absent at the start, and reports exactly those
      usernames in order: an earlier step never makes a later check succeed. */
  lemma {:induction false} RunInsertsAbsent(start: map<string, User>, rows: seq<Row>)
    requires DistinctNames(rows)
    ensures Run(start, rows) == (start + Inserted(rows, start.Keys), Absent(rows, start.Keys))
  {
    if rows != [] {
      var k := |rows| - 1;
      var init := rows[..k];
      assert DistinctNames(init) by {
        forall p, q | 0 <= p < q < |init|
          ensures init[p].0 != init[q].0
        {
          assert init[p] == rows[p] && init[q] == rows[q];
        }
      }
      RunInsertsAbsent(start, init);
      SeedStep(rows, k, start);
      assert rows[..k + 1] == rows;
    } else {
      assert start + Inserted(rows, start.Keys) == start;
    }
  }

  /** One `if not User.objects.filter(username=...).exists()` block: the user
      is created under `name` only if that username is absent, and `name` is
      then appended to the created list. */
  method CreateIfAbsent(db: Store, name: string, user: User, created: seq<string>) returns (created': seq<string>)
    modifies db`users
    ensures db.users == Step(old(db.users), name, user)
    ensures created' == Note(created, old(db.users), name)
  {
    created' := created;
    if name !in db.users {
      db.users := db.users[name := user];
      created' := created' + [name];
    }
  }

  /** The four check-then-insert blocks of `seed_example_users`, run once the
      `LimitedUsers` group exists: each demo user whose username is absent is
      created with its role, and the usernames created are returned in the
      fixed order. */
  method CreateDemoUsers(db: Store) returns (created: seq<string>)
    requires db.Valid() && LimitedUsers in db.groups
    modifies db`users
    ensures db.Valid()
    ensures created == Absent(SeedRows(db.permissions), old(db.users).Keys)
    ensures db.users == UsersAfterSeed(old(db.users), db.permissions)
  {
    ghost var start := db.users;
    ghost var rows := SeedRows(db.permissions);
    assert rows[..0] == [];
    created := [];

    created := CreateIfAbsent(db, "superadmin", Superadmin(), created);
    assert (db.users, created) == Run(start, rows[..1]) by {
      assert rows[..1][..0] == rows[..0];
    }
    created := CreateIfAbsent(db, "adminuser", AdminUser(db.permissions), created);
    assert (db.users, created) == Run(start, rows[..2]) by {
      assert rows[..2][..1] == rows[..1];
    }
    created := CreateIfAbsent(db, "limiteduser", LimitedUser(), created);
    assert (db.users, created) == Run(start, rows[..3]) by {
      assert rows[..3][..2] == rows[..2];
    }
    created := CreateIfAbsent(db, "nopermissionsuser", NoPermissionsUser(), created);
    assert (db.users, created) == Run(start, rows[..4]) by {
      assert rows[..4][..3] == rows[..3];
    }

    assert rows[..4] == rows;
    SeedNamesDistinct(db.permissions);
    RunInsertsAbsent(start, rows);
    SeedKeepsReferences(start, db.permissions, db.groups.Keys);
  }

  /** `seed_example_users`: the permission group is bootstrapped first, then
      the demo users are created. */
  method SeedExampleUsers(db: Store) returns (created: seq<string>)
    requires db.Valid()
    modifies db`groups, db`users
    ensures db.Valid()
    ensures db.groups == Permissions.AfterBootstrap(old(db.groups), db.contentTypes, db.permissions)
    ensures created == Absent(SeedRows(db.permissions), old(db.users).Keys)
    ensures db.users == UsersAfterSeed(old(db.users), db.permissions)
  {
    var _ := Permissions.CreateLimitedUsersPermissionGroup(db);
    created := CreateDemoUsers(db);
  }
}
