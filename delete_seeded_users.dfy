/** The `delete_seeded_users` management command: one bulk delete of the users
    whose username is in the fixed list of demo usernames, reporting the count
    the delete returns. */
module DeleteSeededUsers {
  import opened Db
  import Decimal
  import SeedUsers

  /** The usernames the command deletes. */
  const Usernames: seq<string> := ["superadmin", "adminuser", "limiteduser", "nopermissionsuser"]

  /** The rows one user's deletion removes: the user row, and its rows in the
      user-group and user-permission tables, which the delete cascades to and
      counts. */
  function CascadeSize(u: User): nat
  {
    1 + |u.groups| + |u.userPermissions|
  }

  /** The count the bulk delete reports when deleting the users named in
      `names` (a list without repetitions). */
  function DeletedCount(users: map<string, User>, names: seq<string>): nat
  {
    if names == [] then 0
    else
      var last := names[|names| - 1];
      DeletedCount(users, names[..|names| - 1]) + (if last in users then CascadeSize(users[last]) else 0)
  }

  /** The user table after the delete: every row whose username is listed is gone. */
  function Remaining(users: map<string, User>): map<string, User>
  {
    map n | n in users && n !in Usernames :: users[n]
  }

  /** The usernames of `users` that the command removes. */
  function Removed(users: map<string, User>): set<string>
  {
    set n | n in Usernames && n in users
  }

  /** The success message written for a count, without the terminal colour
      codes the command's success style wraps around it. */
  function Message(deleted: nat): string
  {
    "Deleted " + Decimal.NatToString(deleted) + " user(s)"
  }

  /** `Command.handle`: deletes every user whose username is listed; nothing
      else in the user table changes; the message reports the delete's count. */
  method Handle(db: Store) returns (deleted: nat, message: string)
    requires db.Valid()
    modifies db`users
    ensures db.Valid()
    ensures db.users == Remaining(old(db.users))
    ensures deleted == DeletedCount(old(db.users), Usernames)
    ensures message == Message(deleted)
  {
    deleted := DeletedCount(db.users, Usernames);
    db.users := map n | n in db.users && n !in Usernames :: db.users[n];
    message := "Deleted " + Decimal.NatToString(deleted) + " user(s)";
  }

  /** Afterwards no user has a listed username, and every other user is
      unchanged. */
  lemma DeleteRemovesExactlyListed(users: map<string, User>)
    ensures forall n :: n in Usernames ==> n !in Remaining(users)
    ensures forall n :: n in users && n !in Usernames ==> n in Remaining(users) && Remaining(users)[n] == users[n]
    ensures Remaining(users).Keys == users.Keys - Removed(users)
  {
  }

  /** A second run removes nobody and reports a count of zero. */
  lemma SecondRunRemovesNothing(users: map<string, User>)
    ensures Remaining(Remaining(users)) == Remaining(users)
    ensures Removed(Remaining(users)) == {}
    ensures DeletedCount(Remaining(users), Usernames) == 0
  {
    DeletedCountZero(Remaining(users), Usernames);
  }

  /** The count is zero exactly when none of the named users exists. */
  lemma {:induction false} DeletedCountZero(users: map<string, User>, names: seq<string>)
    ensures DeletedCount(users, names) == 0 <==> forall i :: 0 <= i < |names| ==> names[i] !in users
  {
    if names != [] {
      var init := names[..|names| - 1];
      DeletedCountZero(users, init);
      assert forall i :: 0 <= i < |init| ==> init[i] == names[i];
    }
  }

  /** The reported count is at least the number of users removed: each removed
      user contributes its own row and the rows cascaded from it. It equals
      that number when the removed users belong to no group and hold no
      individual permission. */
  lemma {:induction false} DeletedCountBounds(users: map<string, User>, names: seq<string>)
    requires forall i, j :: 0 <= i < j < |names| ==> names[i] != names[j]
    ensures DeletedCount(users, names) >= |set n | n in names && n in users|
    ensures (forall n :: n in names && n in users ==> users[n].groups == {} && users[n].userPermissions == {})
      ==> DeletedCount(users, names) == |set n | n in names && n in users|
  {
    if names != [] {
      var init := names[..|names| - 1];
      var last := names[|names| - 1];
      DeletedCountBounds(users, init);
      assert last !in init by {
        forall i | 0 <= i < |init|
          ensures init[i] != last
        {
          assert init[i] == names[i];
        }
      }
      var before := set n | n in init && n in users;
      var after := set n | n in names && n in users;
      assert names == init + [last];
      if last in users {
        assert after == before + {last};
      } else {
        assert after == before;
      }
    }
  }

  /** The user table shrinks by exactly the number of users removed, and the
      reported count is at least that number. */
  lemma DeleteCounts(users: map<string, User>)
    ensures |Remaining(users)| == |users| - |Removed(users)|
    ensures DeletedCount(users, Usernames) >= |Removed(users)|
  {
    DeleteRemovesExactlyListed(users);
    assert Removed(users) <= users.Keys;
    assert |Remaining(users).Keys| == |users.Keys - Removed(users)|;
    DeletedCountBounds(users, Usernames);
    assert (set n | n in Usernames && n in users) == Removed(users);
  }

  /** The message determines the count it reports. */
  lemma MessageReportsCount(a: nat, b: nat)
    requires Message(a) == Message(b)
    ensures a == b
  {
    Decimal.MessageDeterminesCount("Deleted ", a, b, " user(s)");
  }

  /** The listed usernames are exactly the demo users seeding creates, so after
      seeding and then this command none of the demo users remains. */
  lemma DeletesEverySeededUser(users: map<string, User>, perms: set<Permission>)
    ensures forall i :: 0 <= i < |SeedUsers.SeedRows(perms)| ==>
      SeedUsers.SeedRows(perms)[i].0 !in Remaining(SeedUsers.UsersAfterSeed(users, perms))
  {
  }
}
