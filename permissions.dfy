/** Bootstrap of the `LimitedUsers` permission group: the group is fetched or
    created, then for each of three models and each of the actions view, add
    and change the matching permission is attached to it when the model's
    content type and the permission exist. Missing rows are skipped. */
module Permissions {
  import opened Db

  /** The models the restricted role works on, in loop order. */
  const Models: seq<string> := ["client", "requesttype", "clientrequest"]

  /** The actions granted, in loop order; `delete` is deliberately absent. */
  const Actions: seq<string> := ["view", "add", "change"]

  /** The framework's permission codename: the action, an underscore, the model. */
  function Codename(action: string, model: string): string
  {
    action + "_" + model
  }

  /** Codenames built from underscore-free actions determine action and model. */
  lemma CodenameInjective(a1: string, m1: string, a2: string, m2: string)
    requires '_' !in a1 && '_' !in a2
    requires Codename(a1, m1) == Codename(a2, m2)
    ensures a1 == a2 && m1 == m2
  {
    var c := Codename(a1, m1);
    assert c == a1 + "_" + m1 && c == a2 + "_" + m2;
    assert c[|a1|] == '_' && forall i :: 0 <= i < |a1| ==> c[i] == a1[i] != '_';
    assert c[|a2|] == '_' && forall i :: 0 <= i < |a2| ==> c[i] == a2[i] != '_';
    if |a1| != |a2| {
      assert false;
    }
    assert a1 == c[..|a1|] == a2;
    assert m1 == c[|a1| + 1..] == m2;
  }

  /** What the inner loop grants for one content type: the permission
      `<action>_<model>` of each action whose permission row exists. */
  function ActionGrant(ct: ContentType, actions: seq<string>, perms: set<Permission>): set<Permission>
  {
    if actions == [] then {}
    else
      var p := Permission(ct, Codename(actions[|actions| - 1], ct.model));
      ActionGrant(ct, actions[..|actions| - 1], perms) + (if p in perms then {p} else {})
  }

  /** What the outer loop grants: for each model whose content type in the
      `main` app exists, what the inner loop grants for it. */
  function ModelsGrant(models: seq<string>, actions: seq<string>, cts: set<ContentType>, perms: set<Permission>): set<Permission>
  {
    if models == [] then {}
    else
      var ct := ContentType(App, models[|models| - 1]);
      ModelsGrant(models[..|models| - 1], actions, cts, perms)
        + (if ct in cts then ActionGrant(ct, actions, perms) else {})
  }

  /** The permissions the bootstrap attaches to the group. */
  function LimitedGrant(cts: set<ContentType>, perms: set<Permission>): set<Permission>
  {
    ModelsGrant(Models, Actions, cts, perms)
  }

  /** The permission set a group holds, empty for a group that does not exist. */
  function GroupPermissions(groups: map<string, set<Permission>>, name: string): set<Permission>
  {
    if name in groups then groups[name] else {}
  }

  /** The group table after the bootstrap. */
  function AfterBootstrap(groups: map<string, set<Permission>>, cts: set<ContentType>, perms: set<Permission>): map<string, set<Permission>>
  {
    groups[LimitedUsers := GroupPermissions(groups, LimitedUsers) + LimitedGrant(cts, perms)]
  }

  /** The inner loop grants exactly the existing permissions of that content
      type whose codename is built from one of the actions. */
  lemma {:induction false} ActionGrantExact(ct: ContentType, actions: seq<string>, perms: set<Permission>, p: Permission)
    ensures p in ActionGrant(ct, actions, perms) <==>
      p in perms && p.contentType == ct && exists a :: a in actions && p.codename == Codename(a, ct.model)
  {
    if actions != [] {
      var init := actions[..|actions| - 1];
      var last := actions[|actions| - 1];
      ActionGrantExact(ct, init, perms, p);
      assert actions == init + [last];
      if p in perms && p.contentType == ct && exists a :: a in actions && p.codename == Codename(a, ct.model) {
        var a :| a in actions && p.codename == Codename(a, ct.model);
        if a != last {
          assert a in init;
        }
      }
    }
  }

  /** The nested loops grant exactly the existing permissions of an existing
      `main` content type among the models, whose codename is built from one of
      the actions and that model. */
  lemma {:induction false} ModelsGrantExact(models: seq<string>, actions: seq<string>, cts: set<ContentType>, perms: set<Permission>, p: Permission)
    ensures p in ModelsGrant(models, actions, cts, perms) <==>
      && p in perms
      && p.contentType in cts
      && p.contentType.appLabel == App
      && p.contentType.model in models
      && exists a :: a in actions && p.codename == Codename(a, p.contentType.model)
  {
    if models != [] {
      var init := models[..|models| - 1];
      var last := models[|models| - 1];
      ModelsGrantExact(init, actions, cts, perms, p);
      ActionGrantExact(ContentType(App, last), actions, perms, p);
      assert models == init + [last];
    }
  }

  /** The exact grant: a permission is attached iff it exists, its content type
      exists and is one of the three `main` models, and its codename is
      `view_`, `add_` or `change_` followed by that model. */
  lemma LimitedGrantExact(cts: set<ContentType>, perms: set<Permission>, p: Permission)
    ensures p in LimitedGrant(cts, perms) <==>
      && p in perms
      && p.contentType in cts
      && p.contentType.appLabel == App
      && p.contentType.model in Models
      && p.codename in {Codename("view", p.contentType.model), Codename("add", p.contentType.model), Codename("change", p.contentType.model)}
  {
    ModelsGrantExact(Models, Actions, cts, perms, p);
    var m := p.contentType.model;
    if p.codename in {Codename("view", m), Codename("add", m), Codename("change", m)} {
      if p.codename == Codename("view", m) {
        assert Actions[0] == "view";
      } else if p.codename == Codename("add", m) {
        assert Actions[1] == "add";
      } else {
        assert Actions[2] == "change";
      }
    }
  }

  /** Whenever the content type of one of the models and the permission
      `<action>_<model>` exist, the grant contains that permission. */
  lemma GrantsWhatExists(cts: set<ContentType>, perms: set<Permission>, model: string, action: string)
    requires model in Models && action in Actions
    requires ContentType(App, model) in cts
    requires Permission(ContentType(App, model), Codename(action, model)) in perms
    ensures Permission(ContentType(App, model), Codename(action, model)) in LimitedGrant(cts, perms)
  {
    ModelsGrantExact(Models, Actions, cts, perms, Permission(ContentType(App, model), Codename(action, model)));
  }

  /** No `delete_<model>` permission is ever granted, whatever content type it
      belongs to and whatever rows exist. */
  lemma NeverGrantsDelete(cts: set<ContentType>, perms: set<Permission>, ct: ContentType)
    ensures Permission(ct, Codename("delete", ct.model)) !in LimitedGrant(cts, perms)
  {
    var p := Permission(ct, Codename("delete", ct.model));
    ModelsGrantExact(Models, Actions, cts, perms, p);
    if p in LimitedGrant(cts, perms) {
      var a :| a in Actions && p.codename == Codename(a, ct.model);
      CodenameInjective(a, ct.model, "delete", ct.model);
      assert false;
    }
  }

  /** On a database where all three content types and all nine permissions
      exist, the group receives exactly view, add and change on each model. */
  lemma FullGrant(cts: set<ContentType>, perms: set<Permission>)
    requires forall m :: m in Models ==> ContentType(App, m) in cts
    requires forall m, a :: m in Models && a in Actions ==> Permission(ContentType(App, m), Codename(a, m)) in perms
    ensures LimitedGrant(cts, perms) ==
      set m, a | m in Models && a in Actions :: Permission(ContentType(App, m), Codename(a, m))
  {
    var expected := set m, a | m in Models && a in Actions :: Permission(ContentType(App, m), Codename(a, m));
    forall p | p in LimitedGrant(cts, perms)
      ensures p in expected
    {
      ModelsGrantExact(Models, Actions, cts, perms, p);
      var a :| a in Actions && p.codename == Codename(a, p.contentType.model);
      assert p == Permission(ContentType(App, p.contentType.model), Codename(a, p.contentType.model));
    }
    forall p | p in expected
      ensures p in LimitedGrant(cts, perms)
    {
      var m, a :| m in Models && a in Actions && p == Permission(ContentType(App, m), Codename(a, m));
      ModelsGrantExact(Models, Actions, cts, perms, p);
    }
  }

  /** Tolerance of a missing content type: without it, the grant loses exactly
      that model's permissions and keeps every other model's. */
  lemma MissingContentTypeSkipsModel(cts: set<ContentType>, perms: set<Permission>, ct: ContentType)
    ensures LimitedGrant(cts - {ct}, perms) ==
      set p | p in LimitedGrant(cts, perms) && p.contentType != ct
  {
    forall p
      ensures p in LimitedGrant(cts - {ct}, perms) <==> p in LimitedGrant(cts, perms) && p.contentType != ct
    {
      ModelsGrantExact(Models, Actions, cts - {ct}, perms, p);
      ModelsGrantExact(Models, Actions, cts, perms, p);
    }
  }

  /** Tolerance of a missing permission: without it, the grant loses only that
      permission; the other actions of its model are still granted. */
  lemma MissingPermissionSkipsCodename(cts: set<ContentType>, perms: set<Permission>, q: Permission)
    ensures LimitedGrant(cts, perms - {q}) == LimitedGrant(cts, perms) - {q}
  {
    forall p
      ensures p in LimitedGrant(cts, perms - {q}) <==> p in LimitedGrant(cts, perms) - {q}
    {
      ModelsGrantExact(Models, Actions, cts, perms - {q}, p);
      ModelsGrantExact(Models, Actions, cts, perms, p);
    }
  }

  /** The bootstrap only adds: every group keeps every permission it had, and
      afterwards the `LimitedUsers` group exists and holds the grant. */
  lemma BootstrapOnlyGrows(groups: map<string, set<Permission>>, cts: set<ContentType>, perms: set<Permission>)
    ensures AfterBootstrap(groups, cts, perms).Keys == groups.Keys + {LimitedUsers}
    ensures forall g :: g in groups ==> groups[g] <= AfterBootstrap(groups, cts, perms)[g]
    ensures LimitedGrant(cts, perms) <= AfterBootstrap(groups, cts, perms)[LimitedUsers]
  {
  }

  /** The bootstrap is idempotent: a second run leaves the group table as the
      first run left it. */
  lemma BootstrapIdempotent(groups: map<string, set<Permission>>, cts: set<ContentType>, perms: set<Permission>)
    ensures AfterBootstrap(AfterBootstrap(groups, cts, perms), cts, perms) == AfterBootstrap(groups, cts, perms)
  {
  }

  /** `Group.objects.get_or_create(name=...)`: a group of that name exists
      afterwards; it is created, with no permissions, only when absent. */
  method GetOrCreateGroup(db: Store, name: string) returns (created: bool)
    requires db.Valid()
    modifies db`groups
    ensures db.Valid()
    ensures created == (name !in old(db.groups))
    ensures db.groups == if created then old(db.groups)[name := {}] else old(db.groups)
  {
    created := name !in db.groups;
    if created {
      db.groups := db.groups[name := {}];
    }
  }

  /** The inner loop of the bootstrap, for one existing content type: each
      permission `<action>_<model>` that exists and is not yet in the group is
      added to it. */
  method GrantActions(db: Store, contentType: ContentType, actions: seq<string>)
    requires db.Valid() && LimitedUsers in db.groups
    requires contentType in db.contentTypes
    modifies db`groups
    ensures db.Valid()
    ensures db.groups == old(db.groups)[LimitedUsers := old(db.groups)[LimitedUsers] + ActionGrant(contentType, actions, db.permissions)]
  {
    ghost var start := db.groups;
    var j := 0;
    assert actions[..0] == [];
    while j < |actions|
      invariant 0 <= j <= |actions|
      invariant db.Valid()
      invariant LimitedUsers in db.groups && db.groups == start[LimitedUsers := db.groups[LimitedUsers]]
      invariant db.groups[LimitedUsers] == start[LimitedUsers] + ActionGrant(contentType, actions[..j], db.permissions)
    {
      var permission := Permission(contentType, Codename(actions[j], contentType.model));
      ActionGrantStep(contentType, actions, j, db.permissions);
      if permission in db.permissions {
        if permission !in db.groups[LimitedUsers] {
          AddKeepsGroupReferences(db.groups, db.permissions, LimitedUsers, permission);
          db.groups := db.groups[LimitedUsers := db.groups[LimitedUsers] + {permission}];
        }
      }
      j := j + 1;
    }
    assert actions[..j] == actions;
  }

  /** One more action extends the inner loop's grant by that action's
      permission when it exists. */
  lemma ActionGrantStep(ct: ContentType, actions: seq<string>, j: nat, perms: set<Permission>)
    requires j < |actions|
    ensures var p := Permission(ct, Codename(actions[j], ct.model));
      ActionGrant(ct, actions[..j + 1], perms) == ActionGrant(ct, actions[..j], perms) + (if p in perms then {p} else {})
  {
    assert actions[..j + 1][..j] == actions[..j];
  }

  /** Adding an existing permission to an existing group keeps every group's
      permissions existing. */
  lemma AddKeepsGroupReferences(groups: map<string, set<Permission>>, perms: set<Permission>, name: string, p: Permission)
    requires GroupsReferToPermissions(groups, perms) && name in groups && p in perms
    ensures GroupsReferToPermissions(groups[name := groups[name] + {p}], perms)
  {
  }

  /** The outer loop of the bootstrap over a list of model names: the inner
      loop runs for each model whose content type exists, and a model without
      one is skipped. */
  method GrantModels(db: Store, models: seq<string>)
    requires db.Valid() && LimitedUsers in db.groups
    modifies db`groups
    ensures db.Valid()
    ensures db.groups == old(db.groups)[LimitedUsers := old(db.groups)[LimitedUsers] + ModelsGrant(models, Actions, db.contentTypes, db.permissions)]
  {
    ghost var start := db.groups;
    var i := 0;
    while i < |models|
      invariant 0 <= i <= |models|
      invariant db.Valid()
      invariant LimitedUsers in db.groups && db.groups == start[LimitedUsers := db.groups[LimitedUsers]]
      invariant db.groups[LimitedUsers] == start[LimitedUsers] + ModelsGrant(models[..i], Actions, db.contentTypes, db.permissions)
    {
      var model := models[i];
      assert models[..i + 1] == models[..i] + [model];
      var contentType := ContentType(App, model);
      if contentType in db.contentTypes {
        GrantActions(db, contentType, Actions);
      }
      i := i + 1;
    }
    assert models[..i] == models;
  }

  /** `create_limited_users_permission_group`: returns the group's name, the
      group's identity; afterwards the group holds what it held before plus the
      grant, and no other group changes. */
  method CreateLimitedUsersPermissionGroup(db: Store) returns (group: string)
    requires db.Valid()
    modifies db`groups
    ensures db.Valid()
    ensures group == LimitedUsers && group in db.groups
    ensures db.groups == AfterBootstrap(old(db.groups), db.contentTypes, db.permissions)
  {
    var _ := GetOrCreateGroup(db, LimitedUsers);
    GrantModels(db, Models);
    group := LimitedUsers;
  }
}
