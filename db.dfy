/** The database the application works on, seen as a set of tables.

    Each table of the framework's auth and content-type apps, and each table of
    the `main` app, is one field of `Store`. Rows that the source identifies by
    a unique name are kept in a map keyed by that name (groups by name, users by
    username); the Client table, whose names are not unique, is a sequence whose
    positions stand for primary keys. */
module Db {

  /** The label of the application whose models are managed. */
  const App: string := "main"

  /** The name of the restricted staff role. */
  const LimitedUsers: string := "LimitedUsers"

  /** A row of the content-type table: one per model of one app. */
  datatype ContentType = ContentType(appLabel: string, model: string)

  /** A row of the permission table; unique on (content type, codename). */
  datatype Permission = Permission(contentType: ContentType, codename: string)

  /** A row of the user table (the username is the key of `Store.users`).
      `password` stands for the stored credential; hashing is not modelled.
      `groups` and `userPermissions` are the user's rows in the two
      many-to-many tables. */
  datatype User = User(
    email: string,
    password: string,
    isStaff: bool,
    isSuperuser: bool,
    isActive: bool,
    groups: set<string>,
    userPermissions: set<Permission>)

  /** A row of the Client table (the creation timestamp is not modelled). */
  datatype Client = Client(
    name: string,
    email: string,
    contactNumber: string,
    companyUrl: string,
    isActive: bool)

  /** A row of the RequestType table. */
  datatype RequestType = RequestType(name: string, description: string)

  /** A row of the ClientRequest table: foreign keys to a client (its position
      in `Store.clients`) and to a request type (timestamps are not modelled). */
  datatype ClientRequest = ClientRequest(
    client: nat,
    requestType: nat,
    status: string,
    description: string)

  /** A user as the framework's `create_user` makes it: active, neither
      superuser nor member of any group, without individual permissions. */
  function NewUser(email: string, password: string, isStaff: bool): User
  {
    User(email, password, isStaff, false, true, {}, {})
  }

  /** A user as the framework's `create_superuser` makes it: staff and superuser. */
  function NewSuperuser(email: string, password: string): User
  {
    User(email, password, true, true, true, {}, {})
  }

  /** Every permission belongs to an existing content type. */
  ghost predicate PermissionsReferToContentTypes(permissions: set<Permission>, contentTypes: set<ContentType>)
  {
    forall p :: p in permissions ==> p.contentType in contentTypes
  }

  /** Every group holds existing permissions only. */
  ghost predicate GroupsReferToPermissions(groups: map<string, set<Permission>>, permissions: set<Permission>)
  {
    forall g :: g in groups ==> groups[g] <= permissions
  }

  /** Every user is a member of existing groups and holds existing permissions. */
  ghost predicate UsersReferToGroups(users: map<string, User>, groupNames: set<string>, permissions: set<Permission>)
  {
    forall u :: u in users ==> users[u].groups <= groupNames && users[u].userPermissions <= permissions
  }

  /** Every request refers to an existing client and an existing request type. */
  ghost predicate RequestsReferToClients(requests: map<nat, ClientRequest>, clientCount: nat, requestTypes: map<nat, RequestType>)
  {
    forall k :: k in requests ==> requests[k].client < clientCount && requests[k].requestType in requestTypes
  }

  class Store {
    var contentTypes: set<ContentType>
    var permissions: set<Permission>
    var groups: map<string, set<Permission>>
    var users: map<string, User>
    var clients: seq<Client>
    var requestTypes: map<nat, RequestType>
    var requests: map<nat, ClientRequest>

    /** Referential integrity: every foreign key points at an existing row. */
    ghost predicate Valid()
      reads this
    {
      && PermissionsReferToContentTypes(permissions, contentTypes)
      && GroupsReferToPermissions(groups, permissions)
      && UsersReferToGroups(users, groups.Keys, permissions)
      && RequestsReferToClients(requests, |clients|, requestTypes)
    }

    /** A freshly migrated database: content types and permissions exist,
        every other table is empty. */
    constructor (contentTypes: set<ContentType>, permissions: set<Permission>)
      requires forall p :: p in permissions ==> p.contentType in contentTypes
      ensures Valid()
      ensures this.contentTypes == contentTypes && this.permissions == permissions
      ensures groups == map[] && users == map[] && clients == []
      ensures requestTypes == map[] && requests == map[]
    {
      this.contentTypes := contentTypes;
      this.permissions := permissions;
      groups := map[];
      users := map[];
      clients := [];
      requestTypes := map[];
      requests := map[];
    }
  }
}
