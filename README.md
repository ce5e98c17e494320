# Client-Request-Tracker: table-update routines and registration rules in Dafny

This project models the parts of the Client-Request-Tracker Django application
that change the database or decide whether it changes:

- the bootstrap of the `LimitedUsers` permission group;
- the development seeding of example clients and of the four demo users;
- the `delete_seeded_users` management command;
- the registration form's `clean` and `save`;
- the `mark_as_completed` bulk action of the ClientRequest admin.

The database is one object, `Db.Store`, with one field per table:

- content types and permissions;
- groups, a map from group name to the group's permissions;
- users, a map from username to the user row, whose group memberships and
  individual permissions are sets in the row;
- clients, a sequence whose positions stand for primary keys;
- request types and client requests.

`Store.Valid` is referential integrity: every foreign key points at an existing
row. Each routine is a method that may change only the tables it touches
(`modifies db`groups`, `db`users`, ...), so "nothing else changes" follows from
the frame. Each method states its new state through a specification function,
and the lemmas beside it state what the application promises about that state.

Modules follow the source files:

| module | source file |
|---|---|
| `Db` | the tables the application uses, and the framework's `create_user` / `create_superuser` |
| `Permissions` | `main/utils/permissions.py` |
| `SeedExampleData` | `main/utils/seed_example_data.py` |
| `SeedUsers` | `main/utils/seed_users.py` |
| `DeleteSeededUsers` | `main/management/commands/delete_seeded_users.py` |
| `Forms` | `main/forms.py` |
| `Admin` | `main/admin.py` (`mark_as_completed` only) |
| `Decimal` | how an f-string renders a count, as used by the two count messages |

## Model

| member | source | states |
|---|---|---|
| Permissions.GetOrCreateGroup | main/utils/permissions.py:13 | The group exists afterwards. It is created with no permissions only when absent, and the flag says whether it was created. |
| Permissions.GrantActions | main/utils/permissions.py:22-32 | The inner loop adds to `LimitedUsers` exactly the permissions `<action>_<model>` of the content type that exist. No other group changes. |
| Permissions.GrantModels | main/utils/permissions.py:19-34 | The outer loop adds the grant of every model whose content type exists. A missing content type skips that model. No other group changes. |
| Permissions.CreateLimitedUsersPermissionGroup | main/utils/permissions.py:7-36 | Returns `LimitedUsers`, which exists afterwards. The group table becomes `AfterBootstrap` of the old one: the group keeps what it had plus the grant, and every other group is unchanged. Integrity is kept. |
| Permissions.CodenameInjective | main/utils/permissions.py:23 | A codename `<action>_<model>` determines the action and the model when the action has no underscore. |
| Permissions.ActionGrantExact | main/utils/permissions.py:22-27 | A permission is granted for a content type iff it exists, belongs to that content type, and has the codename of one of the listed actions. |
| Permissions.ModelsGrantExact | main/utils/permissions.py:19-34 | A permission is granted iff it exists, and it is `<action>_<model>` of a listed model whose content type `main.<model>` exists and a listed action. |
| Permissions.LimitedGrantExact | main/utils/permissions.py:15-27 | A permission is granted iff it exists, its content type exists and is `main`'s client, requesttype or clientrequest, and its codename is `view_`, `add_` or `change_` followed by that model. |
| Permissions.GrantsWhatExists | main/utils/permissions.py:24-27 | Every existing view, add or change permission of a model whose `main` content type exists is granted. |
| Permissions.NeverGrantsDelete | main/utils/permissions.py:17 | `delete_<model>` is never granted, for any content type. |
| Permissions.FullGrant | main/utils/permissions.py:15-27 | When every content type and permission exists, the grant is exactly the nine view/add/change permissions of the three models. |
| Permissions.MissingContentTypeSkipsModel | main/utils/permissions.py:20-34 | Removing a content type removes exactly that model's permissions from the grant. Every other model is still granted. |
| Permissions.MissingPermissionSkipsCodename | main/utils/permissions.py:24-32 | Removing a permission removes only that permission from the grant. The model's other actions are still granted. |
| Permissions.BootstrapOnlyGrows | main/utils/permissions.py:13-27 | Afterwards the groups are the old ones plus `LimitedUsers`. No group loses a permission, and `LimitedUsers` holds the grant. |
| Permissions.BootstrapIdempotent | main/utils/permissions.py:13-30 | A second bootstrap leaves the group table as the first left it. |
| SeedExampleData.InsertAbsentClients | main/utils/seed_example_data.py:30-33 | The loop appends each seed row whose name is absent from the table, and returns the appended names in seed order. Integrity is kept. |
| SeedExampleData.SeedExampleClients | main/utils/seed_example_data.py:3-35 | The Client table becomes `AfterSeed` of the old one. The returned list is the names of the rows appended. |
| SeedExampleData.ToInsertMembers | main/utils/seed_example_data.py:30-32 | A client is inserted iff it is a seed row whose name is absent. |
| SeedExampleData.SeedEmptyTable | main/utils/seed_example_data.py:6-33 | On an empty table the returned list is vetpartners, dcc, curaleaf. |
| SeedExampleData.SeedCoversEveryName | main/utils/seed_example_data.py:30-32 | Afterwards a client of every seed name exists. |
| SeedExampleData.SecondSeedInsertsNothing | main/utils/seed_example_data.py:31 | A second run inserts nothing, so it returns an empty list, and the table is unchanged. |
| SeedExampleData.SeedKeepsRowsAndCounts | main/utils/seed_example_data.py:31-33 | Existing rows stay unchanged and in place, including rows with a seed name but other fields. The table grows by exactly the length of the returned list. Every new row is a seed row with an absent name. |
| SeedExampleData.SeedNamesDistinct | main/utils/seed_example_data.py:6-28 | The seed names are distinct. |
| SeedExampleData.ToInsertCovered | main/utils/seed_example_data.py:31 | Nothing is inserted when every seed name is present. |
| SeedUsers.SeedExampleUsers | main/utils/seed_users.py:4-41 | The group bootstrap runs first, and the group table becomes `AfterBootstrap`. Then the user table becomes `UsersAfterSeed`, and the returned list is the absent demo usernames in order. Integrity is kept. |
| SeedUsers.CreateDemoUsers | main/utils/seed_users.py:10-39 | The four check-then-insert blocks, run once `LimitedUsers` exists, give `UsersAfterSeed` and the absent usernames in order. Every created user refers to existing groups and permissions. |
| SeedUsers.CreateIfAbsent | main/utils/seed_users.py:11-39 | One block: the user is stored under its username only if that username is absent, and the name is then appended to the list. |
| SeedUsers.RunInsertsAbsent | main/utils/seed_users.py:11-39 | Steps over rows with distinct usernames insert exactly the rows absent at the start, and report exactly their usernames in order. |
| SeedUsers.AbsentMembers | main/utils/seed_users.py:11-35 | A username is reported created iff it is a demo username that was absent. |
| SeedUsers.InsertedKeys | main/utils/seed_users.py:11-37 | A username gets a new row iff it is reported created. No existing username is overwritten. |
| SeedUsers.InsertedValue | main/utils/seed_users.py:12-38 | The row stored under an absent demo username is that user's demo row. |
| SeedUsers.AbsentDistinct | main/utils/seed_users.py:13-39 | No username is reported twice. |
| SeedUsers.SeedGrowsByCreated | main/utils/seed_users.py:11-39 | The user table grows by exactly the length of the returned list. |
| SeedUsers.SeedKeepsExisting | main/utils/seed_users.py:11-35 | Existing users are unchanged, and afterwards every demo username exists. |
| SeedUsers.SecondSeedCreatesNothing | main/utils/seed_users.py:11-39 | A second run creates nobody and changes no user. |
| SeedUsers.SeedRoles | main/utils/seed_users.py:12-38 | `superadmin` is a superuser. `adminuser` is staff, not superuser, and holds every permission. `limiteduser` is staff and in `LimitedUsers`. `nopermissionsuser` is not staff and has no group and no permission. The usernames come in the fixed order. |
| SeedUsers.SeedKeepsReferences | main/utils/seed_users.py:8-31 | When `LimitedUsers` exists, every user's groups and permissions still exist after seeding. |
| DeleteSeededUsers.Handle | main/management/commands/delete_seeded_users.py:7-10 | The user table loses exactly the listed usernames. The count is the delete's count, and the message is `Deleted <count> user(s)`. Integrity is kept. |
| DeleteSeededUsers.DeleteRemovesExactlyListed | main/management/commands/delete_seeded_users.py:8-9 | No listed username remains, and every other user is unchanged. |
| DeleteSeededUsers.SecondRunRemovesNothing | main/management/commands/delete_seeded_users.py:9 | A second run removes nobody and reports zero. |
| DeleteSeededUsers.DeletedCountZero | main/management/commands/delete_seeded_users.py:9 | The count is zero iff none of the listed users exists. |
| DeleteSeededUsers.DeletedCountBounds | main/management/commands/delete_seeded_users.py:9 | The count is at least the number of users removed. It equals that number when they have no group and no individual permission. |
| DeleteSeededUsers.DeleteCounts | main/management/commands/delete_seeded_users.py:9-10 | The user table shrinks by the number removed, and the reported count is at least that number. |
| DeleteSeededUsers.MessageReportsCount | main/management/commands/delete_seeded_users.py:10 | Different counts give different messages. |
| DeleteSeededUsers.DeletesEverySeededUser | main/management/commands/delete_seeded_users.py:8 | The listed usernames are the demo users, so none remains after seeding and then deleting. |
| Forms.MismatchReportedIff | main/forms.py:33-39 | "Passwords do not match" is reported iff both passwords pass their own validation and differ. A missing password never produces it. |
| Forms.Clean | main/forms.py:33-40 | `clean` raises "Passwords do not match" when both passwords are present, non-empty and different, and otherwise returns the cleaned data. It raises only when the two cleaned passwords differ. |
| Forms.CleanReturnsData | main/forms.py:33-40 | `clean` never alters the cleaned data, and the only error it raises is "Passwords do not match". |
| Forms.MatchingPasswordsPassClean | main/forms.py:37-40 | Matching passwords pass `clean` at any length; the minimum length is the password field's own check. |
| Forms.ShortPasswordRejected | main/forms.py:13-17 | A non-empty password under 12 characters gets the minimum-length error, no mismatch error, and the form is invalid. |
| Forms.EmailRequired | main/forms.py:9-12 | An empty email is reported as required, and the form is invalid. |
| Forms.RegistrationValidIff | main/forms.py:9-40 | The form is valid iff all of these hold: the username is filled in and free, the email is filled in, the password has at least 12 characters, and the confirmation equals it. The cleaned data is then the submitted values. |
| Forms.Save | main/forms.py:42-53 | Invalid data is refused. Otherwise the user is staff and its email is normalised. With `commit`, it is stored under its username and joins `LimitedUsers` iff that group exists. Without `commit`, nothing is stored and no group is joined. Integrity is kept. |
| Forms.NormalizeEmail | main/forms.py:25-28 | The user model's email normalisation: the text after the last '@' is lower-cased and the rest is kept; an address without '@' is kept. The length never changes. |
| Forms.NormalizeEmailShape | main/forms.py:25-28 | The normalisation keeps the length and everything up to the last '@', which stays the last '@'. No upper-case ASCII letter is left after it. An address without '@' is kept whole. |
| Forms.NormalizeEmailLowersDomain | main/forms.py:25-28 | After the last '@', each upper-case ASCII letter becomes its lower-case form and every other character is kept, so the domain is lower-cased and nothing else changes. |
| Forms.NormalizeEmailIdempotent | main/forms.py:25-28 | Normalising an email twice gives what normalising it once gives. |
| Forms.NormalizeEmailExample | main/forms.py:25-28 | `Ann@EXAMPLE.COM` is stored as `Ann@example.com`. |
| Forms.CommitAddsOneUser | main/forms.py:46-47 | A committed registration adds exactly one user, and every other user is untouched. |
| Admin.MarkAsCompleted | main/admin.py:93-95 | The selected requests get status 'Completed'. The count is the number of selected rows, and the message is `<count> requests marked as completed.` Integrity is kept. |
| Admin.CompletedRows | main/admin.py:94 | Every selected request reads 'Completed', and only its status changes. Unselected requests are unchanged, and no row is added or removed. |
| Admin.CompletedIdempotent | main/admin.py:94 | Applying the action twice to the same selection equals applying it once. |
| Admin.CompletedKeepsReferences | main/admin.py:94 | Every request's client and request type still exist. |
| Admin.CountIsSelectionSize | main/admin.py:94 | When every selected id exists, the count is the size of the selection. |
| Admin.MessageReportsCount | main/admin.py:95 | Different counts give different messages. |
| Decimal.NatToString | main/admin.py:95 | The rendered count is a non-empty string of digits without a leading zero. |
| Decimal.DigitsValueOfNatToString | main/management/commands/delete_seeded_users.py:10 | Reading the rendered digits back gives the count. |

## Left out

- Logging calls in the bootstrap are not modelled. They produce output only.
- Permissions.CreateLimitedUsersPermissionGroup: the source runs the nested loop inline. The model splits it into `GrantModels` (outer loop) and `GrantActions` (inner loop), which take the model and action lists as parameters and are called with the source's lists.
- SeedExampleData.SeedExampleClients: the loop is the method `InsertAbsentClients` over the seed list, called with the three seed rows.
- SeedUsers.CreateDemoUsers: each check-then-insert block is a call to `CreateIfAbsent` with the user built as the block builds it (`Superadmin`, `AdminUser`, `LimitedUser`, `NoPermissionsUser`).
- The creation and update timestamps of clients and requests are not modelled. Neither is the database's assignment of primary keys: a client's key is its position.
- Password hashing (`set_password`, `create_user`) is not modelled. The stored credential is the password itself.
- Forms: the form's username length limit and character validator, the email format check, and whitespace stripping of text fields are not modelled. The model keeps the required check, the password minimum length, the mismatch rule and username uniqueness.
- Forms.Save: the username is stored as posted. The user model's NFKC normalisation of the username, run before the uniqueness check, is not modelled because the model has no Unicode tables; it is the identity on ASCII. The email domain is lower-cased for ASCII letters only, where the framework lower-cases any letter.
- Forms.Save: the framework raises an exception when `save` is called on invalid data. The model returns `Failure(NotValidated)` instead.
- DeleteSeededUsers.Handle: the model's `DeletedCount` includes the cascaded rows of the user-group and user-permission tables but leaves out the cascaded admin log entries, so the real count can exceed it.
- DeleteSeededUsers.Message: the terminal colour codes of the command's success style are not modelled. The message is the plain text.
- The rest of the admin configuration is not modelled (display options, fieldsets, the custom admin site and its staff check). It is framework configuration.
- The login view is not part of this model, and neither are the URL table, the startup hook that runs the seeding, and the browser animation script.
