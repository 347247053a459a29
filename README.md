# Magisk module catalog: business layer over its store

This project models the business layer of a catalog of Magisk modules. The catalog stores:

- users and their roles;
- module categories and tags;
- modules, each with its versions;
- reviews and device compatibility reports.

The model is a sequential state machine over one in-memory store:

- **Rows** (`Entities`) are datatypes, one per entity class of the EF Core model.
- **The store** (`Repositories.Store`) is a class with one `seq` field per table and a record of the identity counters.
  - Repository queries are functions on the store. Each filter is modelled exactly: case-insensitive category and tag names, exact user, email and role names, "in use" as "referenced by some row".
  - Repository writes are methods. A write the database would reject (duplicate unique key, dangling foreign key) fails with `DataAccess` and changes nothing. An update whose id matches no row also fails with `DataAccess` in the model (see "Left out").
- **The schema** (`Schema`) is the database as a value `Db`. It states:
  - what the database enforces (`Constrained`: primary keys, unique indexes, foreign keys);
  - the invariants the business layer keeps on top (`CatalogInvariants`): category and tag names are unique ignoring case, every module has at least one version, and every rating is within 1..5.

  For each write there is a lemma that it preserves both.
- **The services.**
  - `Accounts.UserService` covers registration and login.
  - `Catalog.ModuleService` covers search, details, reviews, compatibility reports, uploads and new versions.
  - `Moderation.ModerationService` covers categories, tags, tag assignment and verification.

  Each service operation is an ordered list of checks followed by at most two store writes. Its outcome is `Result` or `Outcome`, with exactly three error kinds: `BusinessRule`, `NotFound` and `DataAccess`. The services report store failures as `BusinessRule`.

  Every service method that writes requires and ensures `Store.Valid()`. Each one states:
  - which checks fail, in order, and with which error;
  - that a failure leaves the store unchanged;
  - the exact new store state on success.

Three cross-operation properties follow from the contracts:
- Registration followed by login with the same username and password returns the registered user with its role (`Accounts.UserService.RegisterAsync`, via `StoredUserLogsIn`).
- Deleting a category or tag that is not in use removes only that row, even though the database would cascade (`Schema.CascadeCategoryUnused`, `Schema.CascadeTagUnused`).
- `isVerified` changes only through `Moderation.ModerationService.VerifyModuleAsync`. Every other service write states its exact new state: `UploadNewModuleAsync` stores a new module with `isVerified` false, `AddVersionToModuleAsync` rewrites the module only as `m.(lastUpdateDate := now)`, `DeleteCategoryAsync` removes no module, and the rest leave the module table as it was.

Modules: `Wrappers` (Option, Error, Result, Outcome), `Text` (blank test, ASCII `ToLower`, `Contains`), `Seqs` (the LINQ operators on sequences), `Entities`, `Schema`, `Repositories`, `Accounts`, `Catalog`, `Moderation`.

External inputs become parameters:
- The clock (`DateTime.UtcNow`) is a `now` parameter.
- The password hash is the function-valued field `UserService.hashPassword`.
- The name comparison of `GetModuleByNameAsync` is the field `Store.moduleNameMatches`, assumed reflexive. `ModuleRepository` does not implement that method.

## Model

| member | source | states |
|---|---|---|
| Entities.SeedRoles | Magisk_DB/Program.cs:363-367 | the seed data is exactly EndUser 1, Developer 2, Moderator 3 |
| Entities.NewModule | Magisk_DB/Program.cs:116-118 | a new module is not verified and is created and last updated at `now`, with the given name, description, author and category |
| Schema.PrimaryKeys | Magisk_DB/Program.cs:349-350 | every table's key is unique; identity keys are positive and below the next value to hand out; ModuleTag's key is the (module, tag) pair |
| Schema.UniqueIndexes | Magisk_DB/Program.cs:269-296 | the unique indexes on role name, username, email, category name and (lines 344-346) tag name, compared exactly |
| Schema.ForeignKeys | Magisk_DB/Program.cs:282-360 | every foreign key (user role, module author and category, version module, review module and user, report version and user, both link ends) names an existing row |
| Schema.Constrained | Magisk_DB/Program.cs:269-360 | what the database enforces: primary keys, unique indexes and foreign keys together |
| Schema.CatalogInvariants | Magisk_DB/Services/Classes/ModerationService.cs:54-57 | what the services keep on top: category and tag names unique ignoring case, a version for every module, ratings within 1..5 |
| Schema.SeededDb | Magisk_DB/Program.cs:363-367 | a fresh database holds the seeded roles and no other rows |
| Schema.SeededDbValid | Magisk_DB/Program.cs:262-368 | the fresh database satisfies every key, index, foreign key and business invariant |
| Schema.InsertUserKeeps | Magisk_DB/Program.cs:273-285 | inserting a user with a fresh id, unused username and email and an existing role keeps all constraints and invariants |
| Schema.InsertCategoryKeeps | Magisk_DB/Program.cs:293-296 | inserting a category keeps the exact unique index; it keeps the ignore-case uniqueness when no category matches ignoring case |
| Schema.ReplaceCategoryKeeps | Magisk_DB/Program.cs:293-296 | overwriting a stored category keeps every constraint when no other category holds the name; it keeps the invariants when none holds it ignoring case |
| Schema.InsertTagKeeps | Magisk_DB/Program.cs:343-346 | the same as for categories, for tags |
| Schema.ReplaceTagKeeps | Magisk_DB/Program.cs:343-346 | the same as for categories, for tags |
| Schema.InsertModuleGraphKeeps | Magisk_DB/Program.cs:298-315 | inserting a module with its numbered versions, author and category present, keeps all constraints; with at least one version it keeps the one-version invariant |
| Schema.StoredModuleReferences | Magisk_DB/Program.cs:298-309 | a stored module's author and category exist |
| Schema.ReplaceModuleKeeps | Magisk_DB/Program.cs:298-315 | overwriting a stored module with existing author and category keeps all constraints and invariants |
| Schema.InsertVersionKeeps | Magisk_DB/Program.cs:311-315 | appending a version of an existing module keeps all constraints and invariants |
| Schema.InsertReviewKeeps | Magisk_DB/Program.cs:317-328 | appending a review of an existing module by an existing user keeps the constraints; with a rating in 1..5 it keeps the invariants |
| Schema.InsertReportKeeps | Magisk_DB/Program.cs:330-341 | appending a report for an existing version by an existing user keeps all constraints and invariants |
| Schema.InsertLinkKeeps | Magisk_DB/Program.cs:348-360 | adding an absent (module, tag) pair whose ends exist keeps the composite key and both foreign keys |
| Schema.RemoveLinkKeeps | Magisk_DB/Program.cs:348-360 | removing a (module, tag) pair keeps all constraints and invariants |
| Schema.DeleteUser | Magisk_DB/Program.cs:298-341 | deleting a user who authored a module is refused (Restrict); otherwise the users, reviews and reports kept are exactly those not belonging to that user (ClientCascade, with all of them tracked), and every other table and the counters are unchanged |
| Schema.WithoutUserKeys | Magisk_DB/Program.cs:268-279 | removing a user and that user's reviews and reports keeps keys and unique indexes |
| Schema.WithoutUserReferences | Magisk_DB/Program.cs:298-341 | when no module is authored by the user, removing the user with that user's reviews and reports leaves no dangling foreign key |
| Schema.WithoutUserInvariants | Magisk_DB/Program.cs:317-341 | removing a user's reviews and reports keeps the business invariants |
| Schema.DeleteUserKeeps | Magisk_DB/Program.cs:298-341 | a successful user delete keeps all constraints and invariants |
| Schema.CascadeCategory | Magisk_DB/Program.cs:305-360 | deleting a category keeps exactly the categories with another id, the modules of other categories, and the versions, reviews and links of the remaining modules and the reports on the remaining versions (ON DELETE CASCADE); roles, users, tags and counters are unchanged |
| Schema.CascadeTag | Magisk_DB/Program.cs:343-360 | deleting a tag keeps exactly the tags with another id and the links to other tags; every other table is unchanged |
| Schema.CascadeCategoryUnused | Magisk_DB/Program.cs:305-309 | the cascading delete of a category no module references removes only the category |
| Schema.CascadeTagUnused | Magisk_DB/Program.cs:352-360 | the cascading delete of a tag no link references removes only the tag |
| Schema.CascadeCategoryKeys | Magisk_DB/Program.cs:305-309 | the cascade (modules in the category, their versions, reviews, reports and links) keeps keys and unique indexes |
| Schema.CascadeCategoryReferences | Magisk_DB/Program.cs:305-341 | the cascade leaves no dangling foreign key |
| Schema.CascadeCategoryInvariants | Magisk_DB/Program.cs:305-315 | the cascade keeps the business invariants, including a version for every remaining module |
| Schema.CascadeCategoryKeeps | Magisk_DB/Program.cs:305-309 | the category delete with cascade keeps all constraints and invariants |
| Schema.CascadeTagKeeps | Magisk_DB/Program.cs:352-360 | the tag delete with cascade of its links keeps all constraints and invariants |
| Repositories.Store.constructor | Magisk_DB/Program.cs:363-367 | a new store holds the seeded roles and is valid |
| Repositories.Store.GetRoleById | Magisk_DB/DataAcess/RoleRepository.cs:17-21 | some role iff one has that id, and the result has it |
| Repositories.Store.GetRoleByName | Magisk_DB/DataAcess/RoleRepository.cs:22-26 | some role iff one has exactly that name, and the result has it |
| Repositories.Store.GetAllRoles | Magisk_DB/DataAcess/RoleRepository.cs:27-31 | every stored role, in order |
| Repositories.Store.GetUserById | Magisk_DB/DataAcess/UserRepository.cs:18-22 | some user iff one has that id; in a constrained store its role is loaded and is the row with the user's role id |
| Repositories.Store.GetUserByUsername | Magisk_DB/DataAcess/UserRepository.cs:23-27 | some user iff one has exactly that username (case-sensitive) |
| Repositories.Store.GetUserByUsernameWithRole | Magisk_DB/DataAcess/UserRepository.cs:28-32 | the same user as `GetUserByUsername`, with its role loaded |
| Repositories.Store.GetUserByEmail | Magisk_DB/DataAcess/UserRepository.cs:33-37 | some user iff one has exactly that email |
| Repositories.Store.AddUser | Magisk_DB/DataAcess/UserRepository.cs:38-47 | fails with DataAccess, changing nothing, iff the username or email is taken or the role is missing; otherwise appends exactly one user under the next id |
| Repositories.Store.GetCategoryById | Magisk_DB/DataAcess/ModuleCategoryRepository.cs:23-27 | some category iff one has that id |
| Repositories.Store.GetCategoryByName | Magisk_DB/DataAcess/ModuleCategoryRepository.cs:28-32 | some category iff one has the name ignoring case |
| Repositories.Store.GetAllCategories | Magisk_DB/DataAcess/ModuleCategoryRepository.cs:33-37 | every stored category, in order |
| Repositories.Store.IsCategoryInUse | Magisk_DB/DataAcess/ModuleCategoryRepository.cs:71-75 | true iff some module has that category; when false the cascade removes only the category |
| Repositories.Store.AddCategory | Magisk_DB/DataAcess/ModuleCategoryRepository.cs:38-47 | fails with DataAccess iff the exact name exists; otherwise appends exactly one category under the next id |
| Repositories.Store.UpdateCategory | Magisk_DB/DataAcess/ModuleCategoryRepository.cs:48-57 | fails iff the id is missing or another category holds the exact name; otherwise overwrites only that row |
| Repositories.Store.DeleteCategory | Magisk_DB/DataAcess/ModuleCategoryRepository.cs:58-70 | false and no change iff the id is absent; otherwise the cascading delete |
| Repositories.Store.GetTagById | Magisk_DB/DataAcess/TagRepository.cs:17-21 | some tag iff one has that id |
| Repositories.Store.GetTagByName | Magisk_DB/DataAcess/TagRepository.cs:22-26 | some tag iff one has the name ignoring case |
| Repositories.Store.GetAllTags | Magisk_DB/DataAcess/TagRepository.cs:27-31 | every stored tag, in order |
| Repositories.Store.IsTagInUse | Magisk_DB/DataAcess/TagRepository.cs:65-69 | true iff some link has that tag; when false the cascade removes only the tag |
| Repositories.Store.AddTag | Magisk_DB/DataAcess/TagRepository.cs:32-41 | fails iff the exact name exists; otherwise appends exactly one tag under the next id |
| Repositories.Store.UpdateTag | Magisk_DB/DataAcess/TagRepository.cs:42-51 | fails iff the id is missing or another tag holds the exact name; otherwise overwrites only that row |
| Repositories.Store.DeleteTag | Magisk_DB/DataAcess/TagRepository.cs:52-64 | false and no change iff the id is absent; otherwise the tag and its links are removed |
| Repositories.Store.GetModuleById | Magisk_DB/DataAcess/ModuleRepository.cs:17-21 | some module iff one has that id |
| Repositories.Store.LinkedTags | Magisk_DB/DataAcess/ModuleRepository.cs:23-34 | exactly the stored tags linked to the module |
| Repositories.Store.GetModuleByIdWithDetails | Magisk_DB/DataAcess/ModuleRepository.cs:23-34 | the module with its author, category, exactly its versions and exactly its tags |
| Repositories.Store.GetAllModulesWithAuthorAndCategory | Magisk_DB/DataAcess/ModuleRepository.cs:36-44 | every stored module, in order |
| Repositories.Store.SearchModulesByName | Magisk_DB/DataAcess/ModuleRepository.cs:46-55 | exactly the modules whose lower-cased name contains the lower-cased term |
| Repositories.Store.GetModulesByAuthor | Magisk_DB/DataAcess/ModuleRepository.cs:57-66 | exactly the modules with that author |
| Repositories.Store.GetUnverifiedModules | Magisk_DB/DataAcess/ModuleRepository.cs:68-76 | exactly the modules not verified |
| Repositories.Store.GetModuleByNameAsync | Magisk_DB/Services/Classes/ModuleService.cs:216 | some module iff a stored name matches |
| Repositories.Store.AddModuleAsync | Magisk_DB/Services/Classes/ModuleService.cs:250 | the module and all its versions are stored together or not at all; fails iff author or category is missing |
| Repositories.AttachVersion | Magisk_DB/DataAcess/ModuleRepository.cs:82-84 | the first version is present afterwards; the list is unchanged if it was already there, otherwise it gains it once |
| Repositories.Store.AddModuleWithFirstVersion | Magisk_DB/DataAcess/ModuleRepository.cs:78-95 | attaches the first version, then stores module and versions in one write; a successful write keeps the invariants |
| Repositories.Store.UpdateModule | Magisk_DB/DataAcess/ModuleRepository.cs:97-118 | fails iff the module, author or category is missing; otherwise overwrites only the row with that id |
| Repositories.Store.AddTagToModule | Magisk_DB/DataAcess/ModuleRepository.cs:120-134 | an existing pair is a no-op; otherwise the pair is added, or the write fails when an end is missing |
| Repositories.Store.RemoveTagFromModule | Magisk_DB/DataAcess/ModuleRepository.cs:136-149 | no change when the pair is absent; otherwise only that pair is removed |
| Repositories.Store.GetVersionById | Magisk_DB/DataAcess/ModuleVersionRepository.cs:17-21 | some version iff one has that id |
| Repositories.Store.AddVersion | Magisk_DB/DataAcess/ModuleVersionRepository.cs:22-31 | fails iff the module is missing; otherwise appends exactly the given version under the next id |
| Repositories.Store.GetReviewById | Magisk_DB/DataAcess/ReviewRepository.cs:17-21 | some review iff one has that id |
| Repositories.Store.GetReviewsForModule | Magisk_DB/DataAcess/ReviewRepository.cs:22-30 | exactly the reviews of that module |
| Repositories.Store.AddReview | Magisk_DB/DataAcess/ReviewRepository.cs:31-40 | fails iff module or user is missing; otherwise appends exactly one review; a rating in 1..5 keeps the invariants |
| Repositories.Store.GetReportById | Magisk_DB/DataAcess/CompatibilityReportRepository.cs:17-21 | some report iff one has that id |
| Repositories.Store.GetReportsForModuleVersion | Magisk_DB/DataAcess/CompatibilityReportRepository.cs:22-30 | exactly the reports for that version |
| Repositories.Store.AddReport | Magisk_DB/DataAcess/CompatibilityReportRepository.cs:31-40 | fails iff version or user is missing; otherwise appends exactly one report |
| Accounts.ChooseRole | Magisk_DB/Services/Classes/UserService.cs:47-54 | the requested role if present, else EndUser, else the first role; none iff there are no roles |
| Accounts.ChooseSeededRole | Magisk_DB/Services/Classes/UserService.cs:47-54 | on the seeded roles a known name gets that role and any other name EndUser |
| Accounts.UserService.LoginAsync | Magisk_DB/Services/Classes/UserService.cs:77-88 | blank input is BusinessRule; success iff the user exists and the hash matches, otherwise the same NotFound; the user comes with its own role |
| Accounts.UserService.StoredUserLogsIn | Magisk_DB/Services/Classes/UserService.cs:82-87 | every stored user logs in with a password of matching hash and gets its own role |
| Accounts.UserService.RegisterAsync | Magisk_DB/Services/Classes/UserService.cs:36-75 | success iff the inputs are not blank, the username and email are free and a role exists; otherwise BusinessRule with no change; stores exactly one user with the hash and the chosen role; login afterwards returns that user |
| Catalog.ModuleService.SearchModulesByNameAsync | Magisk_DB/Services/Classes/ModuleService.cs:58-73 | a blank term finds nothing; otherwise exactly the modules whose name contains it ignoring case |
| Catalog.ModuleService.GetModuleByIdAsync | Magisk_DB/Services/Classes/ModuleService.cs:75-91 | NotFound iff no module has the id; otherwise that module with its author, its category, exactly the stored versions of that module and exactly its linked tags |
| Catalog.ModuleService.AddReviewAsync | Magisk_DB/Services/Classes/ModuleService.cs:93-134 | a rating outside 1..5 is BusinessRule, then a missing module, then a missing user, is NotFound; success appends exactly one unedited review |
| Catalog.ModuleService.AddCompatibilityReportAsync | Magisk_DB/Services/Classes/ModuleService.cs:136-173 | blank device, Android version or status is BusinessRule; a missing version or user is NotFound; success appends exactly one report |
| Catalog.ModuleService.UploadNewModuleAsync | Magisk_DB/Services/Classes/ModuleService.cs:175-264 | blank fields, a missing author, a non-Developer, a missing category and a taken name fail in that order; success stores one unverified module with exactly one version |
| Catalog.ModuleService.AddVersionToModuleAsync | Magisk_DB/Services/Classes/ModuleService.cs:266-318 | blank fields are BusinessRule, a missing module NotFound, a caller who is not the author BusinessRule with no change; success appends one version and refreshes only the module's last update date |
| Catalog.ModuleService.GetModulesByAuthorAsync | Magisk_DB/Services/Classes/ModuleService.cs:320-338 | NotFound iff the user is missing; otherwise exactly that user's modules |
| Moderation.Normalised | Magisk_DB/Services/Classes/ModerationService.cs:60 | a blank description becomes null; any other is kept |
| Moderation.EditedCategory | Magisk_DB/Services/Classes/ModerationService.cs:75-107 | the name changes only to a non-blank name that differs beyond case; the description changes only when the normalised one differs, null read as empty |
| Moderation.EditedCategoryChanges | Magisk_DB/Services/Classes/ModerationService.cs:86-108 | the edit changes the row iff it renames or the description differs |
| Moderation.OwnNameFree | Magisk_DB/Services/Classes/ModerationService.cs:86-90 | in a valid store no other category holds a category's name ignoring case |
| Moderation.OwnTagNameFree | Magisk_DB/Services/Classes/ModerationService.cs:206-210 | in a valid store no other tag holds a tag's name ignoring case |
| Moderation.SameIdSameCategory | Magisk_DB/Services/Classes/ModerationService.cs:86-90 | a stored category found with the id of another stored category is that category |
| Moderation.SameIdSameTag | Magisk_DB/Services/Classes/ModerationService.cs:206-210 | the same as above, for tags |
| Moderation.ModerationService.AddCategoryAsync | Magisk_DB/Services/Classes/ModerationService.cs:43-69 | blank name or name present ignoring case is BusinessRule with no change; otherwise exactly one category with the normalised description |
| Moderation.ModerationService.UpdateCategoryAsync | Magisk_DB/Services/Classes/ModerationService.cs:71-115 | NotFound for a missing id; BusinessRule with no change iff it renames to a name present ignoring case; otherwise the edited category, written only if it changed |
| Moderation.ModerationService.DeleteCategoryAsync | Magisk_DB/Services/Classes/ModerationService.cs:117-145 | NotFound iff absent; BusinessRule iff in use; otherwise only the category row is removed |
| Moderation.ModerationService.AddTagAsync | Magisk_DB/Services/Classes/ModerationService.cs:162-184 | blank or present ignoring case is BusinessRule with no change; otherwise exactly one tag |
| Moderation.ModerationService.UpdateTagAsync | Magisk_DB/Services/Classes/ModerationService.cs:186-220 | blank is BusinessRule before lookup; missing is NotFound; a name equal ignoring case returns the tag with no write; a name taken by another tag is BusinessRule; otherwise only the tag is renamed |
| Moderation.ModerationService.DeleteTagAsync | Magisk_DB/Services/Classes/ModerationService.cs:222-247 | NotFound iff absent; BusinessRule iff linked to a module; otherwise only the tag row is removed |
| Moderation.ModerationService.AssignTagsToModuleAsync | Magisk_DB/Services/Classes/ModerationService.cs:249-294 | NotFound iff the module or some listed tag is missing; the store is never written |
| Moderation.ModerationService.GetUnverifiedModulesAsync | Magisk_DB/Services/Classes/ModerationService.cs:299-310 | exactly the modules not verified |
| Moderation.ModerationService.VerifyModuleAsync | Magisk_DB/Services/Classes/ModerationService.cs:312-343 | NotFound for a missing id; the same status returns the module without a write; otherwise only its flag and last update date change |

## Left out

- Console menus and handlers (`Program.cs` from line 371): interactive I/O. Their role checks and confirmation prompts belong to the user interface, not to the services.
- Password hashing (SHA-256 as hex) is the abstract function `hashPassword`. Only its determinism matters to login.
- `async`/`Task`: there is no concurrency. Each operation is one atomic step of the state machine.
- Clocks: `DateTime.UtcNow` is the parameter `now`. The two `UtcNow` reads in `AddVersionToModuleAsync` are one value, and so are the three in `UploadNewModuleAsync` (the module's creation and last-update dates and the first version's upload date).
- EF Core mechanics (context factory, change tracking, `Local` reattachment, `AsNoTracking`, `Include`): navigation properties are joins by id.
- Store-side ids are abstracted as a gap-free counter: the store ignores the caller's id and hands out the next value. EF inserts a caller-set non-zero key as given, and a PostgreSQL identity sequence also advances on a failed insert. The services always pass 0 and cannot reach a failed insert from a valid store.
- `Text.ToLower`, `Text.EqualsIgnoreCase`: ASCII case folding only. .NET's culture-sensitive `ToLower` and `OrdinalIgnoreCase` also fold other letters.
- Null strings are not modelled. Every string parameter is a value, and `IsNullOrWhiteSpace` is `IsBlank`.
- `[StringLength(n)]` limits are not modelled. The database enforces them: `EnsureCreated` makes each such column `character varying(n)`, so a longer string makes the insert or update fail, the repository reports that as `DataAccess` and the service as `BusinessRule`. The model stores strings of any length. `Repositories.Store.AddUser`, `AddCategory`, `UpdateCategory`, `AddTag`, `UpdateTag`, `AddModuleAsync`, `UpdateModule`, `AddVersion`, `AddReview` and `AddReport`, and the service operations that call them, state their "fails iff" conditions only for strings within the column limits.
- The `FileSizeMB` decimal (always null here) and the `DeveloperProfile` entity are not used by the services and are not modelled.
- `Accounts.UserService.RegisterAsync`: the C# default `roleName = "EndUser"` is not modelled; the caller always passes the name.
- `Catalog.ModuleService.UploadNewModuleAsync`: the "role not loaded" branch is not a separate case. In a constrained store every user's role exists, so that branch cannot be taken.
- `Moderation.ModerationService.AssignTagsToModuleAsync` does not model `Distinct()` on the tag ids. The checks treat a repeated id like a single one, and the reconciliation that would write links is commented out in the source.
- The `catch (DataAccessException)` branches of the services are reachable in the source through an overlong string (see the `[StringLength(n)]` line). In the model, where strings have no length limit, the checks that precede a write already exclude every other store failure, so these branches cannot be reached from a valid store. The model keeps them as `BusinessRule` returns.
- `GetAllModulesAsync`, `GetAllCategoriesAsync` and `GetAllTagsAsync` forward to the repository. They are the store functions `GetAllModulesWithAuthorAndCategory`, `GetAllCategories` and `GetAllTags`.
- Deleting a user: `UserRepository` has no delete method, so the Restrict/ClientCascade rules exist only as `Schema.DeleteUser` and its lemmas.
- `Schema.DeleteUser` assumes every review and report of the user is tracked by the context. `ClientCascade` deletes only tracked rows, and `EnsureCreated` gives those two foreign keys NO ACTION in the database, so with an untracked review or report the database alone would refuse the delete with a foreign-key violation.
- `Repositories.Store.GetModuleByNameAsync`: the name comparison is the abstract `moduleNameMatches`, required only to be reflexive, because the repository does not implement the method.
- `Repositories.AttachVersion`: rows are values, so the source's `List.Contains`, which compares `ModuleVersion` objects by reference, becomes value equality. Two distinct but equal version objects count as one in the model. `Repositories.Store.AddModuleWithFirstVersion` inherits this.
- `Repositories.Store.UpdateCategory`, `Repositories.Store.UpdateTag`, `Repositories.Store.UpdateModule`: EF Core's `Update` on an entity whose key is 0 inserts a new row instead. The model refuses every update whose id matches no row with `DataAccess`. The services only update rows they have just loaded, so they never reach that case.
- The repository and service interfaces and the exception classes have no behaviour. They appear only as signatures and as the `Error` datatype.
