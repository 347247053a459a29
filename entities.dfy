/**
 * The catalog's entities, one row type per table. Rows are values: every
 * repository call loads a detached copy (`AsNoTracking`), the services change
 * that copy and hand it back to an update.
 */
module Entities {
  import opened Wrappers

  /** A `DateTime`; the caller supplies the current time as `now`. */
  type Timestamp = int

  /** Role: "EndUser", "Developer" or "Moderator". */
  datatype Role = Role(id: int, name: string)

  datatype User = User(
    id: int,
    username: string,
    email: string,
    passwordHash: string,
    registrationDate: Timestamp,
    roleId: int)

  /** ModuleCategory; a `null` description is `None`. */
  datatype ModuleCategory = ModuleCategory(id: int, name: string, description: Option<string>)

  datatype Module = Module(
    id: int,
    name: string,
    description: string,
    authorId: int,
    categoryId: int,
    isVerified: bool,
    creationDate: Timestamp,
    lastUpdateDate: Timestamp)

  /** ModuleVersion; `FileSizeMB` is always `null` in this core and is left out. */
  datatype ModuleVersion = ModuleVersion(
    id: int,
    moduleId: int,
    versionString: string,
    changelog: string,
    downloadLink: string,
    minMagiskVersion: string,
    uploadDate: Timestamp)

  datatype Review = Review(
    id: int,
    moduleId: int,
    userId: int,
    rating: int,
    comment: string,
    reviewDate: Timestamp,
    isEdited: bool)

  datatype CompatibilityReport = CompatibilityReport(
    id: int,
    versionId: int,
    userId: int,
    deviceModel: string,
    androidVersion: string,
    worksStatus: string,
    userNotes: string,
    reportDate: Timestamp)

  datatype Tag = Tag(id: int, name: string)

  /** The join row of the many-to-many relation between modules and tags. */
  datatype ModuleTag = ModuleTag(moduleId: int, tagId: int)

  /** A user with the `Role` navigation property loaded (`Include(u => u.Role)`). */
  datatype LoadedUser = LoadedUser(user: User, role: Option<Role>)

  /** A module with its `Versions` collection: what is inserted as one graph. */
  datatype ModuleWithVersions = ModuleWithVersions(root: Module, versions: seq<ModuleVersion>)

  /** A module with author, category, versions and tags loaded. */
  datatype ModuleDetails = ModuleDetails(
    root: Module,
    author: Option<User>,
    category: Option<ModuleCategory>,
    versions: seq<ModuleVersion>,
    tags: seq<Tag>)

  const EndUserRole := "EndUser"
  const DeveloperRole := "Developer"
  const ModeratorRole := "Moderator"

  /** The roles the database is seeded with (`HasData`). */
  function SeedRoles(): (r: seq<Role>)
    ensures |r| == 3
    ensures r[0] == Role(1, EndUserRole) && r[1] == Role(2, DeveloperRole) && r[2] == Role(3, ModeratorRole)
  {
    [Role(1, EndUserRole), Role(2, DeveloperRole), Role(3, ModeratorRole)]
  }

  /** A new module as the entity's initialisers build it: not verified, created and updated `now`. */
  function NewModule(name: string, description: string, authorId: int, categoryId: int, now: Timestamp): (m: Module)
    ensures !m.isVerified
    ensures m.name == name && m.description == description && m.authorId == authorId && m.categoryId == categoryId
    ensures m.creationDate == now && m.lastUpdateDate == now
  {
    Module(0, name, description, authorId, categoryId, false, now, now)
  }
}
