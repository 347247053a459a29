/**
 * The database context and the repositories over it: one store whose fields
 * are the tables, with the lookups as functions and the writes as methods.
 * A write the database would reject (a duplicate in a unique index, a foreign
 * key to a missing row, an update of a missing row) fails with `DataAccess`
 * and changes nothing.
 */
module Repositories {
  import opened Wrappers
  import opened Text
  import opened Seqs
  import opened Entities
  import opened Schema

  class Store {
    var roles: seq<Role>
    var users: seq<User>
    var categories: seq<ModuleCategory>
    var modules: seq<Module>
    var versions: seq<ModuleVersion>
    var reviews: seq<Review>
    var reports: seq<CompatibilityReport>
    var tags: seq<Tag>
    var moduleTags: seq<ModuleTag>
    /** The identity columns' next values. */
    var next: Identities

    /** How `GetModuleByNameAsync` compares a stored name with the one asked for. */
    const moduleNameMatches: (string, string) -> bool

    /** The tables as one value. */
    function State(): Db
      reads this
    {
      Db(roles, users, categories, modules, versions, reviews, reports, tags, moduleTags,
         next)
    }

    /** What the database enforces. */
    ghost predicate Constrained()
      reads this
    {
      Schema.Constrained(State())
    }

    /** What the database enforces, the business invariants, and a name that matches itself. */
    ghost predicate Valid()
      reads this
    {
      && Schema.Valid(State())
      && forall s :: moduleNameMatches(s, s)
    }

    /** Writes back the tables a cascading delete changes; the rest are already as in `d`. */
    method SaveCascade(d: Db)
      requires d.roles == roles && d.users == users && d.tags == tags && d.next == next
      modifies this
      ensures State() == d
    {
      categories, modules, versions := d.categories, d.modules, d.versions;
      reviews, reports, moduleTags := d.reviews, d.reports, d.moduleTags;
    }

    /** A freshly created database holds the seeded roles only. */
    constructor(nameMatches: (string, string) -> bool)
      requires forall s :: nameMatches(s, s)
      ensures Valid()
      ensures State() == SeededDb()
      ensures moduleNameMatches == nameMatches
    {
      roles, users, categories, modules, versions := SeedRoles(), [], [], [], [];
      reviews, reports, tags, moduleTags := [], [], [], [];
      next := Identities(1, 1, 1, 1, 1, 1, 1);
      moduleNameMatches := nameMatches;
      SeededDbValid();
    }

    // -------------------------------------------------------------------------
    // RoleRepository
    // -------------------------------------------------------------------------

    function GetRoleById(id: int): (r: Option<Role>)
      reads this
      ensures r.Some? <==> exists i | 0 <= i < |roles| :: roles[i].id == id
      ensures r.Some? ==> r.value in roles && r.value.id == id
    {
      FirstWhere(roles, (x: Role) => x.id == id)
    }

    /** Exact, case-sensitive comparison. */
    function GetRoleByName(name: string): (r: Option<Role>)
      reads this
      ensures r.Some? <==> exists i | 0 <= i < |roles| :: roles[i].name == name
      ensures r.Some? ==> r.value in roles && r.value.name == name
    {
      FirstWhere(roles, (x: Role) => x.name == name)
    }

    function GetAllRoles(): (r: seq<Role>)
      reads this
      ensures r == roles
    {
      roles
    }

    // -------------------------------------------------------------------------
    // UserRepository
    // -------------------------------------------------------------------------

    /** The user with its role loaded; in a constrained store the role is always there. */
    function GetUserById(id: int): (r: Option<LoadedUser>)
      reads this
      ensures r.Some? <==> exists i | 0 <= i < |users| :: users[i].id == id
      ensures r.Some? ==> r.value.user in users && r.value.user.id == id
      ensures r.Some? && Constrained() ==> r.value.role.Some? && r.value.role.value in roles
                                           && r.value.role.value.id == r.value.user.roleId
    {
      match FirstWhere(users, (x: User) => x.id == id)
      case None => None
      case Some(u) => Some(LoadedUser(u, GetRoleById(u.roleId)))
    }

    /** Exact, case-sensitive comparison. */
    function GetUserByUsername(username: string): (r: Option<User>)
      reads this
      ensures r.Some? <==> exists i | 0 <= i < |users| :: users[i].username == username
      ensures r.Some? ==> r.value in users && r.value.username == username
    {
      FirstWhere(users, (x: User) => x.username == username)
    }

    /** The same user as `GetUserByUsername`, with its role loaded. */
    function GetUserByUsernameWithRole(username: string): (r: Option<LoadedUser>)
      reads this
      ensures r.Some? <==> GetUserByUsername(username).Some?
      ensures r.Some? ==> r.value.user == GetUserByUsername(username).value
      ensures r.Some? && Constrained() ==> r.value.role.Some? && r.value.role.value in roles
                                           && r.value.role.value.id == r.value.user.roleId
    {
      match FirstWhere(users, (x: User) => x.username == username)
      case None => None
      case Some(u) => Some(LoadedUser(u, GetRoleById(u.roleId)))
    }

    /** Exact, case-sensitive comparison. */
    function GetUserByEmail(email: string): (r: Option<User>)
      reads this
      ensures r.Some? <==> exists i | 0 <= i < |users| :: users[i].email == email
      ensures r.Some? ==> r.value in users && r.value.email == email
    {
      FirstWhere(users, (x: User) => x.email == email)
    }

    /** Inserts one user under the next identity value; duplicates and a missing role are refused. */
    method AddUser(u: User) returns (r: Result<User>)
      requires Constrained()
      modifies this
      ensures Constrained()
      ensures r.Failure? <==> || old(GetUserByUsername(u.username)).Some?
                              || old(GetUserByEmail(u.email)).Some?
                              || old(GetRoleById(u.roleId)).None?
      ensures r.Failure? ==> r.error == DataAccess && State() == old(State())
      ensures r.Success? ==> r.value == u.(id := old(next.userId))
      ensures r.Success? ==> State() == old(State()).(users := old(users) + [r.value], next := old(next).(userId := old(next.userId) + 1))
      ensures old(Valid()) ==> Valid()
    {
      if GetUserByUsername(u.username).Some? || GetUserByEmail(u.email).Some? || GetRoleById(u.roleId).None?
      {
        return Failure(DataAccess);
      }
      var d := State();
      var row := u.(id := next.userId);
      InsertUserKeeps(d, row);
      var e := d.(users := d.users + [row], next := d.next.(userId := d.next.userId + 1));
      users, next := e.users, e.next;
      r := Success(row);
    }

    // -------------------------------------------------------------------------
    // ModuleCategoryRepository
    // -------------------------------------------------------------------------

    function GetCategoryById(id: int): (r: Option<ModuleCategory>)
      reads this
      ensures r.Some? <==> exists i | 0 <= i < |categories| :: categories[i].id == id
      ensures r.Some? ==> r.value in categories && r.value.id == id
    {
      FirstWhere(categories, (x: ModuleCategory) => x.id == id)
    }

    /** Case-insensitive comparison: both sides lowercased. */
    function GetCategoryByName(name: string): (r: Option<ModuleCategory>)
      reads this
      ensures r.Some? <==> exists i | 0 <= i < |categories| :: EqualsIgnoreCase(categories[i].name, name)
      ensures r.Some? ==> r.value in categories && EqualsIgnoreCase(r.value.name, name)
    {
      FirstWhere(categories, (x: ModuleCategory) => ToLower(x.name) == ToLower(name))
    }

    function GetAllCategories(): (r: seq<ModuleCategory>)
      reads this
      ensures r == categories
    {
      categories
    }

    /** Some module refers to the category; if none does, deleting it removes nothing else. */
    function IsCategoryInUse(id: int): (r: bool)
      reads this
      ensures r <==> exists i | 0 <= i < |modules| :: modules[i].categoryId == id
      ensures !r ==> CascadeCategory(State(), id) == State().(categories := RemoveCategory(categories, id))
    {
      var inUse := exists i | 0 <= i < |modules| :: modules[i].categoryId == id;
      assert !inUse ==> CascadeCategory(State(), id) == State().(categories := RemoveCategory(categories, id)) by {
        if !inUse {
          CascadeCategoryUnused(State(), id);
        }
      }
      inUse
    }

    /** Inserts one category; an exact duplicate name is refused by the unique index. */
    method AddCategory(c: ModuleCategory) returns (r: Result<ModuleCategory>)
      requires Constrained()
      modifies this
      ensures Constrained()
      ensures r.Failure? <==> exists i | 0 <= i < |old(categories)| :: old(categories)[i].name == c.name
      ensures r.Failure? ==> r.error == DataAccess && State() == old(State())
      ensures r.Success? ==> r.value == c.(id := old(next.categoryId))
      ensures r.Success? ==> State() == old(State()).(categories := old(categories) + [r.value],
                                                     next := old(next).(categoryId := old(next.categoryId) + 1))
      ensures old(Valid()) && old(GetCategoryByName(c.name)).None? ==> Valid()
    {
      if exists i | 0 <= i < |categories| :: categories[i].name == c.name {
        return Failure(DataAccess);
      }
      var d := State();
      var row := c.(id := next.categoryId);
      InsertCategoryKeeps(d, row);
      var e := d.(categories := d.categories + [row], next := d.next.(categoryId := d.next.categoryId + 1));
      categories, next := e.categories, e.next;
      r := Success(row);
    }

    /** Overwrites the category with the same id; a missing row or an exact duplicate name is refused. */
    method UpdateCategory(c: ModuleCategory) returns (r: Outcome)
      requires Constrained()
      modifies this
      ensures Constrained()
      ensures r.Fail? <==> || old(GetCategoryById(c.id)).None?
                           || exists j | 0 <= j < |old(categories)| :: old(categories)[j].id != c.id && old(categories)[j].name == c.name
      ensures r.Fail? ==> r.error == DataAccess && State() == old(State())
      ensures r.Done? ==> State() == old(State()).(categories := ReplaceCategory(old(categories), c))
      ensures old(Valid()) && (forall j | 0 <= j < |old(categories)| ::
                                 old(categories)[j].id != c.id ==> !EqualsIgnoreCase(old(categories)[j].name, c.name))
              ==> Valid()
    {
      if || GetCategoryById(c.id).None?
         || exists j | 0 <= j < |categories| :: categories[j].id != c.id && categories[j].name == c.name
      {
        return Fail(DataAccess);
      }
      var d := State();
      ReplaceCategoryKeeps(d, c);
      var e := d.(categories := ReplaceCategory(d.categories, c));
      categories := e.categories;
      r := Done;
    }

    /**
     * False, changing nothing, when the id is absent; otherwise removes the
     * category and everything its required foreign keys cascade to.
     */
    method DeleteCategory(id: int) returns (deleted: bool)
      requires Constrained()
      modifies this
      ensures Constrained()
      ensures deleted <==> old(GetCategoryById(id)).Some?
      ensures State() == if deleted then CascadeCategory(old(State()), id) else old(State())
      ensures old(Valid()) ==> Valid()
    {
      if GetCategoryById(id).None? {
        return false;
      }
      CascadeCategoryKeeps(State(), id);
      SaveCascade(CascadeCategory(State(), id));
      deleted := true;
    }

    // -------------------------------------------------------------------------
    // TagRepository
    // -------------------------------------------------------------------------

    function GetTagById(id: int): (r: Option<Tag>)
      reads this
      ensures r.Some? <==> exists i | 0 <= i < |tags| :: tags[i].id == id
      ensures r.Some? ==> r.value in tags && r.value.id == id
    {
      FirstWhere(tags, (x: Tag) => x.id == id)
    }

    /** Case-insensitive comparison: both sides lowercased. */
    function GetTagByName(name: string): (r: Option<Tag>)
      reads this
      ensures r.Some? <==> exists i | 0 <= i < |tags| :: EqualsIgnoreCase(tags[i].name, name)
      ensures r.Some? ==> r.value in tags && EqualsIgnoreCase(r.value.name, name)
    {
      FirstWhere(tags, (x: Tag) => ToLower(x.name) == ToLower(name))
    }

    function GetAllTags(): (r: seq<Tag>)
      reads this
      ensures r == tags
    {
      tags
    }

    /** Some module-tag link refers to the tag; if none does, deleting it removes nothing else. */
    function IsTagInUse(id: int): (r: bool)
      reads this
      ensures r <==> exists i | 0 <= i < |moduleTags| :: moduleTags[i].tagId == id
      ensures !r ==> CascadeTag(State(), id) == State().(tags := RemoveTag(tags, id))
    {
      var inUse := exists i | 0 <= i < |moduleTags| :: moduleTags[i].tagId == id;
      assert !inUse ==> CascadeTag(State(), id) == State().(tags := RemoveTag(tags, id)) by {
        if !inUse {
          CascadeTagUnused(State(), id);
        }
      }
      inUse
    }

    /** Inserts one tag; an exact duplicate name is refused by the unique index. */
    method AddTag(t: Tag) returns (r: Result<Tag>)
      requires Constrained()
      modifies this
      ensures Constrained()
      ensures r.Failure? <==> exists i | 0 <= i < |old(tags)| :: old(tags)[i].name == t.name
      ensures r.Failure? ==> r.error == DataAccess && State() == old(State())
      ensures r.Success? ==> r.value == t.(id := old(next.tagId))
      ensures r.Success? ==> State() == old(State()).(tags := old(tags) + [r.value], next := old(next).(tagId := old(next.tagId) + 1))
      ensures old(Valid()) && old(GetTagByName(t.name)).None? ==> Valid()
    {
      if exists i | 0 <= i < |tags| :: tags[i].name == t.name {
        return Failure(DataAccess);
      }
      var d := State();
      var row := t.(id := next.tagId);
      InsertTagKeeps(d, row);
      var e := d.(tags := d.tags + [row], next := d.next.(tagId := d.next.tagId + 1));
      tags, next := e.tags, e.next;
      r := Success(row);
    }

    /** Overwrites the tag with the same id; a missing row or an exact duplicate name is refused. */
    method UpdateTag(t: Tag) returns (r: Outcome)
      requires Constrained()
      modifies this
      ensures Constrained()
      ensures r.Fail? <==> || old(GetTagById(t.id)).None?
                           || exists j | 0 <= j < |old(tags)| :: old(tags)[j].id != t.id && old(tags)[j].name == t.name
      ensures r.Fail? ==> r.error == DataAccess && State() == old(State())
      ensures r.Done? ==> State() == old(State()).(tags := ReplaceTag(old(tags), t))
      ensures old(Valid()) && (forall j | 0 <= j < |old(tags)| ::
                                 old(tags)[j].id != t.id ==> !EqualsIgnoreCase(old(tags)[j].name, t.name))
              ==> Valid()
    {
      if || GetTagById(t.id).None?
         || exists j | 0 <= j < |tags| :: tags[j].id != t.id && tags[j].name == t.name
      {
        return Fail(DataAccess);
      }
      var d := State();
      ReplaceTagKeeps(d, t);
      var e := d.(tags := ReplaceTag(d.tags, t));
      tags := e.tags;
      r := Done;
    }

    /** False, changing nothing, when the id is absent; otherwise removes the tag and its links. */
    method DeleteTag(id: int) returns (deleted: bool)
      requires Constrained()
      modifies this
      ensures Constrained()
      ensures deleted <==> old(GetTagById(id)).Some?
      ensures State() == if deleted then CascadeTag(old(State()), id) else old(State())
      ensures old(Valid()) ==> Valid()
    {
      if GetTagById(id).None? {
        return false;
      }
      CascadeTagKeeps(State(), id);
      var d := CascadeTag(State(), id);
      tags, moduleTags := d.tags, d.moduleTags;
      deleted := true;
    }

    // -------------------------------------------------------------------------
    // ModuleRepository
    // -------------------------------------------------------------------------

    /** Lookup by primary key, without navigation properties. */
    function GetModuleById(id: int): (r: Option<Module>)
      reads this
      ensures r.Some? <==> exists i | 0 <= i < |modules| :: modules[i].id == id
      ensures r.Some? ==> r.value in modules && r.value.id == id
    {
      FirstWhere(modules, (x: Module) => x.id == id)
    }

    /** The tags linked to module `id`, in the order of the tags table. */
    function LinkedTags(id: int): (r: seq<Tag>)
      reads this
      ensures forall i | 0 <= i < |r| :: r[i] in tags && ModuleTag(id, r[i].id) in moduleTags
      ensures forall j | 0 <= j < |tags| :: ModuleTag(id, tags[j].id) in moduleTags ==> tags[j] in r
    {
      var links := moduleTags;
      Filter(tags, (t: Tag) => ModuleTag(id, t.id) in links)
    }

    /** The module with its author, category, versions and tags loaded. */
    function GetModuleByIdWithDetails(id: int): (r: Option<ModuleDetails>)
      reads this
      ensures r.Some? <==> GetModuleById(id).Some?
      ensures r.Some? ==> r.value.root == GetModuleById(id).value
      ensures r.Some? && Constrained() ==> && r.value.author.Some? && r.value.author.value in users
                                           && r.value.author.value.id == r.value.root.authorId
                                           && r.value.category.Some? && r.value.category.value in categories
                                           && r.value.category.value.id == r.value.root.categoryId
      ensures r.Some? ==> forall i | 0 <= i < |r.value.versions| :: r.value.versions[i] in versions && r.value.versions[i].moduleId == id
      ensures r.Some? ==> forall j | 0 <= j < |versions| :: versions[j].moduleId == id ==> versions[j] in r.value.versions
      ensures r.Some? ==> r.value.tags == LinkedTags(id)
    {
      match GetModuleById(id)
      case None => None
      case Some(m) =>
        Some(ModuleDetails(m,
                           FirstWhere(users, (u: User) => u.id == m.authorId),
                           GetCategoryById(m.categoryId),
                           Filter(versions, (v: ModuleVersion) => v.moduleId == id),
                           LinkedTags(id)))
    }

    function GetAllModulesWithAuthorAndCategory(): (r: seq<Module>)
      reads this
      ensures r == modules
    {
      modules
    }

    /** Exactly the modules whose lowercased name contains the lowercased term. */
    function SearchModulesByName(term: string): (r: seq<Module>)
      reads this
      ensures forall i | 0 <= i < |r| :: r[i] in modules && Contains(ToLower(r[i].name), ToLower(term))
      ensures forall j | 0 <= j < |modules| :: Contains(ToLower(modules[j].name), ToLower(term)) ==> modules[j] in r
    {
      Filter(modules, (m: Module) => Contains(ToLower(m.name), ToLower(term)))
    }

    /** Exactly the modules that user `authorId` authored. */
    function GetModulesByAuthor(authorId: int): (r: seq<Module>)
      reads this
      ensures forall i | 0 <= i < |r| :: r[i] in modules && r[i].authorId == authorId
      ensures forall j | 0 <= j < |modules| :: modules[j].authorId == authorId ==> modules[j] in r
    {
      Filter(modules, (m: Module) => m.authorId == authorId)
    }

    /** Exactly the modules not yet verified. */
    function GetUnverifiedModules(): (r: seq<Module>)
      reads this
      ensures forall i | 0 <= i < |r| :: r[i] in modules && !r[i].isVerified
      ensures forall j | 0 <= j < |modules| :: !modules[j].isVerified ==> modules[j] in r
    {
      Filter(modules, (m: Module) => !m.isVerified)
    }

    /** A module whose name matches `name` under the store's name comparison. */
    function GetModuleByNameAsync(name: string): (r: Option<Module>)
      reads this
      ensures r.Some? <==> exists i | 0 <= i < |modules| :: moduleNameMatches(modules[i].name, name)
      ensures r.Some? ==> r.value in modules && moduleNameMatches(r.value.name, name)
    {
      var matches := moduleNameMatches;
      FirstWhere(modules, (m: Module) => matches(m.name, name))
    }

    /**
     * Inserts a module together with every version in its `Versions`
     * collection, in one save: both or neither are stored. The versions are
     * numbered in order and linked to the new module.
     */
    method AddModuleAsync(g: ModuleWithVersions) returns (r: Result<ModuleWithVersions>)
      requires Constrained()
      modifies this
      ensures Constrained()
      ensures r.Failure? <==> old(GetUserById(g.root.authorId)).None? || old(GetCategoryById(g.root.categoryId)).None?
      ensures r.Failure? ==> r.error == DataAccess && State() == old(State())
      ensures r.Success? ==> && r.value.root == g.root.(id := old(next.moduleId))
                             && r.value.versions == NumberVersions(g.versions, old(next.moduleId), old(next.versionId))
      ensures r.Success? ==> State() == old(State()).(modules := old(modules) + [r.value.root],
                                                     versions := old(versions) + r.value.versions,
                                                     next := old(next).(moduleId := old(next.moduleId) + 1,
                                                     versionId := old(next.versionId) + |g.versions|))
      ensures old(Valid()) && |g.versions| > 0 ==> Valid()
    {
      if GetUserById(g.root.authorId).None? || GetCategoryById(g.root.categoryId).None? {
        return Failure(DataAccess);
      }
      var d := State();
      var m := g.root.(id := next.moduleId);
      var vs := NumberVersions(g.versions, next.moduleId, next.versionId);
      InsertModuleGraphKeeps(d, m, vs);
      var e := d.(modules := d.modules + [m], versions := d.versions + vs,
                  next := d.next.(moduleId := d.next.moduleId + 1, versionId := d.next.versionId + |vs|));
      modules, versions, next := e.modules, e.versions, e.next;
      r := Success(ModuleWithVersions(m, vs));
    }

    /**
     * Puts `firstVersion` into the module's `Versions` collection unless it is
     * already there, then inserts the graph as `AddModuleAsync` does. The
     * collection is changed in the caller's object even when the save fails.
     */
    method AddModuleWithFirstVersion(g: ModuleWithVersions, firstVersion: ModuleVersion)
      returns (attached: ModuleWithVersions, r: Result<ModuleWithVersions>)
      requires Constrained()
      modifies this
      ensures attached == g.(versions := AttachVersion(g.versions, firstVersion))
      ensures Constrained()
      ensures r.Failure? <==> old(GetUserById(g.root.authorId)).None? || old(GetCategoryById(g.root.categoryId)).None?
      ensures r.Failure? ==> r.error == DataAccess && State() == old(State())
      ensures r.Success? ==> && r.value.root == g.root.(id := old(next.moduleId))
                             && r.value.versions == NumberVersions(attached.versions, old(next.moduleId), old(next.versionId))
      ensures r.Success? ==> State() == old(State()).(modules := old(modules) + [r.value.root],
                                                     versions := old(versions) + r.value.versions,
                                                     next := old(next).(moduleId := old(next.moduleId) + 1,
                                                     versionId := old(next.versionId) + |attached.versions|))
      ensures old(Valid()) ==> Valid()
    {
      attached := g.(versions := AttachVersion(g.versions, firstVersion));
      r := AddModuleAsync(attached);
    }

    /**
     * Overwrites the stored module with the same id and touches no other row;
     * a missing row or a foreign key to a missing author or category is refused.
     */
    method UpdateModule(m: Module) returns (r: Outcome)
      requires Constrained()
      modifies this
      ensures Constrained()
      ensures r.Fail? <==> || old(GetModuleById(m.id)).None?
                           || old(GetUserById(m.authorId)).None?
                           || old(GetCategoryById(m.categoryId)).None?
      ensures r.Fail? ==> r.error == DataAccess && State() == old(State())
      ensures r.Done? ==> State() == old(State()).(modules := ReplaceModule(old(modules), m))
      ensures old(Valid()) ==> Valid()
    {
      if || GetModuleById(m.id).None?
         || GetUserById(m.authorId).None?
         || GetCategoryById(m.categoryId).None?
      {
        return Fail(DataAccess);
      }
      var d := State();
      ReplaceModuleKeeps(d, m);
      var e := d.(modules := ReplaceModule(d.modules, m));
      modules := e.modules;
      r := Done;
    }

    /** Inserts the link only when it is absent; a link to a missing module or tag is refused. */
    method AddTagToModule(moduleId: int, tagId: int) returns (r: Outcome)
      requires Constrained()
      modifies this
      ensures Constrained()
      ensures ModuleTag(moduleId, tagId) in old(moduleTags) ==> r.Done? && State() == old(State())
      ensures r.Fail? <==> && ModuleTag(moduleId, tagId) !in old(moduleTags)
                           && (old(GetModuleById(moduleId)).None? || old(GetTagById(tagId)).None?)
      ensures r.Fail? ==> r.error == DataAccess && State() == old(State())
      ensures r.Done? && ModuleTag(moduleId, tagId) !in old(moduleTags)
              ==> State() == old(State()).(moduleTags := old(moduleTags) + [ModuleTag(moduleId, tagId)])
      ensures old(Valid()) ==> Valid()
    {
      var link := ModuleTag(moduleId, tagId);
      if link in moduleTags {
        return Done;
      }
      if GetModuleById(moduleId).None? || GetTagById(tagId).None? {
        return Fail(DataAccess);
      }
      var d := State();
      InsertLinkKeeps(d, link);
      var e := d.(moduleTags := d.moduleTags + [link]);
      moduleTags := e.moduleTags;
      r := Done;
    }

    /** Removes the link if present; without one it changes nothing. */
    method RemoveTagFromModule(moduleId: int, tagId: int)
      requires Constrained()
      modifies this
      ensures Constrained()
      ensures ModuleTag(moduleId, tagId) !in old(moduleTags) ==> State() == old(State())
      ensures State() == old(State()).(moduleTags := RemoveLink(old(moduleTags), ModuleTag(moduleId, tagId)))
      ensures forall l :: l in moduleTags <==> l in old(moduleTags) && l != ModuleTag(moduleId, tagId)
      ensures old(Valid()) ==> Valid()
    {
      var link := ModuleTag(moduleId, tagId);
      if link !in moduleTags {
        FilterAll(moduleTags, (x: ModuleTag) => x != link);
        return;
      }
      var d := State();
      RemoveLinkKeeps(d, link);
      var e := d.(moduleTags := RemoveLink(d.moduleTags, link));
      moduleTags := e.moduleTags;
    }

    // -------------------------------------------------------------------------
    // ModuleVersionRepository
    // -------------------------------------------------------------------------

    function GetVersionById(id: int): (r: Option<ModuleVersion>)
      reads this
      ensures r.Some? <==> exists i | 0 <= i < |versions| :: versions[i].id == id
      ensures r.Some? ==> r.value in versions && r.value.id == id
    {
      FirstWhere(versions, (x: ModuleVersion) => x.id == id)
    }

    /** Inserts exactly the given version under the next identity value. */
    method AddVersion(v: ModuleVersion) returns (r: Result<ModuleVersion>)
      requires Constrained()
      modifies this
      ensures Constrained()
      ensures r.Failure? <==> old(GetModuleById(v.moduleId)).None?
      ensures r.Failure? ==> r.error == DataAccess && State() == old(State())
      ensures r.Success? ==> r.value == v.(id := old(next.versionId))
      ensures r.Success? ==> State() == old(State()).(versions := old(versions) + [r.value], next := old(next).(versionId := old(next.versionId) + 1))
      ensures old(Valid()) ==> Valid()
    {
      if GetModuleById(v.moduleId).None? {
        return Failure(DataAccess);
      }
      var d := State();
      var row := v.(id := next.versionId);
      InsertVersionKeeps(d, row);
      var e := d.(versions := d.versions + [row], next := d.next.(versionId := d.next.versionId + 1));
      versions, next := e.versions, e.next;
      r := Success(row);
    }

    // -------------------------------------------------------------------------
    // ReviewRepository
    // -------------------------------------------------------------------------

    function GetReviewById(id: int): (r: Option<Review>)
      reads this
      ensures r.Some? <==> exists i | 0 <= i < |reviews| :: reviews[i].id == id
      ensures r.Some? ==> r.value in reviews && r.value.id == id
    {
      FirstWhere(reviews, (x: Review) => x.id == id)
    }

    /** Exactly the reviews of module `moduleId`. */
    function GetReviewsForModule(moduleId: int): (r: seq<Review>)
      reads this
      ensures forall i | 0 <= i < |r| :: r[i] in reviews && r[i].moduleId == moduleId
      ensures forall j | 0 <= j < |reviews| :: reviews[j].moduleId == moduleId ==> reviews[j] in r
    {
      Filter(reviews, (x: Review) => x.moduleId == moduleId)
    }

    /** Inserts exactly one review; the rating range is not a database constraint. */
    method AddReview(rv: Review) returns (r: Result<Review>)
      requires Constrained()
      modifies this
      ensures Constrained()
      ensures r.Failure? <==> old(GetModuleById(rv.moduleId)).None? || old(GetUserById(rv.userId)).None?
      ensures r.Failure? ==> r.error == DataAccess && State() == old(State())
      ensures r.Success? ==> r.value == rv.(id := old(next.reviewId))
      ensures r.Success? ==> State() == old(State()).(reviews := old(reviews) + [r.value], next := old(next).(reviewId := old(next.reviewId) + 1))
      ensures old(Valid()) && 1 <= rv.rating <= 5 ==> Valid()
    {
      if GetModuleById(rv.moduleId).None? || GetUserById(rv.userId).None? {
        return Failure(DataAccess);
      }
      var d := State();
      var row := rv.(id := next.reviewId);
      InsertReviewKeeps(d, row);
      var e := d.(reviews := d.reviews + [row], next := d.next.(reviewId := d.next.reviewId + 1));
      reviews, next := e.reviews, e.next;
      r := Success(row);
    }

    // -------------------------------------------------------------------------
    // CompatibilityReportRepository
    // -------------------------------------------------------------------------

    function GetReportById(id: int): (r: Option<CompatibilityReport>)
      reads this
      ensures r.Some? <==> exists i | 0 <= i < |reports| :: reports[i].id == id
      ensures r.Some? ==> r.value in reports && r.value.id == id
    {
      FirstWhere(reports, (x: CompatibilityReport) => x.id == id)
    }

    /** Exactly the reports on version `versionId`. */
    function GetReportsForModuleVersion(versionId: int): (r: seq<CompatibilityReport>)
      reads this
      ensures forall i | 0 <= i < |r| :: r[i] in reports && r[i].versionId == versionId
      ensures forall j | 0 <= j < |reports| :: reports[j].versionId == versionId ==> reports[j] in r
    {
      Filter(reports, (x: CompatibilityReport) => x.versionId == versionId)
    }

    /** Inserts exactly one report. */
    method AddReport(rp: CompatibilityReport) returns (r: Result<CompatibilityReport>)
      requires Constrained()
      modifies this
      ensures Constrained()
      ensures r.Failure? <==> old(GetVersionById(rp.versionId)).None? || old(GetUserById(rp.userId)).None?
      ensures r.Failure? ==> r.error == DataAccess && State() == old(State())
      ensures r.Success? ==> r.value == rp.(id := old(next.reportId))
      ensures r.Success? ==> State() == old(State()).(reports := old(reports) + [r.value], next := old(next).(reportId := old(next.reportId) + 1))
      ensures old(Valid()) ==> Valid()
    {
      if GetVersionById(rp.versionId).None? || GetUserById(rp.userId).None? {
        return Failure(DataAccess);
      }
      var d := State();
      var row := rp.(id := next.reportId);
      InsertReportKeeps(d, row);
      var e := d.(reports := d.reports + [row], next := d.next.(reportId := d.next.reportId + 1));
      reports, next := e.reports, e.next;
      r := Success(row);
    }
  }

  /** `if (!Versions.Contains(v)) Versions.Add(v)`: afterwards `v` is in the collection. */
  function AttachVersion(vs: seq<ModuleVersion>, v: ModuleVersion): (r: seq<ModuleVersion>)
    ensures v in r
    ensures multiset(r)[v] == if v in vs then multiset(vs)[v] else 1
    ensures forall x | x in vs :: x in r
    ensures |r| == if v in vs then |vs| else |vs| + 1
  {
    if v in vs then vs else vs + [v]
  }
}
