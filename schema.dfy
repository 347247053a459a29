/**
 * The relational schema: the store's tables as one value, the keys, unique
 * indexes and foreign keys the database enforces, and the invariants the
 * business layer keeps on top of them.
 */
module Schema {
  import opened Wrappers
  import opened Text
  import opened Seqs
  import opened Entities

  /** The next value each identity column hands out. */
  datatype Identities = Identities(userId: int, categoryId: int, moduleId: int, versionId: int,
                                   reviewId: int, reportId: int, tagId: int)

  /** Every table, plus the identity columns' next values. */
  datatype Db = Db(
    roles: seq<Role>,
    users: seq<User>,
    categories: seq<ModuleCategory>,
    modules: seq<Module>,
    versions: seq<ModuleVersion>,
    reviews: seq<Review>,
    reports: seq<CompatibilityReport>,
    tags: seq<Tag>,
    moduleTags: seq<ModuleTag>,
    next: Identities)

  /** A freshly created database: the seeded roles and nothing else. */
  function SeededDb(): (d: Db)
    ensures d.roles == SeedRoles()
    ensures d.users == [] && d.categories == [] && d.modules == [] && d.versions == []
    ensures d.reviews == [] && d.reports == [] && d.tags == [] && d.moduleTags == []
  {
    Db(SeedRoles(), [], [], [], [], [], [], [], [], Identities(1, 1, 1, 1, 1, 1, 1))
  }

  // ---------------------------------------------------------------------------
  // What the database enforces
  // ---------------------------------------------------------------------------

  /** An identity primary key: distinct, positive, below the next value to hand out. */
  ghost predicate IdentityKeys<T>(s: seq<T>, id: T -> int, next: int) {
    && next >= 1
    && UniqueBy(s, id)
    && forall i | 0 <= i < |s| :: 1 <= id(s[i]) < next
  }

  /** `[Key]` on every entity, and the composite key (ModuleID, TagID) of ModuleTag. */
  ghost predicate PrimaryKeys(d: Db) {
    && UniqueBy(d.roles, (r: Role) => r.id)
    && (forall i | 0 <= i < |d.roles| :: d.roles[i].id >= 1)
    && IdentityKeys(d.users, (u: User) => u.id, d.next.userId)
    && IdentityKeys(d.categories, (c: ModuleCategory) => c.id, d.next.categoryId)
    && IdentityKeys(d.modules, (m: Module) => m.id, d.next.moduleId)
    && IdentityKeys(d.versions, (v: ModuleVersion) => v.id, d.next.versionId)
    && IdentityKeys(d.reviews, (r: Review) => r.id, d.next.reviewId)
    && IdentityKeys(d.reports, (r: CompatibilityReport) => r.id, d.next.reportId)
    && IdentityKeys(d.tags, (t: Tag) => t.id, d.next.tagId)
    && UniqueBy(d.moduleTags, (l: ModuleTag) => l)
  }

  /** The unique indexes on RoleName, Username, Email, CategoryName and TagName (exact comparison). */
  ghost predicate UniqueIndexes(d: Db) {
    && UniqueBy(d.roles, (r: Role) => r.name)
    && UniqueBy(d.users, (u: User) => u.username)
    && UniqueBy(d.users, (u: User) => u.email)
    && UniqueBy(d.categories, (c: ModuleCategory) => c.name)
    && UniqueBy(d.tags, (t: Tag) => t.name)
  }

  /** Every foreign key names an existing row. */
  ghost predicate ForeignKeys(d: Db) {
    && References(d.users, (u: User) => u.roleId, d.roles, (r: Role) => r.id)
    && References(d.modules, (m: Module) => m.authorId, d.users, (u: User) => u.id)
    && References(d.modules, (m: Module) => m.categoryId, d.categories, (c: ModuleCategory) => c.id)
    && References(d.versions, (v: ModuleVersion) => v.moduleId, d.modules, (m: Module) => m.id)
    && References(d.reviews, (r: Review) => r.moduleId, d.modules, (m: Module) => m.id)
    && References(d.reviews, (r: Review) => r.userId, d.users, (u: User) => u.id)
    && References(d.reports, (r: CompatibilityReport) => r.versionId, d.versions, (v: ModuleVersion) => v.id)
    && References(d.reports, (r: CompatibilityReport) => r.userId, d.users, (u: User) => u.id)
    && References(d.moduleTags, (l: ModuleTag) => l.moduleId, d.modules, (m: Module) => m.id)
    && References(d.moduleTags, (l: ModuleTag) => l.tagId, d.tags, (t: Tag) => t.id)
  }

  /** Everything the database itself guarantees about its contents. */
  ghost predicate Constrained(d: Db) {
    PrimaryKeys(d) && UniqueIndexes(d) && ForeignKeys(d)
  }

  // ---------------------------------------------------------------------------
  // What the business layer keeps on top
  // ---------------------------------------------------------------------------

  /**
   * Category and tag names are unique ignoring case, every module has at least
   * one version, and every rating is within 1..5.
   */
  ghost predicate CatalogInvariants(d: Db) {
    && UniqueBy(d.categories, (c: ModuleCategory) => ToLower(c.name))
    && UniqueBy(d.tags, (t: Tag) => ToLower(t.name))
    && References(d.modules, (m: Module) => m.id, d.versions, (v: ModuleVersion) => v.moduleId)
    && (forall i | 0 <= i < |d.reviews| :: 1 <= d.reviews[i].rating <= 5)
  }

  ghost predicate Valid(d: Db) {
    Constrained(d) && CatalogInvariants(d)
  }

  /** The seeded database satisfies every constraint and invariant. */
  lemma SeededDbValid()
    ensures Valid(SeededDb())
  {
  }

  // ---------------------------------------------------------------------------
  // Updates of single rows, by key
  // ---------------------------------------------------------------------------

  function ReplaceCategory(cs: seq<ModuleCategory>, c: ModuleCategory): seq<ModuleCategory> {
    ReplaceWhere(cs, (x: ModuleCategory) => x.id == c.id, c)
  }

  function RemoveCategory(cs: seq<ModuleCategory>, id: int): seq<ModuleCategory> {
    Filter(cs, (x: ModuleCategory) => x.id != id)
  }

  function ReplaceTag(ts: seq<Tag>, t: Tag): seq<Tag> {
    ReplaceWhere(ts, (x: Tag) => x.id == t.id, t)
  }

  function RemoveTag(ts: seq<Tag>, id: int): seq<Tag> {
    Filter(ts, (x: Tag) => x.id != id)
  }

  function ReplaceModule(ms: seq<Module>, m: Module): seq<Module> {
    ReplaceWhere(ms, (x: Module) => x.id == m.id, m)
  }

  function RemoveLink(ls: seq<ModuleTag>, l: ModuleTag): seq<ModuleTag> {
    Filter(ls, (x: ModuleTag) => x != l)
  }

  /** The versions of a new module graph as the store numbers and links them. */
  function NumberVersions(vs: seq<ModuleVersion>, moduleId: int, firstId: int): (r: seq<ModuleVersion>)
    ensures |r| == |vs|
    ensures forall k | 0 <= k < |vs| :: r[k] == vs[k].(id := firstId + k, moduleId := moduleId)
  {
    seq(|vs|, k requires 0 <= k < |vs| => vs[k].(id := firstId + k, moduleId := moduleId))
  }

  // ---------------------------------------------------------------------------
  // Each write the store performs keeps its constraints
  // ---------------------------------------------------------------------------

  lemma IdentityAppend<T>(s: seq<T>, x: T, id: T -> int, next: int)
    requires IdentityKeys(s, id, next)
    requires id(x) == next
    ensures IdentityKeys(s + [x], id, next + 1)
    ensures KeySet(s + [x], id) == KeySet(s, id) + {next}
  {
    UniqueByAppend(s, x, id);
    KeySetAppend(s, x, id);
  }

  lemma InsertUserKeeps(d: Db, u: User)
    requires Constrained(d)
    requires u.id == d.next.userId
    requires forall i | 0 <= i < |d.users| :: d.users[i].username != u.username && d.users[i].email != u.email
    requires exists i | 0 <= i < |d.roles| :: d.roles[i].id == u.roleId
    ensures Constrained(d.(users := d.users + [u], next := d.next.(userId := d.next.userId + 1)))
    ensures Valid(d) ==> Valid(d.(users := d.users + [u], next := d.next.(userId := d.next.userId + 1)))
  {
    IdentityAppend(d.users, u, (x: User) => x.id, d.next.userId);
    UniqueByAppend(d.users, u, (x: User) => x.username);
    UniqueByAppend(d.users, u, (x: User) => x.email);
  }

  lemma InsertCategoryKeeps(d: Db, c: ModuleCategory)
    requires Constrained(d)
    requires c.id == d.next.categoryId
    requires forall i | 0 <= i < |d.categories| :: d.categories[i].name != c.name
    ensures Constrained(d.(categories := d.categories + [c], next := d.next.(categoryId := d.next.categoryId + 1)))
    ensures Valid(d) && (forall i | 0 <= i < |d.categories| :: !EqualsIgnoreCase(d.categories[i].name, c.name))
            ==> Valid(d.(categories := d.categories + [c], next := d.next.(categoryId := d.next.categoryId + 1)))
  {
    IdentityAppend(d.categories, c, (x: ModuleCategory) => x.id, d.next.categoryId);
    UniqueByAppend(d.categories, c, (x: ModuleCategory) => x.name);
    if CatalogInvariants(d) && (forall i | 0 <= i < |d.categories| :: !EqualsIgnoreCase(d.categories[i].name, c.name)) {
      UniqueByAppend(d.categories, c, (x: ModuleCategory) => ToLower(x.name));
    }
  }

  lemma ReplaceCategoryKeeps(d: Db, c: ModuleCategory)
    requires Constrained(d)
    requires exists i | 0 <= i < |d.categories| :: d.categories[i].id == c.id
    requires forall j | 0 <= j < |d.categories| :: d.categories[j].id != c.id ==> d.categories[j].name != c.name
    ensures Constrained(d.(categories := ReplaceCategory(d.categories, c)))
    ensures Valid(d)
            && (forall j | 0 <= j < |d.categories| :: d.categories[j].id != c.id ==> !EqualsIgnoreCase(d.categories[j].name, c.name))
            ==> Valid(d.(categories := ReplaceCategory(d.categories, c)))
  {
    var p := (x: ModuleCategory) => x.id == c.id;
    var cs := ReplaceCategory(d.categories, c);
    UniqueByReplace(d.categories, (x: ModuleCategory) => x.id, (x: ModuleCategory) => x.id, p, c);
    UniqueByReplace(d.categories, (x: ModuleCategory) => x.id, (x: ModuleCategory) => x.name, p, c);
    KeySetReplace(d.categories, (x: ModuleCategory) => x.id, p, c);
    if CatalogInvariants(d) && (forall j | 0 <= j < |d.categories| :: d.categories[j].id != c.id ==> !EqualsIgnoreCase(d.categories[j].name, c.name)) {
      UniqueByReplace(d.categories, (x: ModuleCategory) => x.id, (x: ModuleCategory) => ToLower(x.name), p, c);
    }
  }

  lemma InsertTagKeeps(d: Db, t: Tag)
    requires Constrained(d)
    requires t.id == d.next.tagId
    requires forall i | 0 <= i < |d.tags| :: d.tags[i].name != t.name
    ensures Constrained(d.(tags := d.tags + [t], next := d.next.(tagId := d.next.tagId + 1)))
    ensures Valid(d) && (forall i | 0 <= i < |d.tags| :: !EqualsIgnoreCase(d.tags[i].name, t.name))
            ==> Valid(d.(tags := d.tags + [t], next := d.next.(tagId := d.next.tagId + 1)))
  {
    IdentityAppend(d.tags, t, (x: Tag) => x.id, d.next.tagId);
    UniqueByAppend(d.tags, t, (x: Tag) => x.name);
    if CatalogInvariants(d) && (forall i | 0 <= i < |d.tags| :: !EqualsIgnoreCase(d.tags[i].name, t.name)) {
      UniqueByAppend(d.tags, t, (x: Tag) => ToLower(x.name));
    }
  }

  lemma ReplaceTagKeeps(d: Db, t: Tag)
    requires Constrained(d)
    requires exists i | 0 <= i < |d.tags| :: d.tags[i].id == t.id
    requires forall j | 0 <= j < |d.tags| :: d.tags[j].id != t.id ==> d.tags[j].name != t.name
    ensures Constrained(d.(tags := ReplaceTag(d.tags, t)))
    ensures Valid(d)
            && (forall j | 0 <= j < |d.tags| :: d.tags[j].id != t.id ==> !EqualsIgnoreCase(d.tags[j].name, t.name))
            ==> Valid(d.(tags := ReplaceTag(d.tags, t)))
  {
    var p := (x: Tag) => x.id == t.id;
    UniqueByReplace(d.tags, (x: Tag) => x.id, (x: Tag) => x.id, p, t);
    UniqueByReplace(d.tags, (x: Tag) => x.id, (x: Tag) => x.name, p, t);
    KeySetReplace(d.tags, (x: Tag) => x.id, p, t);
    if CatalogInvariants(d) && (forall j | 0 <= j < |d.tags| :: d.tags[j].id != t.id ==> !EqualsIgnoreCase(d.tags[j].name, t.name)) {
      UniqueByReplace(d.tags, (x: Tag) => x.id, (x: Tag) => ToLower(x.name), p, t);
    }
  }

  lemma NumberedVersionsKeys(prev: seq<ModuleVersion>, vs: seq<ModuleVersion>, moduleId: int, next: int)
    requires IdentityKeys(prev, (v: ModuleVersion) => v.id, next)
    requires forall k | 0 <= k < |vs| :: vs[k].id == next + k && vs[k].moduleId == moduleId
    ensures UniqueBy(vs, (v: ModuleVersion) => v.id)
    ensures KeySet(prev, (v: ModuleVersion) => v.id) !! KeySet(vs, (v: ModuleVersion) => v.id)
    ensures forall k | 0 <= k < |vs| :: 1 <= vs[k].id < next + |vs|
    ensures |vs| > 0 ==> KeySet(vs, (v: ModuleVersion) => v.moduleId) == {moduleId}
  {
    if |vs| > 0 {
      assert vs[0].moduleId in KeySet(vs, (v: ModuleVersion) => v.moduleId);
    }
  }

  /** A new module together with its numbered versions, in one write. */
  lemma InsertModuleGraphKeeps(d: Db, m: Module, vs: seq<ModuleVersion>)
    requires Constrained(d)
    requires m.id == d.next.moduleId
    requires forall k | 0 <= k < |vs| :: vs[k].id == d.next.versionId + k && vs[k].moduleId == m.id
    requires exists i | 0 <= i < |d.users| :: d.users[i].id == m.authorId
    requires exists i | 0 <= i < |d.categories| :: d.categories[i].id == m.categoryId
    ensures Constrained(d.(modules := d.modules + [m], versions := d.versions + vs,
                           next := d.next.(moduleId := d.next.moduleId + 1, versionId := d.next.versionId + |vs|)))
    ensures Valid(d) && |vs| > 0
            ==> Valid(d.(modules := d.modules + [m], versions := d.versions + vs,
                                     next := d.next.(moduleId := d.next.moduleId + 1, versionId := d.next.versionId + |vs|)))
  {
    var vid := (v: ModuleVersion) => v.id;
    IdentityAppend(d.modules, m, (x: Module) => x.id, d.next.moduleId);
    NumberedVersionsKeys(d.versions, vs, m.id, d.next.versionId);
    KeySetConcat(d.versions, vs, vid);
    KeySetConcat(d.versions, vs, (v: ModuleVersion) => v.moduleId);
    UniqueByConcat(d.versions, vs, vid);
    var vs' := d.versions + vs;
    forall i | 0 <= i < |vs'| ensures vs'[i].moduleId in KeySet(d.modules + [m], (x: Module) => x.id) {
      if i >= |d.versions| {
        assert vs[i - |d.versions|].moduleId == m.id;
      }
    }
  }

  /** A stored module's author and category exist, so rewriting it in place keeps its foreign keys. */
  lemma StoredModuleReferences(d: Db, m: Module)
    requires Constrained(d)
    requires m in d.modules
    ensures exists i | 0 <= i < |d.users| :: d.users[i].id == m.authorId
    ensures exists i | 0 <= i < |d.categories| :: d.categories[i].id == m.categoryId
  {
    var k :| 0 <= k < |d.modules| && d.modules[k] == m;
    assert m.authorId in KeySet(d.users, (u: User) => u.id);
    assert m.categoryId in KeySet(d.categories, (c: ModuleCategory) => c.id);
  }

  lemma ReplaceModuleKeeps(d: Db, m: Module)
    requires Constrained(d)
    requires exists i | 0 <= i < |d.modules| :: d.modules[i].id == m.id
    requires exists i | 0 <= i < |d.users| :: d.users[i].id == m.authorId
    requires exists i | 0 <= i < |d.categories| :: d.categories[i].id == m.categoryId
    ensures Constrained(d.(modules := ReplaceModule(d.modules, m)))
    ensures Valid(d) ==> Valid(d.(modules := ReplaceModule(d.modules, m)))
  {
    var p := (x: Module) => x.id == m.id;
    var e := d.(modules := ReplaceModule(d.modules, m));
    UniqueByReplace(d.modules, (x: Module) => x.id, (x: Module) => x.id, p, m);
    KeySetReplace(d.modules, (x: Module) => x.id, p, m);
    assert PrimaryKeys(e);
    assert ForeignKeys(e);
    assert Constrained(e);
  }

  lemma InsertVersionKeeps(d: Db, v: ModuleVersion)
    requires Constrained(d)
    requires v.id == d.next.versionId
    requires exists i | 0 <= i < |d.modules| :: d.modules[i].id == v.moduleId
    ensures Constrained(d.(versions := d.versions + [v], next := d.next.(versionId := d.next.versionId + 1)))
    ensures Valid(d) ==> Valid(d.(versions := d.versions + [v], next := d.next.(versionId := d.next.versionId + 1)))
  {
    IdentityAppend(d.versions, v, (x: ModuleVersion) => x.id, d.next.versionId);
    KeySetAppend(d.versions, v, (x: ModuleVersion) => x.moduleId);
  }

  lemma InsertReviewKeeps(d: Db, r: Review)
    requires Constrained(d)
    requires r.id == d.next.reviewId
    requires exists i | 0 <= i < |d.modules| :: d.modules[i].id == r.moduleId
    requires exists i | 0 <= i < |d.users| :: d.users[i].id == r.userId
    ensures Constrained(d.(reviews := d.reviews + [r], next := d.next.(reviewId := d.next.reviewId + 1)))
    ensures Valid(d) && 1 <= r.rating <= 5
            ==> Valid(d.(reviews := d.reviews + [r], next := d.next.(reviewId := d.next.reviewId + 1)))
  {
    IdentityAppend(d.reviews, r, (x: Review) => x.id, d.next.reviewId);
  }

  lemma InsertReportKeeps(d: Db, r: CompatibilityReport)
    requires Constrained(d)
    requires r.id == d.next.reportId
    requires exists i | 0 <= i < |d.versions| :: d.versions[i].id == r.versionId
    requires exists i | 0 <= i < |d.users| :: d.users[i].id == r.userId
    ensures Constrained(d.(reports := d.reports + [r], next := d.next.(reportId := d.next.reportId + 1)))
    ensures Valid(d) ==> Valid(d.(reports := d.reports + [r], next := d.next.(reportId := d.next.reportId + 1)))
  {
    IdentityAppend(d.reports, r, (x: CompatibilityReport) => x.id, d.next.reportId);
  }

  lemma InsertLinkKeeps(d: Db, l: ModuleTag)
    requires Constrained(d)
    requires l !in d.moduleTags
    requires exists i | 0 <= i < |d.modules| :: d.modules[i].id == l.moduleId
    requires exists i | 0 <= i < |d.tags| :: d.tags[i].id == l.tagId
    ensures Constrained(d.(moduleTags := d.moduleTags + [l]))
    ensures Valid(d) ==> Valid(d.(moduleTags := d.moduleTags + [l]))
  {
    UniqueByAppend(d.moduleTags, l, (x: ModuleTag) => x);
  }

  lemma RemoveLinkKeeps(d: Db, l: ModuleTag)
    requires Constrained(d)
    ensures Constrained(d.(moduleTags := RemoveLink(d.moduleTags, l)))
    ensures Valid(d) ==> Valid(d.(moduleTags := RemoveLink(d.moduleTags, l)))
  {
    UniqueByFilter(d.moduleTags, (x: ModuleTag) => x, (x: ModuleTag) => x != l);
  }

  // ---------------------------------------------------------------------------
  // Deleting a user: restricted by authored modules, cascading (client-side) to reviews and reports
  // ---------------------------------------------------------------------------

  /** The database without user `id`, its reviews and its compatibility reports. */
  function WithoutUser(d: Db, id: int): Db {
    d.(users := Filter(d.users, (u: User) => u.id != id),
       reviews := Filter(d.reviews, (x: Review) => x.userId != id),
       reports := Filter(d.reports, (x: CompatibilityReport) => x.userId != id))
  }

  /**
   * The delete behaviours configured for a user row: refused while the user
   * authors a module (Restrict); otherwise the user's reviews and
   * compatibility reports go with it, as the client-side cascade removes
   * them when every one of them is tracked. No repository exposes this.
   */
  function DeleteUser(d: Db, id: int): (r: Result<Db>)
    ensures r.Failure? <==> exists i | 0 <= i < |d.modules| :: d.modules[i].authorId == id
    ensures r.Failure? ==> r.error == DataAccess
    ensures r.Success? ==> forall i | 0 <= i < |r.value.users| :: r.value.users[i].id != id
    ensures r.Success? ==> forall i | 0 <= i < |r.value.reviews| :: r.value.reviews[i].userId != id
    ensures r.Success? ==> forall i | 0 <= i < |r.value.reports| :: r.value.reports[i].userId != id
    ensures r.Success? ==> r.value.modules == d.modules && r.value.versions == d.versions
    ensures r.Success? ==> forall u :: u in r.value.users <==> u in d.users && u.id != id
    ensures r.Success? ==> forall x :: x in r.value.reviews <==> x in d.reviews && x.userId != id
    ensures r.Success? ==> forall x :: x in r.value.reports <==> x in d.reports && x.userId != id
    ensures r.Success? ==> r.value.(users := d.users, reviews := d.reviews, reports := d.reports) == d
  {
    if exists i | 0 <= i < |d.modules| :: d.modules[i].authorId == id then Failure(DataAccess)
    else Success(WithoutUser(d, id))
  }

  lemma IdentityFilter<T>(s: seq<T>, id: T -> int, next: int, p: T -> bool)
    requires IdentityKeys(s, id, next)
    ensures IdentityKeys(Filter(s, p), id, next)
  {
    UniqueByFilter(s, id, p);
    var f := Filter(s, p);
    forall i | 0 <= i < |f| ensures 1 <= id(f[i]) < next {
      var j :| 0 <= j < |s| && s[j] == f[i];
    }
  }

  lemma RatingsFilter(s: seq<Review>, p: Review -> bool)
    requires forall i | 0 <= i < |s| :: 1 <= s[i].rating <= 5
    ensures forall i | 0 <= i < |Filter(s, p)| :: 1 <= Filter(s, p)[i].rating <= 5
  {
    var f := Filter(s, p);
    forall i | 0 <= i < |f| ensures 1 <= f[i].rating <= 5 {
      var j :| 0 <= j < |s| && s[j] == f[i];
    }
  }

  lemma WithoutUserKeys(d: Db, id: int)
    requires Constrained(d)
    ensures PrimaryKeys(WithoutUser(d, id)) && UniqueIndexes(WithoutUser(d, id))
  {
    var pu := (u: User) => u.id != id;
    IdentityFilter(d.users, (u: User) => u.id, d.next.userId, pu);
    UniqueByFilter(d.users, (u: User) => u.username, pu);
    UniqueByFilter(d.users, (u: User) => u.email, pu);
    IdentityFilter(d.reviews, (x: Review) => x.id, d.next.reviewId, (x: Review) => x.userId != id);
    IdentityFilter(d.reports, (x: CompatibilityReport) => x.id, d.next.reportId, (x: CompatibilityReport) => x.userId != id);
  }

  lemma WithoutUserReferences(d: Db, id: int)
    requires Constrained(d)
    requires forall i | 0 <= i < |d.modules| :: d.modules[i].authorId != id
    ensures ForeignKeys(WithoutUser(d, id))
  {
    var pu := (u: User) => u.id != id;
    var pr := (x: Review) => x.userId != id;
    var pc := (x: CompatibilityReport) => x.userId != id;
    var uid := (u: User) => u.id;
    ReferencesFilterSource(d.users, (u: User) => u.roleId, d.roles, (r: Role) => r.id, pu);
    ReferencesFilterTarget(d.modules, (m: Module) => m.authorId, d.users, uid, id, pu);
    ReferencesFilterSource(d.reviews, (x: Review) => x.moduleId, d.modules, (m: Module) => m.id, pr);
    ReferencesFilterSource(d.reviews, (x: Review) => x.userId, d.users, uid, pr);
    ReferencesFilterTarget(Filter(d.reviews, pr), (x: Review) => x.userId, d.users, uid, id, pu);
    ReferencesFilterSource(d.reports, (x: CompatibilityReport) => x.versionId, d.versions, (v: ModuleVersion) => v.id, pc);
    ReferencesFilterSource(d.reports, (x: CompatibilityReport) => x.userId, d.users, uid, pc);
    ReferencesFilterTarget(Filter(d.reports, pc), (x: CompatibilityReport) => x.userId, d.users, uid, id, pu);
  }

  /** Deleting a user, when the schema allows it, keeps every constraint and invariant. */
  lemma WithoutUserInvariants(d: Db, id: int)
    requires CatalogInvariants(d)
    ensures CatalogInvariants(WithoutUser(d, id))
  {
    RatingsFilter(d.reviews, (x: Review) => x.userId != id);
  }

  lemma DeleteUserKeeps(d: Db, id: int)
    requires Valid(d)
    requires DeleteUser(d, id).Success?
    ensures Valid(DeleteUser(d, id).value)
  {
    var w := WithoutUser(d, id);
    assert DeleteUser(d, id).value == w;
    WithoutUserKeys(d, id);
    WithoutUserReferences(d, id);
    WithoutUserInvariants(d, id);
    assert Constrained(w);
  }

  // ---------------------------------------------------------------------------
  // Deleting a category or a tag: the required foreign keys cascade
  // ---------------------------------------------------------------------------

  /** Module `moduleId` exists and belongs to category `categoryId`. */
  predicate InCategory(ms: seq<Module>, moduleId: int, categoryId: int) {
    exists i | 0 <= i < |ms| :: ms[i].id == moduleId && ms[i].categoryId == categoryId
  }

  /** Version `versionId` exists and belongs to a module of category `categoryId`. */
  predicate VersionInCategory(vs: seq<ModuleVersion>, ms: seq<Module>, versionId: int, categoryId: int) {
    exists j | 0 <= j < |vs| :: vs[j].id == versionId && InCategory(ms, vs[j].moduleId, categoryId)
  }

  /**
   * Removing category `id` together with its modules, and, through those,
   * their versions, reviews, tag links and the reports on those versions.
   */
  function CascadeCategory(d: Db, id: int): (r: Db)
    ensures forall c :: c in r.categories <==> c in d.categories && c.id != id
    ensures forall m :: m in r.modules <==> m in d.modules && m.categoryId != id
    ensures forall v :: v in r.versions <==> v in d.versions && !InCategory(d.modules, v.moduleId, id)
    ensures forall x :: x in r.reviews <==> x in d.reviews && !InCategory(d.modules, x.moduleId, id)
    ensures forall x :: x in r.reports <==> x in d.reports && !VersionInCategory(d.versions, d.modules, x.versionId, id)
    ensures forall l :: l in r.moduleTags <==> l in d.moduleTags && !InCategory(d.modules, l.moduleId, id)
    ensures r.roles == d.roles && r.users == d.users && r.tags == d.tags && r.next == d.next
  {
    d.(categories := RemoveCategory(d.categories, id),
       modules := Filter(d.modules, (m: Module) => m.categoryId != id),
       versions := Filter(d.versions, (v: ModuleVersion) => !InCategory(d.modules, v.moduleId, id)),
       reviews := Filter(d.reviews, (r: Review) => !InCategory(d.modules, r.moduleId, id)),
       reports := Filter(d.reports, (r: CompatibilityReport) => !VersionInCategory(d.versions, d.modules, r.versionId, id)),
       moduleTags := Filter(d.moduleTags, (l: ModuleTag) => !InCategory(d.modules, l.moduleId, id)))
  }

  /** Removing tag `id` together with its module links. */
  function CascadeTag(d: Db, id: int): (r: Db)
    ensures forall t :: t in r.tags <==> t in d.tags && t.id != id
    ensures forall l :: l in r.moduleTags <==> l in d.moduleTags && l.tagId != id
    ensures r.(tags := d.tags, moduleTags := d.moduleTags) == d
  {
    d.(tags := RemoveTag(d.tags, id),
       moduleTags := Filter(d.moduleTags, (l: ModuleTag) => l.tagId != id))
  }


  /** A category no module uses goes alone: the cascade removes nothing else. */
  lemma CascadeCategoryUnused(d: Db, id: int)
    requires forall i | 0 <= i < |d.modules| :: d.modules[i].categoryId != id
    ensures CascadeCategory(d, id) == d.(categories := RemoveCategory(d.categories, id))
  {
    FilterAll(d.modules, (m: Module) => m.categoryId != id);
    FilterAll(d.versions, (v: ModuleVersion) => !InCategory(d.modules, v.moduleId, id));
    FilterAll(d.reviews, (r: Review) => !InCategory(d.modules, r.moduleId, id));
    forall i | 0 <= i < |d.reports| ensures !VersionInCategory(d.versions, d.modules, d.reports[i].versionId, id) {
    }
    FilterAll(d.reports, (r: CompatibilityReport) => !VersionInCategory(d.versions, d.modules, r.versionId, id));
    FilterAll(d.moduleTags, (l: ModuleTag) => !InCategory(d.modules, l.moduleId, id));
  }

  /** A tag no module uses goes alone. */
  lemma CascadeTagUnused(d: Db, id: int)
    requires forall i | 0 <= i < |d.moduleTags| :: d.moduleTags[i].tagId != id
    ensures CascadeTag(d, id) == d.(tags := RemoveTag(d.tags, id))
  {
    FilterAll(d.moduleTags, (l: ModuleTag) => l.tagId != id);
  }

  lemma CascadeCategoryKeys(d: Db, id: int)
    requires Constrained(d)
    ensures PrimaryKeys(CascadeCategory(d, id)) && UniqueIndexes(CascadeCategory(d, id))
  {
    IdentityFilter(d.categories, (x: ModuleCategory) => x.id, d.next.categoryId, (x: ModuleCategory) => x.id != id);
    UniqueByFilter(d.categories, (x: ModuleCategory) => x.name, (x: ModuleCategory) => x.id != id);
    IdentityFilter(d.modules, (x: Module) => x.id, d.next.moduleId, (m: Module) => m.categoryId != id);
    IdentityFilter(d.versions, (x: ModuleVersion) => x.id, d.next.versionId, (v: ModuleVersion) => !InCategory(d.modules, v.moduleId, id));
    IdentityFilter(d.reviews, (x: Review) => x.id, d.next.reviewId, (r: Review) => !InCategory(d.modules, r.moduleId, id));
    IdentityFilter(d.reports, (x: CompatibilityReport) => x.id, d.next.reportId,
                   (r: CompatibilityReport) => !VersionInCategory(d.versions, d.modules, r.versionId, id));
    UniqueByFilter(d.moduleTags, (x: ModuleTag) => x, (l: ModuleTag) => !InCategory(d.modules, l.moduleId, id));
  }

  lemma CascadeCategoryReferences(d: Db, id: int)
    requires Constrained(d)
    ensures ForeignKeys(CascadeCategory(d, id))
  {
    var pm := (m: Module) => m.categoryId != id;
    var pv := (v: ModuleVersion) => !InCategory(d.modules, v.moduleId, id);
    var pr := (r: Review) => !InCategory(d.modules, r.moduleId, id);
    var pc := (r: CompatibilityReport) => !VersionInCategory(d.versions, d.modules, r.versionId, id);
    var pl := (l: ModuleTag) => !InCategory(d.modules, l.moduleId, id);
    var mid := (m: Module) => m.id;
    var uid := (u: User) => u.id;
    ReferencesFilterSource(d.modules, (m: Module) => m.authorId, d.users, uid, pm);
    ReferencesFilterSource(d.modules, (m: Module) => m.categoryId, d.categories, (c: ModuleCategory) => c.id, pm);
    ReferencesFilterTarget(Filter(d.modules, pm), (m: Module) => m.categoryId, d.categories, (c: ModuleCategory) => c.id,
                           id, (x: ModuleCategory) => x.id != id);
    ReferencesFilterBoth(d.versions, (v: ModuleVersion) => v.moduleId, d.modules, mid, pv, pm);
    ReferencesFilterBoth(d.reviews, (r: Review) => r.moduleId, d.modules, mid, pr, pm);
    ReferencesFilterSource(d.reviews, (r: Review) => r.userId, d.users, uid, pr);
    ReferencesFilterBoth(d.reports, (r: CompatibilityReport) => r.versionId, d.versions, (v: ModuleVersion) => v.id, pc, pv);
    ReferencesFilterSource(d.reports, (r: CompatibilityReport) => r.userId, d.users, uid, pc);
    ReferencesFilterBoth(d.moduleTags, (l: ModuleTag) => l.moduleId, d.modules, mid, pl, pm);
    ReferencesFilterSource(d.moduleTags, (l: ModuleTag) => l.tagId, d.tags, (t: Tag) => t.id, pl);
  }

  lemma CascadeCategoryInvariants(d: Db, id: int)
    requires Valid(d)
    ensures CatalogInvariants(CascadeCategory(d, id))
  {
    var pm := (m: Module) => m.categoryId != id;
    var pv := (v: ModuleVersion) => !InCategory(d.modules, v.moduleId, id);
    UniqueByFilter(d.categories, (x: ModuleCategory) => ToLower(x.name), (x: ModuleCategory) => x.id != id);
    RatingsFilter(d.reviews, (r: Review) => !InCategory(d.modules, r.moduleId, id));
    forall i, j | 0 <= i < |d.modules| && 0 <= j < |d.versions| && pm(d.modules[i]) && d.versions[j].moduleId == d.modules[i].id
      ensures pv(d.versions[j])
    {
    }
    ReferencesFilterBoth(d.modules, (m: Module) => m.id, d.versions, (v: ModuleVersion) => v.moduleId, pm, pv);
  }

  /** Deleting a category keeps every constraint and invariant, whatever refers to it. */
  lemma CascadeCategoryKeeps(d: Db, id: int)
    requires Constrained(d)
    ensures Constrained(CascadeCategory(d, id))
    ensures Valid(d) ==> Valid(CascadeCategory(d, id))
  {
    CascadeCategoryKeys(d, id);
    CascadeCategoryReferences(d, id);
    if Valid(d) {
      CascadeCategoryInvariants(d, id);
    }
  }

  /** Deleting a tag keeps every constraint and invariant. */
  lemma CascadeTagKeeps(d: Db, id: int)
    requires Constrained(d)
    ensures Constrained(CascadeTag(d, id))
    ensures Valid(d) ==> Valid(CascadeTag(d, id))
  {
    var pt := (x: Tag) => x.id != id;
    var pl := (l: ModuleTag) => l.tagId != id;
    IdentityFilter(d.tags, (x: Tag) => x.id, d.next.tagId, pt);
    UniqueByFilter(d.tags, (x: Tag) => x.name, pt);
    UniqueByFilter(d.moduleTags, (x: ModuleTag) => x, pl);
    ReferencesFilterSource(d.moduleTags, (l: ModuleTag) => l.moduleId, d.modules, (m: Module) => m.id, pl);
    ReferencesFilterSource(d.moduleTags, (l: ModuleTag) => l.tagId, d.tags, (t: Tag) => t.id, pl);
    ReferencesFilterTarget(Filter(d.moduleTags, pl), (l: ModuleTag) => l.tagId, d.tags, (t: Tag) => t.id, id, pt);
    if Valid(d) {
      UniqueByFilter(d.tags, (x: Tag) => ToLower(x.name), pt);
    }
  }
}
