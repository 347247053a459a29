/**
 * The module service: browsing the catalog, reviews and compatibility
 * reports, uploading a module with its first version, and adding versions.
 * Every error it reports is `BusinessRule` or `NotFound`; a store failure is
 * re-reported as `BusinessRule`.
 */
module Catalog {
  import opened Wrappers
  import opened Text
  import opened Seqs
  import opened Entities
  import opened Schema
  import opened Repositories

  class ModuleService {
    const db: Store

    constructor(db: Store)
      ensures this.db == db
    {
      this.db := db;
    }

    /** A blank term finds nothing; otherwise exactly the modules whose name contains it, ignoring case. */
    function SearchModulesByNameAsync(searchTerm: string): (r: seq<Module>)
      reads db
      ensures IsBlank(searchTerm) ==> r == []
      ensures forall i | 0 <= i < |r| :: r[i] in db.modules && Contains(ToLower(r[i].name), ToLower(searchTerm))
      ensures !IsBlank(searchTerm) ==>
                forall j | 0 <= j < |db.modules| :: Contains(ToLower(db.modules[j].name), ToLower(searchTerm))
                  ==> db.modules[j] in r
    {
      if IsBlank(searchTerm) then [] else db.SearchModulesByName(searchTerm)
    }

    /** NotFound when no module has the id; otherwise the module with its details loaded. */
    function GetModuleByIdAsync(moduleId: int): (r: Result<ModuleDetails>)
      reads db
      ensures r.Failure? <==> forall i | 0 <= i < |db.modules| :: db.modules[i].id != moduleId
      ensures r.Failure? ==> r.error == NotFound
      ensures r.Success? ==> r.value.root in db.modules && r.value.root.id == moduleId
      ensures r.Success? && db.Constrained() ==> r.value.author.Some? && r.value.author.value.id == r.value.root.authorId
      ensures r.Success? && db.Constrained() ==> r.value.category.Some? && r.value.category.value.id == r.value.root.categoryId
      ensures r.Success? ==> forall i | 0 <= i < |r.value.versions| :: r.value.versions[i] in db.versions
                                                                     && r.value.versions[i].moduleId == moduleId
      ensures r.Success? ==> forall j | 0 <= j < |db.versions| :: db.versions[j].moduleId == moduleId
                                                               ==> db.versions[j] in r.value.versions
      ensures r.Success? ==> r.value.tags == db.LinkedTags(moduleId)
    {
      match db.GetModuleByIdWithDetails(moduleId)
      case None => Failure(NotFound)
      case Some(m) => Success(m)
    }

    /**
     * A rating outside 1..5 fails before any lookup; then a missing module,
     * and after it a missing user, is NotFound. On success exactly one review
     * is appended, unedited, with the given fields.
     */
    method AddReviewAsync(moduleId: int, userId: int, rating: int, comment: string, now: Timestamp) returns (r: Outcome)
      requires db.Valid()
      modifies db
      ensures db.Valid()
      ensures rating < 1 || rating > 5 ==> r == Fail(BusinessRule)
      ensures 1 <= rating <= 5 && old(db.GetModuleById(moduleId)).None? ==> r == Fail(NotFound)
      ensures 1 <= rating <= 5 && old(db.GetModuleById(moduleId)).Some? && old(db.GetUserById(userId)).None?
              ==> r == Fail(NotFound)
      ensures r.Done? <==> 1 <= rating <= 5 && old(db.GetModuleById(moduleId)).Some? && old(db.GetUserById(userId)).Some?
      ensures r.Fail? ==> db.State() == old(db.State())
      ensures r.Done? ==> db.State() == old(db.State()).(
                reviews := old(db.reviews) + [Review(old(db.next.reviewId), moduleId, userId, rating, comment, now, false)],
                next := old(db.next).(reviewId := old(db.next.reviewId) + 1))
    {
      if rating < 1 || rating > 5 {
        return Fail(BusinessRule);
      }
      if db.GetModuleById(moduleId).None? {
        return Fail(NotFound);
      }
      if db.GetUserById(userId).None? {
        return Fail(NotFound);
      }
      var review := Review(0, moduleId, userId, rating, comment, now, false);
      var added := db.AddReview(review);
      if added.Failure? {
        return Fail(BusinessRule);
      }
      r := Done;
    }

    /**
     * A blank device model, Android version or status fails first, in that
     * order; the status is not checked against a fixed set. Then a missing
     * version, and after it a missing user, is NotFound. On success exactly
     * one report is appended with the given fields.
     */
    method AddCompatibilityReportAsync(moduleVersionId: int, userId: int, deviceModel: string,
                                       androidVersion: string, worksStatus: string, notes: string, now: Timestamp)
      returns (r: Outcome)
      requires db.Valid()
      modifies db
      ensures db.Valid()
      ensures IsBlank(deviceModel) || IsBlank(androidVersion) || IsBlank(worksStatus) ==> r == Fail(BusinessRule)
      ensures r.Done? <==> && !IsBlank(deviceModel) && !IsBlank(androidVersion) && !IsBlank(worksStatus)
                           && old(db.GetVersionById(moduleVersionId)).Some? && old(db.GetUserById(userId)).Some?
      ensures && !IsBlank(deviceModel) && !IsBlank(androidVersion) && !IsBlank(worksStatus) && r.Fail?
              ==> r.error == NotFound
      ensures r.Fail? ==> db.State() == old(db.State())
      ensures r.Done? ==> db.State() == old(db.State()).(
                reports := old(db.reports) + [CompatibilityReport(old(db.next.reportId), moduleVersionId, userId,
                                                                  deviceModel, androidVersion, worksStatus, notes, now)],
                next := old(db.next).(reportId := old(db.next.reportId) + 1))
    {
      if IsBlank(deviceModel) {
        return Fail(BusinessRule);
      }
      if IsBlank(androidVersion) {
        return Fail(BusinessRule);
      }
      if IsBlank(worksStatus) {
        return Fail(BusinessRule);
      }
      if db.GetVersionById(moduleVersionId).None? {
        return Fail(NotFound);
      }
      if db.GetUserById(userId).None? {
        return Fail(NotFound);
      }
      var report := CompatibilityReport(0, moduleVersionId, userId, deviceModel, androidVersion, worksStatus, notes, now);
      var added := db.AddReport(report);
      if added.Failure? {
        return Fail(BusinessRule);
      }
      r := Done;
    }

    /** The five fields an upload demands, none of them blank. */
    static predicate UploadFieldsGiven(name: string, description: string, initialVersionString: string,
                                       initialDownloadLink: string, minMagiskVersion: string)
    {
      && !IsBlank(name) && !IsBlank(description) && !IsBlank(initialVersionString)
      && !IsBlank(initialDownloadLink) && !IsBlank(minMagiskVersion)
    }

    /** The user exists and holds the Developer role. */
    predicate IsDeveloper(authorUserId: int)
      reads db
    {
      match db.GetUserById(authorUserId)
      case None => false
      case Some(u) => u.role.Some? && u.role.value.name == DeveloperRole
    }

    /**
     * Blank fields fail first. Then, in order: a missing author is NotFound,
     * an author who is not a Developer is BusinessRule, a missing category is
     * NotFound, and a name some module already matches is BusinessRule. On
     * success one unverified module and exactly one version carrying the
     * given strings are stored together, and the module is returned with its
     * author and category.
     */
    method UploadNewModuleAsync(authorUserId: int, name: string, description: string, categoryId: int,
                                initialVersionString: string, initialDownloadLink: string, initialChangelog: string,
                                minMagiskVersion: string, now: Timestamp)
      returns (r: Result<ModuleDetails>)
      requires db.Valid()
      modifies db
      ensures db.Valid()
      ensures !UploadFieldsGiven(name, description, initialVersionString, initialDownloadLink, minMagiskVersion)
              ==> r == Failure(BusinessRule)
      ensures UploadFieldsGiven(name, description, initialVersionString, initialDownloadLink, minMagiskVersion) ==>
                && (old(db.GetUserById(authorUserId)).None? ==> r == Failure(NotFound))
                && (old(db.GetUserById(authorUserId)).Some? && !old(IsDeveloper(authorUserId)) ==> r == Failure(BusinessRule))
                && (old(IsDeveloper(authorUserId)) && old(db.GetCategoryById(categoryId)).None? ==> r == Failure(NotFound))
                && (old(IsDeveloper(authorUserId)) && old(db.GetCategoryById(categoryId)).Some? && old(db.GetModuleByNameAsync(name)).Some?
                    ==> r == Failure(BusinessRule))
      ensures r.Success? <==> && UploadFieldsGiven(name, description, initialVersionString, initialDownloadLink, minMagiskVersion)
                              && old(IsDeveloper(authorUserId)) && old(db.GetCategoryById(categoryId)).Some?
                              && old(db.GetModuleByNameAsync(name)).None?
      ensures r.Failure? ==> db.State() == old(db.State())
      ensures r.Success? ==>
                && r.value.root == Module(old(db.next.moduleId), name, description, authorUserId, categoryId, false, now, now)
                && r.value.versions == [ModuleVersion(old(db.next.versionId), old(db.next.moduleId), initialVersionString,
                                                      initialChangelog, initialDownloadLink, minMagiskVersion, now)]
                && r.value.author == Some(old(db.GetUserById(authorUserId)).value.user)
                && r.value.category == old(db.GetCategoryById(categoryId))
                && r.value.tags == []
      ensures r.Success? ==> db.State() == old(db.State()).(modules := old(db.modules) + [r.value.root],
                                                           versions := old(db.versions) + r.value.versions,
                                                           next := old(db.next).(moduleId := old(db.next.moduleId) + 1,
                                                                                 versionId := old(db.next.versionId) + 1))
    {
      if IsBlank(name) || IsBlank(description) || IsBlank(initialVersionString) || IsBlank(initialDownloadLink)
         || IsBlank(minMagiskVersion)
      {
        return Failure(BusinessRule);
      }
      var author := db.GetUserById(authorUserId);
      if author.None? {
        return Failure(NotFound);
      }
      var role := author.value.role.value;
      if role.name != DeveloperRole {
        return Failure(BusinessRule);
      }
      var category := db.GetCategoryById(categoryId);
      if category.None? {
        return Failure(NotFound);
      }
      if db.GetModuleByNameAsync(name).Some? {
        return Failure(BusinessRule);
      }
      var newModule := NewModule(name, description, authorUserId, categoryId, now);
      var firstVersion := ModuleVersion(0, 0, initialVersionString, initialChangelog, initialDownloadLink, minMagiskVersion, now);
      assert db.GetUserById(newModule.authorId).Some? && db.GetCategoryById(newModule.categoryId).Some?;
      var added := db.AddModuleAsync(ModuleWithVersions(newModule, [firstVersion]));
      match added
      case Failure(_) =>
        return Failure(BusinessRule);
      case Success(stored) =>
        return Success(ModuleDetails(stored.root, Some(author.value.user), category, stored.versions, []));
    }

    /**
     * Blank version, link or min-Magisk version fails first. A missing module
     * is NotFound; a caller who is not the module's author is BusinessRule.
     * On success one version is appended (duplicate version strings are
     * allowed) and the module's last update date becomes `now`.
     */
    method AddVersionToModuleAsync(moduleId: int, authorUserId: int, versionString: string, downloadLink: string,
                                   changelog: string, minMagiskVersion: string, now: Timestamp)
      returns (r: Result<ModuleVersion>)
      requires db.Valid()
      modifies db
      ensures db.Valid()
      ensures IsBlank(versionString) || IsBlank(downloadLink) || IsBlank(minMagiskVersion) ==> r == Failure(BusinessRule)
      ensures !IsBlank(versionString) && !IsBlank(downloadLink) && !IsBlank(minMagiskVersion) ==>
                && (old(db.GetModuleById(moduleId)).None? ==> r == Failure(NotFound))
                && (old(db.GetModuleById(moduleId)).Some? ==>
                      (r.Failure? <==> old(db.GetModuleById(moduleId)).value.authorId != authorUserId))
                && (r.Failure? && old(db.GetModuleById(moduleId)).Some? ==> r.error == BusinessRule)
      ensures r.Failure? ==> db.State() == old(db.State())
      ensures r.Success? ==>
                && r.value == ModuleVersion(old(db.next.versionId), moduleId, versionString, changelog, downloadLink,
                                            minMagiskVersion, now)
                && db.State() == old(db.State()).(
                     versions := old(db.versions) + [r.value],
                     modules := ReplaceModule(old(db.modules), old(db.GetModuleById(moduleId)).value.(lastUpdateDate := now)),
                     next := old(db.next).(versionId := old(db.next.versionId) + 1))
    {
      if IsBlank(versionString) || IsBlank(downloadLink) || IsBlank(minMagiskVersion) {
        return Failure(BusinessRule);
      }
      var found := db.GetModuleById(moduleId);
      if found.None? {
        return Failure(NotFound);
      }
      var m := found.value;
      if m.authorId != authorUserId {
        return Failure(BusinessRule);
      }
      var newVersion := ModuleVersion(0, moduleId, versionString, changelog, downloadLink, minMagiskVersion, now);
      ghost var before := db.State();
      var added := db.AddVersion(newVersion);
      if added.Failure? {
        return Failure(BusinessRule);
      }
      ghost var between := db.State();
      StoredModuleReferences(between, m);
      m := m.(lastUpdateDate := now);
      assert db.GetModuleById(m.id).Some? && db.GetUserById(m.authorId).Some? && db.GetCategoryById(m.categoryId).Some?;
      var updated := db.UpdateModule(m);
      if updated.Fail? {
        return Failure(BusinessRule);
      }
      assert db.State() == between.(modules := ReplaceModule(between.modules, m));
      assert between.modules == before.modules;
      return Success(added.value);
    }

    /** NotFound for a missing user; otherwise exactly the modules that user authored. */
    function GetModulesByAuthorAsync(authorUserId: int): (r: Result<seq<Module>>)
      reads db
      ensures r.Failure? <==> forall i | 0 <= i < |db.users| :: db.users[i].id != authorUserId
      ensures r.Failure? ==> r.error == NotFound
      ensures r.Success? ==> forall i | 0 <= i < |r.value| :: r.value[i] in db.modules && r.value[i].authorId == authorUserId
      ensures r.Success? ==> forall j | 0 <= j < |db.modules| :: db.modules[j].authorId == authorUserId ==> db.modules[j] in r.value
    {
      if db.GetUserById(authorUserId).None? then Failure(NotFound)
      else Success(db.GetModulesByAuthor(authorUserId))
    }
  }
}
