/**
 * The moderation service: categories and tags with names unique ignoring
 * case, tag assignment checks, and module verification. Every error it
 * reports is `BusinessRule` or `NotFound`; a store failure is re-reported as
 * `BusinessRule`.
 */
module Moderation {
  import opened Wrappers
  import opened Text
  import opened Seqs
  import opened Entities
  import opened Schema
  import opened Repositories

  /** A blank description is stored as null. */
  function Normalised(description: string): (r: Option<string>)
    ensures r.None? <==> IsBlank(description)
    ensures r.Some? ==> r.value == description
  {
    if IsBlank(description) then None else Some(description)
  }

  /** An update renames only to a non-blank name that differs from the current one other than in case. */
  predicate Renames(current: string, newName: string) {
    !IsBlank(newName) && !EqualsIgnoreCase(current, newName)
  }

  /** The category after `UpdateCategoryAsync` has applied its name and description rules. */
  function EditedCategory(c: ModuleCategory, newName: string, newDescription: string): (r: ModuleCategory)
    ensures r.id == c.id
    ensures r.name == if Renames(c.name, newName) then newName else c.name
    ensures r.description == if c.description.GetOr("") == Normalised(newDescription).GetOr("") then c.description
                             else Normalised(newDescription)
  {
    var renamed := if Renames(c.name, newName) then c.(name := newName) else c;
    if c.description.GetOr("") == Normalised(newDescription).GetOr("") then renamed
    else renamed.(description := Normalised(newDescription))
  }

  /**
   * The edit changes the row exactly when the name is renamed or the stored
   * description, read with null as empty, differs from the normalised new one.
   */
  lemma EditedCategoryChanges(c: ModuleCategory, newName: string, newDescription: string)
    ensures EditedCategory(c, newName, newDescription) != c
            <==> Renames(c.name, newName) || c.description.GetOr("") != Normalised(newDescription).GetOr("")
  {
    var e := EditedCategory(c, newName, newDescription);
    if Renames(c.name, newName) {
      assert e.name != c.name;
    } else if c.description.GetOr("") != Normalised(newDescription).GetOr("") {
      assert e.description.GetOr("") != c.description.GetOr("");
    }
  }

  /** In a valid store, a category's own name clashes with no other category's, ignoring case. */
  lemma OwnNameFree(d: Db, i: int)
    requires Valid(d)
    requires 0 <= i < |d.categories|
    ensures forall j | 0 <= j < |d.categories| :: d.categories[j].id != d.categories[i].id
              ==> !EqualsIgnoreCase(d.categories[j].name, d.categories[i].name)
  {
  }

  /** In a valid store, a tag's own name clashes with no other tag's, ignoring case. */
  lemma OwnTagNameFree(d: Db, i: int)
    requires Valid(d)
    requires 0 <= i < |d.tags|
    ensures forall j | 0 <= j < |d.tags| :: d.tags[j].id != d.tags[i].id
              ==> !EqualsIgnoreCase(d.tags[j].name, d.tags[i].name)
  {
  }

  /** Category ids are a key: two stored categories with one id are the same row. */
  lemma SameIdSameCategory(d: Db, found: Option<ModuleCategory>, c: ModuleCategory)
    requires Constrained(d)
    requires c in d.categories
    ensures found.Some? && found.value in d.categories && found.value.id == c.id ==> found.value == c
  {
  }

  /** Tag ids are a key: two stored tags with one id are the same row. */
  lemma SameIdSameTag(d: Db, found: Option<Tag>, t: Tag)
    requires Constrained(d)
    requires t in d.tags
    ensures found.Some? && found.value in d.tags && found.value.id == t.id ==> found.value == t
  {
  }

  class ModerationService {
    const db: Store

    constructor(db: Store)
      ensures this.db == db
    {
      this.db := db;
    }

    /**
     * A blank name fails first; a name already present ignoring case fails
     * and adds nothing; otherwise exactly one category is stored, with a blank
     * description stored as null.
     */
    method AddCategoryAsync(name: string, description: string) returns (r: Result<ModuleCategory>)
      requires db.Valid()
      modifies db
      ensures db.Valid()
      ensures r.Failure? <==> IsBlank(name) || old(db.GetCategoryByName(name)).Some?
      ensures r.Failure? ==> r.error == BusinessRule && db.State() == old(db.State())
      ensures r.Success? ==> r.value == ModuleCategory(old(db.next.categoryId), name, Normalised(description))
      ensures r.Success? ==> db.State() == old(db.State()).(categories := old(db.categories) + [r.value],
                                                           next := old(db.next).(categoryId := old(db.next.categoryId) + 1))
    {
      if IsBlank(name) {
        return Failure(BusinessRule);
      }
      if db.GetCategoryByName(name).Some? {
        return Failure(BusinessRule);
      }
      var category := ModuleCategory(0, name, Normalised(description));
      assert forall i | 0 <= i < |db.categories| :: db.categories[i].name != name by {
        forall i | 0 <= i < |db.categories| ensures db.categories[i].name != name {
          assert !EqualsIgnoreCase(db.categories[i].name, name);
        }
      }
      var added := db.AddCategory(category);
      match added
      case Failure(_) =>
        return Failure(BusinessRule);
      case Success(row) =>
        return Success(row);
    }

    /**
     * NotFound for a missing id. A rename to a name another category holds
     * ignoring case fails. Otherwise the category becomes `EditedCategory`,
     * and the store is written only when that differs from the stored row.
     */
    method UpdateCategoryAsync(categoryId: int, newName: string, newDescription: string)
      returns (r: Result<ModuleCategory>)
      requires db.Valid()
      modifies db
      ensures db.Valid()
      ensures old(db.GetCategoryById(categoryId)).None? ==> r == Failure(NotFound)
      ensures old(db.GetCategoryById(categoryId)).Some? ==>
                var c := old(db.GetCategoryById(categoryId)).value;
                && (r.Failure? <==> Renames(c.name, newName) && old(db.GetCategoryByName(newName)).Some?)
                && (r.Failure? ==> r.error == BusinessRule)
                && (r.Success? ==> r.value == EditedCategory(c, newName, newDescription))
      ensures r.Failure? ==> db.State() == old(db.State())
      ensures r.Success? && r.value == old(db.GetCategoryById(categoryId)).value ==> db.State() == old(db.State())
      ensures r.Success? && r.value != old(db.GetCategoryById(categoryId)).value
              ==> db.State() == old(db.State()).(categories := ReplaceCategory(old(db.categories), r.value))
    {
      var found := db.GetCategoryById(categoryId);
      if found.None? {
        return Failure(NotFound);
      }
      var category := found.value;
      ghost var original := category;
      var hasChanges := false;
      if !IsBlank(newName) && !EqualsIgnoreCase(category.name, newName) {
        var existing := db.GetCategoryByName(newName);
        SameIdSameCategory(db.State(), existing, original);
        if existing.Some? && existing.value.id != categoryId {
          return Failure(BusinessRule);
        }
        category := category.(name := newName);
        hasChanges := true;
      }
      var currentDescription := category.description.GetOr("");
      var updatedDescription := if IsBlank(newDescription) then "" else newDescription;
      if currentDescription != updatedDescription {
        category := category.(description := if IsBlank(newDescription) then None else Some(newDescription));
        hasChanges := true;
      }
      assert category == EditedCategory(original, newName, newDescription);
      EditedCategoryChanges(original, newName, newDescription);
      if hasChanges {
        ghost var i :| 0 <= i < |db.categories| && db.categories[i] == original;
        OwnNameFree(db.State(), i);
        var updated := db.UpdateCategory(category);
        if updated.Fail? {
          return Failure(BusinessRule);
        }
      }
      return Success(category);
    }

    /**
     * NotFound for a missing id; BusinessRule, keeping the category, while a
     * module refers to it; otherwise the category alone is removed.
     */
    method DeleteCategoryAsync(categoryId: int) returns (r: Outcome)
      requires db.Valid()
      modifies db
      ensures db.Valid()
      ensures r == Fail(NotFound) <==> old(db.GetCategoryById(categoryId)).None?
      ensures r == Fail(BusinessRule) <==> old(db.GetCategoryById(categoryId)).Some? && old(db.IsCategoryInUse(categoryId))
      ensures r.Done? <==> old(db.GetCategoryById(categoryId)).Some? && !old(db.IsCategoryInUse(categoryId))
      ensures r.Fail? ==> db.State() == old(db.State())
      ensures r.Done? ==> db.State() == old(db.State()).(categories := RemoveCategory(old(db.categories), categoryId))
      ensures r.Done? ==> db.GetCategoryById(categoryId).None?
    {
      var category := db.GetCategoryById(categoryId);
      if category.None? {
        return Fail(NotFound);
      }
      if db.IsCategoryInUse(categoryId) {
        return Fail(BusinessRule);
      }
      var deleted := db.DeleteCategory(categoryId);
      if !deleted {
        return Fail(BusinessRule);
      }
      r := Done;
    }

    /**
     * A blank name fails first; a name already present ignoring case fails
     * and adds nothing; otherwise exactly one tag is stored.
     */
    method AddTagAsync(name: string) returns (r: Result<Tag>)
      requires db.Valid()
      modifies db
      ensures db.Valid()
      ensures r.Failure? <==> IsBlank(name) || old(db.GetTagByName(name)).Some?
      ensures r.Failure? ==> r.error == BusinessRule && db.State() == old(db.State())
      ensures r.Success? ==> r.value == Tag(old(db.next.tagId), name)
      ensures r.Success? ==> db.State() == old(db.State()).(tags := old(db.tags) + [r.value],
                                                           next := old(db.next).(tagId := old(db.next.tagId) + 1))
    {
      if IsBlank(name) {
        return Failure(BusinessRule);
      }
      if db.GetTagByName(name).Some? {
        return Failure(BusinessRule);
      }
      assert forall i | 0 <= i < |db.tags| :: db.tags[i].name != name by {
        forall i | 0 <= i < |db.tags| ensures db.tags[i].name != name {
          assert !EqualsIgnoreCase(db.tags[i].name, name);
        }
      }
      var added := db.AddTag(Tag(0, name));
      match added
      case Failure(_) =>
        return Failure(BusinessRule);
      case Success(row) =>
        return Success(row);
    }

    /**
     * A blank name fails first, then a missing id. A name equal to the current
     * one ignoring case returns the tag without a write; a name another tag
     * holds ignoring case fails; otherwise the tag is renamed.
     */
    method UpdateTagAsync(tagId: int, newName: string) returns (r: Result<Tag>)
      requires db.Valid()
      modifies db
      ensures db.Valid()
      ensures IsBlank(newName) ==> r == Failure(BusinessRule)
      ensures !IsBlank(newName) && old(db.GetTagById(tagId)).None? ==> r == Failure(NotFound)
      ensures !IsBlank(newName) && old(db.GetTagById(tagId)).Some? ==>
                var t := old(db.GetTagById(tagId)).value;
                && (EqualsIgnoreCase(t.name, newName) ==> r == Success(t))
                && (!EqualsIgnoreCase(t.name, newName) ==>
                      && (r.Failure? <==> old(db.GetTagByName(newName)).Some?)
                      && (r.Failure? ==> r.error == BusinessRule)
                      && (r.Success? ==> r.value == t.(name := newName)))
      ensures r.Failure? ==> db.State() == old(db.State())
      ensures r.Success? && r.value == old(db.GetTagById(tagId)).value ==> db.State() == old(db.State())
      ensures r.Success? && r.value != old(db.GetTagById(tagId)).value
              ==> db.State() == old(db.State()).(tags := ReplaceTag(old(db.tags), r.value))
    {
      if IsBlank(newName) {
        return Failure(BusinessRule);
      }
      var found := db.GetTagById(tagId);
      if found.None? {
        return Failure(NotFound);
      }
      var tag := found.value;
      if EqualsIgnoreCase(tag.name, newName) {
        return Success(tag);
      }
      var existing := db.GetTagByName(newName);
      SameIdSameTag(db.State(), existing, tag);
      if existing.Some? && existing.value.id != tagId {
        return Failure(BusinessRule);
      }
      var renamed := tag.(name := newName);
      var updated := db.UpdateTag(renamed);
      if updated.Fail? {
        return Failure(BusinessRule);
      }
      return Success(renamed);
    }

    /**
     * NotFound for a missing id; BusinessRule, keeping the tag, while a
     * module-tag link refers to it; otherwise the tag alone is removed.
     */
    method DeleteTagAsync(tagId: int) returns (r: Outcome)
      requires db.Valid()
      modifies db
      ensures db.Valid()
      ensures r == Fail(NotFound) <==> old(db.GetTagById(tagId)).None?
      ensures r == Fail(BusinessRule) <==> old(db.GetTagById(tagId)).Some? && old(db.IsTagInUse(tagId))
      ensures r.Done? <==> old(db.GetTagById(tagId)).Some? && !old(db.IsTagInUse(tagId))
      ensures r.Fail? ==> db.State() == old(db.State())
      ensures r.Done? ==> db.State() == old(db.State()).(tags := RemoveTag(old(db.tags), tagId))
      ensures r.Done? ==> db.GetTagById(tagId).None?
    {
      var tag := db.GetTagById(tagId);
      if tag.None? {
        return Fail(NotFound);
      }
      if db.IsTagInUse(tagId) {
        return Fail(BusinessRule);
      }
      var deleted := db.DeleteTag(tagId);
      if !deleted {
        return Fail(BusinessRule);
      }
      r := Done;
    }

    /**
     * Checks that the module and every listed tag exist, and then writes
     * nothing: the code that would reconcile the links is disabled.
     */
    method AssignTagsToModuleAsync(moduleId: int, newTagIds: seq<int>) returns (r: Outcome)
      requires db.Valid()
      ensures r.Fail? ==> r.error == NotFound
      ensures r.Fail? <==> || db.GetModuleById(moduleId).None?
                           || exists k | 0 <= k < |newTagIds| :: db.GetTagById(newTagIds[k]).None?
    {
      if db.GetModuleById(moduleId).None? {
        return Fail(NotFound);
      }
      var k := 0;
      while k < |newTagIds|
        invariant 0 <= k <= |newTagIds|
        invariant forall j | 0 <= j < k :: db.GetTagById(newTagIds[j]).Some?
      {
        if db.GetTagById(newTagIds[k]).None? {
          return Fail(NotFound);
        }
        k := k + 1;
      }
      r := Done;
    }

    /** Exactly the modules not yet verified. */
    function GetUnverifiedModulesAsync(): (r: seq<Module>)
      reads db
      ensures forall i | 0 <= i < |r| :: r[i] in db.modules && !r[i].isVerified
      ensures forall j | 0 <= j < |db.modules| :: !db.modules[j].isVerified ==> db.modules[j] in r
    {
      db.GetUnverifiedModules()
    }

    /**
     * NotFound for a missing id. A module already in the requested state is
     * returned with no write; otherwise its flag and last update date change
     * and nothing else does.
     */
    method VerifyModuleAsync(moduleId: int, isVerifiedStatus: bool, now: int) returns (r: Result<Module>)
      requires db.Valid()
      modifies db
      ensures db.Valid()
      ensures r.Failure? <==> old(db.GetModuleById(moduleId)).None?
      ensures r.Failure? ==> r.error == NotFound && db.State() == old(db.State())
      ensures r.Success? && old(db.GetModuleById(moduleId)).value.isVerified == isVerifiedStatus
              ==> r.value == old(db.GetModuleById(moduleId)).value && db.State() == old(db.State())
      ensures r.Success? && old(db.GetModuleById(moduleId)).value.isVerified != isVerifiedStatus
              ==> && r.value == old(db.GetModuleById(moduleId)).value.(isVerified := isVerifiedStatus, lastUpdateDate := now)
                  && db.State() == old(db.State()).(modules := ReplaceModule(old(db.modules), r.value))
      ensures r.Success? ==> r.value.isVerified == isVerifiedStatus
    {
      var found := db.GetModuleById(moduleId);
      if found.None? {
        return Failure(NotFound);
      }
      var m := found.value;
      if m.isVerified == isVerifiedStatus {
        return Success(m);
      }
      StoredModuleReferences(db.State(), m);
      m := m.(isVerified := isVerifiedStatus, lastUpdateDate := now);
      assert db.GetModuleById(m.id).Some? && db.GetUserById(m.authorId).Some? && db.GetCategoryById(m.categoryId).Some?;
      var updated := db.UpdateModule(m);
      if updated.Fail? {
        return Failure(BusinessRule);
      }
      return Success(m);
    }
  }
}
