/**
 * `AnnouncementService`: every mutator looks the announcement up by uuid or alias, changes one
 * field of it, and writes it back with `dao.modify`; a failed lookup returns empty and writes
 * nothing. The two Java overloads of each mutator (by `UUID`, by `String alias`) are one method
 * here, taking a `Ref`.
 */
module Service {
  import opened Wrappers
  import opened Longs
  import opened Uuids
  import opened Entities
  import opened Repository

  /** Writing an entry back unchanged leaves a valid store as it was. */
  lemma OverwriteSame(s: seq<Announcement>, a: Announcement)
    requires Repository.Valid(s) && a in s
    ensures Overwrite(s, a) == s
  {
    var k :| 0 <= k < |s| && s[k] == a;
    forall i | 0 <= i < |s| ensures Overwrite(s, a)[i] == s[i] {
      if i < k {
        assert Distinct(s[i], s[k]);
      } else if k < i {
        assert Distinct(s[k], s[i]);
      }
    }
  }

  class AnnouncementService {
    /** The announcement DAO's collection, in insertion order. */
    var entries: seq<Announcement>

    /** Uuids and aliases name one entry each, and no entry lists a group or a trigger twice. */
    ghost predicate Valid()
      reads this
    {
      Repository.Valid(entries) && StoredListsDistinct(entries)
    }

    constructor ()
      ensures Valid() && entries == []
    {
      entries := [];
    }

    /** `create()`: a new, disabled, empty announcement is added under a fresh uuid. */
    method Create(id: Uuid) returns (a: Announcement)
      requires Valid() && Find(entries, ById(id)).None?
      modifies this
      ensures Valid()
      ensures a == NewAnnouncement(id, None) && entries == old(entries) + [a]
      ensures Find(entries, ById(id)) == Some(a)
    {
      a := NewAnnouncement(id, None);
      AppendFind(entries, a, ById(id));
      entries := entries + [a];
    }

    /**
     * `create(alias)`, which the controller calls; it is taken to refuse an alias that is
     * already in use and otherwise to add a new announcement with that alias.
     */
    method CreateAliased(alias: string, id: Uuid) returns (r: Option<Announcement>)
      requires Valid() && Find(entries, ById(id)).None?
      modifies this
      ensures Valid()
      ensures Find(old(entries), ByAlias(alias)).Some? ==> r.None? && entries == old(entries)
      ensures Find(old(entries), ByAlias(alias)).None? ==>
        r == Some(NewAnnouncement(id, Some(alias))) && entries == old(entries) + [r.value]
      ensures r.Some? ==> Find(entries, ById(id)) == r && Find(entries, ByAlias(alias)) == r
    {
      if Find(entries, ByAlias(alias)).Some? {
        r := None;
      } else {
        var a := NewAnnouncement(id, Some(alias));
        AppendFind(entries, a, ById(id));
        AppendFind(entries, a, ByAlias(alias));
        entries := entries + [a];
        r := Some(a);
      }
    }

    /** `get(uuid)` / `get(alias)`. */
    method Get(ref: Ref) returns (r: Option<Announcement>)
      ensures r == Find(entries, ref)
      ensures r.Some? ==> r.value in entries && Matches(r.value, ref)
      ensures r.None? ==> forall a :: a in entries ==> !Matches(a, ref)
    {
      r := Find(entries, ref);
    }

    /** `delete(uuid)`: returns the removed announcement; its uuid and alias then name nothing. */
    method Delete(id: Uuid) returns (r: Option<Announcement>)
      requires Valid()
      modifies this
      ensures Valid()
      ensures r == Find(old(entries), ById(id)) && entries == Remove(old(entries), id)
      ensures Find(entries, ById(id)).None?
      ensures r.Some? && r.value.alias.Some? ==> Find(entries, ByAlias(r.value.alias.value)).None?
    {
      r := Find(entries, ById(id));
      RemoveFind(entries, id, ById(id));
      if r.Some? && r.value.alias.Some? {
        FindUnique(entries, ByAlias(r.value.alias.value), r.value);
        RemoveFind(entries, id, ByAlias(r.value.alias.value));
      }
      entries := Remove(entries, id);
    }

    /** `dao.modify(a)` for an announcement just read from the store and changed. */
    method Modify(a: Announcement)
      requires Valid() && Find(entries, ById(a.id)).Some?
      requires Find(entries, ById(a.id)).value.alias == a.alias && ListsDistinct(a)
      modifies this
      ensures Valid() && entries == Overwrite(old(entries), a)
    {
      OverwriteListsDistinct(entries, a);
      OverwriteFind(entries, Find(entries, ById(a.id)).value, a, ById(a.id));
      entries := Overwrite(entries, a);
    }

    /**
     * `addGroup`: the group number is appended unless the list holds it already, in which
     * case nothing changes.
     */
    method AddGroup(ref: Ref, g: Long) returns (r: Option<Announcement>)
      requires Valid()
      modifies this
      ensures Valid()
      ensures r.Some? ==> ListsDistinct(r.value)
      ensures match Find(old(entries), ref)
        case None => r.None? && entries == old(entries)
        case Some(a) =>
          r == Some(a.(groups := AddAbsent(a.groups, g))) && entries == Overwrite(old(entries), r.value)
      ensures Find(old(entries), ref).Some? && g in Find(old(entries), ref).value.groups ==>
        entries == old(entries)
    {
      r := Get(ref);
      if r.Some? {
        var a := r.value;
        var groups := a.groups;
        if g !in groups {
          groups := groups + [g];
        }
        a := a.(groups := groups);
        FindUnique(entries, ById(a.id), r.value);
        Modify(a);
        if g in r.value.groups {
          OverwriteSame(old(entries), r.value);
        }
        r := Some(a);
      }
    }

    /**
     * `removeGroup`: every occurrence of the group number is removed, the other groups keep
     * their order; the announcement is returned whether or not it held the group.
     */
    method RemoveGroup(ref: Ref, g: Long) returns (r: Option<Announcement>)
      requires Valid()
      modifies this
      ensures Valid()
      ensures r.Some? ==> ListsDistinct(r.value)
      ensures match Find(old(entries), ref)
        case None => r.None? && entries == old(entries)
        case Some(a) =>
          r == Some(a.(groups := RemoveKey(a.groups, GroupKey, g))) && entries == Overwrite(old(entries), r.value)
      ensures Find(old(entries), ref).Some? && g !in Find(old(entries), ref).value.groups ==>
        entries == old(entries)
    {
      r := Get(ref);
      if r.Some? {
        var a := r.value;
        var groups := a.groups;
        if g in groups {
          RemoveKeyNoDuplicates(groups, GroupKey, g);
          groups := RemoveKey(groups, GroupKey, g);
        } else {
          RemoveKeyNothing(groups, GroupKey, g);
        }
        a := a.(groups := groups);
        FindUnique(entries, ById(a.id), r.value);
        Modify(a);
        if g !in r.value.groups {
          OverwriteSame(old(entries), r.value);
        }
        r := Some(a);
      }
    }

    /**
     * `addTrigger`: the trigger is appended unless an equal trigger (same uuid and same cron)
     * is present already, in which case nothing changes.
     */
    method AddTrigger(ref: Ref, t: Trigger) returns (r: Option<Announcement>)
      requires Valid()
      modifies this
      ensures Valid()
      ensures r.Some? ==> ListsDistinct(r.value)
      ensures match Find(old(entries), ref)
        case None => r.None? && entries == old(entries)
        case Some(a) =>
          r == Some(a.(triggers := AddAbsent(a.triggers, t))) && entries == Overwrite(old(entries), r.value)
      ensures Find(old(entries), ref).Some? && t in Find(old(entries), ref).value.triggers ==>
        entries == old(entries)
    {
      r := Get(ref);
      if r.Some? {
        var a := r.value;
        var triggers := a.triggers;
        if t !in triggers {
          triggers := triggers + [t];
        }
        a := a.(triggers := triggers);
        FindUnique(entries, ById(a.id), r.value);
        Modify(a);
        if t in r.value.triggers {
          OverwriteSame(old(entries), r.value);
        }
        r := Some(a);
      }
    }

    /**
     * `removeTrigger`: every trigger with that uuid is removed, the other triggers keep their
     * order; the announcement is returned whether or not it held such a trigger.
     */
    method RemoveTrigger(ref: Ref, triggerId: Uuid) returns (r: Option<Announcement>)
      requires Valid()
      modifies this
      ensures Valid()
      ensures r.Some? ==> ListsDistinct(r.value)
      ensures match Find(old(entries), ref)
        case None => r.None? && entries == old(entries)
        case Some(a) =>
          r == Some(a.(triggers := RemoveKey(a.triggers, TriggerKey, triggerId)))
          && entries == Overwrite(old(entries), r.value)
      ensures Find(old(entries), ref).Some? && (forall t :: t in Find(old(entries), ref).value.triggers ==> t.id != triggerId) ==>
        r == Find(old(entries), ref) && entries == old(entries)
    {
      r := Get(ref);
      if r.Some? {
        var a := r.value;
        var triggers := a.triggers;
        if exists e :: e in triggers && e.id == triggerId {
          RemoveKeyNoDuplicates(triggers, TriggerKey, triggerId);
          triggers := RemoveKey(triggers, TriggerKey, triggerId);
        } else {
          RemoveKeyNothing(triggers, TriggerKey, triggerId);
        }
        a := a.(triggers := triggers);
        FindUnique(entries, ById(a.id), r.value);
        Modify(a);
        if forall t :: t in r.value.triggers ==> t.id != triggerId {
          OverwriteSame(old(entries), r.value);
        }
        r := Some(a);
      }
    }

    /** `setBody`: the body is replaced whatever it was before; no other field changes. */
    method SetBody(ref: Ref, body: Body) returns (r: Option<Announcement>)
      requires Valid()
      modifies this
      ensures Valid()
      ensures match Find(old(entries), ref)
        case None => r.None? && entries == old(entries)
        case Some(a) => r == Some(a.(body := Some(body))) && entries == Overwrite(old(entries), r.value)
    {
      r := Get(ref);
      if r.Some? {
        var a := r.value.(body := Some(body));
        FindUnique(entries, ById(a.id), r.value);
        Modify(a);
        r := Some(a);
      }
    }

    /** `enable`: the announcement becomes enabled; enabling an enabled one changes nothing. */
    method Enable(ref: Ref) returns (r: Option<Announcement>)
      requires Valid()
      modifies this
      ensures Valid()
      ensures match Find(old(entries), ref)
        case None => r.None? && entries == old(entries)
        case Some(a) => r == Some(a.(enabled := true)) && entries == Overwrite(old(entries), r.value)
      ensures Find(old(entries), ref).Some? && Find(old(entries), ref).value.enabled ==>
        entries == old(entries)
    {
      r := Get(ref);
      if r.Some? {
        var a := r.value.(enabled := true);
        FindUnique(entries, ById(a.id), r.value);
        Modify(a);
        if r.value.enabled {
          OverwriteSame(old(entries), r.value);
        }
        r := Some(a);
      }
    }

    /** `disable`: the announcement becomes disabled; disabling a disabled one changes nothing. */
    method Disable(ref: Ref) returns (r: Option<Announcement>)
      requires Valid()
      modifies this
      ensures Valid()
      ensures match Find(old(entries), ref)
        case None => r.None? && entries == old(entries)
        case Some(a) => r == Some(a.(enabled := false)) && entries == Overwrite(old(entries), r.value)
      ensures Find(old(entries), ref).Some? && !Find(old(entries), ref).value.enabled ==>
        entries == old(entries)
    {
      r := Get(ref);
      if r.Some? {
        var a := r.value.(enabled := false);
        FindUnique(entries, ById(a.id), r.value);
        Modify(a);
        if !r.value.enabled {
          OverwriteSame(old(entries), r.value);
        }
        r := Some(a);
      }
    }

    /** `getAll`: every stored announcement, in store order. */
    method GetAll() returns (all: seq<Announcement>)
      ensures all == entries
    {
      all := entries;
    }
  }
}
