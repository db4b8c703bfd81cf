/**
 * The announcement DAO as the service uses it: an in-memory collection of announcements in
 * insertion order. `get` returns the first entry with the given uuid or alias, `add` appends,
 * `modify` overwrites the entry that has the same uuid and `delete` removes it.
 */
module Repository {
  import opened Wrappers
  import opened Uuids
  import opened Entities

  /** How the service is asked for an announcement: the `UUID` or the `String alias` overload. */
  datatype Ref = ById(id: Uuid) | ByAlias(alias: string)

  predicate Matches(a: Announcement, ref: Ref) {
    match ref
    case ById(id) => a.id == id
    case ByAlias(alias) => a.alias == Some(alias)
  }

  /**
   * The store's invariant: no two entries share a uuid, and no two share an alias.
   * Only `create(alias)` gives an announcement an alias, and it refuses one already in use.
   */
  predicate Valid(s: seq<Announcement>) {
    forall i, j :: 0 <= i < j < |s| ==> Distinct(s[i], s[j])
  }

  /** Two entries that may live in one store: different uuids, and different aliases if both have one. */
  predicate Distinct(a: Announcement, b: Announcement) {
    a.id != b.id && (a.alias.Some? && b.alias.Some? ==> a.alias != b.alias)
  }

  /**
   * An announcement's group list and trigger list each hold every element at most once: the
   * service adds a group or a trigger only when it is absent.
   */
  predicate ListsDistinct(a: Announcement) {
    NoDuplicates(a.groups) && NoDuplicates(a.triggers)
  }

  /** Every stored announcement keeps its lists free of repetitions. */
  predicate StoredListsDistinct(s: seq<Announcement>) {
    forall a :: a in s ==> ListsDistinct(a)
  }

  /** The position of the first element satisfying `p`. */
  function FirstIndex<E>(s: seq<E>, p: E -> bool): (r: Option<nat>)
    ensures r.Some? ==> r.value < |s| && p(s[r.value])
    ensures r.Some? ==> forall j :: 0 <= j < r.value ==> !p(s[j])
    ensures r.None? ==> forall j :: 0 <= j < |s| ==> !p(s[j])
  {
    if s == [] then None
    else if p(s[0]) then Some(0)
    else match FirstIndex(s[1..], p)
      case None => None
      case Some(k) => Some(k + 1)
  }

  /** `dao.get(uuid)` / `dao.get(alias)`: the first stored announcement the reference names. */
  function Find(s: seq<Announcement>, ref: Ref): (r: Option<Announcement>)
    ensures r.Some? ==> r.value in s && Matches(r.value, ref)
    ensures r.None? <==> forall a :: a in s ==> !Matches(a, ref)
  {
    match FirstIndex(s, a => Matches(a, ref))
    case None => None
    case Some(i) => Some(s[i])
  }

  /** `dao.modify(a)`: the entry with `a`'s uuid becomes `a`; order and other entries are kept. */
  function Overwrite(s: seq<Announcement>, a: Announcement): (r: seq<Announcement>)
    ensures |r| == |s|
    ensures forall i :: 0 <= i < |s| ==> r[i] == if s[i].id == a.id then a else s[i]
  {
    seq(|s|, i requires 0 <= i < |s| => if s[i].id == a.id then a else s[i])
  }

  /** `dao.delete(id)`: every entry with that uuid is removed, the others kept in order. */
  function Remove(s: seq<Announcement>, id: Uuid): (r: seq<Announcement>)
    ensures |r| <= |s|
    ensures forall a :: a in r ==> a in s && a.id != id
    ensures forall a :: a in s && a.id != id ==> a in r
  {
    RemoveWhere(s, (a: Announcement) => a.id == id)
  }

  /** In a valid store a reference names at most one announcement. */
  lemma FindUnique(s: seq<Announcement>, ref: Ref, a: Announcement)
    requires Valid(s) && a in s && Matches(a, ref)
    ensures Find(s, ref) == Some(a)
  {
    var b := Find(s, ref).value;
    var i :| 0 <= i < |s| && s[i] == a;
    var j :| 0 <= j < |s| && s[j] == b;
    if i < j || j < i {
      assert false;
    }
  }

  /** Overwriting an entry with one of the same uuid and alias keeps every uuid and alias in place. */
  lemma OverwriteKeys(s: seq<Announcement>, old_a: Announcement, a: Announcement)
    requires Valid(s) && old_a in s && old_a.id == a.id && old_a.alias == a.alias
    ensures Valid(Overwrite(s, a)) && a in Overwrite(s, a)
    ensures forall i :: 0 <= i < |s| ==> Overwrite(s, a)[i].id == s[i].id && Overwrite(s, a)[i].alias == s[i].alias
  {
    var t := Overwrite(s, a);
    var k :| 0 <= k < |s| && s[k] == old_a;
    assert t[k] == a;
  }

  /**
   * `modify` with an announcement that keeps the stored uuid and alias: the store stays valid,
   * a reference that named the old entry now names the new one, and every other reference
   * finds what it found before.
   */
  lemma OverwriteFind(s: seq<Announcement>, old_a: Announcement, a: Announcement, ref: Ref)
    requires Valid(s) && old_a in s && old_a.id == a.id && old_a.alias == a.alias
    ensures Valid(Overwrite(s, a))
    ensures Find(Overwrite(s, a), ref) == if Find(s, ref) == Some(old_a) then Some(a) else Find(s, ref)
  {
    var t := Overwrite(s, a);
    OverwriteKeys(s, old_a, a);
    assert Matches(a, ref) == Matches(old_a, ref);
    if Matches(old_a, ref) {
      FindUnique(s, ref, old_a);
      FindUnique(t, ref, a);
    } else if Find(s, ref).Some? {
      var b := Find(s, ref).value;
      var k :| 0 <= k < |s| && s[k] == b;
      assert b.id != a.id by {
        var m :| 0 <= m < |s| && s[m] == old_a;
        assert m != k;
      }
      assert t[k] == b;
      FindUnique(s, ref, b);
      FindUnique(t, ref, b);
    } else {
      forall i | 0 <= i < |t| ensures !Matches(t[i], ref) {
        assert s[i] in s;
      }
    }
  }

  /**
   * `delete(id)` keeps the store valid; afterwards the uuid and the alias of the deleted entry
   * name nothing, and every other reference finds what it found before.
   */
  lemma RemoveFind(s: seq<Announcement>, id: Uuid, ref: Ref)
    requires Valid(s)
    ensures Valid(Remove(s, id))
    ensures Find(Remove(s, id), ById(id)).None?
    ensures Find(Remove(s, id), ref) == if Find(s, ref).Some? && Find(s, ref).value.id == id then None else Find(s, ref)
  {
    RemoveKeepsValid(s, id);
    var t := Remove(s, id);
    if Find(s, ref).Some? && Find(s, ref).value.id != id {
      FindUnique(s, ref, Find(s, ref).value);
      FindUnique(t, ref, Find(s, ref).value);
    } else if Find(s, ref).Some? {
      var gone := Find(s, ref).value;
      FindUnique(s, ref, gone);
      forall b | b in t ensures !Matches(b, ref) {
        assert b in s && b.id != id;
        if Matches(b, ref) {
          FindUnique(s, ref, b);
        }
      }
    }
  }

  lemma {:induction false} RemoveKeepsValid(s: seq<Announcement>, id: Uuid)
    requires Valid(s)
    ensures Valid(Remove(s, id))
  {
    if s != [] {
      RemoveKeepsValid(s[1..], id);
      var rest := Remove(s[1..], id);
      if s[0].id != id {
        forall b | b in rest ensures Distinct(s[0], b) {
          var k :| 0 <= k < |s[1..]| && s[1..][k] == b;
          assert s[k + 1] == b;
        }
        PrependValid(s[0], rest);
      }
    }
  }

  lemma PrependValid(x: Announcement, r: seq<Announcement>)
    requires Valid(r) && forall b :: b in r ==> Distinct(x, b)
    ensures Valid([x] + r)
  {
    var t := [x] + r;
    forall i, j | 0 <= i < j < |t| ensures Distinct(t[i], t[j]) {
      if i == 0 {
        assert t[j] == r[j - 1] && r[j - 1] in r;
      } else {
        assert t[i] == r[i - 1] && t[j] == r[j - 1];
      }
    }
  }

  /**
   * `add` of an announcement whose uuid and alias are both unused keeps the store valid; the
   * new announcement is found by what names it, and every other reference finds what it found
   * before.
   */
  lemma AppendFind(s: seq<Announcement>, a: Announcement, ref: Ref)
    requires Valid(s) && Find(s, ById(a.id)).None?
    requires a.alias.Some? ==> Find(s, ByAlias(a.alias.value)).None?
    ensures Valid(s + [a])
    ensures Find(s + [a], ref) == if Matches(a, ref) then Some(a) else Find(s, ref)
  {
    var t := s + [a];
    forall i, j | 0 <= i < j < |t| ensures t[i].id != t[j].id {
      if j == |s| { assert t[i] in s; }
    }
    forall i, j | 0 <= i < j < |t| && t[i].alias.Some? ensures t[i].alias != t[j].alias {
      if j == |s| {
        assert t[i] in s;
        assert Matches(t[i], ByAlias(t[i].alias.value));
      }
    }
    if Matches(a, ref) {
      assert a in t;
      FindUnique(t, ref, a);
    } else if Find(s, ref).Some? {
      FindUnique(s, ref, Find(s, ref).value);
      FindUnique(t, ref, Find(s, ref).value);
    } else {
      assert forall b :: b in t ==> b in s || b == a;
    }
  }

  /** Writing back an announcement with repetition-free lists keeps every stored list free of them. */
  lemma OverwriteListsDistinct(s: seq<Announcement>, a: Announcement)
    requires StoredListsDistinct(s) && ListsDistinct(a)
    ensures StoredListsDistinct(Overwrite(s, a))
  {
    forall b | b in Overwrite(s, a) ensures ListsDistinct(b) {
      var i :| 0 <= i < |s| && Overwrite(s, a)[i] == b;
      assert s[i] in s;
    }
  }

  /** A second `modify` of the same entry replaces the first. */
  lemma OverwriteTwice(s: seq<Announcement>, a: Announcement, b: Announcement)
    requires a.id == b.id
    ensures Overwrite(Overwrite(s, a), b) == Overwrite(s, b)
  {
  }

  /**
   * One more read-change-write of the same entry: if the store is `s0` with that entry
   * overwritten by `cur`, writing `next` over it gives `s0` with the entry overwritten by `next`.
   */
  lemma OverwriteStep(s0: seq<Announcement>, s: seq<Announcement>, cur: Announcement, next: Announcement)
    requires Valid(s) && s == Overwrite(s0, cur) && Find(s, ById(cur.id)) == Some(cur)
    requires next.id == cur.id && next.alias == cur.alias
    ensures Valid(Overwrite(s, next)) && Find(Overwrite(s, next), ById(cur.id)) == Some(next)
    ensures Overwrite(s, next) == Overwrite(s0, next)
  {
    OverwriteFind(s, cur, next, ById(cur.id));
    OverwriteTwice(s0, cur, next);
  }
}
