/**
 * The announcement aggregate and its parts, and the list operations the service performs on
 * an announcement's group list and trigger list.
 */
module Entities {
  import opened Wrappers
  import opened Longs
  import opened Uuids

  /** A schedule attached to an announcement; `cron` is kept verbatim, never interpreted. */
  datatype Trigger = Trigger(id: Uuid, cron: string)

  /**
   * What an announcement says: literal text (`PlainBody`), or a reference to a template
   * together with the variables typed for it (`TemplateBody`).
   */
  datatype Body =
    | Plain(content: string)
    | Templated(templateId: Uuid, vars: map<string, string>)

  /** A reusable text, addressable by uuid or by alias. */
  datatype Template = Template(id: Uuid, alias: Option<string>, text: string)

  /** An announcement; `body` is `None` where the Java field is `null`. */
  datatype Announcement = Announcement(
    id: Uuid,
    alias: Option<string>,
    enabled: bool,
    groups: seq<Long>,
    triggers: seq<Trigger>,
    body: Option<Body>)

  /** `new Announcement()` with its uuid (and, for `create(alias)`, its alias) set. */
  function NewAnnouncement(id: Uuid, alias: Option<string>): (a: Announcement)
    ensures a.id == id && a.alias == alias
    ensures !a.enabled && a.groups == [] && a.triggers == [] && a.body.None?
  {
    Announcement(id, alias, false, [], [], None)
  }

  predicate NoDuplicates<T(==)>(xs: seq<T>) {
    forall i, j :: 0 <= i < j < |xs| ==> xs[i] != xs[j]
  }

  /**
   * `if (xs.stream().noneMatch(e -> e.equals(x))) xs.add(x)`: the list gains `x` at its end
   * exactly when it did not hold it, and is otherwise left as it was.
   */
  function AddAbsent<T(==)>(xs: seq<T>, x: T): (r: seq<T>)
    ensures xs <= r && x in r
    ensures forall y :: y in r ==> y in xs || y == x
    ensures |r| == if x in xs then |xs| else |xs| + 1
    ensures NoDuplicates(xs) ==> NoDuplicates(r)
  {
    if x in xs then xs else xs + [x]
  }

  /** `xs.removeIf(drop)`: the elements `drop` rejects are removed, the others kept in order. */
  function RemoveWhere<T>(xs: seq<T>, drop: T -> bool): (r: seq<T>)
    ensures |r| <= |xs|
    ensures forall y :: y in r ==> y in xs && !drop(y)
    ensures forall y :: y in xs && !drop(y) ==> y in r
  {
    if xs == [] then []
    else (if drop(xs[0]) then [] else [xs[0]]) + RemoveWhere(xs[1..], drop)
  }

  /** `xs.removeIf(e -> key(e).equals(k))`. */
  function RemoveKey<T, K(==)>(xs: seq<T>, key: T -> K, k: K): (r: seq<T>)
    ensures forall y :: y in r ==> y in xs && key(y) != k
    ensures forall y :: y in xs && key(y) != k ==> y in r
  {
    RemoveWhere(xs, e => key(e) == k)
  }

  /** The key a group list is searched by: the group number itself. */
  function GroupKey(g: Long): Long { g }

  /** The key a trigger list is searched by: the trigger's uuid. */
  function TriggerKey(t: Trigger): Uuid { t.id }

  /** Every element whose key is one of `ks` is removed, the others kept in order. */
  function RemoveKeys<T, K(==)>(xs: seq<T>, key: T -> K, ks: seq<K>): (r: seq<T>)
    ensures forall y :: y in r ==> y in xs && key(y) !in ks
    ensures forall y :: y in xs && key(y) !in ks ==> y in r
  {
    RemoveWhere(xs, e => key(e) in ks)
  }

  /** `AddAbsent` once per element of `xs`, in order (the loop of the "设置群" command). */
  function AddEachAbsent<T(==)>(xs: seq<T>, ys: seq<T>): (r: seq<T>)
    ensures xs <= r
    ensures forall y :: y in ys ==> y in r
  {
    if ys == [] then xs else AddAbsent(AddEachAbsent(xs, ys[..|ys| - 1]), ys[|ys| - 1])
  }

  /** Adding an element twice is adding it once. */
  lemma AddAbsentIdempotent<T>(xs: seq<T>, x: T)
    ensures AddAbsent(AddAbsent(xs, x), x) == AddAbsent(xs, x)
  {
  }

  /** Removal is compositional: each part of a list loses its own matching elements. */
  lemma {:induction false} RemoveWhereAppend<T>(xs: seq<T>, ys: seq<T>, drop: T -> bool)
    ensures RemoveWhere(xs + ys, drop) == RemoveWhere(xs, drop) + RemoveWhere(ys, drop)
  {
    if xs != [] {
      assert (xs + ys)[0] == xs[0];
      assert (xs + ys)[1..] == xs[1..] + ys;
      RemoveWhereAppend(xs[1..], ys, drop);
    } else {
      assert xs + ys == ys;
    }
  }

  /** Removing nothing that is there leaves the list unchanged. */
  lemma {:induction false} RemoveWhereNothing<T>(xs: seq<T>, drop: T -> bool)
    requires forall y :: y in xs ==> !drop(y)
    ensures RemoveWhere(xs, drop) == xs
  {
    if xs != [] {
      assert xs[0] in xs;
      assert forall y :: y in xs[1..] ==> y in xs;
      RemoveWhereNothing(xs[1..], drop);
      assert [xs[0]] + xs[1..] == xs;
    }
  }

  /** Removing a key no element has leaves the list unchanged. */
  lemma RemoveKeyNothing<T, K>(xs: seq<T>, key: T -> K, k: K)
    requires forall y :: y in xs ==> key(y) != k
    ensures RemoveKey(xs, key, k) == xs
  {
    RemoveWhereNothing(xs, e => key(e) == k);
  }

  /** Removing in two passes removes what either pass rejects. */
  lemma {:induction false} RemoveWhereTwice<T>(xs: seq<T>, p: T -> bool, q: T -> bool, both: T -> bool)
    requires forall y :: both(y) == (p(y) || q(y))
    ensures RemoveWhere(RemoveWhere(xs, p), q) == RemoveWhere(xs, both)
  {
    if xs != [] {
      var head := if p(xs[0]) then [] else [xs[0]];
      RemoveWhereAppend(head, RemoveWhere(xs[1..], p), q);
      RemoveWhereTwice(xs[1..], p, q, both);
      if !p(xs[0]) {
        assert RemoveWhere(head, q) == if q(xs[0]) then [] else [xs[0]] by {
          assert head[1..] == [];
        }
      }
    }
  }

  /** The count of every element after a removal: zero when rejected, unchanged otherwise. */
  lemma {:induction false} RemoveWhereCounts<T>(xs: seq<T>, drop: T -> bool, y: T)
    ensures multiset(RemoveWhere(xs, drop))[y] == if drop(y) then 0 else multiset(xs)[y]
  {
    if xs != [] {
      RemoveWhereCounts(xs[1..], drop, y);
      assert multiset(xs) == multiset([xs[0]]) + multiset(xs[1..]) by {
        assert xs == [xs[0]] + xs[1..];
      }
      if drop(xs[0]) {
        assert RemoveWhere(xs, drop) == [] + RemoveWhere(xs[1..], drop);
      } else {
        assert multiset(RemoveWhere(xs, drop)) == multiset([xs[0]]) + multiset(RemoveWhere(xs[1..], drop));
      }
    }
  }

  /** Removal keeps a list without duplicates without duplicates. */
  lemma {:induction false} RemoveWhereNoDuplicates<T>(xs: seq<T>, drop: T -> bool)
    requires NoDuplicates(xs)
    ensures NoDuplicates(RemoveWhere(xs, drop))
  {
    if xs != [] {
      var rest := RemoveWhere(xs[1..], drop);
      RemoveWhereNoDuplicates(xs[1..], drop);
      if !drop(xs[0]) {
        assert xs[0] !in xs[1..];
        var r := [xs[0]] + rest;
        forall i, j | 0 <= i < j < |r| ensures r[i] != r[j] {
          if i == 0 {
            assert r[j] == rest[j - 1] && rest[j - 1] in rest;
          } else {
            assert r[i] == rest[i - 1] && r[j] == rest[j - 1];
          }
        }
      }
    }
  }

  /** Removing a key keeps a list without duplicates without duplicates. */
  lemma RemoveKeyNoDuplicates<T, K>(xs: seq<T>, key: T -> K, k: K)
    requires NoDuplicates(xs)
    ensures NoDuplicates(RemoveKey(xs, key, k))
  {
    RemoveWhereNoDuplicates(xs, e => key(e) == k);
  }

  /** One more pass of the "设置群" loop adds the next number. */
  lemma AddEachAbsentPrefix<T>(xs: seq<T>, ys: seq<T>, n: nat)
    requires n < |ys|
    ensures AddEachAbsent(xs, ys[..n + 1]) == AddAbsent(AddEachAbsent(xs, ys[..n]), ys[n])
  {
    assert ys[..n + 1][..n] == ys[..n];
  }

  /** Removing no key keeps every element. */
  lemma RemoveNoKeys<T, K>(xs: seq<T>, key: T -> K)
    ensures RemoveKeys(xs, key, []) == xs
  {
    RemoveWhereNothing(xs, e => key(e) in []);
  }

  /** Removing one more key after a set of keys is removing the extended set. */
  lemma RemoveKeysStep<T, K>(xs: seq<T>, key: T -> K, ks: seq<K>, k: K)
    ensures RemoveKey(RemoveKeys(xs, key, ks), key, k) == RemoveKeys(xs, key, ks + [k])
  {
    RemoveWhereTwice(xs, e => key(e) in ks, e => key(e) == k, e => key(e) in ks + [k]);
  }

  /** One more pass of a removal loop removes the next key. */
  lemma RemoveKeysPrefix<T, K>(xs: seq<T>, key: T -> K, ks: seq<K>, n: nat)
    requires n < |ks|
    ensures RemoveKeys(xs, key, ks[..n + 1]) == RemoveKey(RemoveKeys(xs, key, ks[..n]), key, ks[n])
  {
    assert ks[..n + 1] == ks[..n] + [ks[n]];
    RemoveKeysStep(xs, key, ks[..n], ks[n]);
  }

  /** Removing the key of every element leaves nothing. */
  lemma {:induction false} RemoveKeysAll<T, K>(xs: seq<T>, key: T -> K, ks: seq<K>)
    requires forall e :: e in xs ==> key(e) in ks
    ensures RemoveKeys(xs, key, ks) == []
  {
    if xs != [] {
      assert xs[0] in xs;
      assert forall e :: e in xs[1..] ==> e in xs;
      RemoveKeysAll(xs[1..], key, ks);
    }
  }

  /** Adding each element of `ys` gives a list holding exactly the old elements and `ys`. */
  lemma {:induction false} AddEachAbsentContents<T>(xs: seq<T>, ys: seq<T>)
    ensures xs <= AddEachAbsent(xs, ys)
    ensures forall y :: y in AddEachAbsent(xs, ys) ==> y in xs || y in ys
    ensures forall y :: y in ys ==> y in AddEachAbsent(xs, ys)
    ensures NoDuplicates(xs) ==> NoDuplicates(AddEachAbsent(xs, ys))
  {
    if ys != [] {
      var init := ys[..|ys| - 1];
      AddEachAbsentContents(xs, init);
      assert ys == init + [ys[|ys| - 1]];
    }
  }

  /** Adding elements that are all present already changes nothing. */
  lemma {:induction false} AddEachAbsentPresent<T>(xs: seq<T>, ys: seq<T>)
    requires forall y :: y in ys ==> y in xs
    ensures AddEachAbsent(xs, ys) == xs
  {
    if ys != [] {
      var init := ys[..|ys| - 1];
      assert forall y :: y in init ==> y in ys;
      AddEachAbsentPresent(xs, init);
      assert ys[|ys| - 1] in ys;
    }
  }

  /** Running the "设置群" loop twice with the same numbers is running it once. */
  lemma AddEachAbsentIdempotent<T>(xs: seq<T>, ys: seq<T>)
    ensures AddEachAbsent(AddEachAbsent(xs, ys), ys) == AddEachAbsent(xs, ys)
  {
    AddEachAbsentContents(xs, ys);
    AddEachAbsentPresent(AddEachAbsent(xs, ys), ys);
  }
}
