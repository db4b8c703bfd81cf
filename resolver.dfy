/**
 * `getAnnouncement` and `getTemplate` of the controller: a token the user typed names an
 * announcement (or a template) either by its UUID or by its alias. `UUID.fromString` decides
 * which: a token it accepts is looked up as a uuid and only as a uuid; any other token is looked
 * up as an alias. `UUID.fromString` itself is the parameter `parse`.
 */
module Resolver {
  import opened Wrappers
  import opened Uuids
  import opened Entities
  import opened Repository

  /** What is assumed of `UUID.fromString`: it reads back every UUID `UUID.toString` printed. */
  ghost predicate ReadsPrinted(parse: string -> Option<Uuid>) {
    forall u: Uuid :: parse(UuidText(u)) == Some(u)
  }

  /** The one lookup the resolver makes for `token`: by uuid if it parses as one, else by alias. */
  function RefOf(token: string, parse: string -> Option<Uuid>): (ref: Ref)
    ensures ref.ById? <==> parse(token).Some?
    ensures ref.ById? ==> Some(ref.id) == parse(token)
    ensures ref.ByAlias? ==> ref.alias == token
  {
    match parse(token)
    case Some(id) => ById(id)
    case None => ByAlias(token)
  }

  /** `getAnnouncement(uuidOrAlias)`. */
  function ResolveAnnouncement(s: seq<Announcement>, token: string, parse: string -> Option<Uuid>): (r: Option<Announcement>)
    ensures r.Some? ==> r.value in s
    ensures r.Some? && parse(token).Some? ==> Some(r.value.id) == parse(token)
    ensures r.Some? && parse(token).None? ==> r.value.alias == Some(token)
    ensures r.None? && parse(token).Some? ==> forall a :: a in s ==> Some(a.id) != parse(token)
    ensures r.None? && parse(token).None? ==> forall a :: a in s ==> a.alias != Some(token)
  {
    Find(s, RefOf(token, parse))
  }

  predicate TemplateMatches(t: Template, ref: Ref) {
    match ref
    case ById(id) => t.id == id
    case ByAlias(alias) => t.alias == Some(alias)
  }

  /** `TemplateService.get(uuid)` / `get(alias)`: the first stored template the reference names. */
  function FindTemplate(ts: seq<Template>, ref: Ref): (r: Option<Template>)
    ensures r.Some? ==> r.value in ts && TemplateMatches(r.value, ref)
    ensures r.None? <==> forall t :: t in ts ==> !TemplateMatches(t, ref)
  {
    match FirstIndex(ts, t => TemplateMatches(t, ref))
    case None => None
    case Some(i) => Some(ts[i])
  }

  /** `getTemplate(uuidOrAlias)`. */
  function ResolveTemplate(ts: seq<Template>, token: string, parse: string -> Option<Uuid>): (r: Option<Template>)
    ensures r.Some? ==> r.value in ts
    ensures r.Some? && parse(token).Some? ==> Some(r.value.id) == parse(token)
    ensures r.Some? && parse(token).None? ==> r.value.alias == Some(token)
    ensures r.None? && parse(token).Some? ==> forall t :: t in ts ==> Some(t.id) != parse(token)
    ensures r.None? && parse(token).None? ==> forall t :: t in ts ==> t.alias != Some(token)
  {
    FindTemplate(ts, RefOf(token, parse))
  }

  /** The uuid printed for an announcement selects that announcement. */
  lemma ResolvePrintedUuid(s: seq<Announcement>, a: Announcement, parse: string -> Option<Uuid>)
    requires Repository.Valid(s) && a in s && ReadsPrinted(parse)
    ensures ResolveAnnouncement(s, UuidText(a.id), parse) == Some(a)
  {
    assert parse(UuidText(a.id)) == Some(a.id);
    FindUnique(s, ById(a.id), a);
  }

  /** An alias that is not a UUID selects the announcement that has it. */
  lemma ResolveOwnAlias(s: seq<Announcement>, a: Announcement, parse: string -> Option<Uuid>)
    requires Repository.Valid(s) && a in s && a.alias.Some? && parse(a.alias.value).None?
    ensures ResolveAnnouncement(s, a.alias.value, parse) == Some(a)
  {
    FindUnique(s, ByAlias(a.alias.value), a);
  }

  /**
   * An alias that is itself the printed form of some other UUID can never select its own
   * announcement: the token is taken as that UUID, and the alias is not consulted.
   */
  lemma AliasShadowedByUuid(s: seq<Announcement>, a: Announcement, u: Uuid, parse: string -> Option<Uuid>)
    requires ReadsPrinted(parse) && a.alias == Some(UuidText(u)) && u != a.id
    ensures ResolveAnnouncement(s, UuidText(u), parse) != Some(a)
  {
    assert parse(UuidText(u)) == Some(u);
  }

  /** A template is found by its printed uuid whenever no earlier template has the same uuid. */
  lemma ResolvePrintedTemplate(ts: seq<Template>, k: nat, parse: string -> Option<Uuid>)
    requires k < |ts| && ReadsPrinted(parse)
    requires forall j :: 0 <= j < k ==> ts[j].id != ts[k].id
    ensures ResolveTemplate(ts, UuidText(ts[k].id), parse) == Some(ts[k])
  {
    assert parse(UuidText(ts[k].id)) == Some(ts[k].id);
    var i := FirstIndex(ts, t => TemplateMatches(t, ById(ts[k].id)));
    assert TemplateMatches(ts[k], ById(ts[k].id));
    assert i.Some? && i.value <= k;
  }
}
