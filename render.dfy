/**
 * `formatAnnouncement`: the text the bot sends for one announcement in the "公告列表" listing.
 *
 *   <alias>(<uuid>)          or just <uuid> when there is no alias
 *   启用: ✔                  or ✖
 *   群: <g1>, <g2>, ...
 *   触发器列表:
 *   <cron>(<uuid>)           one per trigger
 *   公告体:
 *   <body>
 *
 * The body is "[未设置]" when unset, the text of a plain body, or, for a template body, the
 * template's raw text (or "模板被删除" when the template is gone) followed by "\n变量列表:\n" and
 * one "k = v\n" line per variable. Nothing is substituted into the template text.
 */
module Render {
  import opened Wrappers
  import opened Longs
  import opened Uuids
  import opened JavaText
  import opened Entities
  import opened Repository
  import opened Resolver

  /** The first line: the uuid, or `alias(uuid)` when the announcement has an alias. */
  function Header(a: Announcement): (r: string)
    ensures a.alias.None? ==> r == UuidText(a.id)
    ensures a.alias.Some? ==> var n := |a.alias.value|;
      |r| == n + 38 && r[..n] == a.alias.value && r[n] == '(' && r[n + 1..n + 37] == UuidText(a.id) && r[n + 37] == ')'
  {
    match a.alias
    case None => UuidText(a.id)
    case Some(alias) => alias + "(" + UuidText(a.id) + ")"
  }

  function EnabledMark(enabled: bool): (r: string)
    ensures |r| == 1 && (r == "✔" <==> enabled) && (r == "✖" <==> !enabled)
  {
    if enabled then "✔" else "✖"
  }

  /** The group numbers in list order, each as `Long.toString` prints it, joined by ", ". */
  function GroupsText(groups: seq<Long>): (r: string)
    ensures r == "" <==> groups == []
    ensures groups != [] ==> LongText(groups[0]) <= r
  {
    JoinNonEmpty(LongTexts(groups));
    Join(LongTexts(groups), ", ")
  }

  function LongTexts(groups: seq<Long>): (r: seq<string>)
    ensures |r| == |groups| && forall i :: 0 <= i < |groups| ==> r[i] == LongText(groups[i])
  {
    if groups == [] then [] else [LongText(groups[0])] + LongTexts(groups[1..])
  }

  function TriggerText(t: Trigger): (r: string)
    ensures |r| == |t.cron| + 38 && t.cron <= r && r[|t.cron|] == '(' && r[|r| - 1] == ')'
    ensures r[|t.cron| + 1..|t.cron| + 37] == UuidText(t.id)
  {
    t.cron + "(" + UuidText(t.id) + ")"
  }

  /** The triggers in list order, one `cron(uuid)` per line. */
  function TriggersText(triggers: seq<Trigger>): (r: string)
    ensures triggers == [] ==> r == ""
    ensures triggers != [] ==> TriggerText(triggers[0]) <= r
  {
    Join(TriggerTexts(triggers), "\n")
  }

  function TriggerTexts(triggers: seq<Trigger>): (r: seq<string>)
    ensures |r| == |triggers| && forall i :: 0 <= i < |triggers| ==> r[i] == TriggerText(triggers[i])
  {
    if triggers == [] then [] else [TriggerText(triggers[0])] + TriggerTexts(triggers[1..])
  }

  function VarLine(k: string, v: string): (r: string)
    ensures |r| == |k| + |v| + 3 && k <= r && r[|k|..|k| + 3] == " = " && r[|k| + 3..] == v
  {
    k + " = " + v
  }

  /**
   * The variable listing, visiting the keys in `keys`, the order in which the `HashMap`
   * happens to iterate (a key not in the map prints nothing).
   */
  function VarListing(vars: map<string, string>, keys: seq<string>): (r: string)
    ensures (forall i :: 0 <= i < |keys| ==> keys[i] !in vars) ==> r == ""
    ensures r == "" || r[|r| - 1] == '\n'
  {
    if keys == [] then ""
    else (if keys[0] in vars then VarLine(keys[0], vars[keys[0]]) + "\n" else "") + VarListing(vars, keys[1..])
  }

  /** `keys` visits every key of `vars` exactly once: what a `HashMap`'s `forEach` does. */
  predicate Enumerates(keys: seq<string>, vars: map<string, string>) {
    NoDuplicates(keys)
    && (forall i :: 0 <= i < |keys| ==> keys[i] in vars)
    && (forall k :: k in vars ==> k in keys)
  }

  /**
   * The body section. `templates` is the template store; `keysOf` is the iteration order the
   * `HashMap` of variables happens to have.
   */
  function BodyText(body: Option<Body>, templates: seq<Template>, keysOf: map<string, string> -> seq<string>): (r: string)
    ensures body.None? ==> r == "[未设置]"
    ensures body.Some? && body.value.Plain? ==> r == body.value.content
    ensures body.Some? && body.value.Templated? ==>
      var t := FindTemplate(templates, ById(body.value.templateId));
      r == (if t.Some? then t.value.text else "模板被删除") + "\n变量列表:\n"
             + VarListing(body.value.vars, keysOf(body.value.vars))
  {
    match body
    case None => "[未设置]"
    case Some(Plain(content)) => content
    case Some(Templated(templateId, vars)) =>
      var text := match FindTemplate(templates, ById(templateId))
        case Some(t) => t.text
        case None => "模板被删除";
      text + "\n变量列表:\n" + VarListing(vars, keysOf(vars))
  }

  /** `formatAnnouncement(a)`. */
  function FormatAnnouncement(a: Announcement, templates: seq<Template>, keysOf: map<string, string> -> seq<string>): (r: string)
    ensures var prefix := Header(a) + "\n启用: " + EnabledMark(a.enabled) + "\n群: " + GroupsText(a.groups) + "\n触发器列表:\n";
      var tail := "\n公告体:\n" + BodyText(a.body, templates, keysOf);
      |prefix| + |tail| <= |r| && r[..|prefix|] == prefix && r[|r| - |tail|..] == tail
      && r[|prefix|..|r| - |tail|] == TriggersText(a.triggers)
  {
    var prefix := Header(a) + "\n启用: " + EnabledMark(a.enabled) + "\n群: " + GroupsText(a.groups) + "\n触发器列表:\n";
    var tail := "\n公告体:\n" + BodyText(a.body, templates, keysOf);
    var r := prefix + TriggersText(a.triggers) + tail;
    assert r[..|prefix|] == prefix;
    assert r[|r| - |tail|..] == tail;
    assert r[|prefix|..|r| - |tail|] == TriggersText(a.triggers);
    r
  }

  /**
   * The trigger section has one line `cron(uuid)` per trigger, in list order, when no cron
   * expression holds a line break.
   */
  lemma TriggerSectionLines(triggers: seq<Trigger>)
    requires triggers != []
    requires forall t :: t in triggers ==> '\n' !in t.cron
    ensures Pieces(TriggersText(triggers), '\n') == TriggerTexts(triggers)
  {
    var xs := TriggerTexts(triggers);
    forall i | 0 <= i < |xs| ensures '\n' !in xs[i] {
      var t := triggers[i];
      assert t in triggers;
      UuidTextCharacters(t.id);
      var x := xs[i];
      forall j | 0 <= j < |x| ensures x[j] != '\n' {
        if j < |t.cron| {
          assert x[j] == t.cron[j];
        } else if |t.cron| < j < |t.cron| + 37 {
          assert x[j] == UuidText(t.id)[j - |t.cron| - 1];
        }
      }
    }
    PiecesJoin(xs, '\n');
  }

  /** The header tells announcements apart: equal headers mean the same uuid and the same alias. */
  lemma HeaderInjective(a: Announcement, b: Announcement)
    requires Header(a) == Header(b)
    ensures a.id == b.id && a.alias == b.alias
  {
    var h := Header(a);
    var ua, ub := UuidText(a.id), UuidText(b.id);
    assert |h| == if a.alias.Some? then |a.alias.value| + 38 else 36;
    assert |h| == if b.alias.Some? then |b.alias.value| + 38 else 36;
    if a.alias.Some? && b.alias.Some? {
      var x, y := a.alias.value, b.alias.value;
      assert h[..|x|] == x && h[..|y|] == y;
      assert h[|x| + 1..|x| + 37] == ua && h[|y| + 1..|y| + 37] == ub;
    }
    UuidRoundTrip(a.id);
    UuidRoundTrip(b.id);
  }

  /** `Long.toString` is one-to-one: it is read back by `Long.valueOf`. */
  lemma LongTextInjective(x: Long, y: Long)
    requires LongText(x) == LongText(y)
    ensures x == y
  {
    LongRoundTrip(x);
    LongRoundTrip(y);
  }

  /** A printed group number contains no comma. */
  lemma NoCommaInLongText(x: Long)
    ensures ',' !in LongText(x)
  {
    LongTextCharacters(x);
  }

  /** The groups line tells group lists apart: equal lines mean equal lists, in the same order. */
  lemma {:induction false} GroupsInjective(gs: seq<Long>, hs: seq<Long>)
    requires GroupsText(gs) == GroupsText(hs)
    ensures gs == hs
  {
    if gs != [] && hs != [] {
      GroupsSplit(gs);
      GroupsSplit(hs);
      if |gs| == 1 && |hs| == 1 {
        LongTextInjective(gs[0], hs[0]);
      } else if |gs| > 1 && |hs| > 1 {
        var rx, ry := GroupsText(gs[1..]), GroupsText(hs[1..]);
        assert rx == ry by {
          assert rx == (" " + rx)[1..] && ry == (" " + ry)[1..];
        }
        GroupsInjective(gs[1..], hs[1..]);
        LongTextInjective(gs[0], hs[0]);
        assert gs == [gs[0]] + gs[1..] && hs == [hs[0]] + hs[1..];
      }
    }
  }

  /** The first comma of the groups line, if any, ends the first number; the rest follows a blank. */
  lemma GroupsSplit(gs: seq<Long>)
    requires gs != []
    ensures |gs| == 1 ==> GroupsText(gs) == LongText(gs[0]) && SplitOnce(GroupsText(gs), ',').None?
    ensures |gs| > 1 ==> SplitOnce(GroupsText(gs), ',') == Some((LongText(gs[0]), " " + GroupsText(gs[1..])))
  {
    var xs := LongTexts(gs);
    forall i | 0 <= i < |xs| ensures ',' !in xs[i] {
      NoCommaInLongText(gs[i]);
    }
    JoinCommaHead(xs);
    assert LongTexts(gs[1..]) == xs[1..];
  }

  /** Joining printed numbers gives the empty string only for the empty list. */
  lemma JoinNonEmpty(xs: seq<string>)
    requires forall i :: 0 <= i < |xs| ==> xs[i] != ""
    ensures Join(xs, ", ") == "" <==> xs == []
  {
    if |xs| > 1 {
      assert Join(xs, ", ") == xs[0] + ", " + Join(xs[1..], ", ");
    }
  }

  /** The first comma of a joined list of printed numbers ends the first number. */
  lemma JoinCommaHead(xs: seq<string>)
    requires |xs| >= 1 && forall i :: 0 <= i < |xs| ==> ',' !in xs[i]
    ensures |xs| == 1 ==> SplitOnce(Join(xs, ", "), ',').None?
    ensures |xs| > 1 ==> SplitOnce(Join(xs, ", "), ',') == Some((xs[0], " " + Join(xs[1..], ", ")))
  {
    if |xs| > 1 {
      var s := Join(xs, ", ");
      var rest := Join(xs[1..], ", ");
      assert s == xs[0] + [','] + (" " + rest);
      SplitOnceAt(xs[0], " " + rest, ',');
    }
  }

  /**
   * The uuid of a trigger can be copied from its line of the listing: the 36 characters after
   * the cron expression and its "(" are read back by `UUID.fromString` as the trigger's uuid.
   */
  lemma TriggerIdReadable(t: Trigger, parse: string -> Option<Uuid>)
    requires ReadsPrinted(parse)
    ensures |TriggerText(t)| == |t.cron| + 38
    ensures parse(TriggerText(t)[|t.cron| + 1..|t.cron| + 37]) == Some(t.id)
  {
    var s := TriggerText(t);
    assert s[|t.cron| + 1..|t.cron| + 37] == UuidText(t.id);
  }

  /**
   * The variable listing has one line `k = v` per key visited, in that order (when neither keys
   * nor values hold a line break, as is the case for variables read from a command's lines).
   */
  lemma {:induction false} VarListingLines(vars: map<string, string>, keys: seq<string>)
    requires forall i :: 0 <= i < |keys| ==> keys[i] in vars
    requires forall k :: k in vars ==> '\n' !in k && '\n' !in vars[k]
    ensures Pieces(VarListing(vars, keys), '\n')
      == seq(|keys|, i requires 0 <= i < |keys| => VarLine(keys[i], vars[keys[i]])) + [""]
  {
    if keys != [] {
      var line := VarLine(keys[0], vars[keys[0]]);
      var rest := VarListing(vars, keys[1..]);
      VarListingLines(vars, keys[1..]);
      assert VarListing(vars, keys) == line + ['\n'] + rest;
      PiecesAround(line, rest, '\n');
      PiecesCleanPrefix(line, "", '\n');
      assert line + "" == line;
    }
  }

  /** Hence a listing of all variables has exactly one line per variable. */
  lemma VarListingCount(vars: map<string, string>, keys: seq<string>)
    requires Enumerates(keys, vars)
    requires forall k :: k in vars ==> '\n' !in k && '\n' !in vars[k]
    ensures |Pieces(VarListing(vars, keys), '\n')| == |vars| + 1
    ensures forall k :: k in vars ==> VarLine(k, vars[k]) in Pieces(VarListing(vars, keys), '\n')
  {
    VarListingLines(vars, keys);
    var lines := Pieces(VarListing(vars, keys), '\n');
    forall k | k in vars ensures VarLine(k, vars[k]) in lines {
      var i :| 0 <= i < |keys| && keys[i] == k;
      assert lines[i] == VarLine(k, vars[k]);
    }
    DistinctCount(keys, vars.Keys);
  }

  /** A list without repetitions that holds exactly the elements of a set is as long as the set is large. */
  lemma {:induction false} DistinctCount(keys: seq<string>, ks: set<string>)
    requires NoDuplicates(keys)
    requires forall i :: 0 <= i < |keys| ==> keys[i] in ks
    requires forall k :: k in ks ==> k in keys
    ensures |keys| == |ks|
  {
    if keys != [] {
      var rest := ks - {keys[0]};
      forall k | k in rest ensures k in keys[1..] {
        var i :| 0 <= i < |keys| && keys[i] == k;
        assert i != 0;
        assert keys[1..][i - 1] == k;
      }
      forall i | 0 <= i < |keys[1..]| ensures keys[1..][i] in rest {
        assert keys[1..][i] == keys[i + 1] != keys[0];
      }
      DistinctCount(keys[1..], rest);
    }
  }
}
