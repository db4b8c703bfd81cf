/**
 * `AnnouncementController`: the chat commands a friend sends to the bot. Each handler ignores
 * a message that does not start with its command word, reads its arguments from the message,
 * and works through the service on the announcement the sender has selected; which one that
 * is, per sender QQ number, is the controller's `selectedAnnouncement` map. What the bot sends
 * back is the handler's `Reply`.
 */
module Controller {
  import opened Wrappers
  import opened Longs
  import opened Uuids
  import opened JavaText
  import opened Entities
  import opened Repository
  import opened Service
  import opened Resolver
  import opened Render
  import opened Commands

  /** What the bot answers. */
  datatype Reply =
    | Ignored                         // the message is not this command: nothing is sent
    | Usage                           // "命令格式错误, 用法:\n" and the command's usage text
    | NothingSelected                 // "请先选择公告"
    | SelectionDeleted                // "公告已被删除"
    | AliasTaken                      // "公告别名已存在"
    | EmptyAlias                      // "别名不能为空"
    | Created(a: Announcement)        // "新建了一个公告\nUUID=…", with "\n别名为“…”" for an alias
    | Selected(a: Announcement)       // "选择公告: …"
    | NotFound                        // "未找到公告"
    | Listing(messages: seq<string>)  // "共有 n 条公告", then one message per announcement
    | NotAGroupId(token: string)      // "命令解析失败：\n“token”不是一个正确的群号"
    | GroupsRemoved(ids: seq<Long>)   // "取消群 g 成功", one message per number
    | TemplateMissing                 // "模板不存在"
    | BodySet(a: Announcement)        // "设置成功! 预览:\n" and a preview of the new body
    | BadTriggerId(token: string)     // `UUID.fromString(token)` throws out of the handler
    | Done(text: string)              // a fixed confirmation, verbatim

  const NEW_ANNOUNCEMENT: string := "新建公告"
  const SELECT_ANNOUNCEMENT: string := "选择公告"
  const DELETE_ANNOUNCEMENT: string := "删除公告"
  const LIST_ANNOUNCEMENTS: string := "公告列表"
  const SET_GROUP: string := "设置群"
  const UNSET_GROUP: string := "取消群"
  const SET_PLAIN_BODY: string := "纯文本公告"
  const SET_TEMPLATE_BODY: string := "模板公告"
  const ENABLE_ANNOUNCEMENT: string := "开启公告"
  const DISABLE_ANNOUNCEMENT: string := "禁用公告"
  const NEW_TRIGGER: string := "新建触发器"
  const DELETE_TRIGGER: string := "删除触发器"

  /** `message.contentToString().startsWith(command)`. */
  predicate IsCommand(message: string, command: string)
    ensures IsCommand(message, command) <==> |command| <= |message| && message[..|command|] == command
  {
    command <= message
  }

  /** The first message of the "公告列表" reply. */
  function CountLine(n: nat): string {
    "共有 " + NatText(n) + " 条公告"
  }

  /** The uuids of the first `n` triggers of `ts`, in order. */
  function TriggerIds(ts: seq<Trigger>, n: nat): (ids: seq<Uuid>)
    requires n <= |ts|
    ensures |ids| == n
  {
    if n == 0 then [] else TriggerIds(ts, n - 1) + [ts[n - 1].id]
  }

  /** Every one of the first `n` triggers has its uuid listed. */
  lemma {:induction false} TriggerIdsCover(ts: seq<Trigger>, n: nat)
    requires n <= |ts|
    ensures forall j :: 0 <= j < n ==> TriggerKey(ts[j]) in TriggerIds(ts, n)
  {
    if n > 0 {
      TriggerIdsCover(ts, n - 1);
    }
  }

  /**
   * Two spaces after "新建公告" give an empty alias word: "新建公告  w" splits into the command,
   * "" and `w`, so `newAnnouncement` reaches `create("")` before its empty-alias check.
   */
  lemma EmptyAliasWord(w: string)
    requires w != [] && ' ' !in w
    ensures var message := NEW_ANNOUNCEMENT + "  " + w;
      IsCommand(message, NEW_ANNOUNCEMENT) && Split(message, ' ') == [NEW_ANNOUNCEMENT, "", w]
  {
    var message := NEW_ANNOUNCEMENT + "  " + w;
    var words := [NEW_ANNOUNCEMENT, "", w];
    assert ' ' !in NEW_ANNOUNCEMENT;
    assert Join(words, " ") == message by {
      assert words[1..] == ["", w] && ["", w][1..] == [w];
      assert Join(["", w], " ") == "" + " " + w;
    }
    PiecesJoin(words, ' ');
    assert message[|message| - 1] == w[|w| - 1];
    SplitKeepsAll(message, ' ');
  }

  /** `texts` holds the formatted text of each announcement of `all`, in order. */
  predicate FormatsEach(texts: seq<string>, all: seq<Announcement>, templates: seq<Template>, keysOf: map<string, string> -> seq<string>) {
    |texts| == |all| && forall i :: 0 <= i < |all| ==> texts[i] == FormatAnnouncement(all[i], templates, keysOf)
  }

  /** The loop of "公告列表": `format` applied to each announcement of `all`, in order. */
  method FormatEach(all: seq<Announcement>, format: Announcement -> string) returns (texts: seq<string>)
    ensures |texts| == |all| && forall i :: 0 <= i < |all| ==> texts[i] == format(all[i])
  {
    texts := [];
    var i := 0;
    while i < |all|
      invariant 0 <= i <= |all| && |texts| == i
      invariant forall j :: 0 <= j < i ==> texts[j] == format(all[j])
    {
      texts := texts + [format(all[i])];
      i := i + 1;
    }
  }

  class AnnouncementController {
    /** `AnnouncementService.getInstance()`. */
    const service: AnnouncementService
    /** `selectedAnnouncement`: for each sender, the uuid of the announcement they work on. */
    var selected: map<Long, Uuid>

    ghost predicate Valid()
      reads this, service
    {
      service.Valid()
    }

    /** The service stores `a` over the announcement with its uuid in `s0`, and nothing else changed. */
    ghost predicate Stores(s0: seq<Announcement>, a: Announcement)
      reads this, service
    {
      service.Valid() && Find(service.entries, ById(a.id)) == Some(a) && service.entries == Overwrite(s0, a)
    }

    constructor (service: AnnouncementService)
      ensures this.service == service && selected == map[]
    {
      this.service := service;
      selected := map[];
    }

    /**
     * `getSelectedAnnouncement`: the sender's selected announcement, or the reply that tells
     * them they have selected none or that it has been deleted since.
     */
    function Selection(user: Long): (r: Result<Announcement, Reply>)
      reads this, service
      ensures r.Success? ==> user in selected && r.value.id == selected[user] && r.value in service.entries
      ensures r.Failure? ==> r.error == if user in selected then SelectionDeleted else NothingSelected
      ensures r.Failure? && user in selected ==> forall a :: a in service.entries ==> a.id != selected[user]
    {
      if user !in selected then Failure(NothingSelected)
      else match Find(service.entries, ById(selected[user]))
        case None => Failure(SelectionDeleted)
        case Some(a) => Success(a)
    }

    /**
     * `newAnnouncement` ("新建公告 [alias]"), `freshId` being the uuid `create` draws. With an
     * alias, the announcement is created before the alias is checked for being empty: an empty
     * alias is refused, but the announcement made with it stays in the store, unselected.
     */
    method NewAnnouncement(user: Long, message: string, freshId: Uuid) returns (reply: Reply)
      requires Valid() && Find(service.entries, ById(freshId)).None?
      modifies this, service
      ensures Valid()
      ensures !IsCommand(message, NEW_ANNOUNCEMENT) ==>
        reply == Ignored && selected == old(selected) && service.entries == old(service.entries)
      ensures IsCommand(message, NEW_ANNOUNCEMENT) ==>
        var line := Split(message, ' ');
        if |line| < 1 then
          reply == Usage && selected == old(selected) && service.entries == old(service.entries)
        else if |line| == 1 then
          var a := Entities.NewAnnouncement(freshId, None);
          reply == Created(a) && service.entries == old(service.entries) + [a]
          && selected == old(selected)[user := freshId]
        else if Find(old(service.entries), ByAlias(line[1])).Some? then
          reply == AliasTaken && selected == old(selected) && service.entries == old(service.entries)
        else
          var a := Entities.NewAnnouncement(freshId, Some(line[1]));
          service.entries == old(service.entries) + [a]
          && (line[1] == "" ==> reply == EmptyAlias && selected == old(selected))
          && (line[1] != "" ==> reply == Created(a) && selected == old(selected)[user := freshId])
    {
      if !IsCommand(message, NEW_ANNOUNCEMENT) {
        return Ignored;
      }
      var line := Split(message, ' ');
      if |line| < 1 {
        return Usage;
      }
      var a: Announcement;
      if |line| == 1 {
        a := service.Create(freshId);
      } else {
        var created := service.CreateAliased(line[1], freshId);
        if created.None? {
          return AliasTaken;
        }
        if line[1] == "" {
          return EmptyAlias;
        }
        a := created.value;
      }
      selected := selected[user := a.id];
      reply := Created(a);
    }

    /**
     * "新建公告" as evidently intended: an empty alias is refused before anything is created,
     * so a refused command leaves the store as it was.
     */
    method NewAnnouncementChecked(user: Long, message: string, freshId: Uuid) returns (reply: Reply)
      requires Valid() && Find(service.entries, ById(freshId)).None?
      modifies this, service
      ensures Valid()
      ensures reply.Created? <==> |service.entries| == |old(service.entries)| + 1
      ensures !reply.Created? ==> selected == old(selected) && service.entries == old(service.entries)
      ensures reply.Created? ==>
        service.entries == old(service.entries) + [reply.a] && selected == old(selected)[user := freshId]
        && reply.a == Entities.NewAnnouncement(freshId, reply.a.alias) && reply.a.alias != Some("")
      ensures !IsCommand(message, NEW_ANNOUNCEMENT) ==> reply == Ignored
      ensures IsCommand(message, NEW_ANNOUNCEMENT) && |Split(message, ' ')| == 1 ==>
        reply == Created(Entities.NewAnnouncement(freshId, None))
      ensures IsCommand(message, NEW_ANNOUNCEMENT) && |Split(message, ' ')| >= 2 && Split(message, ' ')[1] == "" ==>
        reply == EmptyAlias
      ensures IsCommand(message, NEW_ANNOUNCEMENT) && |Split(message, ' ')| >= 2 && Split(message, ' ')[1] != "" ==>
        var alias := Split(message, ' ')[1];
        if Find(old(service.entries), ByAlias(alias)).Some? then reply == AliasTaken
        else reply == Created(Entities.NewAnnouncement(freshId, Some(alias)))
    {
      if !IsCommand(message, NEW_ANNOUNCEMENT) {
        return Ignored;
      }
      var line := Split(message, ' ');
      if |line| < 1 {
        return Usage;
      }
      var a: Announcement;
      if |line| == 1 {
        a := service.Create(freshId);
      } else {
        if line[1] == "" {
          return EmptyAlias;
        }
        var created := service.CreateAliased(line[1], freshId);
        if created.None? {
          return AliasTaken;
        }
        a := created.value;
      }
      selected := selected[user := a.id];
      reply := Created(a);
    }

    /** `selectAnnouncement` ("选择公告 uuid-or-alias"), `parse` being `UUID.fromString`. */
    method SelectAnnouncement(user: Long, message: string, parse: string -> Option<Uuid>) returns (reply: Reply)
      requires Valid()
      modifies this
      ensures Valid()
      ensures !IsCommand(message, SELECT_ANNOUNCEMENT) ==> reply == Ignored && selected == old(selected)
      ensures IsCommand(message, SELECT_ANNOUNCEMENT) ==>
        var line := Split(message, ' ');
        if |line| < 2 then reply == Usage && selected == old(selected)
        else match ResolveAnnouncement(service.entries, line[1], parse)
          case None => reply == NotFound && selected == old(selected)
          case Some(a) => reply == Selected(a) && selected == old(selected)[user := a.id]
    {
      if !IsCommand(message, SELECT_ANNOUNCEMENT) {
        return Ignored;
      }
      var line := Split(message, ' ');
      if |line| < 2 {
        return Usage;
      }
      var found := ResolveAnnouncement(service.entries, line[1], parse);
      if found.None? {
        return NotFound;
      }
      selected := selected[user := found.value.id];
      reply := Selected(found.value);
    }

    /**
     * `deleteAnnouncement` ("删除公告"): the selected announcement is deleted; the selection is
     * kept, so the sender's next command is told it has been deleted.
     */
    method DeleteAnnouncement(user: Long, message: string) returns (reply: Reply)
      requires Valid()
      modifies service
      ensures Valid()
      ensures !IsCommand(message, DELETE_ANNOUNCEMENT) ==> reply == Ignored && service.entries == old(service.entries)
      ensures IsCommand(message, DELETE_ANNOUNCEMENT) ==>
        match old(Selection(user))
        case Failure(e) => reply == e && service.entries == old(service.entries)
        case Success(a) =>
          reply == Done("已删除选定公告") && service.entries == Remove(old(service.entries), a.id)
          && Selection(user) == Failure(SelectionDeleted)
    {
      if !IsCommand(message, DELETE_ANNOUNCEMENT) {
        return Ignored;
      }
      var sel := Selection(user);
      if sel.Failure? {
        return sel.error;
      }
      var removed := service.Delete(sel.value.id);
      reply := Done("已删除选定公告");
    }

    /**
     * `listAnnouncements` ("公告列表"): the count, then one formatted text per announcement, in
     * store order. `templates` is the template store and `keysOf` the iteration order of a
     * variable map.
     */
    method ListAnnouncements(message: string, templates: seq<Template>, keysOf: map<string, string> -> seq<string>)
      returns (reply: Reply)
      ensures !IsCommand(message, LIST_ANNOUNCEMENTS) ==> reply == Ignored
      ensures IsCommand(message, LIST_ANNOUNCEMENTS) ==>
        reply.Listing? && |reply.messages| >= 1 && reply.messages[0] == CountLine(|service.entries|)
        && FormatsEach(reply.messages[1..], service.entries, templates, keysOf)
    {
      if !IsCommand(message, LIST_ANNOUNCEMENTS) {
        return Ignored;
      }
      var all := service.GetAll();
      var texts := FormatEach(all, a => FormatAnnouncement(a, templates, keysOf));
      reply := Listing([CountLine(|all|)] + texts);
      assert reply.messages[1..] == texts;
    }

    /**
     * `setGroupAnnouncement` ("设置群 g1 g2 …"): every number is read first, and one that is not
     * a `long` rejects the command; then each number is added to the selected announcement's
     * groups, in order, unless already there.
     */
    method SetGroups(user: Long, message: string) returns (reply: Reply)
      requires Valid()
      modifies service
      ensures Valid()
      ensures !IsCommand(message, SET_GROUP) ==> reply == Ignored && service.entries == old(service.entries)
      ensures IsCommand(message, SET_GROUP) ==>
        var line := Split(message, ' ');
        if |line| < 2 then reply == Usage && service.entries == old(service.entries)
        else match GroupIds(Arguments(line))
          case Failure(_) => reply == Usage && service.entries == old(service.entries)
          case Success(ids) =>
            match old(Selection(user))
            case Failure(e) => reply == e && service.entries == old(service.entries)
            case Success(a) =>
              reply == Done("设置群成功")
              && service.entries == Overwrite(old(service.entries), a.(groups := AddEachAbsent(a.groups, ids)))
    {
      if !IsCommand(message, SET_GROUP) {
        return Ignored;
      }
      var line := Split(message, ' ');
      if |line| < 2 {
        return Usage;
      }
      var parsed := CollectGroupIds(Arguments(line));
      if parsed.Failure? {
        return Usage;
      }
      var ids := parsed.value;
      var sel := Selection(user);
      if sel.Failure? {
        return sel.error;
      }
      var a := sel.value;
      OverwriteSame(service.entries, a);
      var i := 0;
      while i < |ids|
        invariant 0 <= i <= |ids|
        invariant Stores(old(service.entries), a.(groups := AddEachAbsent(a.groups, ids[..i])))
      {
        AddGroupStep(old(service.entries), a, ids, i);
        i := i + 1;
      }
      assert ids[..i] == ids;
      reply := Done("设置群成功");
    }

    /**
     * `unsetGroupAnnouncement` ("取消群 g1 g2 …"): every number is read first, and the first
     * one that is not a `long` is named in the refusal; then each number is removed from the
     * selected announcement's groups.
     */
    method UnsetGroups(user: Long, message: string) returns (reply: Reply)
      requires Valid()
      modifies service
      ensures Valid()
      ensures !IsCommand(message, UNSET_GROUP) ==> reply == Ignored && service.entries == old(service.entries)
      ensures IsCommand(message, UNSET_GROUP) ==>
        var line := Split(message, ' ');
        if |line| < 2 then reply == Usage && service.entries == old(service.entries)
        else match GroupIds(Arguments(line))
          case Failure(k) => reply == NotAGroupId(line[k + 1]) && service.entries == old(service.entries)
          case Success(ids) =>
            match old(Selection(user))
            case Failure(e) => reply == e && service.entries == old(service.entries)
            case Success(a) =>
              reply == GroupsRemoved(ids)
              && service.entries == Overwrite(old(service.entries), a.(groups := RemoveKeys(a.groups, GroupKey, ids)))
    {
      if !IsCommand(message, UNSET_GROUP) {
        return Ignored;
      }
      var line := Split(message, ' ');
      if |line| < 2 {
        return Usage;
      }
      var parsed := CollectGroupIds(Arguments(line));
      if parsed.Failure? {
        return NotAGroupId(line[parsed.error + 1]);
      }
      var ids := parsed.value;
      var sel := Selection(user);
      if sel.Failure? {
        return sel.error;
      }
      var a := sel.value;
      OverwriteSame(service.entries, a);
      RemoveNoKeys(a.groups, GroupKey);
      var i := 0;
      while i < |ids|
        invariant 0 <= i <= |ids|
        invariant Stores(old(service.entries), a.(groups := RemoveKeys(a.groups, GroupKey, ids[..i])))
      {
        RemoveGroupStep(old(service.entries), a, ids, i);
        i := i + 1;
      }
      assert ids[..i] == ids;
      reply := GroupsRemoved(ids);
    }

    /**
     * `setPlainBody` ("纯文本公告\n<content>"): the selected announcement's body becomes the
     * text after the first line break, whatever its body was.
     */
    method SetPlainBody(user: Long, message: string) returns (reply: Reply)
      requires Valid()
      modifies service
      ensures Valid()
      ensures !IsCommand(message, SET_PLAIN_BODY) ==> reply == Ignored && service.entries == old(service.entries)
      ensures IsCommand(message, SET_PLAIN_BODY) ==>
        match PlainContent(message)
        case None => reply == Usage && service.entries == old(service.entries)
        case Some(content) =>
          match old(Selection(user))
          case Failure(e) => reply == e && service.entries == old(service.entries)
          case Success(a) =>
            reply == Done("纯文本公告设置成功")
            && service.entries == Overwrite(old(service.entries), a.(body := Some(Plain(content))))
    {
      if !IsCommand(message, SET_PLAIN_BODY) {
        return Ignored;
      }
      var content := PlainContent(message);
      if content.None? {
        return Usage;
      }
      var sel := Selection(user);
      if sel.Failure? {
        return sel.error;
      }
      var updated := service.SetBody(ById(sel.value.id), Plain(content.value));
      reply := Done("纯文本公告设置成功");
    }

    /**
     * `setTemplateBody` ("模板公告 template\nk1 = v1\nk2 = v2…"): the template is resolved
     * first, then the selection; the body becomes a reference to the template with the
     * variables read from the following lines. `templates` is the template store.
     */
    method SetTemplateBody(user: Long, message: string, templates: seq<Template>, parse: string -> Option<Uuid>)
      returns (reply: Reply)
      requires Valid()
      modifies service
      ensures Valid()
      ensures !IsCommand(message, SET_TEMPLATE_BODY) ==> reply == Ignored && service.entries == old(service.entries)
      ensures IsCommand(message, SET_TEMPLATE_BODY) ==>
        var line := Split(message, '\n');
        |line| >= 1
        && var first := Split(line[0], ' ');
        if |first| < 2 then reply == Usage && service.entries == old(service.entries)
        else match ResolveTemplate(templates, first[1], parse)
          case None => reply == TemplateMissing && service.entries == old(service.entries)
          case Some(t) =>
            match old(Selection(user))
            case Failure(e) => reply == e && service.entries == old(service.entries)
            case Success(a) =>
              var updated := a.(body := Some(Templated(t.id, VarsOf(Arguments(line)))));
              reply == BodySet(updated) && service.entries == Overwrite(old(service.entries), updated)
    {
      if !IsCommand(message, SET_TEMPLATE_BODY) {
        return Ignored;
      }
      SplitHasHead(message, '\n');
      var line := Split(message, '\n');
      var first := Split(line[0], ' ');
      if |first| < 2 {
        return Usage;
      }
      var template := ResolveTemplate(templates, first[1], parse);
      if template.None? {
        return TemplateMissing;
      }
      var sel := Selection(user);
      if sel.Failure? {
        return sel.error;
      }
      var vars := CollectVars(Arguments(line));
      var updated := service.SetBody(ById(sel.value.id), Templated(template.value.id, vars));
      reply := BodySet(updated.value);
    }

    /** `enableAnnouncement` ("开启公告"). */
    method Enable(user: Long, message: string) returns (reply: Reply)
      requires Valid()
      modifies service
      ensures Valid()
      ensures !IsCommand(message, ENABLE_ANNOUNCEMENT) ==> reply == Ignored && service.entries == old(service.entries)
      ensures IsCommand(message, ENABLE_ANNOUNCEMENT) ==>
        match old(Selection(user))
        case Failure(e) => reply == e && service.entries == old(service.entries)
        case Success(a) =>
          reply == Done("开启成功") && service.entries == Overwrite(old(service.entries), a.(enabled := true))
    {
      if !IsCommand(message, ENABLE_ANNOUNCEMENT) {
        return Ignored;
      }
      var sel := Selection(user);
      if sel.Failure? {
        return sel.error;
      }
      var updated := service.Enable(ById(sel.value.id));
      reply := Done("开启成功");
    }

    /** `disableAnnouncement` ("禁用公告"). */
    method Disable(user: Long, message: string) returns (reply: Reply)
      requires Valid()
      modifies service
      ensures Valid()
      ensures !IsCommand(message, DISABLE_ANNOUNCEMENT) ==> reply == Ignored && service.entries == old(service.entries)
      ensures IsCommand(message, DISABLE_ANNOUNCEMENT) ==>
        match old(Selection(user))
        case Failure(e) => reply == e && service.entries == old(service.entries)
        case Success(a) =>
          reply == Done("禁用成功") && service.entries == Overwrite(old(service.entries), a.(enabled := false))
    {
      if !IsCommand(message, DISABLE_ANNOUNCEMENT) {
        return Ignored;
      }
      var sel := Selection(user);
      if sel.Failure? {
        return sel.error;
      }
      var updated := service.Disable(ById(sel.value.id));
      reply := Done("禁用成功");
    }

    /**
     * `newTrigger` ("新建触发器 <cron>"): everything after the first space is the cron
     * expression, kept verbatim; `freshId` is the uuid `UUID.randomUUID()` draws.
     */
    method NewTrigger(user: Long, message: string, freshId: Uuid) returns (reply: Reply)
      requires Valid()
      modifies service
      ensures Valid()
      ensures !IsCommand(message, NEW_TRIGGER) ==> reply == Ignored && service.entries == old(service.entries)
      ensures IsCommand(message, NEW_TRIGGER) ==>
        match SplitOnce(message, ' ')
        case None => reply == Usage && service.entries == old(service.entries)
        case Some((_, cron)) =>
          match old(Selection(user))
          case Failure(e) => reply == e && service.entries == old(service.entries)
          case Success(a) =>
            reply == Done("添加触发器成功")
            && service.entries == Overwrite(old(service.entries), a.(triggers := AddAbsent(a.triggers, Trigger(freshId, cron))))
    {
      if !IsCommand(message, NEW_TRIGGER) {
        return Ignored;
      }
      var parts := SplitOnce(message, ' ');
      if parts.None? {
        return Usage;
      }
      var sel := Selection(user);
      if sel.Failure? {
        return sel.error;
      }
      var updated := service.AddTrigger(ById(sel.value.id), Trigger(freshId, parts.value.1));
      reply := Done("添加触发器成功");
    }

    /**
     * `deleteTrigger` ("删除触发器 [uuid …]"): with no argument every trigger of the selected
     * announcement is removed; otherwise the triggers with the listed uuids are removed, one
     * after another. A word `UUID.fromString` rejects ends the handler with an exception, the
     * removals made before it staying done.
     */
    method DeleteTrigger(user: Long, message: string, parse: string -> Option<Uuid>) returns (reply: Reply)
      requires Valid()
      modifies service
      ensures Valid()
      ensures !IsCommand(message, DELETE_TRIGGER) ==> reply == Ignored && service.entries == old(service.entries)
      ensures IsCommand(message, DELETE_TRIGGER) ==>
        var line := Split(message, ' ');
        var args := Arguments(line);
        match old(Selection(user))
        case Failure(e) => reply == e && service.entries == old(service.entries)
        case Success(a) =>
          if |line| == 1 then
            reply == Done("已删除该公告的所有触发器")
            && service.entries == Overwrite(old(service.entries), a.(triggers := []))
          else match ParseAll(args, parse)
            case Success(ids) =>
              reply == Done("已删除该公告中的指定的触发器")
              && service.entries == Overwrite(old(service.entries), a.(triggers := RemoveKeys(a.triggers, TriggerKey, ids)))
            case Failure(k) =>
              reply == BadTriggerId(args[k]) && ParseAll(args[..k], parse).Success?
              && service.entries == Overwrite(old(service.entries),
                   a.(triggers := RemoveKeys(a.triggers, TriggerKey, ParseAll(args[..k], parse).value)))
    {
      if !IsCommand(message, DELETE_TRIGGER) {
        return Ignored;
      }
      var line := Split(message, ' ');
      var sel := Selection(user);
      if sel.Failure? {
        return sel.error;
      }
      if |line| == 1 {
        reply := RemoveAllTriggers(sel.value);
      } else {
        reply := RemoveListedTriggers(sel.value, Arguments(line), parse);
      }
    }

    /**
     * One pass of the "设置群" loop: `addGroup(a.getUuid(), ids[n])` on the announcement stored
     * as `a` with the first `n` numbers added.
     */
    method AddGroupStep(ghost s0: seq<Announcement>, a: Announcement, ids: seq<Long>, n: nat)
      requires n < |ids| && Stores(s0, a.(groups := AddEachAbsent(a.groups, ids[..n])))
      modifies service
      ensures Stores(s0, a.(groups := AddEachAbsent(a.groups, ids[..n + 1])))
    {
      var cur := a.(groups := AddEachAbsent(a.groups, ids[..n]));
      OverwriteStep(s0, service.entries, cur, cur.(groups := AddAbsent(cur.groups, ids[n])));
      var updated := service.AddGroup(ById(a.id), ids[n]);
      AddEachAbsentPrefix(a.groups, ids, n);
    }

    /**
     * One pass of the "取消群" loop: `removeGroup(a.getUuid(), ids[n])` on the announcement
     * stored as `a` without the first `n` numbers.
     */
    method RemoveGroupStep(ghost s0: seq<Announcement>, a: Announcement, ids: seq<Long>, n: nat)
      requires n < |ids| && Stores(s0, a.(groups := RemoveKeys(a.groups, GroupKey, ids[..n])))
      modifies service
      ensures Stores(s0, a.(groups := RemoveKeys(a.groups, GroupKey, ids[..n + 1])))
    {
      var cur := a.(groups := RemoveKeys(a.groups, GroupKey, ids[..n]));
      OverwriteStep(s0, service.entries, cur, cur.(groups := RemoveKey(cur.groups, GroupKey, ids[n])));
      var updated := service.RemoveGroup(ById(a.id), ids[n]);
      RemoveKeysPrefix(a.groups, GroupKey, ids, n);
    }

    /**
     * One pass of a trigger removal loop: `removeTrigger(a.getUuid(), id)` on the announcement
     * stored as `a` without the triggers whose uuids are in `done`.
     */
    method RemoveTriggerStep(ghost s0: seq<Announcement>, a: Announcement, done: seq<Uuid>, id: Uuid)
      returns (extended: seq<Uuid>)
      requires Stores(s0, a.(triggers := RemoveKeys(a.triggers, TriggerKey, done)))
      modifies service
      ensures extended == done + [id]
      ensures Stores(s0, a.(triggers := RemoveKeys(a.triggers, TriggerKey, extended)))
    {
      var cur := a.(triggers := RemoveKeys(a.triggers, TriggerKey, done));
      OverwriteStep(s0, service.entries, cur, cur.(triggers := RemoveKey(cur.triggers, TriggerKey, id)));
      var updated := service.RemoveTrigger(ById(a.id), id);
      RemoveKeysStep(a.triggers, TriggerKey, done, id);
      extended := done + [id];
    }

    /** The no-argument loop of "删除触发器": each trigger of `a`, as it was, is removed by uuid. */
    method RemoveAllTriggers(a: Announcement) returns (reply: Reply)
      requires Valid() && Find(service.entries, ById(a.id)) == Some(a)
      modifies service
      ensures Valid() && reply == Done("已删除该公告的所有触发器")
      ensures service.entries == Overwrite(old(service.entries), a.(triggers := []))
    {
      OverwriteSame(service.entries, a);
      RemoveNoKeys(a.triggers, TriggerKey);
      var done: seq<Uuid> := [];
      var i := 0;
      while i < |a.triggers|
        invariant 0 <= i <= |a.triggers| && done == TriggerIds(a.triggers, i)
        invariant Stores(old(service.entries), a.(triggers := RemoveKeys(a.triggers, TriggerKey, done)))
      {
        done := RemoveTriggerStep(old(service.entries), a, done, a.triggers[i].id);
        i := i + 1;
      }
      TriggerIdsCover(a.triggers, i);
      RemoveKeysAll(a.triggers, TriggerKey, done);
      reply := Done("已删除该公告的所有触发器");
    }

    /**
     * The argument loop of "删除触发器": each word is read as a uuid and the trigger with it
     * removed, until a word that is not one ends the loop.
     */
    method RemoveListedTriggers(a: Announcement, args: seq<string>, parse: string -> Option<Uuid>) returns (reply: Reply)
      requires Valid() && Find(service.entries, ById(a.id)) == Some(a)
      modifies service
      ensures Valid()
      ensures match ParseAll(args, parse)
        case Success(ids) =>
          reply == Done("已删除该公告中的指定的触发器")
          && service.entries == Overwrite(old(service.entries), a.(triggers := RemoveKeys(a.triggers, TriggerKey, ids)))
        case Failure(k) =>
          reply == BadTriggerId(args[k]) && ParseAll(args[..k], parse).Success?
          && service.entries == Overwrite(old(service.entries),
               a.(triggers := RemoveKeys(a.triggers, TriggerKey, ParseAll(args[..k], parse).value)))
    {
      OverwriteSame(service.entries, a);
      RemoveNoKeys(a.triggers, TriggerKey);
      var ids: seq<Uuid> := [];
      var i := 0;
      while i < |args|
        invariant 0 <= i <= |args|
        invariant ParseAll(args[..i], parse) == Success(ids)
        invariant Stores(old(service.entries), a.(triggers := RemoveKeys(a.triggers, TriggerKey, ids)))
      {
        var id := parse(args[i]);
        if id.None? {
          ParseAllFailsAt(args, i, parse);
          return BadTriggerId(args[i]);
        }
        assert args[..i + 1][..i] == args[..i];
        ids := RemoveTriggerStep(old(service.entries), a, ids, id.value);
        i := i + 1;
      }
      assert args[..i] == args;
      reply := Done("已删除该公告中的指定的触发器");
    }
  }

  /**
   * The variables a "模板公告" command stores come from rows without line breaks, so their
   * listing shows exactly one line per variable and every variable on a line of its own.
   */
  lemma TemplateVarsListing(message: string, keys: seq<string>)
    requires Enumerates(keys, VarsOf(Arguments(Split(message, '\n'))))
    ensures var vars := VarsOf(Arguments(Split(message, '\n')));
      |Pieces(VarListing(vars, keys), '\n')| == |vars| + 1
      && forall k :: k in vars ==> VarLine(k, vars[k]) in Pieces(VarListing(vars, keys), '\n')
  {
    var rows := Arguments(Split(message, '\n'));
    assert forall i :: 0 <= i < |rows| ==> '\n' !in rows[i];
    VarListingCount(VarsOf(rows), keys);
  }
}
