# MaidNana announcements: a Dafny model

MaidNana is a QQ chat bot. Its announcement feature lets a friend of the bot keep a store of
announcements. Each announcement has a UUID and an optional alias. It has an on/off switch,
a list of QQ group numbers to post to, and a list of cron triggers. Its body is either plain
text or a template reference with a map of variables. The friend edits the store by sending
commands such as "新建公告 alias", "选择公告 uuid-or-alias", "设置群 g1 g2", "模板公告 …" and
"删除触发器 …". The bot remembers, per sender, which announcement is selected, and it answers
each command with a fixed text.

This project models two parts of the bot:

- `AnnouncementService`: the store operations. They are `create`, `get` and `delete`, the
  group and trigger list edits, `setBody`, `enable`/`disable` and `getAll`. The model is the
  class `Service.AnnouncementService`. It owns the stored announcements as a sequence in
  insertion order; `Repository` holds the functions that specify that sequence.
- `AnnouncementController`: the command handlers. The class
  `Controller.AnnouncementController` holds the per-sender selection map and calls the service.
  Its pure parts are separate modules:
  - `Resolver`: a typed token is looked up by UUID when `UUID.fromString` accepts it, and by
    alias otherwise.
  - `Render`: the listing text of `formatAnnouncement`.
  - `Commands`: argument parsing (group numbers, trigger ids, `k = v` variable rows, the plain
    body after the first line break).
  - `JavaText`, `Longs`, `Uuids`: the Java library behaviour the handlers rely on. This covers
    `String.split`, the `\s*=\s*` split, `Long.valueOf`/`Long.toString` and
    `UUID.toString`.

The announcement and its parts are values (`Entities`). The service and the controller are
classes whose methods change their fields. Every method states the new state it leaves as a
function of the old one. Lemmas then prove what those functions promise:

- adding is idempotent and never duplicates;
- removal drops every occurrence and keeps the order;
- a reference finds at most one entry;
- printed numbers and UUIDs read back;
- the last duplicate variable row wins.

## Model

Source paths are relative to the repository root.

| member | source | states |
|---|---|---|
| Entities.NewAnnouncement | src/main/java/com/github/nanoyou/maidnana/service/AnnouncementService.java:29-34 | a new announcement has the drawn uuid, is disabled, has no groups, no triggers and no body |
| Entities.AddAbsent | src/main/java/com/github/nanoyou/maidnana/service/AnnouncementService.java:67-95 | the list gains the element at its end exactly when it lacked it; nothing else is added; a list without duplicates stays without duplicates |
| Entities.RemoveWhere | src/main/java/com/github/nanoyou/maidnana/service/AnnouncementService.java:103-133 | `removeIf`: what remains is exactly the elements not rejected, and never more than before |
| Entities.RemoveKey | src/main/java/com/github/nanoyou/maidnana/service/AnnouncementService.java:180-208 | what remains is exactly the elements whose key differs from the removed one |
| Entities.AddEachAbsent | src/main/java/com/github/nanoyou/maidnana/controller/AnnouncementController.java:268 | after "设置群" the group list begins with the old list and holds every number given |
| Entities.RemoveKeys | src/main/java/com/github/nanoyou/maidnana/controller/AnnouncementController.java:455-458 | what remains is exactly the elements whose key is not among the removed ones |
| Entities.RemoveWhereNoDuplicates | src/main/java/com/github/nanoyou/maidnana/service/AnnouncementService.java:103-133 | `removeIf` never makes a list without repetitions repeat an element |
| Entities.RemoveKeyNoDuplicates | src/main/java/com/github/nanoyou/maidnana/service/AnnouncementService.java:180-208 | removing triggers by uuid keeps a trigger list without repetitions so |
| Entities.AddAbsentIdempotent | src/main/java/com/github/nanoyou/maidnana/service/AnnouncementService.java:67-95 | adding the same group twice is adding it once |
| Entities.RemoveWhereAppend | src/main/java/com/github/nanoyou/maidnana/service/AnnouncementService.java:103-133 | removal works part by part: each part of a list loses its own rejected elements, so the order of what remains is kept |
| Entities.RemoveWhereNothing | src/main/java/com/github/nanoyou/maidnana/service/AnnouncementService.java:103-133 | removing what is not there leaves the list unchanged |
| Entities.RemoveKeyNothing | src/main/java/com/github/nanoyou/maidnana/service/AnnouncementService.java:180-208 | removing a trigger uuid no trigger has leaves the list unchanged |
| Entities.RemoveWhereTwice | src/main/java/com/github/nanoyou/maidnana/service/AnnouncementService.java:103-133 | two removals in a row are one removal of what either rejects |
| Entities.RemoveWhereCounts | src/main/java/com/github/nanoyou/maidnana/service/AnnouncementService.java:103-133 | after a removal every rejected value occurs zero times and every other value as often as before (all occurrences go, nothing else does) |
| Entities.AddEachAbsentPrefix | src/main/java/com/github/nanoyou/maidnana/controller/AnnouncementController.java:268 | one more pass of the "设置群" loop adds the next number to what the earlier passes built |
| Entities.RemoveNoKeys | src/main/java/com/github/nanoyou/maidnana/controller/AnnouncementController.java:301-305 | a removal loop that has removed no key yet has kept every element |
| Entities.RemoveKeysStep | src/main/java/com/github/nanoyou/maidnana/controller/AnnouncementController.java:301-305 | removing one more key after a set of keys is removing the extended set |
| Entities.RemoveKeysPrefix | src/main/java/com/github/nanoyou/maidnana/controller/AnnouncementController.java:301-305 | one more pass of a removal loop removes the next listed key |
| Entities.RemoveKeysAll | src/main/java/com/github/nanoyou/maidnana/controller/AnnouncementController.java:455-458 | removing the uuid of every trigger leaves no trigger |
| Entities.AddEachAbsentContents | src/main/java/com/github/nanoyou/maidnana/controller/AnnouncementController.java:268 | after "设置群" the group list starts with the old list and holds exactly the old groups and the given ones, and it stays free of duplicates |
| Entities.AddEachAbsentPresent | src/main/java/com/github/nanoyou/maidnana/controller/AnnouncementController.java:268 | adding groups that are all present already changes nothing |
| Entities.AddEachAbsentIdempotent | src/main/java/com/github/nanoyou/maidnana/controller/AnnouncementController.java:268 | sending the same "设置群" command twice has the effect of sending it once |
| Repository.FirstIndex | src/main/java/com/github/nanoyou/maidnana/service/AnnouncementService.java:41-43 | the index found is the first one satisfying the test, and none is found only when no element does |
| Repository.Find | src/main/java/com/github/nanoyou/maidnana/service/AnnouncementService.java:41-51 | `get` by uuid or alias returns a stored announcement that the reference names, and returns empty exactly when none does |
| Repository.Overwrite | src/main/java/com/github/nanoyou/maidnana/service/AnnouncementService.java:67-95 | `modify` replaces the entry with the same uuid and keeps every other entry and the order |
| Repository.Remove | src/main/java/com/github/nanoyou/maidnana/service/AnnouncementService.java:58-60 | `delete` keeps exactly the entries with another uuid, in order, and adds none |
| Repository.OverwriteListsDistinct | src/main/java/com/github/nanoyou/maidnana/service/AnnouncementService.java:67-95 | writing back an announcement whose group and trigger lists have no repetitions keeps every stored list so |
| Repository.FindUnique | src/main/java/com/github/nanoyou/maidnana/service/AnnouncementService.java:41-51 | in a valid store a uuid or an alias names at most one announcement, so `get` returns it |
| Repository.OverwriteKeys | src/main/java/com/github/nanoyou/maidnana/service/AnnouncementService.java:67-95 | writing back a changed announcement that has the same uuid and alias keeps the store valid and every uuid and alias in place |
| Repository.OverwriteFind | src/main/java/com/github/nanoyou/maidnana/service/AnnouncementService.java:67-95 | after a write-back, a reference that found the old entry finds the new one, and every other reference finds what it found before |
| Repository.RemoveFind | src/main/java/com/github/nanoyou/maidnana/service/AnnouncementService.java:58-60 | after `delete`, the store is valid, the uuid finds nothing, and every other reference is unaffected unless it named the deleted entry |
| Repository.RemoveKeepsValid | src/main/java/com/github/nanoyou/maidnana/service/AnnouncementService.java:58-60 | deletion keeps uuids and aliases distinct |
| Repository.PrependValid | src/main/java/com/github/nanoyou/maidnana/service/AnnouncementService.java:58-60 | a store stays valid when an entry distinct from all others is put in front |
| Repository.AppendFind | src/main/java/com/github/nanoyou/maidnana/service/AnnouncementService.java:29-34 | adding an announcement with an unused uuid and alias keeps the store valid; the new entry is found by its uuid and alias, and other lookups are unchanged |
| Repository.OverwriteTwice | src/main/java/com/github/nanoyou/maidnana/service/AnnouncementService.java:67-95 | a second `modify` of the same entry supersedes the first |
| Repository.OverwriteStep | src/main/java/com/github/nanoyou/maidnana/controller/AnnouncementController.java:268 | a sequence of read-change-write steps on one entry amounts to one write of the final value |
| Service.OverwriteSame | src/main/java/com/github/nanoyou/maidnana/service/AnnouncementService.java:67-95 | writing back an unchanged stored announcement leaves the store unchanged |
| Service.AnnouncementService.constructor | src/main/java/com/github/nanoyou/maidnana/service/AnnouncementService.java:17-23 | the service starts with an empty, valid store |
| Service.AnnouncementService.Create | src/main/java/com/github/nanoyou/maidnana/service/AnnouncementService.java:29-34 | `create()` appends exactly one new announcement with the drawn uuid and returns it; it is then found by that uuid |
| Service.AnnouncementService.CreateAliased | src/main/java/com/github/nanoyou/maidnana/controller/AnnouncementController.java:157-165 | `create(alias)` returns empty and changes nothing when the alias is in use; otherwise it appends one announcement with that alias, which is found by uuid and by alias |
| Service.AnnouncementService.Get | src/main/java/com/github/nanoyou/maidnana/service/AnnouncementService.java:41-51 | `get` returns the announcement the uuid or alias names, or empty exactly when nothing matches |
| Service.AnnouncementService.Delete | src/main/java/com/github/nanoyou/maidnana/service/AnnouncementService.java:58-60 | `delete` returns what was stored under the uuid and removes it; afterwards neither the uuid nor its alias finds anything |
| Service.AnnouncementService.Modify | src/main/java/com/github/nanoyou/maidnana/service/AnnouncementService.java:67-95 | write-back of a changed announcement keeping its uuid and alias and having no repeated group or trigger: the store is that write-back and stays valid, every stored list without repetitions |
| Service.AnnouncementService.AddGroup | src/main/java/com/github/nanoyou/maidnana/service/AnnouncementService.java:67-95 | a failed lookup returns empty and changes nothing; otherwise the group is appended once, a group already present changes nothing, and the group and trigger lists stay without repetitions |
| Service.AnnouncementService.RemoveGroup | src/main/java/com/github/nanoyou/maidnana/service/AnnouncementService.java:103-133 | a failed lookup returns empty and changes nothing; otherwise every occurrence of the group is removed, the rest keeps its order, the announcement is returned even when it lacked the group, and its lists stay without repetitions |
| Service.AnnouncementService.AddTrigger | src/main/java/com/github/nanoyou/maidnana/service/AnnouncementService.java:141-172 | a failed lookup returns empty and changes nothing; otherwise the trigger is appended unless an equal trigger (same uuid and cron) is present, and the lists stay without repetitions |
| Service.AnnouncementService.RemoveTrigger | src/main/java/com/github/nanoyou/maidnana/service/AnnouncementService.java:180-208 | a failed lookup returns empty and changes nothing; otherwise every trigger with the uuid is removed, the rest keeps its order, and the lists stay without repetitions; a uuid no trigger carries returns the announcement and changes nothing |
| Service.AnnouncementService.SetBody | src/main/java/com/github/nanoyou/maidnana/service/AnnouncementService.java:215-235 | a failed lookup returns empty and changes nothing; otherwise the body is replaced and no other field or entry changes |
| Service.AnnouncementService.Enable | src/main/java/com/github/nanoyou/maidnana/service/AnnouncementService.java:241-260 | a failed lookup returns empty and changes nothing; otherwise the announcement is enabled and nothing else changes, so enabling an enabled one changes nothing |
| Service.AnnouncementService.Disable | src/main/java/com/github/nanoyou/maidnana/service/AnnouncementService.java:266-285 | the mirror image of `enable` |
| Service.AnnouncementService.GetAll | src/main/java/com/github/nanoyou/maidnana/service/AnnouncementService.java:292-294 | every stored announcement is returned, in store order |
| Resolver.RefOf | src/main/java/com/github/nanoyou/maidnana/controller/AnnouncementController.java:31-38 | a token is looked up by uuid exactly when `UUID.fromString` accepts it, and by alias otherwise, never both |
| Resolver.ResolveAnnouncement | src/main/java/com/github/nanoyou/maidnana/controller/AnnouncementController.java:31-38 | `getAnnouncement`: a result has the parsed uuid, or the token as alias when the token is no uuid; empty means that nothing has it |
| Resolver.FindTemplate | src/main/java/com/github/nanoyou/maidnana/controller/AnnouncementController.java:46-53 | the template lookup returns a stored template the reference names, and empty exactly when none does |
| Resolver.ResolveTemplate | src/main/java/com/github/nanoyou/maidnana/controller/AnnouncementController.java:46-53 | `getTemplate`: the same uuid-or-alias rule as for announcements |
| Resolver.ResolvePrintedUuid | src/main/java/com/github/nanoyou/maidnana/controller/AnnouncementController.java:31-38 | the uuid printed in the listing selects that announcement |
| Resolver.ResolveOwnAlias | src/main/java/com/github/nanoyou/maidnana/controller/AnnouncementController.java:31-38 | an alias that is not a uuid selects its announcement |
| Resolver.AliasShadowedByUuid | src/main/java/com/github/nanoyou/maidnana/controller/AnnouncementController.java:31-38 | an alias spelled like another announcement's uuid never selects its own announcement |
| Resolver.ResolvePrintedTemplate | src/main/java/com/github/nanoyou/maidnana/controller/AnnouncementController.java:46-53 | a template's printed uuid finds it when no earlier template shares the uuid |
| Render.LongTexts | src/main/java/com/github/nanoyou/maidnana/controller/AnnouncementController.java:75-78 | each group number is printed by `Long.toString`, in list order |
| Render.TriggerTexts | src/main/java/com/github/nanoyou/maidnana/controller/AnnouncementController.java:80-83 | one `cron(uuid)` text per trigger, in list order |
| Render.BodyText | src/main/java/com/github/nanoyou/maidnana/controller/AnnouncementController.java:85-104 | the body section is "[未设置]" with no body, the plain text for a plain body, and for a template body the template text (or "模板被删除") followed by "\n变量列表:\n" and the variable lines |
| Render.Header | src/main/java/com/github/nanoyou/maidnana/controller/AnnouncementController.java:63-70 | without an alias the header is the printed uuid; with one it is the alias, "(", the printed uuid and ")" |
| Render.EnabledMark | src/main/java/com/github/nanoyou/maidnana/controller/AnnouncementController.java:72-73 | one character, "✔" exactly when enabled and "✖" exactly when disabled |
| Render.GroupsText | src/main/java/com/github/nanoyou/maidnana/controller/AnnouncementController.java:75-78 | the groups text is empty exactly for an empty list and otherwise begins with the first printed number |
| Render.TriggerText | src/main/java/com/github/nanoyou/maidnana/controller/AnnouncementController.java:80-83 | a trigger prints as its cron text, "(", its printed uuid and ")" |
| Render.TriggersText | src/main/java/com/github/nanoyou/maidnana/controller/AnnouncementController.java:80-83 | no trigger gives an empty section; otherwise the section begins with the first trigger's line |
| Render.VarLine | src/main/java/com/github/nanoyou/maidnana/controller/AnnouncementController.java:96-102 | a variable prints as its key, " = " and its value |
| Render.VarListing | src/main/java/com/github/nanoyou/maidnana/controller/AnnouncementController.java:96-102 | no variable gives an empty listing, and a listing that is not empty ends with a line break |
| Render.TriggerSectionLines | src/main/java/com/github/nanoyou/maidnana/controller/AnnouncementController.java:80-83 | when no cron text holds a line break, the trigger section splits at its line breaks into the triggers' lines, in list order |
| Render.FormatAnnouncement | src/main/java/com/github/nanoyou/maidnana/controller/AnnouncementController.java:61-107 | the listing text starts with the header, "\n启用: " and the mark, "\n群: " and the groups, "\n触发器列表:\n"; it ends with "\n公告体:\n" and the body section; what lies between is exactly the trigger section |
| Render.HeaderInjective | src/main/java/com/github/nanoyou/maidnana/controller/AnnouncementController.java:63-70 | equal header lines mean equal uuids and equal aliases |
| Render.LongTextInjective | src/main/java/com/github/nanoyou/maidnana/controller/AnnouncementController.java:75-78 | distinct group numbers print differently |
| Render.NoCommaInLongText | src/main/java/com/github/nanoyou/maidnana/controller/AnnouncementController.java:75-78 | a printed group number has no comma |
| Render.GroupsInjective | src/main/java/com/github/nanoyou/maidnana/controller/AnnouncementController.java:75-78 | equal "群:" lines mean equal group lists, in the same order |
| Render.GroupsSplit | src/main/java/com/github/nanoyou/maidnana/controller/AnnouncementController.java:75-78 | the first comma of the groups line ends the first printed number and a blank and the rest of the line follow it; a single group prints alone |
| Render.JoinNonEmpty | src/main/java/com/github/nanoyou/maidnana/controller/AnnouncementController.java:75-78 | the groups line is empty only for an empty group list |
| Render.JoinCommaHead | src/main/java/com/github/nanoyou/maidnana/controller/AnnouncementController.java:75-78 | the first comma of the groups line ends the first group number |
| Render.TriggerIdReadable | src/main/java/com/github/nanoyou/maidnana/controller/AnnouncementController.java:80-83 | the uuid in a trigger's line reads back, through `UUID.fromString`, as that trigger's uuid |
| Render.VarListingLines | src/main/java/com/github/nanoyou/maidnana/controller/AnnouncementController.java:96-102 | the variable listing is one `k = v` line per visited key, in visiting order |
| Render.VarListingCount | src/main/java/com/github/nanoyou/maidnana/controller/AnnouncementController.java:96-102 | a listing of all variables has exactly one line per variable, and every variable's line appears |
| Render.DistinctCount | src/main/java/com/github/nanoyou/maidnana/controller/AnnouncementController.java:96-102 | an iteration visiting each key once is as long as the key set is large |
| Commands.ParseAll | src/main/java/com/github/nanoyou/maidnana/controller/AnnouncementController.java:289-299 | either every token parses and the results are in order, or it reports the first token that does not parse |
| Commands.Arguments | src/main/java/com/github/nanoyou/maidnana/controller/AnnouncementController.java:459-462 | the arguments are the words after the command word, in order |
| Commands.ParseAllFailsAt | src/main/java/com/github/nanoyou/maidnana/controller/AnnouncementController.java:289-299 | a parse loop that meets its first bad token at position n fails at n |
| Commands.ParseAllStops | src/main/java/com/github/nanoyou/maidnana/controller/AnnouncementController.java:289-299 | once a prefix fails, tokens after it do not matter |
| Commands.ParseAllPrefix | src/main/java/com/github/nanoyou/maidnana/controller/AnnouncementController.java:289-299 | the tokens before the failing one all parse |
| Commands.CollectGroupIds | src/main/java/com/github/nanoyou/maidnana/controller/AnnouncementController.java:255-264 | the group number loop gives the all-or-nothing result of parsing every argument with `Long.valueOf` |
| Commands.GroupIds | src/main/java/com/github/nanoyou/maidnana/controller/AnnouncementController.java:255-264 | either every argument is read by `Long.valueOf`, in order, or the first argument it refuses is reported, all before it read |
| Commands.VarEntry | src/main/java/com/github/nanoyou/maidnana/controller/AnnouncementController.java:365-372 | a variable row yields an entry exactly when it holds '=' |
| Commands.VarEntryShape | src/main/java/com/github/nanoyou/maidnana/controller/AnnouncementController.java:367-370 | the key is the text before the first '=' without trailing blanks, and the value the text after it without leading blanks |
| Commands.VarEntryAround | src/main/java/com/github/nanoyou/maidnana/controller/AnnouncementController.java:367-370 | a row `before=after` with no '=' in `before` reads as `before` without its trailing blanks and `after` without its leading blanks |
| Commands.VarEntryClean | src/main/java/com/github/nanoyou/maidnana/controller/AnnouncementController.java:367-370 | a key read from a row holds no '=', and neither key nor value holds a line break the row lacks |
| Commands.VarLineReadBack | src/main/java/com/github/nanoyou/maidnana/controller/AnnouncementController.java:96-102 | a `k = v` line of the listing, sent back as a variable row, gives the entry (k, v) |
| Commands.GatherDefiner | src/main/java/com/github/nanoyou/maidnana/controller/AnnouncementController.java:365-372 | every collected key comes from some row that defines it |
| Commands.GatherDefined | src/main/java/com/github/nanoyou/maidnana/controller/AnnouncementController.java:365-372 | every key some row defines is collected |
| Commands.GatherLastWins | src/main/java/com/github/nanoyou/maidnana/controller/AnnouncementController.java:365-372 | a key takes the value of the last row that defines it |
| Commands.GatherSize | src/main/java/com/github/nanoyou/maidnana/controller/AnnouncementController.java:365-372 | there are never more variables than rows |
| Commands.VarsOf | src/main/java/com/github/nanoyou/maidnana/controller/AnnouncementController.java:365-372 | no variable name holds '='; when no row holds a line break, no name or value does |
| Commands.VarsOfSpec | src/main/java/com/github/nanoyou/maidnana/controller/AnnouncementController.java:365-372 | the variable map holds exactly the keys of rows with '=', each with the value of its last row |
| Commands.CollectVars | src/main/java/com/github/nanoyou/maidnana/controller/AnnouncementController.java:365-372 | the row loop builds exactly the variable map specified by those rows |
| Commands.PlainContent | src/main/java/com/github/nanoyou/maidnana/controller/AnnouncementController.java:321-326 | the plain body is the text after the first line break, and a message without one has no body |
| Commands.PlainContentReadBack | src/main/java/com/github/nanoyou/maidnana/controller/AnnouncementController.java:321-326 | a command line followed by "\n" and any text gives back that text as the body |
| JavaText.Pieces | src/main/java/com/github/nanoyou/maidnana/controller/AnnouncementController.java:145 | splitting gives at least one piece, none holding the separator |
| JavaText.Split | src/main/java/com/github/nanoyou/maidnana/controller/AnnouncementController.java:145 | `split` gives the text itself when it lacks the separator; otherwise its pieces less the trailing empty ones, the last kept one not empty; no part holds the separator |
| JavaText.Join | src/main/java/com/github/nanoyou/maidnana/controller/AnnouncementController.java:75-78 | joining nothing gives the empty text; otherwise the text begins with the first word |
| JavaText.DropTrailingEmpty | src/main/java/com/github/nanoyou/maidnana/controller/AnnouncementController.java:145 | `split` drops the trailing empty strings and only those |
| JavaText.SplitOnce | src/main/java/com/github/nanoyou/maidnana/controller/AnnouncementController.java:423-427 | `split(c, 2)`: two parts around the first separator, none without one |
| JavaText.TrimStart | src/main/java/com/github/nanoyou/maidnana/controller/AnnouncementController.java:367-370 | the leading blanks and only those are dropped |
| JavaText.TrimEnd | src/main/java/com/github/nanoyou/maidnana/controller/AnnouncementController.java:367-370 | the trailing blanks and only those are dropped |
| JavaText.JoinPieces | src/main/java/com/github/nanoyou/maidnana/controller/AnnouncementController.java:145 | joining the pieces with the separator gives back the text |
| JavaText.PiecesCleanPrefix | src/main/java/com/github/nanoyou/maidnana/controller/AnnouncementController.java:145 | a prefix without the separator joins the first piece |
| JavaText.PiecesAround | src/main/java/com/github/nanoyou/maidnana/controller/AnnouncementController.java:145 | the pieces around a separator are the pieces of each side |
| JavaText.PiecesJoin | src/main/java/com/github/nanoyou/maidnana/controller/AnnouncementController.java:145 | splitting joined words without the separator gives back the words |
| JavaText.SplitKeepsAll | src/main/java/com/github/nanoyou/maidnana/controller/AnnouncementController.java:145 | a text not ending in the separator loses nothing to `split` |
| JavaText.LastPieceNonEmpty | src/main/java/com/github/nanoyou/maidnana/controller/AnnouncementController.java:145 | the last piece of such a text is not empty |
| JavaText.SplitHasHead | src/main/java/com/github/nanoyou/maidnana/controller/AnnouncementController.java:346-347 | a message not starting with the separator has a first line, the first piece |
| JavaText.SplitOnceAt | src/main/java/com/github/nanoyou/maidnana/controller/AnnouncementController.java:423-427 | `split(c, 2)` splits at the first separator |
| Longs.NatText | src/main/java/com/github/nanoyou/maidnana/controller/AnnouncementController.java:235 | a count prints as a non-empty string of decimal digits in canonical form: "0" for zero, and otherwise no leading '0' |
| Longs.ParseLong | src/main/java/com/github/nanoyou/maidnana/controller/AnnouncementController.java:259 | `Long.valueOf` accepts only an optional sign followed by decimal digits; such a text is accepted exactly when its value fits in 64 bits, and the result is that value, negated after '-' |
| Longs.LongText | src/main/java/com/github/nanoyou/maidnana/controller/AnnouncementController.java:75-78 | `Long.toString` prints digits, with a leading minus exactly for a negative number, in canonical form: "0" for zero, and otherwise no '0' as the first digit |
| Longs.DigitsLeadingZero | src/main/java/com/github/nanoyou/maidnana/controller/AnnouncementController.java:259 | a leading zero does not change the value of a digit string |
| Longs.ParseLongLeadingZero | src/main/java/com/github/nanoyou/maidnana/controller/AnnouncementController.java:259 | `Long.valueOf` ignores a leading zero |
| Longs.ParseLongPlus | src/main/java/com/github/nanoyou/maidnana/controller/AnnouncementController.java:259 | `Long.valueOf` reads "+d" as it reads d |
| Longs.DigitsOfNatText | src/main/java/com/github/nanoyou/maidnana/controller/AnnouncementController.java:235 | a printed count reads back as that count |
| Longs.LongRoundTrip | src/main/java/com/github/nanoyou/maidnana/controller/AnnouncementController.java:75-78 | `Long.valueOf(Long.toString(x))` is x for every 64-bit x |
| Longs.LongTextCharacters | src/main/java/com/github/nanoyou/maidnana/controller/AnnouncementController.java:75-78 | a printed number has only digits, and a minus sign in front when negative |
| Uuids.HexText | src/main/java/com/github/nanoyou/maidnana/controller/AnnouncementController.java:63-70 | a number prints as exactly `width` hex digits |
| Uuids.HexNumber | src/main/java/com/github/nanoyou/maidnana/controller/AnnouncementController.java:63-70 | k hex digits read as a number below 16^k |
| Uuids.UuidText | src/main/java/com/github/nanoyou/maidnana/controller/AnnouncementController.java:63-70 | `UUID.toString` prints 36 characters |
| Uuids.HexNumberOfText | src/main/java/com/github/nanoyou/maidnana/controller/AnnouncementController.java:63-70 | printed hex digits read back as the number |
| Uuids.HexDigitRoundTrip | src/main/java/com/github/nanoyou/maidnana/controller/AnnouncementController.java:63-70 | a hex digit reads back as its value |
| Uuids.UuidRoundTrip | src/main/java/com/github/nanoyou/maidnana/controller/AnnouncementController.java:31-38 | the canonical reader reads every printed UUID back as that UUID |
| Uuids.ParseCanonicalUuid | src/main/java/com/github/nanoyou/maidnana/controller/AnnouncementController.java:33 | the canonical reader accepts exactly 36 characters with dashes at offsets 8, 13, 18 and 23 and hex digits elsewhere |
| Uuids.DashedDigits | src/main/java/com/github/nanoyou/maidnana/controller/AnnouncementController.java:33 | the characters around the four dashes are all hex digits exactly when the text has the canonical shape |
| Uuids.DashedGroups | src/main/java/com/github/nanoyou/maidnana/controller/AnnouncementController.java:63-70 | the 8-4-4-4-12 groups of a dashed text sit at fixed offsets |
| Uuids.UuidTextCharacters | src/main/java/com/github/nanoyou/maidnana/controller/AnnouncementController.java:63-70 | a printed UUID has only hex digits and dashes |
| Controller.TriggerIds | src/main/java/com/github/nanoyou/maidnana/controller/AnnouncementController.java:455-458 | the uuids of the first n triggers, n of them |
| Controller.TriggerIdsCover | src/main/java/com/github/nanoyou/maidnana/controller/AnnouncementController.java:455-458 | each of the first n triggers has its uuid among them |
| Controller.IsCommand | src/main/java/com/github/nanoyou/maidnana/controller/AnnouncementController.java:141 | a message is a command exactly when it begins with the command word |
| Controller.TemplateVarsListing | src/main/java/com/github/nanoyou/maidnana/controller/AnnouncementController.java:346-372 | the variables a "模板公告" command stores are listed one line each, every variable on a line of its own |
| Controller.EmptyAliasWord | src/main/java/com/github/nanoyou/maidnana/controller/AnnouncementController.java:145-165 | "新建公告  w", with two spaces, is the command with the empty alias word: it reaches `create("")` |
| Controller.FormatEach | src/main/java/com/github/nanoyou/maidnana/controller/AnnouncementController.java:236 | the listing loop formats each announcement, in store order |
| Controller.AnnouncementController.constructor | src/main/java/com/github/nanoyou/maidnana/controller/AnnouncementController.java:19 | the controller starts with nothing selected |
| Controller.AnnouncementController.Selection | src/main/java/com/github/nanoyou/maidnana/controller/AnnouncementController.java:122-133 | the selected announcement is the stored one with the selected uuid; otherwise the reply is "请先选择公告" when nothing is selected, or "公告已被删除" when the uuid is no longer stored |
| Controller.AnnouncementController.NewAnnouncement | src/main/java/com/github/nanoyou/maidnana/controller/AnnouncementController.java:140-172 | as written: without an alias one announcement is created and selected; a taken alias is refused with nothing changed; an empty alias is refused but its announcement stays in the store, unselected |
| Controller.AnnouncementController.NewAnnouncementChecked | src/main/java/com/github/nanoyou/maidnana/controller/AnnouncementController.java:157-165 | corrected: a message that is not the command is ignored; without an alias one announcement with the fresh uuid is created and selected; with an alias in use the reply is "taken", and with a new one an announcement with that alias is created; an empty alias is refused; any refusal changes nothing |
| Controller.AnnouncementController.SelectAnnouncement | src/main/java/com/github/nanoyou/maidnana/controller/AnnouncementController.java:179-199 | the resolved announcement becomes the sender's selection; without an argument, or when nothing is found, the selection is unchanged; the store never changes |
| Controller.AnnouncementController.DeleteAnnouncement | src/main/java/com/github/nanoyou/maidnana/controller/AnnouncementController.java:206-220 | the selected announcement is deleted, and the sender's selection then reports "公告已被删除" |
| Controller.AnnouncementController.ListAnnouncements | src/main/java/com/github/nanoyou/maidnana/controller/AnnouncementController.java:227-238 | the reply is "共有 n 条公告" with n the store size, then the formatted text of every announcement in store order |
| Controller.AnnouncementController.SetGroups | src/main/java/com/github/nanoyou/maidnana/controller/AnnouncementController.java:245-272 | if one argument is not a group number the usage text is sent and nothing changes; otherwise each number is added, in order, to the selected announcement unless already there |
| Controller.AnnouncementController.UnsetGroups | src/main/java/com/github/nanoyou/maidnana/controller/AnnouncementController.java:279-307 | if one argument is not a group number the reply names it and nothing changes; otherwise every listed number is removed from the selected announcement, the others keeping their order |
| Controller.AnnouncementController.SetPlainBody | src/main/java/com/github/nanoyou/maidnana/controller/AnnouncementController.java:314-335 | the body becomes the plain text after the first line break; a message without one is refused and changes nothing |
| Controller.AnnouncementController.SetTemplateBody | src/main/java/com/github/nanoyou/maidnana/controller/AnnouncementController.java:342-381 | the body becomes the resolved template with the variables of the remaining lines; a missing template or argument changes nothing |
| Controller.AnnouncementController.Enable | src/main/java/com/github/nanoyou/maidnana/controller/AnnouncementController.java:388-396 | the selected announcement is enabled and nothing else changes |
| Controller.AnnouncementController.Disable | src/main/java/com/github/nanoyou/maidnana/controller/AnnouncementController.java:404-412 | the selected announcement is disabled and nothing else changes |
| Controller.AnnouncementController.NewTrigger | src/main/java/com/github/nanoyou/maidnana/controller/AnnouncementController.java:419-440 | a trigger with a fresh uuid and the text after the first space as cron is added; a message without a space changes nothing |
| Controller.AnnouncementController.DeleteTrigger | src/main/java/com/github/nanoyou/maidnana/controller/AnnouncementController.java:447-468 | without arguments every trigger of the selected announcement is removed; with arguments the listed ones are |
| Controller.AnnouncementController.AddGroupStep | src/main/java/com/github/nanoyou/maidnana/controller/AnnouncementController.java:268 | one pass of the "设置群" loop: the stored announcement gains the next number |
| Controller.AnnouncementController.RemoveGroupStep | src/main/java/com/github/nanoyou/maidnana/controller/AnnouncementController.java:301-305 | one pass of the "取消群" loop: the stored announcement loses the next number |
| Controller.AnnouncementController.RemoveTriggerStep | src/main/java/com/github/nanoyou/maidnana/controller/AnnouncementController.java:455-458 | one pass of a "删除触发器" loop: the stored announcement loses the triggers with the next uuid |
| Controller.AnnouncementController.RemoveAllTriggers | src/main/java/com/github/nanoyou/maidnana/controller/AnnouncementController.java:455-458 | looping over a copy of the trigger list and removing each uuid leaves no trigger and changes nothing else |
| Controller.AnnouncementController.RemoveListedTriggers | src/main/java/com/github/nanoyou/maidnana/controller/AnnouncementController.java:459-462 | if every argument is a uuid the listed triggers are removed; at the first bad argument the loop stops, the triggers listed before it stay removed, and the reply names the argument |

## Left out

- Sending messages is left out: the reply to the sender is a `Reply` value. The usage texts
  are the single `Usage` reply.
- `TemplateDao` and the template service are not part of this model. The templates are a
  sequence given to the handlers that read them, searched by first match.
- `AnnouncementDao` is not part of this model. It is assumed to behave as follows:
  - `get` returns the first entry with the uuid or alias;
  - `add` appends;
  - `modify` overwrites the entry with the same uuid;
  - `delete` removes it.
- Announcement objects are values in the model. The Java handlers edit the object that `get`
  returned and then call `modify`; the model computes the new value and writes it back, so
  the aliasing between the stored object and the edited one is not modelled.
- `UUID.randomUUID` is the `freshId` parameter of the methods that create something. A new
  announcement's uuid is required not to clash with a stored announcement's uuid
  (`Create`, `CreateAliased`, `NewAnnouncement`, `NewAnnouncementChecked`). A new trigger's uuid
  carries no such requirement: `NewTrigger` accepts any uuid.
- The entity classes `Announcement`, `Trigger`, `PlainBody` and `TemplateBody` are not part of
  this model. Their behaviour is assumed as follows:
  - `new Announcement()` is disabled and has empty group and trigger lists and no body
    (`Entities.NewAnnouncement`);
  - `PlainBody.getBodyString()` returns the text given to `setContent` (`Render.BodyText`);
  - `Trigger.equals` compares the uuid and the cron text, field by field, so two triggers are
    equal exactly when they are equal values in the model (`Service.AnnouncementService.AddTrigger`).
- `UUID.fromString` is the `parse` parameter. `Uuids.ParseCanonicalUuid` reads the canonical
  form only. `Resolver.ReadsPrinted` states what is assumed of `parse`: it reads back what
  `UUID.toString` prints. Java's acceptance of non-canonical forms is not modelled.
- Service.AnnouncementService.CreateAliased: `create(alias)` is not in the service source file
  shown. It is assumed to refuse an alias already in use and otherwise to append an
  announcement with that alias. The empty alias is not refused there.
- `setVariable`, `unsetVariable` and `preview` are left out, together with the template text
  substitution they rely on.
- The preview of the new body in the "设置成功" reply is left out. `BodySet` carries the
  announcement with the new body instead of the rendered text.
- The iteration order of a `HashMap` is the `keysOf` parameter. `Render.Enumerates` states
  what is assumed of it: it visits every key exactly once.
- Cron expressions are stored verbatim and never interpreted. Scheduling is not modelled.
- Concurrency is not modelled. Each command runs to completion alone.
- Longs.ParseLong: `Long.valueOf` also accepts non-ASCII decimal digits; the model accepts
  ASCII digits, an optional sign and the 64-bit range only.
- Controller.AnnouncementController.UnsetGroups: the "未找到群" reply is not modelled. It
  cannot happen, because `removeGroup` returns the announcement whenever it exists.
- Service.AnnouncementService.AddTrigger: a trigger is a duplicate only when both uuid and
  cron are equal. The code compares whole triggers with `Trigger.equals`, assumed above to
  compare both fields, so the model follows the code rather than a uuid-only comparison.
- Controller.AnnouncementController.RemoveListedTriggers: in Java a bad uuid makes
  `UUID.fromString` throw out of the handler. The model stops at that argument with the
  `BadTriggerId` reply and keeps the removals made before it.

## Findings

| source | as written | input that shows it | evidently intended | confidence | as-written member | corrected member |
|---|---|---|---|---|---|---|
| src/main/java/com/github/nanoyou/maidnana/controller/AnnouncementController.java:157-165 | `create(alias)` runs before the empty-alias check, so "别名不能为空" is sent after an announcement with alias "" was already stored (unselected); later "新建公告  …" commands then get "公告别名已存在" | "新建公告  x" (two spaces), which splits into the command, "" and "x" | refuse the empty alias before creating anything | not executed | Controller.AnnouncementController.NewAnnouncement | Controller.AnnouncementController.NewAnnouncementChecked |
