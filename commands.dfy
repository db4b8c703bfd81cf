/**
 * How the command handlers read their arguments out of a chat message:
 *   - "设置群" / "取消群": the words after the command, each read with `Long.valueOf`; one bad
 *     word rejects the whole command;
 *   - "模板公告": the lines after the first, each `key = value` (split at the first `=`, with the
 *     blanks around it removed), later keys overwriting earlier ones, lines without `=` ignored;
 *   - "纯文本公告": everything after the first line break;
 *   - "删除触发器": the words after the command, each read with `UUID.fromString`.
 */
module Commands {
  import opened Wrappers
  import opened Longs
  import opened JavaText

  /**
   * Reads every token with `parse`, in order: all the values, or the position of the first
   * token `parse` rejects.
   */
  function ParseAll<T>(tokens: seq<string>, parse: string -> Option<T>): (r: Result<seq<T>, nat>)
    ensures r.Success? ==> |r.value| == |tokens|
    ensures r.Success? ==> forall i :: 0 <= i < |tokens| ==> parse(tokens[i]) == Some(r.value[i])
    ensures r.Failure? ==> r.error < |tokens| && parse(tokens[r.error]).None?
    ensures r.Failure? ==> forall i :: 0 <= i < r.error ==> parse(tokens[i]).Some?
  {
    if tokens == [] then Success([])
    else
      var init := tokens[..|tokens| - 1];
      match ParseAll(init, parse)
      case Failure(k) => Failure(k)
      case Success(values) =>
        match parse(tokens[|tokens| - 1])
        case None => Failure(|tokens| - 1)
        case Some(v) => Success(values + [v])
  }

  /** `Arrays.stream(line).skip(1)`: the words after the command word. */
  function Arguments(line: seq<string>): (args: seq<string>)
    ensures |args| == if line == [] then 0 else |line| - 1
    ensures forall i :: 0 <= i < |args| ==> args[i] == line[i + 1]
  {
    if line == [] then [] else line[1..]
  }

  /** The group numbers of a "设置群" / "取消群" command, or the position of the first bad one. */
  function GroupIds(tokens: seq<string>): (r: Result<seq<Long>, nat>)
    ensures r.Success? ==> |r.value| == |tokens| && forall i :: 0 <= i < |tokens| ==> ParseLong(tokens[i]) == Some(r.value[i])
    ensures r.Failure? ==> r.error < |tokens| && ParseLong(tokens[r.error]).None?
    ensures r.Failure? ==> forall i :: 0 <= i < r.error ==> ParseLong(tokens[i]).Some?
  {
    ParseAll(tokens, ParseLong)
  }

  /** A token rejected after a run of accepted ones is the position `ParseAll` reports. */
  lemma ParseAllFailsAt<T>(tokens: seq<string>, n: nat, parse: string -> Option<T>)
    requires n < |tokens| && ParseAll(tokens[..n], parse).Success? && parse(tokens[n]).None?
    ensures ParseAll(tokens, parse) == Failure(n)
  {
    assert tokens[..n + 1][..n] == tokens[..n];
    ParseAllStops(tokens, n + 1, parse);
  }

  /** Parsing stops at the first rejected token: what follows it does not matter. */
  lemma {:induction false} ParseAllStops<T>(tokens: seq<string>, n: nat, parse: string -> Option<T>)
    requires n <= |tokens| && ParseAll(tokens[..n], parse).Failure?
    ensures ParseAll(tokens, parse) == ParseAll(tokens[..n], parse)
    decreases |tokens| - n
  {
    if n < |tokens| {
      ParseAllStops(tokens, n + 1, parse);
      assert tokens[..n + 1][..n] == tokens[..n];
    } else {
      assert tokens[..n] == tokens;
    }
  }

  /** Up to the first rejected token, every token was read. */
  lemma ParseAllPrefix<T>(tokens: seq<string>, parse: string -> Option<T>)
    requires ParseAll(tokens, parse).Failure?
    ensures ParseAll(tokens[..ParseAll(tokens, parse).error], parse).Success?
  {
    var k := ParseAll(tokens, parse).error;
    assert forall i :: 0 <= i < k ==> tokens[..k][i] == tokens[i];
  }

  /**
   * The loop `for (i = 1; i < line.length; i++) groupIds.add(Long.valueOf(line[i]))` of the
   * group commands, on `tokens == line[1..]`; the exception ends it at the first bad token.
   */
  method CollectGroupIds(tokens: seq<string>) returns (r: Result<seq<Long>, nat>)
    ensures r == GroupIds(tokens)
  {
    var ids: seq<Long> := [];
    var i := 0;
    while i < |tokens|
      invariant 0 <= i <= |tokens|
      invariant GroupIds(tokens[..i]) == Success(ids)
    {
      var g := ParseLong(tokens[i]);
      assert tokens[..i + 1][..i] == tokens[..i];
      if g.None? {
        ParseAllStops(tokens, i + 1, ParseLong);
        return Failure(i);
      }
      ids := ids + [g.value];
      i := i + 1;
    }
    assert tokens[..i] == tokens;
    r := Success(ids);
  }

  /**
   * `row.split("\\s*=\\s*", 2)` when it yields two parts: the regular expression's leftmost
   * match is the first `=` with the blanks on either side of it, so the key is the text before
   * the first `=` without its trailing blanks and the value the text after it without its
   * leading blanks. A row without `=` is not a variable.
   */
  function VarEntry(row: string): (r: Option<(string, string)>)
    ensures r.None? <==> '=' !in row
  {
    match SplitOnce(row, '=')
    case None => None
    case Some((before, after)) => Some((TrimEnd(before), TrimStart(after)))
  }

  /**
   * What `VarEntry` reads, around the first `=` of the row: the key is the text before it less
   * the blanks that end that text, the value the text after it less the blanks that begin it.
   */
  lemma VarEntryShape(row: string)
    requires '=' in row
    ensures var e := IndexOf(row, '='); var k := VarEntry(row).value.0;
      k <= row[..e] && (forall j :: |k| <= j < e ==> IsSpace(row[j])) && (k == [] || !IsSpace(k[|k| - 1]))
    ensures var e := IndexOf(row, '='); var v := VarEntry(row).value.1;
      |v| < |row| - e && row[|row| - |v|..] == v
      && (forall j :: e < j < |row| - |v| ==> IsSpace(row[j])) && (v == [] || !IsSpace(v[0]))
  {
    var (before, after) := SplitOnce(row, '=').value;
    assert row == before + "=" + after;
    assert VarEntry(row) == Some((TrimEnd(before), TrimStart(after)));
    IndexOfSplit(before, after, '=');
    KeyAround(before, after);
    ValueAround(before, after);
  }

  /** A row `before=after` whose first `=` is the one shown is read as the trimmed key and value. */
  lemma VarEntryAround(before: string, after: string)
    requires '=' !in before
    ensures VarEntry(before + "=" + after) == Some((TrimEnd(before), TrimStart(after)))
  {
    SplitOnceAt(before, after, '=');
  }

  /** A key read from a row holds no `=`; neither it nor its value holds a line break the row lacks. */
  lemma VarEntryClean(row: string)
    requires VarEntry(row).Some?
    ensures '=' !in VarEntry(row).value.0
    ensures '\n' !in row ==> '\n' !in VarEntry(row).value.0 && '\n' !in VarEntry(row).value.1
  {
    var (before, after) := SplitOnce(row, '=').value;
    var (k, v) := VarEntry(row).value;
    assert row == before + "=" + after;
    assert k <= before && after[|after| - |v|..] == v;
    forall j | 0 <= j < |k| ensures k[j] == row[j] && k[j] != '=' {
      assert k[j] == before[j];
    }
    forall j | 0 <= j < |v| ensures v[j] == row[|row| - |v| + j] {
      assert v[j] == after[|after| - |v| + j];
    }
  }

  /** Where the trimmed text before the `=` sits in the row. */
  lemma KeyAround(before: string, after: string)
    ensures var row := before + "=" + after; var k := TrimEnd(before);
      k <= row[..|before|] && (forall j :: |k| <= j < |before| ==> IsSpace(row[j]))
  {
    var row := before + "=" + after;
    assert row[..|before|] == before;
  }

  /** Where the trimmed text after the `=` sits in the row. */
  lemma ValueAround(before: string, after: string)
    ensures var row := before + "=" + after; var v := TrimStart(after); var e := |before|;
      |v| < |row| - e && row[|row| - |v|..] == v && (forall j :: e < j < |row| - |v| ==> IsSpace(row[j]))
  {
    var row := before + "=" + after;
    var v := TrimStart(after);
    var e := |before|;
    assert row[|row| - |v|..] == after[|after| - |v|..];
    forall j | e < j < |row| - |v| ensures IsSpace(row[j]) {
      assert row[j] == after[j - e - 1];
    }
  }

  /** The position of the first `c` in `s`. */
  function IndexOf(s: string, c: char): (i: nat)
    requires c in s
    ensures i < |s| && s[i] == c && c !in s[..i]
  {
    if s[0] == c then 0 else IndexOf(s[1..], c) + 1
  }

  lemma {:induction false} IndexOfSplit(before: string, after: string, c: char)
    requires c !in before
    ensures IndexOf(before + [c] + after, c) == |before|
  {
    if before != [] {
      assert (before + [c] + after)[1..] == before[1..] + [c] + after;
      IndexOfSplit(before[1..], after, c);
    }
  }

  /** A line `k = v` as the listing prints it is read back as the variable `k` with value `v`. */
  lemma VarLineReadBack(k: string, v: string)
    requires '=' !in k && (k == [] || !IsSpace(k[|k| - 1])) && (v == [] || !IsSpace(v[0]))
    ensures VarEntry(k + " = " + v) == Some((k, v))
  {
    var row := k + " = " + v;
    assert row == (k + " ") + ['='] + (" " + v);
    assert '=' !in k + " ";
    SplitOnceAt(k + " ", " " + v, '=');
    assert TrimEnd(k + " ") == k by {
      assert (k + " ")[..|k|] == k;
    }
    assert TrimStart(" " + v) == v by {
      assert (" " + v)[1..] == v;
    }
  }

  /**
   * The map built by reading `rows` in order with `entry`, each entry read overwriting any
   * earlier one with the same key.
   */
  function Gather(rows: seq<string>, entry: string -> Option<(string, string)>): map<string, string> {
    if rows == [] then map[]
    else
      var vars := Gather(rows[..|rows| - 1], entry);
      match entry(rows[|rows| - 1])
      case None => vars
      case Some((k, v)) => vars[k := v]
  }

  /** The variables of a "模板公告" command. */
  function VarsOf(rows: seq<string>): (r: map<string, string>)
    ensures forall k :: k in r ==> '=' !in k
    ensures (forall i :: 0 <= i < |rows| ==> '\n' !in rows[i]) ==> forall k :: k in r ==> '\n' !in k && '\n' !in r[k]
  {
    forall k | k in Gather(rows, VarEntry)
      ensures '=' !in k
      ensures (forall i :: 0 <= i < |rows| ==> '\n' !in rows[i]) ==> '\n' !in k && '\n' !in Gather(rows, VarEntry)[k]
    {
      var i := GatherDefiner(rows, VarEntry, k);
      VarEntryClean(rows[i]);
    }
    Gather(rows, VarEntry)
  }

  /** There are at most as many variables as rows. */
  lemma {:induction false} GatherSize(rows: seq<string>, entry: string -> Option<(string, string)>)
    ensures |Gather(rows, entry)| <= |rows|
  {
    if rows != [] {
      GatherSize(rows[..|rows| - 1], entry);
    }
  }

  /** `row` is read as a variable named `k`. */
  predicate Defines(entry: string -> Option<(string, string)>, row: string, k: string) {
    entry(row).Some? && entry(row).value.0 == k
  }

  /** Every key of the result was defined by some row, which gave it its value. */
  lemma {:induction false} GatherDefiner(rows: seq<string>, entry: string -> Option<(string, string)>, k: string) returns (i: nat)
    requires k in Gather(rows, entry)
    ensures i < |rows| && Defines(entry, rows[i], k) && entry(rows[i]).value.1 == Gather(rows, entry)[k]
  {
    var init := rows[..|rows| - 1];
    if Defines(entry, rows[|rows| - 1], k) {
      i := |rows| - 1;
    } else {
      assert k in Gather(init, entry);
      i := GatherDefiner(init, entry, k);
      assert init[i] == rows[i];
    }
  }

  /** Every key some row defines is a key of the result. */
  lemma {:induction false} GatherDefined(rows: seq<string>, entry: string -> Option<(string, string)>, i: nat, k: string)
    requires i < |rows| && Defines(entry, rows[i], k)
    ensures k in Gather(rows, entry)
  {
    var init := rows[..|rows| - 1];
    if i < |rows| - 1 {
      assert init[i] == rows[i];
      GatherDefined(init, entry, i, k);
    }
  }

  /** The value of a key is the one on the last row that defines it. */
  lemma {:induction false} GatherLastWins(rows: seq<string>, entry: string -> Option<(string, string)>, i: nat, k: string, v: string)
    requires i < |rows| && entry(rows[i]) == Some((k, v))
    requires forall j :: i < j < |rows| ==> !Defines(entry, rows[j], k)
    ensures k in Gather(rows, entry) && Gather(rows, entry)[k] == v
  {
    var init := rows[..|rows| - 1];
    if i < |rows| - 1 {
      assert init[i] == rows[i];
      assert !Defines(entry, rows[|rows| - 1], k);
      forall j | i < j < |init| ensures !Defines(entry, init[j], k) {
        assert init[j] == rows[j];
      }
      GatherLastWins(init, entry, i, k, v);
    }
  }

  /**
   * The variables of a "模板公告" command are the keys its rows define, each with the value
   * of the last row that defines it.
   */
  lemma VarsOfSpec(rows: seq<string>, k: string)
    ensures k in VarsOf(rows) ==> exists i :: 0 <= i < |rows| && Defines(VarEntry, rows[i], k)
    ensures forall i :: 0 <= i < |rows| && Defines(VarEntry, rows[i], k) ==> k in VarsOf(rows)
    ensures forall i :: (0 <= i < |rows| && Defines(VarEntry, rows[i], k)
                          && (forall j :: i < j < |rows| ==> !Defines(VarEntry, rows[j], k)))
                         ==> VarsOf(rows)[k] == VarEntry(rows[i]).value.1
  {
    if k in VarsOf(rows) {
      var i := GatherDefiner(rows, VarEntry, k);
    }
    forall i | 0 <= i < |rows| && Defines(VarEntry, rows[i], k) ensures k in VarsOf(rows) {
      GatherDefined(rows, VarEntry, i, k);
    }
    forall i | 0 <= i < |rows| && Defines(VarEntry, rows[i], k) && (forall j :: i < j < |rows| ==> !Defines(VarEntry, rows[j], k))
      ensures VarsOf(rows)[k] == VarEntry(rows[i]).value.1
    {
      GatherLastWins(rows, VarEntry, i, k, VarEntry(rows[i]).value.1);
    }
  }

  /**
   * The loop `Arrays.stream(line).skip(1).forEach(row -> ... vars.put(key, value))` of the
   * "模板公告" command, on `rows == line[1..]`.
   */
  method CollectVars(rows: seq<string>) returns (vars: map<string, string>)
    ensures vars == VarsOf(rows)
  {
    vars := map[];
    var i := 0;
    while i < |rows|
      invariant 0 <= i <= |rows|
      invariant vars == Gather(rows[..i], VarEntry)
    {
      assert rows[..i + 1][..i] == rows[..i];
      var entry := VarEntry(rows[i]);
      if entry.Some? {
        vars := vars[entry.value.0 := entry.value.1];
      }
      i := i + 1;
    }
    assert rows[..i] == rows;
  }

  /**
   * `message.split("\n", 2)[1]`, the content of a "纯文本公告" command: everything after the
   * first line break, which must exist.
   */
  function PlainContent(message: string): (r: Option<string>)
    ensures r.None? <==> '\n' !in message
    ensures r.Some? ==> |r.value| < |message| && message[|message| - |r.value|..] == r.value
    ensures r.Some? ==> message[|message| - |r.value| - 1] == '\n' && '\n' !in message[..|message| - |r.value| - 1]
  {
    match SplitOnce(message, '\n')
    case None => None
    case Some((_, after)) =>
      assert message[|message| - |after|..] == after;
      Some(after)
  }

  /** The content written after the command line is exactly what is stored. */
  lemma PlainContentReadBack(command: string, content: string)
    requires '\n' !in command
    ensures PlainContent(command + "\n" + content) == Some(content)
  {
    SplitOnceAt(command, content, '\n');
  }
}
