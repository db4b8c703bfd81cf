/**
 * The parts of `java.lang.String` that the command handlers rely on: `split` with a
 * one-character separator (with and without a limit of 2), `Collectors.joining`, and the
 * whitespace class `\s` of `java.util.regex` that the `key = value` split strips.
 */
module JavaText {
  import opened Wrappers

  /** The class `\s` of java.util.regex: space, \t, \n, \x0B, \f and \r. */
  predicate IsSpace(c: char) {
    c == ' ' || c == '\t' || c == '\n' || c == '\r' || c == 11 as char || c == 12 as char
  }

  /** Every piece between occurrences of `c`, empty pieces included (`s.split(c, -1)`). */
  function Pieces(s: string, c: char): (ps: seq<string>)
    ensures |ps| >= 1
    ensures forall i :: 0 <= i < |ps| ==> c !in ps[i]
  {
    if s == [] then [""]
    else
      var rest := Pieces(s[1..], c);
      if s[0] == c then [""] + rest else [[s[0]] + rest[0]] + rest[1..]
  }

  /** `String.join(sep, xs)`, which is also what `Collectors.joining(sep)` produces. */
  function Join(xs: seq<string>, sep: string): (r: string)
    ensures xs == [] ==> r == ""
    ensures |xs| >= 1 ==> xs[0] <= r
  {
    if xs == [] then ""
    else if |xs| == 1 then xs[0]
    else xs[0] + sep + Join(xs[1..], sep)
  }

  /** Drops the empty strings at the end of `xs`, as `String.split` does. */
  function DropTrailingEmpty(xs: seq<string>): (r: seq<string>)
    ensures r <= xs
    ensures r == [] || r[|r| - 1] != ""
    ensures forall i :: |r| <= i < |xs| ==> xs[i] == ""
  {
    if xs != [] && xs[|xs| - 1] == "" then DropTrailingEmpty(xs[..|xs| - 1]) else xs
  }

  /**
   * `s.split(c)` for a one-character, non-meta separator: the pieces between separators with
   * the trailing empty ones removed; a string without the separator is returned whole,
   * even when it is empty.
   */
  function Split(s: string, c: char): (parts: seq<string>)
    ensures c !in s ==> parts == [s]
    ensures c in s ==> parts <= Pieces(s, c) && (parts == [] || parts[|parts| - 1] != "")
    ensures c in s ==> forall i :: |parts| <= i < |Pieces(s, c)| ==> Pieces(s, c)[i] == ""
    ensures forall i :: 0 <= i < |parts| ==> c !in parts[i]
  {
    if c !in s then [s] else DropTrailingEmpty(Pieces(s, c))
  }

  /** `s.split(c, 2)` when it yields two parts: the text before and after the first `c`. */
  function SplitOnce(s: string, c: char): (r: Option<(string, string)>)
    ensures r.None? <==> c !in s
    ensures r.Some? ==> s == r.value.0 + [c] + r.value.1 && c !in r.value.0
  {
    if s == [] then None
    else if s[0] == c then Some(("", s[1..]))
    else match SplitOnce(s[1..], c)
      case None => None
      case Some((before, after)) => Some(([s[0]] + before, after))
  }

  /** Drops the leading `\s` characters. */
  function TrimStart(s: string): (r: string)
    ensures |r| <= |s| && r == s[|s| - |r|..]
    ensures forall i :: 0 <= i < |s| - |r| ==> IsSpace(s[i])
    ensures r == [] || !IsSpace(r[0])
  {
    if s != [] && IsSpace(s[0]) then TrimStart(s[1..]) else s
  }

  /** Drops the trailing `\s` characters. */
  function TrimEnd(s: string): (r: string)
    ensures r <= s
    ensures forall i :: |r| <= i < |s| ==> IsSpace(s[i])
    ensures r == [] || !IsSpace(r[|r| - 1])
  {
    if s != [] && IsSpace(s[|s| - 1]) then TrimEnd(s[..|s| - 1]) else s
  }

  /** Joining the pieces back with the separator gives the original string. */
  lemma {:induction false} JoinPieces(s: string, c: char)
    ensures Join(Pieces(s, c), [c]) == s
  {
    if s != [] {
      var rest := Pieces(s[1..], c);
      JoinPieces(s[1..], c);
      if s[0] == c {
        assert Pieces(s, c) == [""] + rest;
        assert Join([""] + rest, [c]) == "" + [c] + Join(rest, [c]);
      } else {
        assert Pieces(s, c) == [[s[0]] + rest[0]] + rest[1..];
        if |rest| == 1 {
          assert Join(Pieces(s, c), [c]) == [s[0]] + rest[0];
        } else {
          assert Join(rest, [c]) == rest[0] + [c] + Join(rest[1..], [c]);
          assert ([[s[0]] + rest[0]] + rest[1..])[1..] == rest[1..];
        }
      }
    }
  }

  /** A prefix free of the separator extends the first piece and leaves the others alone. */
  lemma {:induction false} PiecesCleanPrefix(x: string, y: string, c: char)
    requires c !in x
    ensures Pieces(x + y, c) == [x + Pieces(y, c)[0]] + Pieces(y, c)[1..]
  {
    if x != [] {
      PiecesCleanPrefix(x[1..], y, c);
      assert (x + y)[1..] == x[1..] + y;
      assert [x[0]] + (x[1..] + Pieces(y, c)[0]) == x + Pieces(y, c)[0];
    } else {
      var ps := Pieces(y, c);
      assert x + y == y;
      assert x + ps[0] == ps[0];
      assert ps == [ps[0]] + ps[1..];
    }
  }

  /** A separator splits the pieces of what surrounds it. */
  lemma {:induction false} PiecesAround(x: string, y: string, c: char)
    ensures Pieces(x + [c] + y, c) == Pieces(x, c) + Pieces(y, c)
  {
    var z := x + [c] + y;
    if x == [] {
      assert z[1..] == y && z[0] == c by { assert z == [c] + y; }
    } else {
      var rx, ry := Pieces(x[1..], c), Pieces(y, c);
      assert Pieces(z[1..], c) == rx + ry by {
        assert z[1..] == x[1..] + [c] + y;
        PiecesAround(x[1..], y, c);
      }
      assert z[0] == x[0];
      if x[0] != c {
        assert (rx + ry)[0] == rx[0] && (rx + ry)[1..] == rx[1..] + ry;
      }
    }
  }

  /** Splitting a join of separator-free strings gives back the strings. */
  lemma {:induction false} PiecesJoin(xs: seq<string>, c: char)
    requires |xs| >= 1
    requires forall i :: 0 <= i < |xs| ==> c !in xs[i]
    ensures Pieces(Join(xs, [c]), c) == xs
  {
    if |xs| == 1 {
      PiecesCleanPrefix(xs[0], "", c);
      assert xs[0] + "" == xs[0];
    } else {
      PiecesJoin(xs[1..], c);
      PiecesAround(xs[0], Join(xs[1..], [c]), c);
      PiecesCleanPrefix(xs[0], "", c);
      assert xs[0] + "" == xs[0];
      assert [xs[0]] + xs[1..] == xs;
    }
  }

  /** A string that does not end in the separator loses nothing to `split`. */
  lemma SplitKeepsAll(s: string, c: char)
    requires s != [] && s[|s| - 1] != c
    ensures Split(s, c) == Pieces(s, c)
    ensures Join(Split(s, c), [c]) == s
  {
    JoinPieces(s, c);
    if c in s {
      LastPieceNonEmpty(s, c);
    } else {
      PiecesCleanPrefix(s, "", c);
      assert s + "" == s;
    }
  }

  /** The last piece ends where the string ends. */
  lemma {:induction false} LastPieceNonEmpty(s: string, c: char)
    requires s != [] && s[|s| - 1] != c
    ensures Pieces(s, c)[|Pieces(s, c)| - 1] != ""
  {
    var rest := Pieces(s[1..], c);
    if |s| > 1 {
      assert s[1..][|s[1..]| - 1] == s[|s| - 1];
      LastPieceNonEmpty(s[1..], c);
    }
  }

  /** A string that does not start with the separator has a first part: `split` never yields nothing. */
  lemma SplitHasHead(s: string, c: char)
    requires s != [] && s[0] != c
    ensures |Split(s, c)| >= 1 && Split(s, c)[0] == Pieces(s, c)[0]
  {
    var ps := Pieces(s, c);
    assert ps[0] == [s[0]] + Pieces(s[1..], c)[0];
    if c in s {
      assert ps[0] != "";
    } else {
      PiecesCleanPrefix(s, "", c);
      assert s + "" == s;
    }
  }

  /** Where the first `c` is, `SplitOnce` splits. */
  lemma {:induction false} SplitOnceAt(x: string, y: string, c: char)
    requires c !in x
    ensures SplitOnce(x + [c] + y, c) == Some((x, y))
  {
    if x != [] {
      assert (x + [c] + y)[1..] == x[1..] + [c] + y;
      SplitOnceAt(x[1..], y, c);
      assert [x[0]] + x[1..] == x;
    } else {
      assert x + [c] + y == [c] + y;
    }
  }
}
