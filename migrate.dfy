/**
 * database/migrate.php: the schema text is stripped of SQL comments and
 * split into statements on the semicolons that lie outside quoted strings.
 * Reading the file and executing the statements is not part of this model.
 */
module Migrate {
  import opened Text

  // ---------------------------------------------------------------------
  // Comment stripping: preg_replace('/--.*$/m', '') then
  // preg_replace('/\/\*.*?\*\//s', '').
  // ---------------------------------------------------------------------

  /** The first line feed at or after `i`, or |s|: where `.*$` stops in multiline mode. */
  function LineEnd(s: string, i: nat): (e: nat)
    requires i <= |s|
    ensures i <= e <= |s|
    ensures e < |s| ==> s[e] == '\n'
    ensures forall k :: i <= k < e ==> s[k] != '\n'
    decreases |s| - i
  {
    if i == |s| || s[i] == '\n' then i else LineEnd(s, i + 1)
  }

  /** `--` through the end of its line removed; the line feed itself stays. */
  function StripLineComments(s: string): (r: string)
    ensures |r| <= |s|
    ensures r != [] ==> (!StartsWith(s, "--") && r[0] == s[0]) || r[0] == '\n'
    decreases |s|
  {
    if |s| == 0 then ""
    else if StartsWith(s, "--") then StripLineComments(s[LineEnd(s, 2)..])
    else [s[0]] + StripLineComments(s[1..])
  }

  /** No two adjacent hyphens. */
  predicate NoDoubleHyphen(s: string)
  {
    forall k :: 0 <= k < |s| - 1 ==> !(s[k] == '-' && s[k + 1] == '-')
  }

  /** After the line-comment strip no `--` is left. */
  lemma {:induction false} StripLineCommentsNoHyphens(s: string)
    ensures NoDoubleHyphen(StripLineComments(s))
    decreases |s|
  {
    if |s| > 0 {
      if StartsWith(s, "--") {
        StripLineCommentsNoHyphens(s[LineEnd(s, 2)..]);
      } else {
        StripLineCommentsNoHyphens(s[1..]);
        var t := StripLineComments(s[1..]);
        var r := [s[0]] + t;
        assert StripLineComments(s) == r;
        forall k | 0 <= k < |r| - 1 ensures !(r[k] == '-' && r[k + 1] == '-') {
          if k > 0 {
            assert r[k] == t[k - 1] && r[k + 1] == t[k];
          }
        }
      }
    }
  }

  /** Every line feed is kept, so the statements keep their line structure. */
  lemma {:induction false} StripLineCommentsKeepsLines(s: string)
    ensures multiset(StripLineComments(s))['\n'] == multiset(s)['\n']
    decreases |s|
  {
    if |s| > 0 {
      if StartsWith(s, "--") {
        StripLineCommentsKeepsLines(s[LineEnd(s, 2)..]);
        CommentKeepsLines(s);
      } else {
        StripLineCommentsKeepsLines(s[1..]);
        CharKeepsLines(s);
      }
    }
  }

  // The step of StripLineCommentsKeepsLines past a line comment.
  lemma CommentKeepsLines(s: string)
    requires StartsWith(s, "--")
    requires multiset(StripLineComments(s[LineEnd(s, 2)..]))['\n'] == multiset(s[LineEnd(s, 2)..])['\n']
    ensures multiset(StripLineComments(s))['\n'] == multiset(s)['\n']
  {
    var e := LineEnd(s, 2);
    OpensComment(s);
    StripAtComment(s);
    LineFeedsSplit(s, e);
    CommentHasNoLineFeed(s, e);
  }

  // The two leading characters of a text that starts with `--`.
  lemma OpensComment(s: string)
    requires StartsWith(s, "--")
    ensures 2 <= |s| && s[0] == '-' && s[1] == '-'
  {
    assert s[..2][0] == s[0] && s[..2][1] == s[1];
  }

  lemma StripAtComment(s: string)
    requires StartsWith(s, "--")
    ensures StripLineComments(s) == StripLineComments(s[LineEnd(s, 2)..])
  {
  }

  // The step of StripLineCommentsKeepsLines past a character that is kept.
  lemma CharKeepsLines(s: string)
    requires |s| > 0 && !StartsWith(s, "--")
    requires multiset(StripLineComments(s[1..]))['\n'] == multiset(s[1..])['\n']
    ensures multiset(StripLineComments(s))['\n'] == multiset(s)['\n']
  {
    var t := StripLineComments(s[1..]);
    assert StripLineComments(s) == [s[0]] + t;
    LineFeedsSplit(s, 1);
    LineFeedsSplit([s[0]] + t, 1);
    assert ([s[0]] + t)[..1] == s[..1];
    assert ([s[0]] + t)[1..] == t;
  }

  lemma LineFeedsSplit(s: string, e: nat)
    requires e <= |s|
    ensures multiset(s)['\n'] == multiset(s[..e])['\n'] + multiset(s[e..])['\n']
  {
    assert s == s[..e] + s[e..];
  }

  /** A line comment holds no line feed: it ends where the next one starts. */
  lemma CommentHasNoLineFeed(s: string, e: nat)
    requires 2 <= |s| && e == LineEnd(s, 2) && s[0] == '-' && s[1] == '-'
    ensures multiset(s[..e])['\n'] == 0
  {
    assert '\n' !in s[..e] by {
      forall k | 0 <= k < e ensures s[..e][k] != '\n' {
        assert s[..e][k] == s[k];
      }
    }
  }

  /** A text without `--` is left as it is. */
  lemma {:induction false} StripLineCommentsNoComment(s: string)
    requires NoDoubleHyphen(s)
    ensures StripLineComments(s) == s
    decreases |s|
  {
    if |s| > 0 {
      assert !StartsWith(s, "--") by {
        if |s| >= 2 { assert !(s[0] == '-' && s[1] == '-'); }
      }
      assert NoDoubleHyphen(s[1..]) by {
        forall k | 0 <= k < |s[1..]| - 1 ensures !(s[1..][k] == '-' && s[1..][k + 1] == '-') {
          assert s[1..][k] == s[k + 1] && s[1..][k + 1] == s[k + 2];
        }
      }
      StripLineCommentsNoComment(s[1..]);
    }
  }

  // The first `*/` at or after `j`, or |s| when there is none.
  function CloseFrom(s: string, j: nat): (k: nat)
    requires j <= |s|
    ensures j <= k <= |s|
    ensures k < |s| ==> k + 2 <= |s| && s[k] == '*' && s[k + 1] == '/'
    ensures forall x :: j <= x < k && x + 1 < |s| ==> !(s[x] == '*' && s[x + 1] == '/')
    decreases |s| - j
  {
    if j + 1 >= |s| then |s|
    else if s[j] == '*' && s[j + 1] == '/' then j
    else CloseFrom(s, j + 1)
  }

  // `/* ... */` removed, each comment ending at the first `*/` after its
  // opening; an opening with no `*/` after it stays.
  function StripBlockComments(s: string): (r: string)
    ensures |r| <= |s|
    decreases |s|
  {
    if |s| == 0 then ""
    else if StartsWith(s, "/*") && CloseFrom(s, 2) < |s| then StripBlockComments(s[CloseFrom(s, 2) + 2..])
    else [s[0]] + StripBlockComments(s[1..])
  }

  // No `/*` anywhere.
  predicate NoOpening(s: string)
  {
    forall k :: 0 <= k < |s| - 1 ==> !(s[k] == '/' && s[k + 1] == '*')
  }

  /** A text with no comment opening is left as it is. */
  lemma {:induction false} StripBlockCommentsNoOpening(s: string)
    requires NoOpening(s)
    ensures StripBlockComments(s) == s
    decreases |s|
  {
    if |s| > 0 {
      assert !StartsWith(s, "/*") by {
        if |s| >= 2 { assert !(s[0] == '/' && s[1] == '*'); }
      }
      assert NoOpening(s[1..]) by {
        forall k | 0 <= k < |s[1..]| - 1 ensures !(s[1..][k] == '/' && s[1..][k + 1] == '*') {
          assert s[1..][k] == s[k + 1] && s[1..][k + 1] == s[k + 2];
        }
      }
      StripBlockCommentsNoOpening(s[1..]);
    }
  }

  // The match is non-greedy: a comment whose body holds no `*/` is removed up
  // to its own first `*/`, and what follows is stripped on its own.
  lemma StripBlockCommentsFirst(body: string, rest: string)
    requires !Contains(body, "*/")
    ensures StripBlockComments("/*" + body + "*/" + rest) == StripBlockComments(rest)
  {
    var s := "/*" + body + "*/" + rest;
    var k := 2 + |body|;
    Framed("/*", body, "*/", rest);
    NoCloseInBody(body);
    forall x | 2 <= x < k && x + 1 < |s| ensures !(s[x] == '*' && s[x + 1] == '/') {
      if x + 1 < k {
        assert s[x] == body[x - 2] && s[x + 1] == body[x - 1];
      }
    }
    assert CloseFrom(s, 2) == k;
    assert StartsWith(s, "/*");
  }

  // Where the pieces of `open + body + close + rest` lie, for two-character delimiters.
  lemma Framed(open: string, body: string, close: string, rest: string)
    requires |open| == 2 && |close| == 2
    ensures var s := open + body + close + rest;
      && |s| == |body| + 4 + |rest| && s[..2] == open
      && s[2 + |body|] == close[0] && s[3 + |body|] == close[1]
      && s[|body| + 4..] == rest
      && forall x :: 2 <= x < 2 + |body| ==> s[x] == body[x - 2]
  {
    var s := open + body + close + rest;
    assert s[..2] == open;
    assert s[|body| + 4..] == rest;
  }

  // A text that does not contain `*/` has no `*` followed by `/`.
  lemma NoCloseInBody(body: string)
    requires !Contains(body, "*/")
    ensures forall x :: 0 <= x < |body| - 1 ==> !(body[x] == '*' && body[x + 1] == '/')
  {
    forall x | 0 <= x < |body| - 1 && body[x] == '*'
      ensures body[x + 1] != '/'
    {
      if body[x + 1] == '/' {
        CloseAt(body, x);
      }
    }
  }

  // A `*` followed by `/` is an occurrence of `*/`.
  lemma CloseAt(body: string, x: nat)
    requires x < |body| - 1 && body[x] == '*' && body[x + 1] == '/'
    ensures Contains(body, "*/")
  {
    assert body[x..][..2] == "*/";
    ContainsAt(body, "*/");
  }

  /** The strip preg_replace applies before splitting: line comments, then block comments. */
  function StripComments(schema: string): string
  {
    StripBlockComments(StripLineComments(schema))
  }

  // ---------------------------------------------------------------------
  // The statement splitter of lines 46-84.
  // ---------------------------------------------------------------------

  predicate IsQuote(c: char)
  {
    c == '\'' || c == '"'
  }

  /** The character at `i` is not preceded by a backslash. */
  predicate Unescaped(s: string, i: nat)
    requires i < |s|
  {
    i == 0 || s[i - 1] != '\\'
  }

  /**
   * The scanner's state after some prefix: the untrimmed pieces cut so far,
   * the statements kept from them, the piece in progress, and whether a
   * string opened by `quote` is open.
   */
  datatype ScanState = ScanState(pieces: seq<string>, statements: seq<string>, current: string,
                                 inString: bool, quote: char)

  /** `$stringChar = ''` compares equal to no character; no byte is read before a quote opens a string. */
  const Start := ScanState([], [], "", false, '\0')

  /** The string state after the character at `i`: lines 55-62. */
  function Toggle(s: string, i: nat, inString: bool, quote: char): (bool, char)
    requires i < |s|
  {
    if IsQuote(s[i]) && Unescaped(s, i) then
      if !inString then (true, s[i])
      else if s[i] == quote then (false, quote)
      else (inString, quote)
    else (inString, quote)
  }

  /** One iteration of the loop on the character at `i`: lines 53-72. */
  function Step(s: string, i: nat, st: ScanState): ScanState
    requires i < |s|
  {
    var (inString, quote) := Toggle(s, i, st.inString, st.quote);
    var current := st.current + [s[i]];
    if s[i] == ';' && !inString then
      var stmt := Trim(current);
      ScanState(st.pieces + [current], if PhpEmpty(stmt) then st.statements else st.statements + [stmt],
                "", inString, quote)
    else ScanState(st.pieces, st.statements, current, inString, quote)
  }

  /** The state after the first `k` characters. */
  function ScanTo(s: string, k: nat): ScanState
    requires k <= |s|
    decreases k
  {
    if k == 0 then Start else Step(s, k - 1, ScanTo(s, k - 1))
  }

  /** array_filter with `!empty(trim($stmt))`. */
  function KeepNonEmpty(ts: seq<string>): (r: seq<string>)
    ensures forall t :: t in r ==> t in ts && !PhpEmpty(Trim(t))
    decreases |ts|
  {
    if |ts| == 0 then []
    else if PhpEmpty(Trim(ts[0])) then KeepNonEmpty(ts[1..])
    else [ts[0]] + KeepNonEmpty(ts[1..])
  }

  /** The statements once the last piece is added: lines 75-84. */
  function Finish(st: ScanState): seq<string>
  {
    var remaining := Trim(st.current);
    KeepNonEmpty(if PhpEmpty(remaining) then st.statements else st.statements + [remaining])
  }

  /** The statements migrate.php executes for a schema text. */
  function Statements(schema: string): seq<string>
  {
    Finish(ScanTo(schema, |schema|))
  }

  /** The loop of lines 46-84 over the schema characters. */
  method SplitStatements(schema: string) returns (statements: seq<string>)
    ensures statements == Statements(schema)
  {
    statements := [];
    var current := "";
    var inString := false;
    var stringChar := '\0';
    for i := 0 to |schema|
      invariant ScanTo(schema, i).statements == statements
      invariant ScanTo(schema, i).current == current
      invariant ScanTo(schema, i).inString == inString
      invariant ScanTo(schema, i).quote == stringChar
    {
      var c := schema[i];
      if (c == '\'' || c == '"') && (i == 0 || schema[i - 1] != '\\') {
        if !inString {
          inString := true;
          stringChar := c;
        } else if c == stringChar {
          inString := false;
        }
      }
      current := current + [c];
      if c == ';' && !inString {
        var stmt := Trim(current);
        if !PhpEmpty(stmt) {
          statements := statements + [stmt];
        }
        current := "";
      }
    }
    var remaining := Trim(current);
    if !PhpEmpty(remaining) {
      statements := statements + [remaining];
    }
    statements := KeepNonEmpty(statements);
  }

  /** Comment strip and split, as migrate.php runs them on the schema file. */
  method PrepareStatements(schema: string) returns (statements: seq<string>)
    ensures statements == Statements(StripComments(schema))
  {
    var stripped := StripBlockComments(StripLineComments(schema));
    statements := SplitStatements(stripped);
  }

  // ---------------------------------------------------------------------
  // Properties of the splitter.
  // ---------------------------------------------------------------------

  /** The character at `j` ends a piece: a semicolon read with no string open. */
  predicate IsCut(s: string, j: nat)
    requires j < |s|
  {
    s[j] == ';' && !ScanTo(s, j + 1).inString
  }

  /** The number of cuts among the first `k` characters. */
  function CutCount(s: string, k: nat): nat
    requires k <= |s|
    decreases k
  {
    if k == 0 then 0 else CutCount(s, k - 1) + (if IsCut(s, k - 1) then 1 else 0)
  }

  function Concat(ps: seq<string>): string
    decreases |ps|
  {
    if |ps| == 0 then "" else Concat(ps[..|ps| - 1]) + ps[|ps| - 1]
  }

  /** The trims of the pieces that are not PHP-empty after trimming, in order. */
  function NonEmptyTrims(ps: seq<string>): seq<string>
    decreases |ps|
  {
    if |ps| == 0 then []
    else
      var t := Trim(ps[|ps| - 1]);
      NonEmptyTrims(ps[..|ps| - 1]) + (if PhpEmpty(t) then [] else [t])
  }

  /** Statements that are non-empty and already trimmed. */
  predicate Clean(ts: seq<string>)
  {
    forall i :: 0 <= i < |ts| ==> !PhpEmpty(ts[i]) && TrimmedBy(ts[i], PhpSpace)
  }

  lemma {:induction false} NonEmptyTrimsClean(ps: seq<string>)
    ensures Clean(NonEmptyTrims(ps))
    decreases |ps|
  {
    if |ps| > 0 {
      NonEmptyTrimsClean(ps[..|ps| - 1]);
      TrimCharsShape(ps[|ps| - 1], PhpSpace);
    }
  }

  /** Every piece ends with `;`. */
  predicate Terminated(ps: seq<string>)
  {
    forall i :: 0 <= i < |ps| ==> ps[i] != [] && ps[i][|ps[i]| - 1] == ';'
  }

  lemma {:induction false} NonEmptyTrimsTerminated(ps: seq<string>)
    requires Terminated(ps)
    ensures Terminated(NonEmptyTrims(ps))
    decreases |ps|
  {
    if |ps| > 0 {
      var p := ps[|ps| - 1];
      NonEmptyTrimsTerminated(ps[..|ps| - 1]);
      TrimCharsKeepsLast(p, PhpSpace);
    }
  }

  /** The last character survives trim when it is not one trim strips. */
  lemma TrimCharsKeepsLast(s: string, cs: set<char>)
    requires s != [] && s[|s| - 1] !in cs
    ensures TrimChars(s, cs) != [] && TrimChars(s, cs)[|TrimChars(s, cs)| - 1] == s[|s| - 1]
  {
    var t := TrimStart(s, cs);
    assert t[|t| - 1] == s[|s| - 1];
  }

  /** A list that is already clean passes the final array_filter unchanged. */
  lemma {:induction false} KeepNonEmptyOfClean(ts: seq<string>)
    requires Clean(ts)
    ensures KeepNonEmpty(ts) == ts
    decreases |ts|
  {
    if |ts| > 0 {
      TrimCharsOfTrimmed(ts[0], PhpSpace);
      assert Clean(ts[1..]) by {
        forall i | 0 <= i < |ts[1..]| ensures !PhpEmpty(ts[1..][i]) && TrimmedBy(ts[1..][i], PhpSpace) {
          assert ts[1..][i] == ts[i + 1];
        }
      }
      KeepNonEmptyOfClean(ts[1..]);
    }
  }

  /** The pieces cut so far and the piece in progress put the text read so far back together. */
  lemma {:induction false} ScanConcat(s: string, k: nat)
    requires k <= |s|
    ensures Concat(ScanTo(s, k).pieces) + ScanTo(s, k).current == s[..k]
    decreases k
  {
    if k > 0 {
      ScanConcat(s, k - 1);
      StepConcat(s, k);
      assert s[..k] == s[..k - 1] + [s[k - 1]];
    }
  }

  /** One step adds its character to the piece in progress, which may become a cut piece. */
  lemma StepConcat(s: string, k: nat)
    requires 0 < k <= |s|
    ensures Concat(ScanTo(s, k).pieces) + ScanTo(s, k).current
      == Concat(ScanTo(s, k - 1).pieces) + ScanTo(s, k - 1).current + [s[k - 1]]
  {
    var st := ScanTo(s, k - 1);
    var next := Step(s, k - 1, st);
    assert ScanTo(s, k) == next;
    var cur := st.current + [s[k - 1]];
    if next.pieces != st.pieces {
      var ps := st.pieces + [cur];
      assert ps[..|ps| - 1] == st.pieces;
      assert Concat(ps) == Concat(st.pieces) + cur;
    }
  }

  /** One piece per cut, each ending with its cutting semicolon. */
  lemma {:induction false} ScanPieces(s: string, k: nat)
    requires k <= |s|
    ensures |ScanTo(s, k).pieces| == CutCount(s, k)
    ensures Terminated(ScanTo(s, k).pieces)
    decreases k
  {
    if k > 0 {
      ScanPieces(s, k - 1);
    }
  }

  /** The statements kept so far are the pieces' non-empty trims. */
  lemma {:induction false} ScanStatements(s: string, k: nat)
    requires k <= |s|
    ensures ScanTo(s, k).statements == NonEmptyTrims(ScanTo(s, k).pieces)
    decreases k
  {
    if k > 0 {
      ScanStatements(s, k - 1);
      ScanStepStatements(s, k);
    }
  }

  lemma ScanStepStatements(s: string, k: nat)
    requires 0 < k <= |s|
    requires ScanTo(s, k - 1).statements == NonEmptyTrims(ScanTo(s, k - 1).pieces)
    ensures ScanTo(s, k).statements == NonEmptyTrims(ScanTo(s, k).pieces)
  {
    StepStatements(s, k - 1, ScanTo(s, k - 1));
  }

  /** One step keeps the statements the non-empty trims of the pieces. */
  lemma StepStatements(s: string, i: nat, st: ScanState)
    requires i < |s|
    requires st.statements == NonEmptyTrims(st.pieces)
    ensures Step(s, i, st).statements == NonEmptyTrims(Step(s, i, st).pieces)
  {
    var next := Step(s, i, st);
    if next.pieces != st.pieces {
      var ps := next.pieces;
      assert ps[..|ps| - 1] == st.pieces;
    }
  }

  /**
   * The statements are the non-empty trims of the pieces cut at the
   * out-of-string semicolons and of what follows the last one; those pieces
   * concatenate back to the schema text, so splitting loses only the
   * whitespace trim removes and the pieces it leaves empty.
   */
  lemma StatementsShape(s: string)
    ensures var st := ScanTo(s, |s|);
      && Concat(st.pieces) + st.current == s
      && Statements(s) == NonEmptyTrims(st.pieces + [st.current])
  {
    var st := ScanTo(s, |s|);
    ScanConcat(s, |s|);
    ScanStatements(s, |s|);
    assert s[..|s|] == s;
    var stmts := if PhpEmpty(Trim(st.current)) then st.statements else st.statements + [Trim(st.current)];
    assert (st.pieces + [st.current])[..|st.pieces|] == st.pieces;
    assert stmts == NonEmptyTrims(st.pieces + [st.current]);
    NonEmptyTrimsClean(st.pieces + [st.current]);
    KeepNonEmptyOfClean(stmts);
  }

  /** Every statement is non-empty (and not "0") and has no whitespace at either end. */
  lemma StatementsClean(s: string)
    ensures Clean(Statements(s))
  {
    StatementsShape(s);
    NonEmptyTrimsClean(ScanTo(s, |s|).pieces + [ScanTo(s, |s|).current]);
  }

  /** Every statement but the last ends with its semicolon. */
  lemma StatementsTerminated(s: string)
    ensures forall i :: 0 <= i < |Statements(s)| - 1 ==>
      Statements(s)[i] != [] && Statements(s)[i][|Statements(s)[i]| - 1] == ';'
  {
    var st := ScanTo(s, |s|);
    StatementsShape(s);
    ScanPieces(s, |s|);
    NonEmptyTrimsTerminated(st.pieces);
    var ps := st.pieces + [st.current];
    assert ps[..|ps| - 1] == st.pieces;
  }

  /** At most one statement more than there are out-of-string semicolons. */
  lemma StatementsCount(s: string)
    ensures |Statements(s)| <= CutCount(s, |s|) + 1
  {
    var st := ScanTo(s, |s|);
    StatementsShape(s);
    ScanPieces(s, |s|);
    NonEmptyTrimsLength(st.pieces + [st.current]);
  }

  /** With no out-of-string semicolon the result is empty or the whole trimmed text. */
  lemma StatementsUncut(s: string)
    requires CutCount(s, |s|) == 0
    ensures Statements(s) == [] || Statements(s) == [Trim(s)]
  {
    var st := ScanTo(s, |s|);
    StatementsShape(s);
    ScanPieces(s, |s|);
    UncutTrims(st.pieces, st.current, s, Statements(s));
  }

  // A single piece holding the whole text leaves its trim, or nothing.
  lemma UncutTrims(ps: seq<string>, current: string, s: string, r: seq<string>)
    requires |ps| == 0 && Concat(ps) + current == s && r == NonEmptyTrims(ps + [current])
    ensures r == [] || r == [Trim(s)]
  {
    assert Concat(ps) == "";
    assert current == s;
    assert ps + [current] == [s];
    assert [s][..0] == [];
  }

  lemma {:induction false} NonEmptyTrimsLength(ps: seq<string>)
    ensures |NonEmptyTrims(ps)| <= |ps|
    decreases |ps|
  {
    if |ps| > 0 {
      NonEmptyTrimsLength(ps[..|ps| - 1]);
    }
  }

  /** A semicolon read while a string is open never ends a statement. */
  lemma SemicolonInString(s: string, j: nat)
    requires j < |s| && s[j] == ';' && ScanTo(s, j).inString
    ensures !IsCut(s, j)
  {
  }

  /** A quote after a backslash leaves the string state as it was. */
  lemma EscapedQuote(s: string, j: nat)
    requires 0 < j < |s| && s[j - 1] == '\\'
    ensures ScanTo(s, j + 1).inString == ScanTo(s, j).inString
    ensures ScanTo(s, j + 1).quote == ScanTo(s, j).quote
  {
  }

  /** Inside a string, a quote of the other kind does not close it. */
  lemma OtherQuoteInString(s: string, j: nat)
    requires j < |s| && ScanTo(s, j).inString && s[j] != ScanTo(s, j).quote
    ensures ScanTo(s, j + 1).inString && ScanTo(s, j + 1).quote == ScanTo(s, j).quote
  {
  }

  /** Outside a string, an unescaped quote opens one of its own kind; inside, the same quote closes it. */
  lemma QuoteToggles(s: string, j: nat)
    requires j < |s| && IsQuote(s[j]) && Unescaped(s, j)
    ensures !ScanTo(s, j).inString ==> ScanTo(s, j + 1).inString && ScanTo(s, j + 1).quote == s[j]
    ensures ScanTo(s, j).inString && s[j] == ScanTo(s, j).quote ==> !ScanTo(s, j + 1).inString
  {
  }
}
