/**
 * The pattern Router::matchPath builds from a route path and what preg_match
 * does with it. Every `{name}` becomes `(?P<name>[^/]+)`, and the whole path
 * is anchored as `#^...$#`. This model covers route paths whose placeholders
 * fill whole `/`-separated segments and whose other text is literal (no
 * regular-expression metacharacters). PCRE's `$` also matches just before
 * one final newline, and PCRE refuses a pattern that names two groups alike.
 * Both are modelled.
 */
module RoutePath {
  import opened Wrappers
  import opened Text

  /** `explode('/', $s)`: the text between slashes, never an empty list. */
  function Split(s: string): (r: seq<string>)
    ensures |r| >= 1
    ensures forall i :: 0 <= i < |r| ==> '/' !in r[i]
    decreases |s|
  {
    if |s| == 0 then [""]
    else if s[0] == '/' then [""] + Split(s[1..])
    else var rest := Split(s[1..]); [[s[0]] + rest[0]] + rest[1..]
  }

  /** Joining the segments with `/` gives the string back. */
  lemma {:induction false} SplitJoin(s: string)
    ensures Join(Split(s), "/") == s
    decreases |s|
  {
    if |s| > 0 {
      SplitJoin(s[1..]);
      var rest := Split(s[1..]);
      if s[0] == '/' {
        assert Split(s) == [""] + rest;
        assert Split(s)[1..] == rest;
      } else {
        JoinPrefixFirst(s[0], rest, "/");
      }
    }
  }

  lemma JoinPrefixFirst(c: char, parts: seq<string>, sep: string)
    requires |parts| >= 1
    ensures Join([[c] + parts[0]] + parts[1..], sep) == [c] + Join(parts, sep)
  {
    var q := [[c] + parts[0]] + parts[1..];
    assert q[1..] == parts[1..];
  }

  /** Splitting text that starts with a slash-free part keeps that part in front. */
  lemma {:induction false} SplitPrefix(x: string, t: string)
    requires '/' !in x
    ensures Split(x + t) == [x + Split(t)[0]] + Split(t)[1..]
    decreases |x|
  {
    if |x| > 0 {
      assert (x + t)[1..] == x[1..] + t;
      assert '/' !in x[1..] by {
        forall i | 0 <= i < |x[1..]| ensures x[1..][i] != '/' {
          assert x[1..][i] == x[i + 1];
        }
      }
      SplitPrefix(x[1..], t);
      assert (x + t)[0] == x[0];
      assert [x[0]] + (x[1..] + Split(t)[0]) == x + Split(t)[0];
    } else {
      assert x + t == t;
      assert x + Split(t)[0] == Split(t)[0];
      assert [Split(t)[0]] + Split(t)[1..] == Split(t);
    }
  }

  /** Slash-free segments come back unchanged from joining and splitting. */
  lemma {:induction false} JoinSplit(segs: seq<string>)
    requires |segs| >= 1
    requires forall i :: 0 <= i < |segs| ==> '/' !in segs[i]
    ensures Split(Join(segs, "/")) == segs
    decreases |segs|
  {
    if |segs| == 1 {
      SplitPrefix(segs[0], "");
      assert segs[0] + "" == segs[0];
    } else {
      var rest := Join(segs[1..], "/");
      JoinSplit(segs[1..]);
      assert Join(segs, "/") == segs[0] + ("/" + rest);
      SplitPrefix(segs[0], "/" + rest);
      assert ("/" + rest)[1..] == rest;
      assert Split("/" + rest) == [""] + Split(rest);
      assert segs[0] + "" == segs[0];
    }
  }

  predicate IsIdentStart(c: char)
  {
    'a' <= c <= 'z' || 'A' <= c <= 'Z' || c == '_'
  }

  predicate IsIdentPart(c: char)
  {
    IsIdentStart(c) || '0' <= c <= '9'
  }

  /** `[a-zA-Z_][a-zA-Z0-9_]*`, the names the router accepts inside braces. */
  predicate IsIdent(n: string)
  {
    |n| >= 1 && IsIdentStart(n[0]) && forall i :: 1 <= i < |n| ==> IsIdentPart(n[i])
  }

  /** The name of a `{name}` segment, or None for a literal segment. */
  function PlaceholderName(seg: string): (r: Option<string>)
    ensures r.Some? ==> IsIdent(r.value) && seg == "{" + r.value + "}"
  {
    if |seg| >= 3 && seg[0] == '{' && seg[|seg| - 1] == '}' && IsIdent(seg[1..|seg| - 1])
    then Some(seg[1..|seg| - 1])
    else None
  }

  /** The placeholder names of a split route path. */
  function NameSet(pat: seq<string>): set<string>
    decreases |pat|
  {
    if |pat| == 0 then {}
    else (match PlaceholderName(pat[0]) case Some(n) => {n} case None => {}) + NameSet(pat[1..])
  }

  /** No placeholder name occurs twice; PCRE refuses the pattern otherwise. */
  predicate DistinctPlaceholders(pat: seq<string>)
    decreases |pat|
  {
    |pat| == 0 ||
    ((PlaceholderName(pat[0]).Some? ==> PlaceholderName(pat[0]).value !in NameSet(pat[1..]))
     && DistinctPlaceholders(pat[1..]))
  }

  lemma {:induction false} NameSetMember(pat: seq<string>, i: nat)
    requires i < |pat| && PlaceholderName(pat[i]).Some?
    ensures PlaceholderName(pat[i]).value in NameSet(pat)
    decreases i
  {
    if i > 0 {
      NameSetMember(pat[1..], i - 1);
      assert pat[1..][i - 1] == pat[i];
    }
  }

  lemma {:induction false} NameSetHasIndex(pat: seq<string>, n: string) returns (i: nat)
    requires n in NameSet(pat)
    ensures i < |pat| && PlaceholderName(pat[i]) == Some(n)
    decreases |pat|
  {
    if PlaceholderName(pat[0]) == Some(n) {
      i := 0;
    } else {
      var j := NameSetHasIndex(pat[1..], n);
      i := j + 1;
    }
  }

  /** A segment of the URI satisfies the segment of the route at the same place. */
  predicate SegmentFits(p: string, s: string)
  {
    match PlaceholderName(p)
    case Some(_) => s != ""
    case None => s == p
  }

  predicate SegmentsFit(pat: seq<string>, segs: seq<string>)
  {
    |pat| == |segs| && forall i :: 0 <= i < |pat| ==> SegmentFits(pat[i], segs[i])
  }

  /** A key of preg_match's `$matches`: a group name, or a group number. */
  datatype CaptureKey = Named(name: string) | Position(index: nat)

  /**
   * The `$matches` entries of the groups, from group number `k` on: each named
   * group appears under its name and then under its number.
   */
  function GroupEntries(pat: seq<string>, segs: seq<string>, k: nat): seq<(CaptureKey, string)>
    requires |pat| == |segs|
    decreases |pat|
  {
    if |pat| == 0 then []
    else match PlaceholderName(pat[0])
      case Some(n) => [(Named(n), segs[0]), (Position(k), segs[0])] + GroupEntries(pat[1..], segs[1..], k + 1)
      case None => GroupEntries(pat[1..], segs[1..], k)
  }

  /**
   * What preg_match fills `$matches` with for the route's pattern, or None
   * when it returns no match: entry 0 is the matched text, then the groups.
   */
  function Captures(routePath: string, uri: string): Option<seq<(CaptureKey, string)>>
  {
    var pat := Split(routePath);
    if !DistinctPlaceholders(pat) then None
    else if SegmentsFit(pat, Split(uri)) then
      Some([(Position(0), uri)] + GroupEntries(pat, Split(uri), 1))
    else if |uri| > 0 && uri[|uri| - 1] == '\n' && SegmentsFit(pat, Split(uri[..|uri| - 1])) then
      Some([(Position(0), uri[..|uri| - 1])] + GroupEntries(pat, Split(uri[..|uri| - 1]), 1))
    else None
  }

  /** The string-keyed entries of `$matches`, as the loop in matchPath keeps them. */
  function NamedOf(entries: seq<(CaptureKey, string)>): map<string, string>
    decreases |entries|
  {
    if |entries| == 0 then map[]
    else
      var last := entries[|entries| - 1];
      var m := NamedOf(entries[..|entries| - 1]);
      match last.0
      case Named(n) => m[n := last.1]
      case Position(_) => m
  }

  /** The params a route path yields for a URI, or None when it does not match. */
  function MatchParams(routePath: string, uri: string): Option<map<string, string>>
  {
    match Captures(routePath, uri)
    case Some(entries) => Some(NamedOf(entries))
    case None => None
  }

  lemma {:induction false} NamedOfAppend(a: seq<(CaptureKey, string)>, b: seq<(CaptureKey, string)>)
    ensures NamedOf(a + b) == NamedOf(a) + NamedOf(b)
    decreases |b|
  {
    if |b| == 0 {
      assert a + b == a;
    } else {
      var b' := b[..|b| - 1];
      assert (a + b)[..|a + b| - 1] == a + b';
      NamedOfAppend(a, b');
    }
  }

  /**
   * The named entries of the groups map exactly the placeholder names, each
   * to the URI segment in its position.
   */
  lemma {:induction false} GroupEntriesNamed(pat: seq<string>, segs: seq<string>, k: nat)
    requires |pat| == |segs| && DistinctPlaceholders(pat)
    ensures NamedOf(GroupEntries(pat, segs, k)).Keys == NameSet(pat)
    ensures forall i :: 0 <= i < |pat| && PlaceholderName(pat[i]).Some? ==>
      && PlaceholderName(pat[i]).value in NamedOf(GroupEntries(pat, segs, k))
      && NamedOf(GroupEntries(pat, segs, k))[PlaceholderName(pat[i]).value] == segs[i]
    decreases |pat|
  {
    if |pat| > 0 {
      var m := NamedOf(GroupEntries(pat, segs, k));
      match PlaceholderName(pat[0])
      case Some(n) =>
        var head: seq<(CaptureKey, string)> := [(Named(n), segs[0]), (Position(k), segs[0])];
        var tail := GroupEntries(pat[1..], segs[1..], k + 1);
        GroupEntriesNamed(pat[1..], segs[1..], k + 1);
        NamedOfAppend(head, tail);
        var one: seq<(CaptureKey, string)> := [(Named(n), segs[0])];
        assert head[..1] == one;
        assert one[..0] == [];
        assert NamedOf(one) == map[n := segs[0]];
        assert NamedOf(head) == map[n := segs[0]];
        forall i | 0 <= i < |pat| && PlaceholderName(pat[i]).Some?
          ensures PlaceholderName(pat[i]).value in m && m[PlaceholderName(pat[i]).value] == segs[i]
        {
          if i > 0 {
            assert pat[1..][i - 1] == pat[i];
            NameSetMember(pat[1..], i - 1);
          }
        }
      case None =>
        GroupEntriesNamed(pat[1..], segs[1..], k);
        forall i | 0 <= i < |pat| && PlaceholderName(pat[i]).Some?
          ensures PlaceholderName(pat[i]).value in m && m[PlaceholderName(pat[i]).value] == segs[i]
        {
          assert i > 0;
          assert pat[1..][i - 1] == pat[i];
        }
    }
  }

  /** The URI a route path stands for once its placeholders are given values. */
  function Fill(routePath: string, m: map<string, string>): string
  {
    Join(FillSegments(Split(routePath), m), "/")
  }

  function FillSegments(pat: seq<string>, m: map<string, string>): (r: seq<string>)
    ensures |r| == |pat|
  {
    seq(|pat|, i requires 0 <= i < |pat| =>
      match PlaceholderName(pat[i])
      case Some(n) => if n in m then m[n] else ""
      case None => pat[i])
  }

  /** When the segments fit, the captured params put back into the route give the segments. */
  lemma FitFills(pat: seq<string>, segs: seq<string>, k: nat)
    requires SegmentsFit(pat, segs) && DistinctPlaceholders(pat)
    ensures FillSegments(pat, NamedOf(GroupEntries(pat, segs, k))) == segs
  {
    var m := NamedOf(GroupEntries(pat, segs, k));
    GroupEntriesNamed(pat, segs, k);
    forall i | 0 <= i < |pat| ensures FillSegments(pat, m)[i] == segs[i] {
      if PlaceholderName(pat[i]).Some? {
        NameSetMember(pat, i);
      }
    }
  }

  /** Values a placeholder can capture: non-empty and free of `/`. */
  predicate GoodParams(m: map<string, string>)
  {
    forall n :: n in m ==> m[n] != "" && '/' !in m[n]
  }

  /**
   * A match yields a param for exactly the placeholder names, each non-empty
   * and slash-free, and putting them back into the route path gives the URI,
   * or the URI without its final newline (PCRE's `$`) when the URI itself does
   * not fit.
   */
  lemma MatchParamsSound(routePath: string, uri: string)
    requires MatchParams(routePath, uri).Some?
    ensures var m := MatchParams(routePath, uri).value;
      && m.Keys == NameSet(Split(routePath))
      && GoodParams(m)
      && (Fill(routePath, m) == uri
          || (Fill(routePath, m) + "\n" == uri && !SegmentsFit(Split(routePath), Split(uri))))
  {
    var pat := Split(routePath);
    var m := MatchParams(routePath, uri).value;
    var u := if SegmentsFit(pat, Split(uri)) then uri else uri[..|uri| - 1];
    var segs := Split(u);
    assert SegmentsFit(pat, segs);
    WholeMatchUnnamed(u, GroupEntries(pat, segs, 1));
    assert m == NamedOf(GroupEntries(pat, segs, 1));
    GroupEntriesNamed(pat, segs, 1);
    forall n | n in m ensures m[n] != "" && '/' !in m[n] {
      var i := NameSetHasIndex(pat, n);
      assert SegmentFits(pat[i], segs[i]);
    }
    FitFills(pat, segs, 1);
    SplitJoin(u);
    if u != uri {
      assert u + "\n" == uri;
    }
  }

  /** The leading whole-match entry of `$matches` adds no param. */
  lemma WholeMatchUnnamed(u: string, groups: seq<(CaptureKey, string)>)
    ensures NamedOf([(Position(0), u)] + groups) == NamedOf(groups)
  {
    var first: seq<(CaptureKey, string)> := [(Position(0), u)];
    NamedOfAppend(first, groups);
    assert first[..0] == [];
    assert NamedOf(first) == map[];
  }

  /** Filling a route path with good values gives segments that fit it. */
  lemma FilledSegmentsFit(pat: seq<string>, m: map<string, string>)
    requires forall i :: 0 <= i < |pat| ==> '/' !in pat[i]
    requires m.Keys == NameSet(pat) && GoodParams(m)
    ensures var segs := FillSegments(pat, m);
      SegmentsFit(pat, segs) && forall i :: 0 <= i < |segs| ==> '/' !in segs[i]
  {
    var segs := FillSegments(pat, m);
    forall i | 0 <= i < |segs| ensures '/' !in segs[i] && SegmentFits(pat[i], segs[i]) {
      if PlaceholderName(pat[i]).Some? {
        NameSetMember(pat, i);
      }
    }
  }

  /** The params captured from filled segments are the values filled in. */
  lemma FilledSegmentsCapture(pat: seq<string>, m: map<string, string>)
    requires DistinctPlaceholders(pat)
    requires m.Keys == NameSet(pat)
    ensures NamedOf(GroupEntries(pat, FillSegments(pat, m), 1)) == m
  {
    var segs := FillSegments(pat, m);
    var got := NamedOf(GroupEntries(pat, segs, 1));
    GroupEntriesNamed(pat, segs, 1);
    forall n | n in m ensures got[n] == m[n] {
      var i := NameSetHasIndex(pat, n);
    }
  }

  /**
   * Conversely, a route path with distinct names matches the URI obtained by
   * filling its placeholders with good values, and yields exactly those values.
   */
  lemma MatchParamsComplete(routePath: string, m: map<string, string>)
    requires DistinctPlaceholders(Split(routePath))
    requires m.Keys == NameSet(Split(routePath)) && GoodParams(m)
    ensures MatchParams(routePath, Fill(routePath, m)) == Some(m)
  {
    var pat := Split(routePath);
    var segs := FillSegments(pat, m);
    var uri := Fill(routePath, m);
    FilledSegmentsFit(pat, m);
    JoinSplit(segs);
    assert Split(uri) == segs;
    assert Captures(routePath, uri) == Some([(Position(0), uri)] + GroupEntries(pat, segs, 1));
    WholeMatchUnnamed(uri, GroupEntries(pat, segs, 1));
    FilledSegmentsCapture(pat, m);
  }

  /** A route path without placeholders. */
  predicate IsLiteral(routePath: string)
  {
    forall i :: 0 <= i < |Split(routePath)| ==> PlaceholderName(Split(routePath)[i]).None?
  }

  /**
   * A route path without placeholders matches only the identical URI, or that
   * URI with one newline after it, and then yields no params.
   */
  lemma LiteralMatch(routePath: string, uri: string)
    requires IsLiteral(routePath)
    ensures MatchParams(routePath, uri).Some? <==> (uri == routePath || uri == routePath + "\n")
    ensures MatchParams(routePath, uri).Some? ==> MatchParams(routePath, uri).value == map[]
  {
    var pat := Split(routePath);
    LiteralDistinct(pat);
    LiteralNoNames(pat);
    LiteralFits(routePath, uri);
    if |uri| > 0 {
      LiteralFits(routePath, uri[..|uri| - 1]);
    }
    if uri == routePath + "\n" {
      assert uri[..|uri| - 1] == routePath;
    }
    if |uri| > 0 && uri[|uri| - 1] == '\n' && uri[..|uri| - 1] == routePath {
      assert uri == routePath + "\n";
    }
    if MatchParams(routePath, uri).Some? {
      MatchParamsSound(routePath, uri);
      var m := MatchParams(routePath, uri).value;
      assert m.Keys == {};
    }
  }

  /** A literal route path's segments fit those of exactly one URI, its own text. */
  lemma LiteralFits(routePath: string, u: string)
    requires IsLiteral(routePath)
    ensures SegmentsFit(Split(routePath), Split(u)) <==> u == routePath
  {
    var pat := Split(routePath);
    if SegmentsFit(pat, Split(u)) {
      assert Split(u) == pat;
      SplitJoin(u);
      SplitJoin(routePath);
    }
  }

  lemma {:induction false} LiteralDistinct(pat: seq<string>)
    requires forall i :: 0 <= i < |pat| ==> PlaceholderName(pat[i]).None?
    ensures DistinctPlaceholders(pat)
    decreases |pat|
  {
    if |pat| > 0 {
      assert forall i :: 0 <= i < |pat[1..]| ==> pat[1..][i] == pat[i + 1];
      LiteralDistinct(pat[1..]);
    }
  }

  lemma {:induction false} LiteralNoNames(pat: seq<string>)
    requires forall i :: 0 <= i < |pat| ==> PlaceholderName(pat[i]).None?
    ensures NameSet(pat) == {}
    decreases |pat|
  {
    if |pat| > 0 {
      assert forall i :: 0 <= i < |pat[1..]| ==> pat[1..][i] == pat[i + 1];
      LiteralNoNames(pat[1..]);
    }
  }
}
