/**
 * The handful of PHP string built-ins the core relies on, over `string`
 * (a PHP string is a byte string; every character here stands for one byte):
 * trim, empty, strtoupper / strtolower, strpos-style containment and implode.
 */
module Text {

  /** The characters `trim($s)` strips when it is given no character list. */
  const PhpSpace: set<char> := {' ', '\t', '\n', '\r', '\0', '\U{000B}'}

  /** No character of `cs` at either end. */
  predicate TrimmedBy(s: string, cs: set<char>)
  {
    s == [] || (s[0] !in cs && s[|s| - 1] !in cs)
  }

  /** The end of the run of `cs` starting at `i`. */
  function LeadEnd(s: string, cs: set<char>, i: nat): (e: nat)
    requires i <= |s|
    ensures i <= e <= |s|
    ensures forall k :: i <= k < e ==> s[k] in cs
    ensures e < |s| ==> s[e] !in cs
    decreases |s| - i
  {
    if i < |s| && s[i] in cs then LeadEnd(s, cs, i + 1) else i
  }

  /** The start of the run of `cs` ending at `j`, going back no further than `lo`. */
  function TrailStart(s: string, cs: set<char>, lo: nat, j: nat): (b: nat)
    requires lo <= j <= |s|
    ensures lo <= b <= j
    ensures forall k :: b <= k < j ==> s[k] in cs
    ensures b > lo ==> s[b - 1] !in cs
    decreases j - lo
  {
    if j > lo && s[j - 1] in cs then TrailStart(s, cs, lo, j - 1) else j
  }

  /** `ltrim($s, $cs)`: the suffix left after dropping the leading run of `cs`. */
  function TrimStart(s: string, cs: set<char>): (r: string)
    ensures |r| <= |s| && r == s[|s| - |r|..]
    ensures forall i :: 0 <= i < |s| - |r| ==> s[i] in cs
    ensures r == [] || r[0] !in cs
  {
    s[LeadEnd(s, cs, 0)..]
  }

  /** `rtrim($s, $cs)`: the prefix left after dropping the trailing run of `cs`. */
  function TrimEnd(s: string, cs: set<char>): (r: string)
    ensures |r| <= |s| && r == s[..|r|]
    ensures forall i :: |r| <= i < |s| ==> s[i] in cs
    ensures r == [] || r[|r| - 1] !in cs
  {
    s[..TrailStart(s, cs, 0, |s|)]
  }

  /** `trim($s, $cs)`: both runs dropped, the trailing one never reaching past the leading one. */
  function TrimChars(s: string, cs: set<char>): (r: string)
  {
    var a := LeadEnd(s, cs, 0);
    s[a..TrailStart(s, cs, a, |s|)]
  }

  /** `trim($s)` with the default character list. */
  function Trim(s: string): string
  {
    TrimChars(s, PhpSpace)
  }

  /**
   * trim leaves a string with no stripped character at either end, obtained
   * from the input by removing a run of them in front and a run at the back.
   */
  lemma TrimCharsShape(s: string, cs: set<char>)
    ensures TrimmedBy(TrimChars(s, cs), cs)
    ensures var r := TrimChars(s, cs); var a := |s| - |TrimStart(s, cs)|;
      a + |r| <= |s| && s[a..a + |r|] == r
      && (forall i :: 0 <= i < a ==> s[i] in cs)
      && (forall i :: a + |r| <= i < |s| ==> s[i] in cs)
  {
    var a := LeadEnd(s, cs, 0);
    var b := TrailStart(s, cs, a, |s|);
    var r := s[a..b];
    if r != [] {
      assert r[0] == s[a] && r[|r| - 1] == s[b - 1];
    }
  }

  /** ltrim leaves a string that does not start with a character of `cs` alone. */
  lemma TrimStartOfTrimmed(s: string, cs: set<char>)
    requires s == [] || s[0] !in cs
    ensures TrimStart(s, cs) == s
  {
    assert s[0..] == s;
  }

  /** A string already free of `cs` at both ends is left alone by trim. */
  lemma TrimCharsOfTrimmed(s: string, cs: set<char>)
    requires TrimmedBy(s, cs)
    ensures TrimChars(s, cs) == s
  {
  }

  /** trim is idempotent. */
  lemma TrimCharsIdempotent(s: string, cs: set<char>)
    ensures TrimChars(TrimChars(s, cs), cs) == TrimChars(s, cs)
  {
    TrimCharsShape(s, cs);
    TrimCharsOfTrimmed(TrimChars(s, cs), cs);
  }

  /** PHP's `empty()` on a string: true for "" and for "0". */
  predicate PhpEmpty(s: string)
  {
    s == "" || s == "0"
  }

  /** strtoupper on one byte: ASCII letters only (PHP 8.2 and later). */
  function UpperChar(c: char): char
  {
    if 'a' <= c <= 'z' then (c as int - 32) as char else c
  }

  /** strtolower on one byte: ASCII letters only. */
  function LowerChar(c: char): char
  {
    if 'A' <= c <= 'Z' then (c as int + 32) as char else c
  }

  function ToUpper(s: string): (r: string)
    ensures |r| == |s|
    ensures forall i :: 0 <= i < |s| ==> r[i] == UpperChar(s[i])
  {
    seq(|s|, i requires 0 <= i < |s| => UpperChar(s[i]))
  }

  function ToLower(s: string): (r: string)
    ensures |r| == |s|
    ensures forall i :: 0 <= i < |s| ==> r[i] == LowerChar(s[i])
  {
    seq(|s|, i requires 0 <= i < |s| => LowerChar(s[i]))
  }

  /** strtolower leaves a string without ASCII capitals as it is. */
  lemma ToLowerOfLower(s: string)
    requires forall i :: 0 <= i < |s| ==> !('A' <= s[i] <= 'Z')
    ensures ToLower(s) == s
  {
  }

  /** No ASCII lower-case letter occurs. */
  predicate IsUpper(s: string)
  {
    forall i :: 0 <= i < |s| ==> !('a' <= s[i] <= 'z')
  }

  /** strtoupper yields upper case and is idempotent. */
  lemma ToUpperIsUpper(s: string)
    ensures IsUpper(ToUpper(s))
    ensures ToUpper(ToUpper(s)) == ToUpper(s)
  {
  }

  /** strtoupper leaves an upper-case string as it is. */
  lemma ToUpperOfUpper(s: string)
    requires IsUpper(s)
    ensures ToUpper(s) == s
  {
  }

  predicate StartsWith(s: string, p: string)
  {
    |p| <= |s| && s[..|p|] == p
  }

  /** `strpos($s, $sub) !== false`. */
  predicate Contains(s: string, sub: string)
    decreases |s|
  {
    StartsWith(s, sub) || (|s| > 0 && Contains(s[1..], sub))
  }

  /** Contains holds exactly when `sub` occurs at some offset. */
  lemma {:induction false} ContainsAt(s: string, sub: string)
    ensures Contains(s, sub) <==> exists i :: 0 <= i <= |s| && StartsWith(s[i..], sub)
    decreases |s|
  {
    if exists i :: 0 <= i <= |s| && StartsWith(s[i..], sub) {
      var i :| 0 <= i <= |s| && StartsWith(s[i..], sub);
      if i == 0 {
        assert s[0..] == s;
      } else {
        ContainsAt(s[1..], sub);
        assert s[1..][i - 1..] == s[i..];
      }
    }
    if Contains(s, sub) && !StartsWith(s, sub) {
      ContainsAt(s[1..], sub);
      var i :| 0 <= i <= |s[1..]| && StartsWith(s[1..][i..], sub);
      assert s[1..][i..] == s[i + 1..];
    } else if Contains(s, sub) {
      assert s[0..] == s;
    }
  }

  /** Every string contains itself. */
  lemma ContainsSelf(s: string)
    ensures Contains(s, s)
  {
    assert s[..|s|] == s;
  }

  /** Anything containing `sub` in some part contains it as a whole. */
  lemma ContainsInMiddle(a: string, sub: string, b: string)
    ensures Contains(a + sub + b, sub)
  {
    var s := a + sub + b;
    assert s[|a|..][..|sub|] == sub;
    ContainsAt(s, sub);
  }

  /** `implode($sep, $parts)`. */
  function Join(parts: seq<string>, sep: string): string
    decreases |parts|
  {
    if |parts| == 0 then ""
    else if |parts| == 1 then parts[0]
    else parts[0] + sep + Join(parts[1..], sep)
  }

  lemma {:induction false} JoinAppend(parts: seq<string>, p: string, sep: string)
    requires |parts| > 0
    ensures Join(parts + [p], sep) == Join(parts, sep) + sep + p
    decreases |parts|
  {
    if |parts| == 1 {
      assert parts + [p] == [parts[0], p];
      assert ([parts[0], p])[1..] == [p];
    } else {
      assert (parts + [p])[1..] == parts[1..] + [p];
      JoinAppend(parts[1..], p, sep);
    }
  }

  /** Number of occurrences of `c`, summed over the parts. */
  function CountIn(parts: seq<string>, c: char): nat
    decreases |parts|
  {
    if |parts| == 0 then 0 else multiset(parts[0])[c] + CountIn(parts[1..], c)
  }

  /** A separator without `c` adds no occurrence of `c` to the joined text. */
  lemma {:induction false} JoinCount(parts: seq<string>, sep: string, c: char)
    requires c !in sep
    ensures multiset(Join(parts, sep))[c] == CountIn(parts, c)
    decreases |parts|
  {
    if |parts| > 1 {
      JoinCount(parts[1..], sep, c);
      assert multiset(sep)[c] == 0;
      calc {
        multiset(Join(parts, sep))[c];
        multiset(parts[0] + sep + Join(parts[1..], sep))[c];
        { assert multiset(parts[0] + sep + Join(parts[1..], sep))
            == multiset(parts[0]) + multiset(sep) + multiset(Join(parts[1..], sep)); }
        multiset(parts[0])[c] + CountIn(parts[1..], c);
      }
    } else if |parts| == 1 {
      assert parts[1..] == [];
    }
  }

  lemma CountInAppend(parts: seq<string>, more: seq<string>, c: char)
    ensures CountIn(parts + more, c) == CountIn(parts, c) + CountIn(more, c)
    decreases |parts|
  {
    if |parts| > 0 {
      assert (parts + more)[1..] == parts[1..] + more;
      CountInAppend(parts[1..], more, c);
    } else {
      assert parts + more == more;
    }
  }
}
