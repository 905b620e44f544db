/**
 * The java.lang.String and java.util.regex operations the build plugin relies on,
 * stated over Dafny strings. Patterns are literal: every regular expression in the
 * plugin is a group name with its dots escaped, so a match is a literal occurrence.
 */
module JavaStrings {

  /** `s.startsWith(p)` */
  predicate StartsWith(s: string, p: string) {
    |p| <= |s| && s[..|p|] == p
  }

  /** `s.endsWith(p)` */
  predicate EndsWith(s: string, p: string) {
    |p| <= |s| && s[|s| - |p|..] == p
  }

  /** `p` occurs in `s` starting at index `i`. */
  predicate OccursAt(s: string, p: string, i: nat) {
    i + |p| <= |s| && s[i..i + |p|] == p
  }

  /** `s.contains(p)`, and equally `Pattern.compile(p).matcher(s).find()` for a literal `p`. */
  predicate Contains(s: string, p: string)
    decreases |s|
  {
    StartsWith(s, p) || (|s| > 0 && Contains(s[1..], p))
  }

  /**
   * `Pattern.compile(p).matcher(s).replaceAll(r)` for a literal `p`, which is also
   * `s.replace(p, r)`: occurrences are replaced left to right and never overlap.
   * The empty pattern matches before every character and at the end.
   */
  function ReplaceAll(s: string, p: string, r: string): string
    decreases |s|
  {
    if |p| == 0 then
      (if s == [] then r else r + [s[0]] + ReplaceAll(s[1..], p, r))
    else if StartsWith(s, p) then r + ReplaceAll(s[|p|..], p, r)
    else if s == [] then []
    else [s[0]] + ReplaceAll(s[1..], p, r)
  }

  /** `s.replace(a, b)` on characters. */
  function ReplaceChar(s: string, a: char, b: char): (t: string)
    ensures |t| == |s|
    ensures forall i :: 0 <= i < |s| ==> t[i] == (if s[i] == a then b else s[i])
  {
    seq(|s|, i requires 0 <= i < |s| => if s[i] == a then b else s[i])
  }

  /** A package name in its internal form: `g.replace('.', '/')`. */
  function Slashed(g: string): string {
    ReplaceChar(g, '.', '/')
  }

  /** Re-bracketing a concatenation. */
  lemma Concat3(a: string, b: string, c: string)
    ensures a + b + c == a + (b + c)
  {
  }

  /** Slashing a name changes it, whatever follows it, exactly when it has a '.'. */
  lemma SlashedChanges(g: string, rest: string)
    ensures Slashed(g) + rest == g + rest <==> '.' !in g
  {
    if '.' in g {
      var i :| 0 <= i < |g| && g[i] == '.';
      assert (Slashed(g) + rest)[i] == '/' && (g + rest)[i] == '.';
    } else {
      assert Slashed(g) == g;
    }
  }

  /** `c` lowered as `Character.toLowerCase` does for ASCII letters. */
  function LowerChar(c: char): char {
    if 'A' <= c <= 'Z' then (c as int + 32) as char else c
  }

  /** `s.toLowerCase(Locale.ROOT)` on ASCII; other characters are kept. */
  function Lower(s: string): (t: string)
    ensures |t| == |s|
  {
    seq(|s|, i requires 0 <= i < |s| => LowerChar(s[i]))
  }

  /** A word with no upper-case ASCII letter. */
  predicate IsLowerWord(w: string) {
    forall i :: 0 <= i < |w| ==> !('A' <= w[i] <= 'Z')
  }

  /** `s` spells the lower-case word `w`, each letter in either case. */
  predicate SpellsIgnoringCase(s: string, w: string) {
    |s| == |w| &&
    forall i :: 0 <= i < |s| ==> s[i] == w[i] || ('a' <= w[i] <= 'z' && s[i] as int == w[i] as int - 32)
  }

  /** Lowering gives a lower-case word exactly for its spellings in any case. */
  lemma LowerSpells(s: string, w: string)
    requires IsLowerWord(w)
    ensures Lower(s) == w <==> SpellsIgnoringCase(s, w)
  {
    if SpellsIgnoringCase(s, w) {
      forall i | 0 <= i < |s|
        ensures Lower(s)[i] == w[i]
      {
      }
    }
    if Lower(s) == w {
      forall i | 0 <= i < |s|
        ensures s[i] == w[i] || ('a' <= w[i] <= 'z' && s[i] as int == w[i] as int - 32)
      {
        assert LowerChar(s[i]) == w[i];
      }
    }
  }

  /** `s.trim()`: drops every leading and trailing character up to U+0020. */
  function Trim(s: string): string {
    TrimEnd(TrimStart(s))
  }

  function TrimStart(s: string): string {
    if |s| > 0 && s[0] <= ' ' then TrimStart(s[1..]) else s
  }

  function TrimEnd(s: string): string {
    if |s| > 0 && s[|s| - 1] <= ' ' then TrimEnd(s[..|s| - 1]) else s
  }

  /** Index of the last `c` in `s`, or -1. */
  function LastIndexOf(s: string, c: char): (k: int)
    ensures -1 <= k < |s|
    ensures k >= 0 ==> s[k] == c
    ensures forall j :: k < j < |s| ==> s[j] != c
  {
    if |s| == 0 then -1
    else if s[|s| - 1] == c then |s| - 1
    else LastIndexOf(s[..|s| - 1], c)
  }

  /** Every piece of `s` between separators, empty pieces included. */
  function Segments(s: string, sep: char): (parts: seq<string>)
    ensures |parts| >= 1
    decreases |s|
  {
    var k := LastIndexOf(s, sep);
    if k < 0 then [s] else Segments(s[..k], sep) + [s[k + 1..]]
  }

  /** `String.join(sep, parts)` */
  function Join(parts: seq<string>, sep: char): string {
    if |parts| == 0 then ""
    else if |parts| == 1 then parts[0]
    else Join(parts[..|parts| - 1], sep) + [sep] + parts[|parts| - 1]
  }

  /** Trailing empty strings removed, as `split` does with limit 0. */
  function DropTrailingEmpty(parts: seq<string>): (r: seq<string>)
    ensures |r| <= |parts| && r == parts[..|r|]
    ensures |r| > 0 ==> r[|r| - 1] != ""
    ensures |parts| > 0 && parts[|parts| - 1] != "" ==> r == parts
  {
    if |parts| > 0 && parts[|parts| - 1] == "" then DropTrailingEmpty(parts[..|parts| - 1]) else parts
  }

  /** `s.split(sep)` for a one-character literal separator. */
  function Split(s: string, sep: char): seq<string> {
    if sep !in s then [s] else DropTrailingEmpty(Segments(s, sep))
  }

  // ---------------------------------------------------------------------------
  // Properties

  lemma {:induction false} ContainsAt(s: string, p: string, i: nat)
    requires OccursAt(s, p, i)
    ensures Contains(s, p)
    decreases i
  {
    if i == 0 {
      assert s[..|p|] == p;
    } else {
      assert OccursAt(s[1..], p, i - 1) by {
        assert s[1..][i - 1..i - 1 + |p|] == s[i..i + |p|];
      }
      ContainsAt(s[1..], p, i - 1);
    }
  }

  /** A one-character pattern occurs only where its character does. */
  lemma {:induction false} ContainsChar(s: string, c: char)
    ensures Contains(s, [c]) <==> c in s
    decreases |s|
  {
    if s != [] {
      ContainsChar(s[1..], c);
      assert s == [s[0]] + s[1..];
    }
  }

  /** Replacing a pattern that does not occur changes nothing. */
  lemma {:induction false} ReplaceAllAbsent(s: string, p: string, r: string)
    requires !Contains(s, p)
    ensures ReplaceAll(s, p, r) == s
    decreases |s|
  {
    if s != [] {
      ReplaceAllAbsent(s[1..], p, r);
    }
  }

  /** Every character of a replacement result comes from the text or from the replacement. */
  lemma {:induction false} ReplaceAllFrom(s: string, p: string, r: string)
    ensures forall c :: c in ReplaceAll(s, p, r) ==> c in s || c in r
    decreases |s|
  {
    if |p| == 0 {
      if s != [] {
        ReplaceAllFrom(s[1..], p, r);
      }
    } else if StartsWith(s, p) {
      ReplaceAllFrom(s[|p|..], p, r);
      forall c | c in s[|p|..]
        ensures c in s
      {
        var k :| 0 <= k < |s[|p|..]| && s[|p|..][k] == c;
        assert s[|p| + k] == c;
      }
    } else if s != [] {
      ReplaceAllFrom(s[1..], p, r);
    }
  }

  /** Replacing a pattern by itself changes nothing. */
  lemma {:induction false} ReplaceAllSelf(s: string, p: string)
    requires |p| > 0
    ensures ReplaceAll(s, p, p) == s
    decreases |s|
  {
    if StartsWith(s, p) {
      ReplaceAllSelf(s[|p|..], p);
      assert s == s[..|p|] + s[|p|..];
    } else if s != [] {
      ReplaceAllSelf(s[1..], p);
      assert s == [s[0]] + s[1..];
    }
  }

  /** Replacing a character that does not occur, and mapping back, is the identity. */
  lemma ReplaceCharBack(s: string, a: char, b: char)
    requires b !in s
    ensures ReplaceChar(ReplaceChar(s, a, b), b, a) == s
  {
  }

  /** Lowering is idempotent. */
  lemma LowerIdempotent(s: string)
    ensures Lower(Lower(s)) == Lower(s)
  {
  }

  /** No segment contains the separator. */
  lemma {:induction false} SegmentsHaveNoSeparator(s: string, sep: char)
    ensures forall i :: 0 <= i < |Segments(s, sep)| ==> sep !in Segments(s, sep)[i]
    decreases |s|
  {
    var k := LastIndexOf(s, sep);
    if k >= 0 {
      SegmentsHaveNoSeparator(s[..k], sep);
      var tail := s[k + 1..];
      assert forall j :: 0 <= j < |tail| ==> tail[j] == s[k + 1 + j];
    }
  }

  /** Joining the segments of `s` gives back `s`. */
  lemma {:induction false} JoinSegments(s: string, sep: char)
    ensures Join(Segments(s, sep), sep) == s
    decreases |s|
  {
    var k := LastIndexOf(s, sep);
    if k >= 0 {
      var parts := Segments(s, sep);
      var front := Segments(s[..k], sep);
      JoinSegments(s[..k], sep);
      assert parts[..|parts| - 1] == front;
      assert s == s[..k] + [sep] + s[k + 1..];
    }
  }

  /** A string that does not end with the separator splits into at least one piece. */
  lemma SplitNonEmpty(s: string, sep: char)
    requires !EndsWith(s, [sep])
    ensures |Split(s, sep)| > 0
  {
    if sep in s {
      var k := LastIndexOf(s, sep);
      assert k >= 0 by {
        var j :| 0 <= j < |s| && s[j] == sep;
      }
      assert s[|s| - 1..] == [s[|s| - 1]];
      var parts := Segments(s, sep);
      assert parts[|parts| - 1] == s[k + 1..];
    }
  }

  /** The last segment is what follows the last separator, so it is empty exactly when `s` ends with one. */
  lemma LastSegment(s: string, sep: char)
    ensures var parts := Segments(s, sep);
      parts[|parts| - 1] == s[LastIndexOf(s, sep) + 1..]
  {
  }
}
