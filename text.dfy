/** String operations the filter compiler relies on: PHP's `strtolower`, and a global,
    case-sensitive replacement of a literal pattern that also reports how many
    occurrences it replaced (what `preg_replace` with a plain-literal pattern and the
    by-reference `$count` argument does). `Split` and `Join` give an independent
    description of the same replacement: cut the text at every occurrence of the
    pattern, then glue the pieces back with the replacement in between. */
module Text {

  predicate IsUpper(c: char) {
    'A' <= c <= 'Z'
  }

  /** ASCII lowercasing of one character, as `strtolower` does byte by byte. */
  function LowerChar(c: char): (r: char)
    ensures !IsUpper(r)
    ensures !IsUpper(c) ==> r == c
    ensures IsUpper(c) ==> r as int == c as int + 32
  {
    if IsUpper(c) then (c as int - 'A' as int + 'a' as int) as char else c
  }

  function Lower(s: string): (r: string)
    ensures |r| == |s|
    ensures forall i :: 0 <= i < |s| ==> r[i] == LowerChar(s[i])
  {
    seq(|s|, i requires 0 <= i < |s| => LowerChar(s[i]))
  }

  predicate NoUpper(s: string) {
    |s| == 0 || (!IsUpper(s[0]) && NoUpper(s[1..]))
  }

  /** Lowercasing a text without upper-case letters gives it back. */
  lemma {:induction false} LowerWithoutUpper(s: string)
    requires NoUpper(s)
    ensures Lower(s) == s
  {
    if |s| > 0 {
      LowerWithoutUpper(s[1..]);
      assert forall i :: 0 < i < |s| ==> Lower(s)[i] == Lower(s[1..])[i - 1];
    }
  }

  /** `pat` occurs in `s` starting at index `i`. */
  predicate OccursAt(s: string, pat: string, i: int) {
    0 <= i && i + |pat| <= |s| && s[i..i + |pat|] == pat
  }

  predicate Contains(s: string, pat: string) {
    exists i | 0 <= i <= |s| :: OccursAt(s, pat, i)
  }

  /** Leftmost, non-overlapping replacement of every occurrence of `pat` by `rep`,
      paired with the number of replacements made. */
  function ReplaceAll(s: string, pat: string, rep: string): (string, nat)
    requires pat != []
    decreases |s|
  {
    if |s| < |pat| then (s, 0)
    else if s[..|pat|] == pat then
      var tail := ReplaceAll(s[|pat|..], pat, rep);
      (rep + tail.0, tail.1 + 1)
    else
      var tail := ReplaceAll(s[1..], pat, rep);
      ([s[0]] + tail.0, tail.1)
  }

  /** The pieces of `s` between the occurrences of `pat`, scanning left to right. */
  function Split(s: string, pat: string): (parts: seq<string>)
    requires pat != []
    ensures |parts| >= 1
    decreases |s|
  {
    if |s| < |pat| then [s]
    else if s[..|pat|] == pat then [[]] + Split(s[|pat|..], pat)
    else
      var rest := Split(s[1..], pat);
      [[s[0]] + rest[0]] + rest[1..]
  }

  function Join(parts: seq<string>, sep: string): string
    requires |parts| >= 1
    decreases |parts|
  {
    if |parts| == 1 then parts[0] else parts[0] + sep + Join(parts[1..], sep)
  }

  predicate MarkerFree(parts: seq<string>, pat: string) {
    forall k :: 0 <= k < |parts| ==> !Contains(parts[k], pat)
  }

  /** Putting one more character in front of the first piece puts it in front of the joined text. */
  lemma JoinConsFirst(c: char, parts: seq<string>, sep: string)
    requires |parts| >= 1
    ensures Join([[c] + parts[0]] + parts[1..], sep) == [c] + Join(parts, sep)
  {
  }

  /** Gluing the pieces back with the pattern gives the original text. */
  lemma {:induction false} JoinSplit(s: string, pat: string)
    requires pat != []
    ensures Join(Split(s, pat), pat) == s
    decreases |s|
  {
    if |s| < |pat| {
    } else if s[..|pat|] == pat {
      JoinSplit(s[|pat|..], pat);
      var parts := [[]] + Split(s[|pat|..], pat);
      assert parts[1..] == Split(s[|pat|..], pat);
      assert s == s[..|pat|] + s[|pat|..];
    } else {
      JoinSplit(s[1..], pat);
      JoinConsFirst(s[0], Split(s[1..], pat), pat);
      assert s == [s[0]] + s[1..];
    }
  }

  /** The replacement is the pieces glued with `rep`; its count is the number of cuts. */
  lemma {:induction false} ReplaceAllJoin(s: string, pat: string, rep: string)
    requires pat != []
    ensures ReplaceAll(s, pat, rep).0 == Join(Split(s, pat), rep)
    ensures ReplaceAll(s, pat, rep).1 == |Split(s, pat)| - 1
    decreases |s|
  {
    if |s| < |pat| {
    } else if s[..|pat|] == pat {
      ReplaceAllJoin(s[|pat|..], pat, rep);
      var parts := [[]] + Split(s[|pat|..], pat);
      assert parts[1..] == Split(s[|pat|..], pat);
    } else {
      ReplaceAllJoin(s[1..], pat, rep);
      JoinConsFirst(s[0], Split(s[1..], pat), rep);
    }
  }

  /** The first piece is a prefix of the text. */
  lemma {:induction false} SplitFirstIsPrefix(s: string, pat: string)
    requires pat != []
    ensures Split(s, pat)[0] <= s
    decreases |s|
  {
    if |s| < |pat| {
    } else if s[..|pat|] == pat {
    } else {
      SplitFirstIsPrefix(s[1..], pat);
      var p := Split(s[1..], pat)[0];
      assert [s[0]] + p <= [s[0]] + s[1..];
      assert [s[0]] + s[1..] == s;
    }
  }

  /** No piece contains the pattern: every occurrence in the text is one of the cuts. */
  lemma {:induction false} SplitMarkerFree(s: string, pat: string)
    requires pat != []
    ensures MarkerFree(Split(s, pat), pat)
    decreases |s|
  {
    var parts := Split(s, pat);
    if |s| < |pat| {
      assert !Contains(s, pat);
    } else if s[..|pat|] == pat {
      SplitMarkerFree(s[|pat|..], pat);
      assert !Contains([], pat);
      assert parts[1..] == Split(s[|pat|..], pat);
      forall k | 0 <= k < |parts| ensures !Contains(parts[k], pat) {
        if k > 0 { assert parts[k] == Split(s[|pat|..], pat)[k - 1]; }
      }
    } else {
      var rest := Split(s[1..], pat);
      SplitMarkerFree(s[1..], pat);
      SplitFirstIsPrefix(s[1..], pat);
      var first := [s[0]] + rest[0];
      assert first <= s by { assert s == [s[0]] + s[1..]; }
      forall i | 0 <= i <= |first| ensures !OccursAt(first, pat, i) {
        if i == 0 {
          if |pat| <= |first| { assert first[..|pat|] == s[..|pat|]; }
        } else if i + |pat| <= |first| {
          assert first[i..i + |pat|] == rest[0][i - 1..i - 1 + |pat|];
          assert !OccursAt(rest[0], pat, i - 1);
        }
      }
      forall k | 0 <= k < |parts| ensures !Contains(parts[k], pat) {
        if k > 0 { assert parts[k] == rest[k]; }
      }
    }
  }

  /** The replacement count is zero exactly when the pattern does not occur, and then the
      text comes back unchanged. */
  lemma CountZeroIff(s: string, pat: string, rep: string)
    requires pat != []
    ensures ReplaceAll(s, pat, rep).1 == 0 <==> !Contains(s, pat)
    ensures ReplaceAll(s, pat, rep).1 == 0 ==> ReplaceAll(s, pat, rep).0 == s
  {
    ReplaceAllJoin(s, pat, rep);
    SingletonIff(s, pat);
  }

  /** The text is cut nowhere exactly when the pattern does not occur in it. */
  lemma SingletonIff(s: string, pat: string)
    requires pat != []
    ensures |Split(s, pat)| == 1 <==> !Contains(s, pat)
  {
    var parts := Split(s, pat);
    JoinSplit(s, pat);
    SplitMarkerFree(s, pat);
    if |parts| == 1 {
      assert s == parts[0];
      assert !Contains(parts[0], pat);
    } else {
      var rest := Join(parts[1..], pat);
      assert s == parts[0] + pat + rest;
      assert s[|parts[0]|..|parts[0]| + |pat|] == pat;
      assert OccursAt(s, pat, |parts[0]|);
    }
  }

  /** Joining marker-free pieces with a separator that shares no character with the pattern
      creates no occurrence of the pattern. */
  lemma {:induction false} JoinDisjointNoOccurrence(parts: seq<string>, sep: string, pat: string)
    requires |parts| >= 1 && |sep| > 0 && pat != []
    requires MarkerFree(parts, pat)
    requires forall i, j :: 0 <= i < |sep| && 0 <= j < |pat| ==> sep[i] != pat[j]
    ensures !Contains(Join(parts, sep), pat)
    decreases |parts|
  {
    if |parts| == 1 {
      assert !Contains(parts[0], pat);
    } else {
      var a, rest := parts[0], Join(parts[1..], sep);
      assert MarkerFree(parts[1..], pat) by {
        forall k | 0 <= k < |parts[1..]| ensures !Contains(parts[1..][k], pat) {
          assert parts[1..][k] == parts[k + 1];
        }
      }
      JoinDisjointNoOccurrence(parts[1..], sep, pat);
      var s := a + sep + rest;
      assert !Contains(a, pat);
      forall i | 0 <= i <= |s| ensures !OccursAt(s, pat, i) {
        if i + |pat| > |s| {
        } else if i + |pat| <= |a| {
          assert s[i..i + |pat|] == a[i..i + |pat|];
          assert !OccursAt(a, pat, i);
        } else if i >= |a| + |sep| {
          var i' := i - |a| - |sep|;
          assert s[i..i + |pat|] == rest[i'..i' + |pat|];
          assert !OccursAt(rest, pat, i');
        } else {
          var j := if i >= |a| then i else |a|;
          assert s[j] == sep[j - |a|];
          assert s[i..i + |pat|][j - i] == s[j];
          assert sep[j - |a|] != pat[j - i];
        }
      }
    }
  }

  /** A text without the pattern's first character is not cut. */
  lemma {:induction false} SplitWithoutFirstChar(s: string, pat: string)
    requires pat != []
    requires forall i :: 0 <= i < |s| ==> s[i] != pat[0]
    ensures Split(s, pat) == [s]
    decreases |s|
  {
    if |s| >= |pat| {
      assert s[..|pat|][0] != pat[0];
      SplitWithoutFirstChar(s[1..], pat);
      assert [s[0]] + s[1..] == s;
    }
  }

  /** A text with the pattern exactly once, and the pattern's first character nowhere
      else, is cut into the parts before and after it. */
  lemma {:induction false} SplitAroundOne(a: string, pat: string, b: string)
    requires pat != []
    requires forall i :: 0 <= i < |a| ==> a[i] != pat[0]
    requires forall i :: 0 <= i < |b| ==> b[i] != pat[0]
    ensures Split(a + pat + b, pat) == [a, b]
    decreases |a|
  {
    var s := a + pat + b;
    if a == [] {
      assert s == pat + b;
      assert s[..|pat|] == pat;
      assert s[|pat|..] == b;
      SplitWithoutFirstChar(b, pat);
    } else {
      assert s[..|pat|][0] == a[0];
      assert s[1..] == a[1..] + pat + b;
      SplitAroundOne(a[1..], pat, b);
      assert [a[0]] + a[1..] == a;
    }
  }

  // ---------------------------------------------------------------------------
  // The replacement string of `preg_replace`. In it `$n`, `${n}` and `\n` (n one or
  // two decimal digits) stand for capture group n, and a backslash before `\` or `$`
  // makes that character literal. For a pattern without groups, group 0 is the whole
  // match and every other group expands to nothing.

  predicate IsDigit(c: char) {
    '0' <= c <= '9'
  }

  function DigitValue(c: char): (r: nat)
    requires IsDigit(c)
    ensures r <= 9
  {
    c as int - '0' as int
  }

  /** How many characters the back reference at the start of `rep` spans, or 0 when
      `rep` does not start with one. */
  function RefWidth(rep: string): (w: nat)
    ensures w == 0 || 2 <= w <= |rep|
    ensures w > 0 ==> rep[0] == '$' || rep[0] == '\\'
    ensures w > 0 ==> IsDigit(rep[1]) || (rep[0] == '$' && rep[1] == '{')
  {
    if |rep| >= 2 && rep[0] == '$' && rep[1] == '{' then
      if |rep| >= 4 && IsDigit(rep[2]) && rep[3] == '}' then 4
      else if |rep| >= 5 && IsDigit(rep[2]) && IsDigit(rep[3]) && rep[4] == '}' then 5
      else 0
    else if |rep| >= 2 && (rep[0] == '$' || rep[0] == '\\') && IsDigit(rep[1]) then
      if |rep| >= 3 && IsDigit(rep[2]) then 3 else 2
    else 0
  }

  /** The group number of the back reference at the start of `rep`. */
  function RefGroup(rep: string): (n: nat)
    requires RefWidth(rep) > 0
    ensures n <= 99
  {
    var w := RefWidth(rep);
    var first := if w >= 4 then 2 else 1;
    if w == 3 || w == 5 then 10 * DigitValue(rep[first]) + DigitValue(rep[first + 1])
    else DigitValue(rep[first])
  }

  /** The text that replaces one match `whole` of a pattern without capture groups. */
  function Expand(rep: string, whole: string): string
    decreases |rep|
  {
    if rep == [] then []
    else if rep[0] == '\\' && |rep| >= 2 && (rep[1] == '\\' || rep[1] == '$') then
      [rep[1]] + Expand(rep[2..], whole)
    else if RefWidth(rep) > 0 then
      (if RefGroup(rep) == 0 then whole else []) + Expand(rep[RefWidth(rep)..], whole)
    else
      [rep[0]] + Expand(rep[1..], whole)
  }

  /** No character that the replacement syntax gives a meaning to. */
  predicate NoSpecial(s: string) {
    forall i | 0 <= i < |s| :: s[i] != '$' && s[i] != '\\'
  }

  /** A replacement without `$` and `\` is taken literally. */
  lemma {:induction false} ExpandLiteral(rep: string, whole: string)
    requires NoSpecial(rep)
    ensures Expand(rep, whole) == rep
    decreases |rep|
  {
    if rep != [] {
      ExpandLiteral(rep[1..], whole);
      assert [rep[0]] + rep[1..] == rep;
    }
  }

  /** A prefix without `$` and `\\` is copied, whatever follows it. */
  lemma {:induction false} ExpandPlainPrefix(c: string, r: string, whole: string)
    requires NoSpecial(c)
    ensures Expand(c + r, whole) == c + Expand(r, whole)
    decreases |c|
  {
    if c != [] {
      var cr := c + r;
      assert cr[0] == c[0];
      assert cr[1..] == c[1..] + r;
      ExpandPlainPrefix(c[1..], r, whole);
    } else {
      assert c + r == r;
    }
  }

  /** A character that cannot continue a back reference or an escape. */
  predicate Stops(c: char) {
    !IsDigit(c) && c != '{' && c != '}' && c != '$' && c != '\\'
  }

  lemma RefWidthConcat(c: string, s: string)
    requires c != [] && s != [] && Stops(s[0])
    ensures RefWidth(c + s) == RefWidth(c)
    ensures RefWidth(c) > 0 ==> RefGroup(c + s) == RefGroup(c)
  {
    var cs := c + s;
    assert forall i | 0 <= i < |c| :: cs[i] == c[i];
    assert cs[|c|] == s[0];
  }

  /** Expansion works piece by piece when the second piece is literal and starts with a
      character that ends any reference before it. */
  lemma {:induction false} ExpandConcat(c: string, s: string, whole: string)
    requires s != [] && Stops(s[0]) && NoSpecial(s)
    ensures Expand(c + s, whole) == Expand(c, whole) + s
    decreases |c|
  {
    if c == [] {
      assert c + s == s;
      ExpandLiteral(s, whole);
    } else {
      var cs := c + s;
      assert cs[0] == c[0];
      RefWidthConcat(c, s);
      if c[0] == '\\' && |c| >= 2 && (c[1] == '\\' || c[1] == '$') {
        assert cs[1] == c[1];
        assert cs[2..] == c[2..] + s;
        ExpandConcat(c[2..], s, whole);
      } else if c[0] == '\\' && |c| == 1 {
        assert cs[1] == s[0];
        assert cs[1..] == s;
        assert c[1..] == [];
        ExpandLiteral(s, whole);
      } else if RefWidth(c) > 0 {
        assert !(cs[0] == '\\' && |cs| >= 2 && (cs[1] == '\\' || cs[1] == '$'));
        assert cs[RefWidth(c)..] == c[RefWidth(c)..] + s;
        ExpandConcat(c[RefWidth(c)..], s, whole);
      } else {
        assert !(cs[0] == '\\' && |cs| >= 2 && (cs[1] == '\\' || cs[1] == '$'));
        assert cs[1..] == c[1..] + s;
        ExpandConcat(c[1..], s, whole);
      }
    }
  }
}
