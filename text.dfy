/** The string builtins the editor relies on: lower-casing, `trim`,
    `split(c).pop()`, `includes`, `join`, and `replace` with a string pattern,
    including the `$` patterns that `replace` expands in its replacement text. */
module Text {

  predicate IsUpper(c: char) { 'A' <= c <= 'Z' }

  /** Lower-casing of one character, for the Latin capital letters A-Z. */
  function LowerChar(c: char): char
  {
    if IsUpper(c) then (c as int + 32) as char else c
  }

  function Lower(s: string): (r: string)
    ensures |r| == |s|
    ensures forall i :: 0 <= i < |r| ==> !IsUpper(r[i])
    ensures forall i :: 0 <= i < |s| && !IsUpper(s[i]) ==> r[i] == s[i]
  {
    seq(|s|, i requires 0 <= i < |s| => LowerChar(s[i]))
  }

  /** Each capital A-Z becomes the small letter in the same place of the
      alphabet. */
  lemma LowerCapitals(s: string)
    ensures forall i :: 0 <= i < |s| && IsUpper(s[i]) ==>
              Lower(s)[i] as int == s[i] as int - 'A' as int + 'a' as int
  {
  }

  /** The characters `trim` strips: the ECMAScript WhiteSpace set (tab,
      vertical tab, form feed, no-break space, byte-order mark and every space
      separator) and the LineTerminator set (LF, CR, U+2028, U+2029). */
  predicate IsWhitespace(c: char)
  {
    c == '\t' || c == '\n' || c == '\U{000B}' || c == '\U{000C}' || c == '\r' ||
    c == ' ' || c == '\U{00A0}' || c == '\U{1680}' || ('\U{2000}' <= c <= '\U{200A}') ||
    c == '\U{2028}' || c == '\U{2029}' || c == '\U{202F}' || c == '\U{205F}' ||
    c == '\U{3000}' || c == '\U{FEFF}'
  }

  /** True when every character of `s` is whitespace (the empty string too). */
  predicate IsBlank(s: string)
  {
    forall i :: 0 <= i < |s| ==> IsWhitespace(s[i])
  }

  function TrimStart(s: string): (r: string)
    ensures |r| <= |s| && r == s[|s| - |r|..]
    ensures r == [] || !IsWhitespace(r[0])
    ensures IsBlank(s[..|s| - |r|])
  {
    if |s| == 0 || !IsWhitespace(s[0]) then s
    else
      var r := TrimStart(s[1..]);
      assert s[1..][..|s| - 1 - |r|] == s[1..|s| - |r|];
      r
  }

  function TrimEnd(s: string): (r: string)
    ensures |r| <= |s| && r == s[..|r|]
    ensures r == [] || !IsWhitespace(r[|r| - 1])
    ensures IsBlank(s[|r|..])
  {
    if |s| == 0 || !IsWhitespace(s[|s| - 1]) then s
    else
      var r := TrimEnd(s[..|s| - 1]);
      assert s[..|s| - 1][|r|..] == s[|r|..|s| - 1];
      r
  }

  /** `String.prototype.trim`. */
  function Trim(s: string): (r: string)
    ensures |r| <= |s|
    ensures r == [] || (!IsWhitespace(r[0]) && !IsWhitespace(r[|r| - 1]))
  {
    TrimEnd(TrimStart(s))
  }

  /** `trim` returns the stretch of `s` that starts where the leading
      whitespace ends. */
  lemma TrimIsSpan(s: string)
    ensures var r := Trim(s);
            var a := |s| - |TrimStart(s)|;
            a + |r| <= |s| && r == s[a..a + |r|]
  {
    TrimEndOfSuffix(s, TrimStart(s));
  }

  /** `trimEnd` of a suffix `t` of `s` is a slice of `s` starting where `t` does. */
  lemma TrimEndOfSuffix(s: string, t: string)
    requires |t| <= |s| && t == s[|s| - |t|..]
    ensures var r := TrimEnd(t);
            var a := |s| - |t|;
            a + |r| <= |s| && r == s[a..a + |r|]
  {
    PrefixOfSuffix(s, t, TrimEnd(t));
  }

  /** What `trim` drops, before and after the text it keeps, is whitespace. */
  lemma TrimDropsWhitespace(s: string)
    ensures var r := Trim(s);
            var a := |s| - |TrimStart(s)|;
            a + |r| <= |s| && IsBlank(s[..a]) && IsBlank(s[a + |r|..])
  {
    PrefixOfSuffix(s, TrimStart(s), Trim(s));
  }

  /** A prefix `r` of a suffix `t` of `s` is the slice of `s` where `t`
      starts, and what follows `r` in `t` is what follows it in `s`. */
  lemma PrefixOfSuffix(s: string, t: string, r: string)
    requires |t| <= |s| && t == s[|s| - |t|..]
    requires |r| <= |t| && r == t[..|r|]
    ensures var a := |s| - |t|;
            && a + |r| <= |s|
            && r == s[a..a + |r|]
            && t[|r|..] == s[a + |r|..]
  {
  }

  /** `trim` yields the empty string exactly when the string is blank. */
  lemma TrimEmptyIffBlank(s: string)
    ensures Trim(s) == "" <==> IsBlank(s)
  {
    var t := TrimStart(s);
    if Trim(s) == "" {
      assert IsBlank(t[0..]);
      assert |t| == 0;
      forall i | 0 <= i < |s| ensures IsWhitespace(s[i]) {
        assert s[i] == s[..|s| - |t|][i];
      }
    } else {
      var r := Trim(s);
      assert t == t[..|r|] + t[|r|..];
      assert !IsWhitespace(t[0]);
      assert t[0] == s[|s| - |t|];
    }
  }

  /** Text appended to a non-blank string leaves it non-blank. */
  lemma NotBlankExtended(a: string, b: string, c: string)
    requires !IsBlank(a)
    ensures !IsBlank(a + b + c)
  {
    var i :| 0 <= i < |a| && !IsWhitespace(a[i]);
    assert (a + b + c)[i] == a[i];
  }

  /** `split(c).pop()`: the text after the last `c`, or all of `s` when it
      has no `c`. */
  function AfterLast(s: string, c: char): (r: string)
    ensures |r| <= |s| && r == s[|s| - |r|..]
    ensures c !in r
    ensures |r| < |s| ==> s[|s| - |r| - 1] == c
  {
    if |s| == 0 || s[|s| - 1] == c then []
    else
      var r := AfterLast(s[..|s| - 1], c);
      assert s[..|s| - 1][|s| - 1 - |r|..] == s[|s| - 1 - |r|..|s| - 1];
      r + [s[|s| - 1]]
  }

  /** With `c` at position `i` and nowhere after it, what follows the last
      `c` is exactly what follows position `i`. */
  lemma AfterLastAt(s: string, c: char, i: nat)
    requires i < |s| && s[i] == c && c !in s[i + 1..]
    ensures AfterLast(s, c) == s[i + 1..]
  {
  }

  lemma {:induction false} LowerAfterLast(s: string)
    ensures AfterLast(Lower(s), '.') == Lower(AfterLast(s, '.'))
  {
    if |s| > 0 {
      var init, c := s[..|s| - 1], s[|s| - 1];
      assert s == init + [c];
      LowerSnoc(init, c);
      AfterLastSnoc(Lower(init), LowerChar(c), '.');
      AfterLastSnoc(init, c, '.');
      LowerAfterLast(init);
      LowerSnoc(AfterLast(init, '.'), c);
    }
  }

  /** Lower-casing a string with one more character. */
  lemma LowerSnoc(s: string, c: char)
    ensures Lower(s + [c]) == Lower(s) + [LowerChar(c)]
  {
  }

  /** The text after the last `d` of a string with one more character `c`. */
  lemma AfterLastSnoc(s: string, c: char, d: char)
    ensures AfterLast(s + [c], d) == if c == d then [] else AfterLast(s, d) + [c]
  {
    assert (s + [c])[..|s|] == s;
  }

  lemma LowerIdempotent(s: string)
    ensures Lower(Lower(s)) == Lower(s)
  {
  }

  /** `s.slice(i, i + pat.length) === pat`. */
  predicate OccursAt(s: string, pat: string, i: int)
  {
    0 <= i && i + |pat| <= |s| && s[i..i + |pat|] == pat
  }

  function IndexFrom(s: string, pat: string, from: nat): (r: int)
    requires from <= |s|
    ensures r == -1 || (from <= r && OccursAt(s, pat, r))
    ensures forall j :: from <= j && (r == -1 || j < r) ==> !OccursAt(s, pat, j)
    decreases |s| - from
  {
    if OccursAt(s, pat, from) then from
    else if from == |s| then -1
    else IndexFrom(s, pat, from + 1)
  }

  /** `s.indexOf(pat)`: the first position where `pat` occurs, or -1. */
  function IndexOf(s: string, pat: string): (r: int)
    ensures r == -1 || OccursAt(s, pat, r)
    ensures forall j :: 0 <= j && (r == -1 || j < r) ==> !OccursAt(s, pat, j)
  {
    IndexFrom(s, pat, 0)
  }

  /** At an occurrence, the rest of the string starts with the pattern. */
  lemma SplitAtOccurrence(s: string, pat: string, i: int)
    requires OccursAt(s, pat, i)
    ensures s[i..] == pat + s[i + |pat|..]
  {
    assert s[i..] == s[i..i + |pat|] + s[i + |pat|..];
  }

  /** `s.includes(pat)`. */
  predicate Includes(s: string, pat: string)
    ensures Includes(s, pat) <==> exists i :: OccursAt(s, pat, i)
  {
    IndexOf(s, pat) >= 0
  }

  /** Searching for a one-character string is a membership test. */
  lemma IncludesChar(s: string, c: char)
    ensures Includes(s, [c]) <==> c in s
  {
    assert forall i :: OccursAt(s, [c], i) <==> 0 <= i < |s| && s[i] == c;
  }

  /** `parts.join(sep)`. */
  function Join(parts: seq<string>, sep: string): string
  {
    if |parts| == 0 then ""
    else if |parts| == 1 then parts[0]
    else parts[0] + sep + Join(parts[1..], sep)
  }

  /** A join contains no character that neither the parts nor the separator
      contain. */
  lemma {:induction false} JoinAvoids(parts: seq<string>, sep: string, c: char)
    requires forall i :: 0 <= i < |parts| ==> c !in parts[i]
    requires c !in sep
    ensures c !in Join(parts, sep)
  {
    if |parts| > 1 {
      JoinAvoids(parts[1..], sep, c);
    }
  }

  /** The replacement text that `replace` with a string pattern produces
      (GetSubstitution of the ECMAScript standard, with no capture groups):
      `$$` gives `$`, `$&` the matched text, `` $` `` the text before the
      match, `$'` the text after it; any other `$` stays as it is. */
  function Substitution(rep: string, matched: string, before: string, after: string): string
  {
    if |rep| == 0 then ""
    else if rep[0] == '$' && |rep| >= 2 && rep[1] == '$' then
      "$" + Substitution(rep[2..], matched, before, after)
    else if rep[0] == '$' && |rep| >= 2 && rep[1] == '&' then
      matched + Substitution(rep[2..], matched, before, after)
    else if rep[0] == '$' && |rep| >= 2 && rep[1] == '`' then
      before + Substitution(rep[2..], matched, before, after)
    else if rep[0] == '$' && |rep| >= 2 && rep[1] == '\'' then
      after + Substitution(rep[2..], matched, before, after)
    else [rep[0]] + Substitution(rep[1..], matched, before, after)
  }

  /** A replacement text without `$` is inserted literally. */
  lemma {:induction false} SubstitutionLiteral(rep: string, matched: string, before: string, after: string)
    requires '$' !in rep
    ensures Substitution(rep, matched, before, after) == rep
  {
    if |rep| > 0 {
      assert rep[0] != '$';
      assert forall c :: c in rep[1..] ==> c in rep;
      SubstitutionLiteral(rep[1..], matched, before, after);
    }
  }

  /** `s.replace(pat, rep)` with a string pattern: only the first occurrence
      is replaced, and `s` is returned unchanged when there is none. */
  function ReplaceFirst(s: string, pat: string, rep: string): (r: string)
    ensures !Includes(s, pat) ==> r == s
    ensures Includes(s, pat) ==> s[..IndexOf(s, pat)] <= r
  {
    var i := IndexOf(s, pat);
    if i < 0 then s
    else s[..i] + Substitution(rep, pat, s[..i], s[i + |pat|..]) + s[i + |pat|..]
  }

  /** Whatever the replacement text, `replace` keeps everything after the
      first occurrence of `pat` as the end of the result. */
  lemma ReplaceFirstKeepsRest(s: string, pat: string, rep: string)
    requires Includes(s, pat)
    ensures var i := IndexOf(s, pat);
            var r := ReplaceFirst(s, pat, rep);
            var k := |s| - i - |pat|;
            0 <= k <= |r| && r[|r| - k..] == s[i + |pat|..]
  {
  }

  /** When `pat` occurs and `rep` has no `$`, `replace` splices `rep` in
      place of the first occurrence of `pat`. */
  lemma ReplaceFirstSplices(s: string, pat: string, rep: string)
    requires '$' !in rep
    requires Includes(s, pat)
    ensures var i := IndexOf(s, pat);
            ReplaceFirst(s, pat, rep) == s[..i] + rep + s[i + |pat|..]
  {
    var i := IndexOf(s, pat);
    SubstitutionLiteral(rep, pat, s[..i], s[i + |pat|..]);
  }
}
