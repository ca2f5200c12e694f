/**
 * The string operations the source relies on, as Python defines them:
 * `str.strip()`, `str.split(sep)`, `sep.join(parts)`, and an ASCII
 * approximation of Django's `slugify`.
 */
module Text {

  /** Characters for which Python's `str.isspace()` holds; `str.strip()` with
      no argument removes exactly these. */
  predicate IsSpace(c: char) {
    ('\t' <= c <= '\r') || ('\U{1C}' <= c <= ' ') || c == '\U{85}' || c == '\U{A0}'
    || c == '\U{1680}' || ('\U{2000}' <= c <= '\U{200A}') || c == '\U{2028}' || c == '\U{2029}'
    || c == '\U{202F}' || c == '\U{205F}' || c == '\U{3000}'
  }

  predicate AllSpace(s: string) {
    forall i :: 0 <= i < |s| ==> IsSpace(s[i])
  }

  /** One more leading blank is one more dropped character. */
  lemma DropLeadingSpace(s: string, r: string)
    requires s != [] && IsSpace(s[0])
    requires var t := s[1..]; |r| <= |t| && r == t[|t| - |r|..] && AllSpace(t[..|t| - |r|])
    ensures |r| <= |s| && r == s[|s| - |r|..] && AllSpace(s[..|s| - |r|])
  {
    var t := s[1..];
    assert s[|s| - |r|..] == t[|t| - |r|..];
    assert s[..|s| - |r|] == [s[0]] + t[..|t| - |r|];
    AllSpaceCons(s[0], t[..|t| - |r|]);
  }

  /** One more trailing blank is one more dropped character. */
  lemma DropTrailingSpace(s: string, r: string)
    requires s != [] && IsSpace(s[|s| - 1])
    requires var t := s[..|s| - 1]; |r| <= |t| && r == t[..|r|] && AllSpace(t[|r|..])
    ensures |r| <= |s| && r == s[..|r|] && AllSpace(s[|r|..])
  {
    var t := s[..|s| - 1];
    assert s[..|r|] == t[..|r|];
    assert s[|r|..] == t[|r|..] + [s[|s| - 1]];
    AllSpaceSnoc(t[|r|..], s[|s| - 1]);
  }

  lemma AllSpaceCons(c: char, s: string)
    requires IsSpace(c) && AllSpace(s)
    ensures AllSpace([c] + s)
  {
    forall i | 0 <= i < |[c] + s| ensures IsSpace(([c] + s)[i]) {
      if i > 0 {
        assert ([c] + s)[i] == s[i - 1];
      }
    }
  }

  lemma AllSpaceSnoc(s: string, c: char)
    requires AllSpace(s) && IsSpace(c)
    ensures AllSpace(s + [c])
  {
    forall i | 0 <= i < |s + [c]| ensures IsSpace((s + [c])[i]) {
      if i < |s| {
        assert (s + [c])[i] == s[i];
      }
    }
  }

  /** A string with no leading and no trailing whitespace. */
  predicate Stripped(s: string) {
    s == [] || (!IsSpace(s[0]) && !IsSpace(s[|s| - 1]))
  }

  /** `s.lstrip()`: the suffix left after dropping leading whitespace. */
  function TrimLeft(s: string): (r: string)
    ensures |r| <= |s| && r == s[|s| - |r|..]
    ensures AllSpace(s[..|s| - |r|])
    ensures r == [] || !IsSpace(r[0])
  {
    if s != [] && IsSpace(s[0]) then
      var r := TrimLeft(s[1..]);
      DropLeadingSpace(s, r);
      r
    else s
  }

  /** `s.rstrip()`: the prefix left after dropping trailing whitespace. */
  function TrimRight(s: string): (r: string)
    ensures |r| <= |s| && r == s[..|r|]
    ensures AllSpace(s[|r|..])
    ensures r == [] || !IsSpace(r[|r| - 1])
  {
    if s != [] && IsSpace(s[|s| - 1]) then
      var r := TrimRight(s[..|s| - 1]);
      DropTrailingSpace(s, r);
      r
    else s
  }

  /** `r` is what is left of `s` once a whitespace prefix and a whitespace
      suffix are cut off. */
  predicate SliceBetweenSpaces(s: string, r: string) {
    exists i, j :: 0 <= i <= j <= |s| && r == s[i..j] && AllSpace(s[..i]) && AllSpace(s[j..])
  }

  lemma TrimBothSlice(s: string)
    ensures SliceBetweenSpaces(s, TrimRight(TrimLeft(s)))
  {
    var l := TrimLeft(s);
    var r := TrimRight(l);
    var i := |s| - |l|;
    var j := i + |r|;
    assert l == s[i..];
    assert AllSpace(s[..i]);
    assert r == s[i..j] by {
      forall k | 0 <= k < |r| ensures r[k] == s[i + k] {
        assert r[k] == l[k];
      }
    }
    assert AllSpace(s[j..]) by {
      forall k | 0 <= k < |s| - j ensures IsSpace(s[j..][k]) {
        assert s[j..][k] == l[|r|..][k];
      }
    }
    assert 0 <= i <= j <= |s| && r == s[i..j] && AllSpace(s[..i]) && AllSpace(s[j..]);
  }

  /** `s.strip()`. */
  function Strip(s: string): (r: string)
    ensures Stripped(r)
    ensures forall c :: c in r ==> c in s
    ensures r == [] <==> AllSpace(s)
    ensures Stripped(s) ==> r == s
    ensures SliceBetweenSpaces(s, r)
  {
    var l := TrimLeft(s);
    var r := TrimRight(l);
    TrimBothSlice(s);
    assert forall c :: c in r ==> c in l;
    assert r == [] ==> AllSpace(s) by {
      if r == [] {
        assert l[|r|..] == l;
        assert l == [];
        assert s[..|s|] == s;
      }
    }
    assert Stripped(s) ==> r == s by {
      if Stripped(s) && s != [] {
        assert l == s;
        assert r == l;
      }
    }
    r
  }

  /** A character that is not whitespace lies between a whitespace prefix and
      a whitespace suffix. */
  lemma NonSpaceInMiddle(s: string, i: int, j: int, c: char)
    requires 0 <= i <= j <= |s| && AllSpace(s[..i]) && AllSpace(s[j..])
    requires c in s && !IsSpace(c)
    ensures c in s[i..j]
  {
    var p :| 0 <= p < |s| && s[p] == c;
    assert forall q :: 0 <= q < i ==> IsSpace(s[q]) by {
      forall q | 0 <= q < i ensures IsSpace(s[q]) {
        assert s[..i][q] == s[q];
      }
    }
    assert forall q :: j <= q < |s| ==> IsSpace(s[q]) by {
      forall q | j <= q < |s| ensures IsSpace(s[q]) {
        assert s[j..][q - j] == s[q];
      }
    }
    assert i <= p < j;
    assert s[i..j][p - i] == c;
  }

  /** A character that is not whitespace survives stripping. */
  lemma NonSpaceSurvivesStrip(s: string, c: char)
    requires !IsSpace(c)
    ensures c in s ==> c in Strip(s)
  {
    if c in s {
      assert SliceBetweenSpaces(s, Strip(s));
      var i, j :| 0 <= i <= j <= |s| && Strip(s) == s[i..j] && AllSpace(s[..i]) && AllSpace(s[j..]);
      NonSpaceInMiddle(s, i, j, c);
    }
  }

  lemma StripLeadingSpace(c: char, s: string)
    requires IsSpace(c)
    ensures Strip([c] + s) == Strip(s)
  {
    assert ([c] + s)[1..] == s;
  }

  /** Number of occurrences of `c` in `s`. */
  function Count(s: string, c: char): nat {
    if s == [] then 0 else (if s[0] == c then 1 else 0) + Count(s[1..], c)
  }

  /** `s.split(sep)` for a one-character separator: always at least one piece,
      and no piece contains the separator. */
  function Split(s: string, sep: char): (r: seq<string>)
    ensures |r| == Count(s, sep) + 1
    ensures forall i :: 0 <= i < |r| ==> sep !in r[i]
  {
    if s == [] then [[]]
    else if s[0] == sep then [[]] + Split(s[1..], sep)
    else
      var t := Split(s[1..], sep);
      assert sep !in t[0];
      [[s[0]] + t[0]] + t[1..]
  }

  /** `delim.join(parts)`. */
  function Join(parts: seq<string>, delim: string): string {
    if parts == [] then []
    else if |parts| == 1 then parts[0]
    else parts[0] + delim + Join(parts[1..], delim)
  }

  /** Splitting and re-joining with the same separator gives back the input. */
  lemma {:induction false} JoinSplit(s: string, sep: char)
    ensures Join(Split(s, sep), [sep]) == s
  {
    if s == [] {
    } else {
      var t := Split(s[1..], sep);
      var u := Split(s, sep);
      JoinSplit(s[1..], sep);
      assert Join(t, [sep]) == s[1..];
      if s[0] == sep {
        assert u == [[]] + t;
        assert u[1..] == t;
        assert Join(u, [sep]) == [] + [sep] + Join(t, [sep]);
        assert s == [sep] + s[1..];
      } else {
        assert u == [[s[0]] + t[0]] + t[1..];
        if |t| == 1 {
          assert Join(u, [sep]) == [s[0]] + t[0];
        } else {
          assert u[1..] == t[1..];
          assert Join(u, [sep]) == [s[0]] + t[0] + [sep] + Join(t[1..], [sep]);
          assert Join(t, [sep]) == t[0] + [sep] + Join(t[1..], [sep]);
        }
        assert s == [s[0]] + s[1..];
      }
    }
  }

  /** A piece free of the separator followed by the separator splits off as the first piece. */
  lemma {:induction false} SplitAfterPiece(x: string, y: string, sep: char)
    requires sep !in x
    ensures Split(x + [sep] + y, sep) == [x] + Split(y, sep)
  {
    if x == [] {
      assert x + [sep] + y == [sep] + y;
      assert ([sep] + y)[1..] == y;
    } else {
      var s := x + [sep] + y;
      assert s[0] == x[0] && s[1..] == x[1..] + [sep] + y;
      SplitAfterPiece(x[1..], y, sep);
      assert [x[0]] + x[1..] == x;
    }
  }

  /** A leading non-separator character joins the first piece. */
  lemma SplitCons(c: char, y: string, sep: char)
    requires c != sep
    ensures Split([c] + y, sep) == [[c] + Split(y, sep)[0]] + Split(y, sep)[1..]
  {
    assert ([c] + y)[1..] == y;
  }

  // ---------------------------------------------------------------------------
  // Slugs (django.utils.text.slugify, ASCII approximation)
  // ---------------------------------------------------------------------------

  /** Whitespace as Python's `re` module matches `\s`, restricted to ASCII. */
  predicate IsAsciiSpace(c: char) {
    ('\t' <= c <= '\r') || ('\U{1C}' <= c <= ' ')
  }

  function ToLower(c: char): char {
    if 'A' <= c <= 'Z' then (c as int + 32) as char else c
  }

  /** The characters a slug may contain. */
  predicate IsSlugChar(c: char) {
    ('a' <= c <= 'z') || ('0' <= c <= '9') || c == '_' || c == '-'
  }

  predicate IsSlugSeparator(c: char) {
    c == '-' || IsAsciiSpace(c)
  }

  predicate IsAsciiAlnum(c: char) {
    ('a' <= c <= 'z') || ('A' <= c <= 'Z') || ('0' <= c <= '9')
  }

  /** The ASCII letters and digits of `s`, lower-cased, in order: what a slug
      keeps of a name besides its separators. */
  function AlnumKey(s: string): string {
    if s == [] then [] else (if IsAsciiAlnum(s[0]) then [ToLower(s[0])] else []) + AlnumKey(s[1..])
  }

  /** One character in front adds its key, if any, in front. */
  lemma AlnumKeyCons(c: char, t: string)
    ensures AlnumKey([c] + t) == (if IsAsciiAlnum(c) then [ToLower(c)] else []) + AlnumKey(t)
  {
    assert ([c] + t)[0] == c && ([c] + t)[1..] == t;
  }

  lemma {:induction false} AlnumKeyAppend(a: string, b: string)
    ensures AlnumKey(a + b) == AlnumKey(a) + AlnumKey(b)
  {
    if a != [] {
      var head := if IsAsciiAlnum(a[0]) then [ToLower(a[0])] else [];
      assert (a + b)[0] == a[0] && (a + b)[1..] == a[1..] + b;
      AlnumKeyAppend(a[1..], b);
      assert AlnumKey(a + b) == head + AlnumKey(a[1..] + b);
      assert AlnumKey(a) == head + AlnumKey(a[1..]);
    } else {
      assert a + b == b;
    }
  }

  /** Dropping the last character, which is no letter or digit, keeps the key. */
  lemma AlnumKeyDropLast(s: string)
    requires s != [] && !IsAsciiAlnum(s[|s| - 1])
    ensures AlnumKey(s[..|s| - 1]) == AlnumKey(s)
  {
    assert s == s[..|s| - 1] + [s[|s| - 1]];
    AlnumKeyAppend(s[..|s| - 1], [s[|s| - 1]]);
  }

  /** No two hyphens in a row. */
  predicate NoDoubleDash(s: string) {
    forall i :: 0 <= i < |s| - 1 ==> !(s[i] == '-' && s[i + 1] == '-')
  }

  lemma NoDoubleDashCons(c: char, t: string)
    requires NoDoubleDash(t)
    requires c == '-' ==> t == [] || t[0] != '-'
    ensures NoDoubleDash([c] + t)
  {
    forall i | 0 <= i < |[c] + t| - 1 ensures !(([c] + t)[i] == '-' && ([c] + t)[i + 1] == '-') {
      if i > 0 {
        assert ([c] + t)[i] == t[i - 1] && ([c] + t)[i + 1] == t[i];
      }
    }
  }

  /** Lower-cases ASCII and drops every character that is not a word
      character, whitespace or a hyphen. Non-ASCII characters are dropped
      (the library first folds them to ASCII; that folding is not modelled). */
  function KeepSlugSource(s: string): (r: string)
    ensures forall c :: c in r ==> IsSlugChar(c) || IsAsciiSpace(c)
  {
    if s == [] then []
    else
      var l := ToLower(s[0]);
      if IsSlugChar(l) || IsAsciiSpace(l) then [l] + KeepSlugSource(s[1..])
      else KeepSlugSource(s[1..])
  }

  /** Every ASCII letter and digit survives, lower-cased and in order. */
  lemma {:induction false} KeepSlugSourceKey(s: string)
    ensures AlnumKey(KeepSlugSource(s)) == AlnumKey(s)
  {
    if s != [] {
      var l := ToLower(s[0]);
      var rest := KeepSlugSource(s[1..]);
      KeepSlugSourceKey(s[1..]);
      assert IsAsciiAlnum(l) == IsAsciiAlnum(s[0]) && ToLower(l) == l;
      if IsSlugChar(l) || IsAsciiSpace(l) {
        AlnumKeyCons(l, rest);
      } else {
        assert !IsAsciiAlnum(s[0]);
      }
    }
  }

  /** A string of slug characters is its own slug source. */
  lemma {:induction false} KeepSlugSourceOfSlug(s: string)
    requires forall c :: c in s ==> IsSlugChar(c)
    ensures KeepSlugSource(s) == s
  {
    if s != [] {
      assert s[0] in s;
      assert forall c :: c in s[1..] ==> c in s;
      KeepSlugSourceOfSlug(s[1..]);
      assert s == [s[0]] + s[1..];
    }
  }

  /** Drops leading separators. */
  function DropSeparators(s: string): (r: string)
    ensures |r| <= |s| && r == s[|s| - |r|..]
    ensures r == [] || !IsSlugSeparator(r[0])
  {
    if s != [] && IsSlugSeparator(s[0]) then DropSeparators(s[1..]) else s
  }

  /** Separators are no letters or digits. */
  lemma {:induction false} DropSeparatorsKey(s: string)
    ensures AlnumKey(DropSeparators(s)) == AlnumKey(s)
  {
    if s != [] && IsSlugSeparator(s[0]) {
      assert DropSeparators(s) == DropSeparators(s[1..]);
      DropSeparatorsKey(s[1..]);
      assert !IsAsciiAlnum(s[0]);
      assert AlnumKey(s) == AlnumKey(s[1..]);
    } else {
      assert DropSeparators(s) == s;
    }
  }

  /** Replaces each run of hyphens and whitespace by one hyphen. */
  function CollapseSeparators(s: string): (r: string)
    requires forall c :: c in s ==> IsSlugChar(c) || IsAsciiSpace(c)
    ensures forall c :: c in r ==> IsSlugChar(c)
    decreases |s|
  {
    if s == [] then []
    else if IsSlugSeparator(s[0]) then
      var rest := DropSeparators(s[1..]);
      assert forall c :: c in rest ==> c in s;
      ['-'] + CollapseSeparators(rest)
    else
      assert forall c :: c in s[1..] ==> c in s;
      [s[0]] + CollapseSeparators(s[1..])
  }

  /** Collapsing keeps every letter and digit, in order. */
  lemma {:induction false} CollapseSeparatorsKey(s: string)
    requires forall c :: c in s ==> IsSlugChar(c) || IsAsciiSpace(c)
    ensures AlnumKey(CollapseSeparators(s)) == AlnumKey(s)
    decreases |s|
  {
    if s != [] {
      if IsSlugSeparator(s[0]) {
        var rest := DropSeparators(s[1..]);
        assert forall c :: c in rest ==> c in s;
        assert CollapseSeparators(s) == ['-'] + CollapseSeparators(rest);
        CollapseSeparatorsKey(rest);
        DropSeparatorsKey(s[1..]);
        AlnumKeyCons('-', CollapseSeparators(rest));
        assert !IsAsciiAlnum(s[0]);
        assert AlnumKey(s) == AlnumKey(s[1..]);
      } else {
        assert forall c :: c in s[1..] ==> c in s;
        assert CollapseSeparators(s) == [s[0]] + CollapseSeparators(s[1..]);
        CollapseSeparatorsKey(s[1..]);
        AlnumKeyCons(s[0], CollapseSeparators(s[1..]));
      }
    }
  }

  /** Collapsing leaves no two hyphens in a row and keeps a leading
      non-separator first. */
  lemma {:induction false} CollapseSeparatorsShape(s: string)
    requires forall c :: c in s ==> IsSlugChar(c) || IsAsciiSpace(c)
    ensures NoDoubleDash(CollapseSeparators(s))
    ensures s != [] && !IsSlugSeparator(s[0]) ==> CollapseSeparators(s) != [] && CollapseSeparators(s)[0] == s[0]
    decreases |s|
  {
    if s != [] {
      if IsSlugSeparator(s[0]) {
        var rest := DropSeparators(s[1..]);
        assert forall c :: c in rest ==> c in s;
        CollapseSeparatorsShape(rest);
        NoDoubleDashCons('-', CollapseSeparators(rest));
      } else {
        assert forall c :: c in s[1..] ==> c in s;
        CollapseSeparatorsShape(s[1..]);
        NoDoubleDashCons(s[0], CollapseSeparators(s[1..]));
      }
    }
  }

  /** A string of slug characters without doubled hyphens that follows a
      hyphen has no leading separator to drop. */
  lemma DropSeparatorsAfterDash(s: string)
    requires forall c :: c in s ==> IsSlugChar(c)
    requires NoDoubleDash(s) && s != [] && s[0] == '-'
    ensures DropSeparators(s[1..]) == s[1..]
  {
    if |s| > 1 {
      assert s[1] in s && !(s[0] == '-' && s[1] == '-');
      assert s[1..][0] == s[1] && !IsSlugSeparator(s[1]);
    }
  }

  lemma SlugTail(s: string)
    requires forall c :: c in s ==> IsSlugChar(c)
    requires NoDoubleDash(s) && s != []
    ensures forall c :: c in s[1..] ==> IsSlugChar(c)
    ensures NoDoubleDash(s[1..])
  {
    assert forall c :: c in s[1..] ==> c in s;
    NoDoubleDashSlice(s, 1, |s|);
  }

  /** Collapsing a string of slug characters without doubled hyphens changes nothing. */
  lemma {:induction false} CollapseSeparatorsOfSlug(s: string)
    requires forall c :: c in s ==> IsSlugChar(c)
    requires NoDoubleDash(s)
    ensures CollapseSeparators(s) == s
  {
    if s != [] {
      var tail := s[1..];
      SlugTail(s);
      CollapseSeparatorsOfSlug(tail);
      assert s[0] in s;
      if IsSlugSeparator(s[0]) {
        DropSeparatorsAfterDash(s);
        assert CollapseSeparators(s) == ['-'] + CollapseSeparators(tail);
      } else {
        assert CollapseSeparators(s) == [s[0]] + CollapseSeparators(tail);
      }
      assert s == [s[0]] + tail;
    }
  }

  predicate IsDashOrUnderscore(c: char) {
    c == '-' || c == '_'
  }

  /** A slice of a string without doubled hyphens has none either. */
  lemma NoDoubleDashSlice(s: string, i: int, j: int)
    requires 0 <= i <= j <= |s|
    ensures NoDoubleDash(s) ==> NoDoubleDash(s[i..j])
  {
    if NoDoubleDash(s) {
      var t := s[i..j];
      forall k | 0 <= k < |t| - 1 ensures !(t[k] == '-' && t[k + 1] == '-') {
        assert t[k] == s[i + k] && t[k + 1] == s[i + k + 1];
      }
    }
  }

  /** `s.strip("-_")`. */
  function StripDashUnderscore(s: string): (r: string)
    ensures forall c :: c in r ==> c in s
    ensures r == [] || (!IsDashOrUnderscore(r[0]) && !IsDashOrUnderscore(r[|r| - 1]))
  {
    if s != [] && IsDashOrUnderscore(s[0]) then StripDashUnderscore(s[1..])
    else if s != [] && IsDashOrUnderscore(s[|s| - 1]) then StripDashUnderscore(s[..|s| - 1])
    else s
  }

  /** Stripping hyphens and underscores loses no letter or digit and adds no
      doubled hyphen. */
  lemma {:induction false} StripDashUnderscoreKeeps(s: string)
    ensures AlnumKey(StripDashUnderscore(s)) == AlnumKey(s)
    ensures NoDoubleDash(s) ==> NoDoubleDash(StripDashUnderscore(s))
  {
    if s != [] && IsDashOrUnderscore(s[0]) {
      StripDashUnderscoreKeeps(s[1..]);
      NoDoubleDashSlice(s, 1, |s|);
      assert !IsAsciiAlnum(s[0]);
    } else if s != [] && IsDashOrUnderscore(s[|s| - 1]) {
      StripDashUnderscoreKeeps(s[..|s| - 1]);
      NoDoubleDashSlice(s, 0, |s| - 1);
      AlnumKeyDropLast(s);
    }
  }

  /** The slug of `name`: lower-case letters, digits, `_` and `-`, never
      starting or ending with `-` or `_`, with no two hyphens in a row; its
      letters and digits are exactly those of `name`, lower-cased, in order. */
  function Slugify(name: string): (r: string)
    ensures forall c :: c in r ==> IsSlugChar(c)
    ensures r == [] || (!IsDashOrUnderscore(r[0]) && !IsDashOrUnderscore(r[|r| - 1]))
    ensures NoDoubleDash(r)
    ensures AlnumKey(r) == AlnumKey(name)
  {
    var kept := KeepSlugSource(name);
    KeepSlugSourceKey(name);
    var collapsed := CollapseSeparators(kept);
    CollapseSeparatorsKey(kept);
    CollapseSeparatorsShape(kept);
    StripDashUnderscoreKeeps(collapsed);
    StripDashUnderscore(collapsed)
  }

  /** A slug is its own slug. */
  lemma SlugifyIdempotent(name: string)
    ensures Slugify(Slugify(name)) == Slugify(name)
  {
    var r := Slugify(name);
    KeepSlugSourceOfSlug(r);
    CollapseSeparatorsOfSlug(r);
    assert StripDashUnderscore(r) == r;
    assert Slugify(r) == StripDashUnderscore(CollapseSeparators(KeepSlugSource(r)));
  }
}
