/**
 The PHP string builtins the renamer relies on (`strtoupper`, `ucwords` with
 the `'_'` delimiter, `str_replace('_', '', ...)` and `lcfirst`), over strings
 as sequences of characters. Case mapping is the locale-independent ASCII one:
 only 'a'..'z' and 'A'..'Z' change case, every other character is left alone.
 */
module PhpStrings {

  /** The one delimiter the renamer passes to `ucwords` and `str_replace`. */
  const Underscore: char := '_'

  predicate IsLowerAscii(c: char) {
    'a' <= c <= 'z'
  }

  predicate IsUpperAscii(c: char) {
    'A' <= c <= 'Z'
  }

  /** ASCII `toupper` on one character. */
  function ToUpperAscii(c: char): (u: char)
    ensures !IsLowerAscii(u)
    ensures IsUpperAscii(u) <==> IsLowerAscii(c) || IsUpperAscii(c)
    ensures u == Underscore <==> c == Underscore
  {
    if IsLowerAscii(c) then (c as int - 32) as char else c
  }

  /** ASCII `tolower` on one character. */
  function ToLowerAscii(c: char): (l: char)
    ensures !IsUpperAscii(l)
    ensures IsLowerAscii(l) <==> IsLowerAscii(c) || IsUpperAscii(c)
    ensures l == Underscore <==> c == Underscore
  {
    if IsUpperAscii(c) then (c as int + 32) as char else c
  }

  /** Lower-casing forgets whether the character had been upper-cased first. */
  lemma {:induction false} LowerOfUpper(c: char)
    ensures ToLowerAscii(ToUpperAscii(c)) == ToLowerAscii(c)
  {
  }

  /** Lower-casing is idempotent. */
  lemma {:induction false} LowerOfLower(c: char)
    ensures ToLowerAscii(ToLowerAscii(c)) == ToLowerAscii(c)
  {
  }

  /** True when `s` holds no ASCII lower-case letter. */
  predicate NoLower(s: string) {
    forall i :: 0 <= i < |s| ==> !IsLowerAscii(s[i])
  }

  /** PHP `strtoupper`. */
  function StrToUpper(s: string): (r: string)
    ensures |r| == |s|
    ensures NoLower(r)
    ensures forall i :: 0 <= i < |s| && IsLowerAscii(s[i]) ==> r[i] as int == s[i] as int - 32
    ensures forall i :: 0 <= i < |s| && !IsLowerAscii(s[i]) ==> r[i] == s[i]
  {
    seq(|s|, i requires 0 <= i < |s| => ToUpperAscii(s[i]))
  }

  /** `strtoupper(s) === s` holds exactly when `s` has no lower-case letter. */
  lemma {:induction false} StrToUpperFixedIff(s: string)
    ensures StrToUpper(s) == s <==> NoLower(s)
  {
    if NoLower(s) {
      forall i | 0 <= i < |s|
        ensures StrToUpper(s)[i] == s[i]
      {
      }
    }
  }

  /** PHP `ucwords(s, '_')`: the first character, and every character that
      follows an underscore, is upper-cased. */
  function UcWords(s: string): (r: string)
    ensures |r| == |s|
    ensures forall i :: 0 <= i < |s| ==> (r[i] == Underscore <==> s[i] == Underscore)
    ensures |s| > 0 ==> r[0] == ToUpperAscii(s[0])
    ensures forall i :: 0 < i < |s| && s[i - 1] == Underscore ==> r[i] == ToUpperAscii(s[i])
    ensures forall i :: 0 < i < |s| && s[i - 1] != Underscore ==> r[i] == s[i]
  {
    seq(|s|, i requires 0 <= i < |s| =>
      if i == 0 || s[i - 1] == Underscore then ToUpperAscii(s[i]) else s[i])
  }

  /** Number of underscores in `s`. */
  function CountUnderscores(s: string): (n: nat)
    ensures n <= |s|
  {
    if |s| == 0 then 0
    else CountUnderscores(s[..|s| - 1]) + (if s[|s| - 1] == Underscore then 1 else 0)
  }

  /** PHP `str_replace('_', '', s)`: deletes every underscore, keeping the
      other characters in order. */
  function StripUnderscores(s: string): (r: string)
    ensures Underscore !in r
    ensures |r| == |s| - CountUnderscores(s)
  {
    if |s| == 0 then []
    else
      StripUnderscores(s[..|s| - 1]) + (if s[|s| - 1] == Underscore then [] else [s[|s| - 1]])
  }

  /** PHP `lcfirst`: lower-cases the first character of a non-empty string. */
  function LcFirst(s: string): (r: string)
    ensures |r| == |s|
    ensures |s| > 0 ==> r[0] == ToLowerAscii(s[0]) && r[1..] == s[1..]
  {
    if |s| == 0 then s else [ToLowerAscii(s[0])] + s[1..]
  }

  /** A string without underscores is left as it is by `str_replace`. */
  lemma {:induction false} StripWithoutUnderscores(s: string)
    requires Underscore !in s
    ensures StripUnderscores(s) == s
  {
    if |s| > 0 {
      assert s[..|s| - 1] + [s[|s| - 1]] == s;
      StripWithoutUnderscores(s[..|s| - 1]);
    }
  }

  /** Two strings with underscores at the same positions have the same count. */
  lemma {:induction false} CountSamePattern(s: string, t: string)
    requires |s| == |t|
    requires forall i :: 0 <= i < |s| ==> (s[i] == Underscore <==> t[i] == Underscore)
    ensures CountUnderscores(s) == CountUnderscores(t)
  {
    if |s| > 0 {
      CountSamePattern(s[..|s| - 1], t[..|t| - 1]);
    }
  }

  /** A string whose count equals its length is all underscores. */
  lemma {:induction false} CountAllUnderscores(s: string)
    requires CountUnderscores(s) == |s|
    ensures forall i :: 0 <= i < |s| ==> s[i] == Underscore
  {
    if |s| > 0 {
      CountAllUnderscores(s[..|s| - 1]);
      assert forall i :: 0 <= i < |s| - 1 ==> s[i] == s[..|s| - 1][i];
    }
  }

  /** Every character that is not an underscore survives `str_replace`, moved
      left by the number of underscores before it. */
  lemma {:induction false} StripIndex(s: string, i: nat)
    requires i < |s| && s[i] != Underscore
    ensures CountUnderscores(s[..i]) <= i
    ensures i - CountUnderscores(s[..i]) < |StripUnderscores(s)|
    ensures StripUnderscores(s)[i - CountUnderscores(s[..i])] == s[i]
  {
    var p := s[..|s| - 1];
    var last := s[|s| - 1];
    assert StripUnderscores(s) ==
           StripUnderscores(p) + (if last == Underscore then [] else [last]);
    assert s[..i] == p[..i];
    if i == |s| - 1 {
      assert s[..i] == p;
    } else {
      StripIndex(p, i);
      assert p[i] == s[i];
    }
  }
}
