/**
 The naming policy of `CamelCaseVisitor::toCamelCase`: a name with no
 lower-case letter (a constant) and the one denylisted name are returned
 unchanged; every other name becomes
 `lcfirst(str_replace('_', '', ucwords(name, '_')))`.
 */
module CamelCase {
  import opened PhpStrings

  /** The single name the policy refuses to touch. */
  const Denylisted: string := "Root_Account_Data"

  /** The transformation applied to names that neither exception covers. */
  function CamelForm(name: string): (r: string)
    ensures Underscore !in r
    ensures |r| == |name| - CountUnderscores(name)
  {
    var u := UcWords(name);
    CountSamePattern(u, name);
    LcFirst(StripUnderscores(u))
  }

  function ToCamelCase(name: string): (r: string)
    ensures NoLower(name) ==> r == name
    ensures name == Denylisted ==> r == name
    ensures !NoLower(name) && name != Denylisted ==>
              Underscore !in r && |r| == |name| - CountUnderscores(name)
  {
    StrToUpperFixedIff(name);
    if StrToUpper(name) == name then name
    else if name == Denylisted then name
    else CamelForm(name)
  }

  /** The denylisted name holds an underscore, so no camel-case form equals it. */
  lemma {:induction false} DenylistedHasUnderscore()
    ensures Underscore in Denylisted
  {
    assert Denylisted[4] == Underscore;
  }

  /** Names outside both exceptions take the general branch. */
  lemma {:induction false} GeneralBranch(name: string)
    requires !NoLower(name) && name != Denylisted
    ensures ToCamelCase(name) == CamelForm(name)
  {
    StrToUpperFixedIff(name);
  }

  /** Which character of the camel-case form the `i`-th character of `name`
      becomes: the first kept character is lower-cased, a character right
      after an underscore is upper-cased, any other is kept as it is. */
  function CamelCharAt(name: string, i: nat): char
    requires i < |name|
  {
    if CountUnderscores(name[..i]) == i then ToLowerAscii(name[i])
    else if name[i - 1] == Underscore then ToUpperAscii(name[i])
    else name[i]
  }

  /** The `i`-th character of `name` appears in `r` at its position minus the
      number of underscores before it, transformed as `CamelCharAt` says. */
  predicate PlacedAt(name: string, r: string, i: nat)
    requires i < |name|
  {
    var k := i - CountUnderscores(name[..i]);
    0 <= k < |r| && r[k] == CamelCharAt(name, i)
  }

  /** In the general branch every non-underscore character of `name` lands in
      the result, shifted left past the underscores before it, lower-cased if
      it is the first kept character, upper-cased if it follows an underscore,
      and unchanged otherwise. */
  lemma {:induction false} CamelFormPointwise(name: string)
    requires !NoLower(name) && name != Denylisted
    ensures forall i :: 0 <= i < |name| && name[i] != Underscore ==>
              PlacedAt(name, ToCamelCase(name), i)
  {
    GeneralBranch(name);
    forall i | 0 <= i < |name| && name[i] != Underscore
      ensures PlacedAt(name, CamelForm(name), i)
    {
      CamelCharPlaced(name, i);
    }
  }

  /** One character of `CamelFormPointwise`. */
  lemma {:induction false} CamelCharPlaced(name: string, i: nat)
    requires i < |name| && name[i] != Underscore
    ensures CountUnderscores(name[..i]) <= i
    ensures i - CountUnderscores(name[..i]) < |CamelForm(name)|
    ensures CamelForm(name)[i - CountUnderscores(name[..i])] == CamelCharAt(name, i)
  {
    var u := UcWords(name);
    var m := StripUnderscores(u);
    var n := CountUnderscores(name[..i]);
    var k := i - n as int;
    StripUcWordsIndex(name, i);
    assert CamelForm(name) == LcFirst(m);
    if n == i {
      // every character before position i is an underscore
      CountAllUnderscores(name[..i]);
      if i > 0 {
        assert name[..i][i - 1] == Underscore;
      }
      assert u[i] == ToUpperAscii(name[i]);
      LowerOfUpper(name[i]);
      assert CamelForm(name)[0] == ToLowerAscii(m[0]);
    } else {
      assert k > 0;
      assert CamelForm(name)[k] == m[k];
    }
  }

  /** `ucwords` keeps the underscores where they are, so the `i`-th character
      of `ucwords(name, '_')` survives `str_replace` at the same shifted
      position as the `i`-th character of `name` would. */
  lemma {:induction false} StripUcWordsIndex(name: string, i: nat)
    requires i < |name| && name[i] != Underscore
    ensures CountUnderscores(name[..i]) <= i
    ensures i - CountUnderscores(name[..i]) < |StripUnderscores(UcWords(name))|
    ensures StripUnderscores(UcWords(name))[i - CountUnderscores(name[..i])] == UcWords(name)[i]
  {
    var u := UcWords(name);
    CountSamePattern(u[..i], name[..i]);
    StripIndex(u, i);
  }

  /** The policy changes a name exactly when the name has a lower-case
      letter, is not denylisted, and either holds an underscore or starts
      with an upper-case letter. */
  lemma {:induction false} ToCamelCaseChangesIff(name: string)
    ensures ToCamelCase(name) != name <==>
              !NoLower(name) && name != Denylisted &&
              (CountUnderscores(name) > 0 || IsUpperAscii(name[0]))
  {
    if !NoLower(name) && name != Denylisted {
      var r := ToCamelCase(name);
      GeneralBranch(name);
      if CountUnderscores(name) == 0 {
        NoUnderscoreCamelForm(name);
        LowerOfUpper(name[0]);
        assert r == [ToLowerAscii(name[0])] + name[1..];
        if !IsUpperAscii(name[0]) {
          assert name == [name[0]] + name[1..];
        } else {
          assert r[0] != name[0];
        }
      } else {
        assert |r| < |name|;
      }
    }
  }

  /** For a name without underscores the general branch only lower-cases
      the first character. */
  lemma {:induction false} NoUnderscoreCamelForm(name: string)
    requires |name| > 0 && CountUnderscores(name) == 0
    ensures CamelForm(name) == [ToLowerAscii(ToUpperAscii(name[0]))] + name[1..]
  {
    NoUnderscoreWhenCountZero(name);
    UcWordsWithoutUnderscores(name);
    var u := [ToUpperAscii(name[0])] + name[1..];
    assert Underscore !in u by {
      assert forall j :: 1 <= j < |u| ==> u[j] == name[j];
    }
    StripWithoutUnderscores(u);
    assert LcFirst(u) == [ToLowerAscii(u[0])] + u[1..];
  }

  /** Without underscores, `ucwords` only upper-cases the first character. */
  lemma {:induction false} UcWordsWithoutUnderscores(name: string)
    requires |name| > 0 && Underscore !in name
    ensures UcWords(name) == [ToUpperAscii(name[0])] + name[1..]
  {
    var u := UcWords(name);
    forall j | 1 <= j < |name| ensures u[j] == name[j] {
      assert name[j - 1] != Underscore;
    }
  }

  /** A count of zero means there is no underscore at all. */
  lemma {:induction false} NoUnderscoreWhenCountZero(s: string)
    requires CountUnderscores(s) == 0
    ensures Underscore !in s
  {
    if |s| > 0 {
      NoUnderscoreWhenCountZero(s[..|s| - 1]);
      assert s == s[..|s| - 1] + [s[|s| - 1]];
    }
  }

  /** Renaming twice is renaming once: the camel-case form is a fixpoint. */
  lemma {:induction false} ToCamelCaseIdempotent(name: string)
    ensures ToCamelCase(ToCamelCase(name)) == ToCamelCase(name)
  {
    var r := ToCamelCase(name);
    if r != name {
      assert !NoLower(name) && name != Denylisted;
      GeneralBranch(name);
      assert Underscore !in r;
      if !NoLower(r) {
        DenylistedHasUnderscore();
        StripWithoutUnderscores(r);
        CountSamePattern(r, StripUnderscores(r));
        NoUnderscoreCamelForm(r);
        var m := StripUnderscores(UcWords(name));
        assert r[0] == ToLowerAscii(m[0]);
        LowerOfUpper(r[0]);
        LowerOfLower(m[0]);
        assert r == [r[0]] + r[1..];
      }
    }
  }
}
