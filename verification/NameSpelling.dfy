/** How names are spelled, letter by letter: which spellings are one name to the resolver. */
module NameSpelling {
  import opened Messages
  import Text

  predicate Capital(c: char) {
    'A' <= c <= 'Z'
  }

  /** The same letter, in whatever case, or the same other character. */
  predicate SameLetter(a: char, b: char) {
    || a == b
    || (Capital(a) && b as int - a as int == 'a' as int - 'A' as int)
    || (Capital(b) && a as int - b as int == 'a' as int - 'A' as int)
  }

  predicate SameText(a: string, b: string) {
    |a| == |b| && forall i :: 0 <= i < |a| ==> SameLetter(a[i], b[i])
  }

  predicate NoCapitals(s: string) {
    forall i :: 0 <= i < |s| ==> !Capital(s[i])
  }

  /** `name` is `d` in some letter case with any number of dots behind it; `d` itself is in small letters
      and ends in no dot. */
  predicate Spells(name: string, d: string) {
    && NoCapitals(d) && (d != "" ==> d[|d| - 1] != '.')
    && |d| <= |name| && SameText(name[..|d|], d)
    && forall i :: |d| <= i < |name| ==> name[i] == '.'
  }

  lemma LowerCharIs(c: char)
    ensures !Capital(Text.LowerChar(c)) && SameLetter(c, Text.LowerChar(c))
  {
  }

  lemma LowerIs(s: string, d: string)
    ensures Text.Lower(s) == d <==> NoCapitals(d) && SameText(s, d)
  {
    forall i | 0 <= i < |s| ensures !Capital(Text.Lower(s)[i]) && SameLetter(s[i], Text.Lower(s)[i]) {
      LowerCharIs(s[i]);
    }
  }

  lemma IgnoringCaseIff(a: string, b: string)
    ensures Text.EqIgnoreCase(a, b) <==> SameText(a, b)
  {
    if SameText(a, b) {
      assert Text.Lower(a) == Text.Lower(b);
    }
    if Text.EqIgnoreCase(a, b) {
      forall i | 0 <= i < |a| ensures SameLetter(a[i], b[i]) {
        assert Text.Lower(a)[i] == Text.Lower(b)[i];
      }
    }
  }

  /** The resolver's name for a question is the one it spells. */
  lemma CanonicalNameIff(name: string, d: string)
    ensures CanonicalName(name) == d <==> Spells(name, d)
  {
    var t := Text.TrimEndDots(name);
    LowerIs(t, d);
    assert t == name[..|t|];
    if Spells(name, d) {
      assert |t| == |d| by { TrimmedLength(name, d, t); }
    }
    if CanonicalName(name) == d {
      assert SameText(t, d);
    }
  }

  lemma TrimmedLength(name: string, d: string, t: string)
    requires Spells(name, d) && t <= name
    requires (t == "" || t[|t| - 1] != '.') && forall i :: |t| <= i < |name| ==> name[i] == '.'
    ensures |t| == |d|
  {
    assert d != "" ==> SameLetter(name[..|d|][|d| - 1], d[|d| - 1]);
    assert t != "" ==> t[|t| - 1] == name[|t| - 1];
  }

  /** Every name spells exactly one, so two names are one to the resolver exactly when they differ in case
      and trailing dots only. */
  lemma OneNameIff(a: string, b: string)
    ensures CanonicalName(a) == CanonicalName(b) <==> exists d :: Spells(a, d) && Spells(b, d)
  {
    CanonicalNameIff(a, CanonicalName(a));
    CanonicalNameIff(b, CanonicalName(b));
    forall d | Spells(a, d) && Spells(b, d) ensures CanonicalName(a) == CanonicalName(b) {
      CanonicalNameIff(a, d);
      CanonicalNameIff(b, d);
    }
  }
}
