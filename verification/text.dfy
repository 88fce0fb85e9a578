/** The string transforms of the project record: the URL slug, the
    humanised title and the short description (lib/github.js lines 119-122).
    Case mapping is that of ASCII letters. */
module Text {
  import opened Js

  function ToLower(c: char): char
  {
    if 'A' <= c <= 'Z' then (c as int + 32) as char else c
  }

  function ToUpper(c: char): char
  {
    if 'a' <= c <= 'z' then (c as int - 32) as char else c
  }

  /** `toLowerCase`. */
  function LowerCase(s: string): (r: string)
    ensures |r| == |s|
    ensures forall i :: 0 <= i < |s| ==> r[i] == ToLower(s[i])
  {
    if s == [] then [] else [ToLower(s[0])] + LowerCase(s[1..])
  }

  // ---------------------------------------------------------------------
  // Slug

  /** A character the slug keeps: a member of `[a-z0-9]`. */
  predicate SlugSafe(c: char)
  {
    'a' <= c <= 'z' || '0' <= c <= '9'
  }

  /** A character a slug may hold: a member of `[a-z0-9-]`. */
  predicate SlugChar(c: char)
  {
    SlugSafe(c) || c == '-'
  }

  /** `replace(/[^a-z0-9]/g, '-')`: every character outside `[a-z0-9]` is
      replaced by one hyphen; runs are not collapsed. */
  function HyphenateUnsafe(s: string): (r: string)
    ensures |r| == |s|
    ensures forall i :: 0 <= i < |s| ==> r[i] == if SlugSafe(s[i]) then s[i] else '-'
  {
    if s == [] then [] else [if SlugSafe(s[0]) then s[0] else '-'] + HyphenateUnsafe(s[1..])
  }

  /** The slug of a repository name. */
  function Slug(name: string): (r: string)
    ensures |r| == |name|
    ensures forall i :: 0 <= i < |r| ==> SlugChar(r[i])
    ensures forall i :: 0 <= i < |name| ==>
              r[i] == if SlugSafe(ToLower(name[i])) then ToLower(name[i]) else '-'
  {
    HyphenateUnsafe(LowerCase(name))
  }

  /** Slugging a slug changes nothing. */
  lemma SlugIdempotent(name: string)
    ensures Slug(Slug(name)) == Slug(name)
  {
    var s := Slug(name);
    assert forall i :: 0 <= i < |s| ==> Slug(s)[i] == s[i];
  }

  /** The names the slug leaves unchanged are exactly those over `[a-z0-9-]`. */
  lemma SlugFixedPoints(name: string)
    ensures Slug(name) == name <==> forall i :: 0 <= i < |name| ==> SlugChar(name[i])
  {
    if forall i :: 0 <= i < |name| ==> SlugChar(name[i]) {
      assert forall i :: 0 <= i < |name| ==> Slug(name)[i] == name[i];
    }
  }

  /** Distinct repository names can share a slug, so a slug does not always
      identify one project of a listing. */
  lemma SlugNotInjective()
    ensures "my.site" != "my_site" && Slug("my.site") == Slug("my_site")
  {
    assert Slug("my.site") == "my-site";
    assert Slug("my_site") == "my-site";
  }

  // ---------------------------------------------------------------------
  // Title

  /** `\w`: a member of `[A-Za-z0-9_]`. */
  predicate IsWordChar(c: char)
  {
    'a' <= c <= 'z' || 'A' <= c <= 'Z' || '0' <= c <= '9' || c == '_'
  }

  /** `replace(/-/g, ' ')`. */
  function DashesToSpaces(s: string): (r: string)
    ensures |r| == |s|
    ensures forall i :: 0 <= i < |s| ==> r[i] == if s[i] == '-' then ' ' else s[i]
  {
    if s == [] then [] else [if s[0] == '-' then ' ' else s[0]] + DashesToSpaces(s[1..])
  }

  /** Position `i` of `s` holds a word character with a word boundary before
      it: the start of the string or a non-word character. */
  predicate StartsWord(s: string, i: int)
    requires 0 <= i < |s|
  {
    IsWordChar(s[i]) && (i == 0 || !IsWordChar(s[i - 1]))
  }

  /** One character of `replace(/\b\w/g, l => l.toUpperCase())`: a word
      character is upper-cased when a word boundary precedes it. */
  function Capitalize(c: char, boundary: bool): char
  {
    if IsWordChar(c) && boundary then ToUpper(c) else c
  }

  /** The left-to-right scan of the replacement over `t`, where `atBoundary`
      tells whether the character before `t` was a non-word character (or
      there was none). */
  function CapitalizeFrom(t: string, atBoundary: bool): (r: string)
    ensures |r| == |t|
    ensures |t| > 0 ==> r[0] == Capitalize(t[0], atBoundary)
    ensures forall i :: 0 < i < |t| ==> r[i] == Capitalize(t[i], !IsWordChar(t[i - 1]))
  {
    if t == [] then []
    else
      var rest := CapitalizeFrom(t[1..], !IsWordChar(t[0]));
      var r := [Capitalize(t[0], atBoundary)] + rest;
      assert forall i :: 1 <= i < |t| ==> r[i] == rest[i - 1] && t[i] == t[1..][i - 1];
      assert forall k :: 0 <= k < |t| - 1 ==> t[1..][k] == t[k + 1];
      r
  }

  /** `replace(/\b\w/g, l => l.toUpperCase())`. */
  function CapitalizeWords(t: string): (r: string)
    ensures |r| == |t|
    ensures forall i :: 0 <= i < |t| ==> r[i] == if StartsWord(t, i) then ToUpper(t[i]) else t[i]
  {
    var r := CapitalizeFrom(t, true);
    forall i | 0 <= i < |t|
      ensures r[i] == if StartsWord(t, i) then ToUpper(t[i]) else t[i]
    {
      if i == 0 {
        assert r[i] == Capitalize(t[i], true);
      } else {
        assert r[i] == Capitalize(t[i], !IsWordChar(t[i - 1]));
      }
    }
    r
  }

  /** The title derived from a repository name. */
  function Humanize(name: string): (r: string)
    ensures |r| == |name|
    ensures forall i :: 0 <= i < |name| ==>
              r[i] == if StartsWord(name, i) then ToUpper(name[i])
                      else if name[i] == '-' then ' ' else name[i]
  {
    var t := DashesToSpaces(name);
    assert forall i :: 0 <= i < |name| ==> (IsWordChar(t[i]) <==> IsWordChar(name[i]));
    assert forall i :: 0 <= i < |name| ==> StartsWord(t, i) == StartsWord(name, i);
    CapitalizeWords(t)
  }

  /** The derived title holds no hyphen. */
  lemma HumanizeHasNoHyphen(name: string)
    ensures forall i :: 0 <= i < |Humanize(name)| ==> Humanize(name)[i] != '-'
  {
  }

  /** A hyphenated name becomes words separated by spaces. */
  lemma HumanizeExample()
    ensures Humanize("y-z") == "Y Z"
  {
    var r := Humanize("y-z");
    assert StartsWord("y-z", 0) && !StartsWord("y-z", 1) && StartsWord("y-z", 2);
    assert r[0] == 'Y' && r[1] == ' ' && r[2] == 'Z';
  }

  // ---------------------------------------------------------------------
  // Short description

  const ShortLength := 150
  const Ellipsis := "..."

  /** `d.slice(0, 150) + '...'`: the ellipsis is appended whatever the
      length of `d`, even when nothing was cut. */
  function ShortDescription(d: string): (r: string)
    ensures |r| == Min(|d|, ShortLength) + |Ellipsis|
    ensures |r| <= ShortLength + |Ellipsis|
    ensures r[..|r| - |Ellipsis|] <= d
    ensures r[|r| - |Ellipsis|..] == Ellipsis
  {
    var head := Slice(d, ShortLength);
    assert (head + Ellipsis)[..|head|] == head;
    head + Ellipsis
  }

  /** A text of at most 150 characters is kept whole. */
  lemma ShortDescriptionKeepsShortText(d: string)
    requires |d| <= ShortLength
    ensures ShortDescription(d) == d + Ellipsis
  {
  }
}
