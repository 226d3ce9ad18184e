/**
 * Which directory entries take part in deduplication, and under which title.
 *
 * The script keeps the names that end in `.srt` and matches each against the
 * regular expression `^(?P<title>.+?)\.en(?:-[^.]+)?\.srt$`. The match is
 * modelled the way the regex engine finds it: the lazy `.+?` tries title
 * lengths 1, 2, ... and stops at the first one after which the rest of the
 * name is `.en.srt` or `.en-<X>.srt` (X non-empty and dot-free). `.` does not
 * match a newline, so the title never holds one. `$` is modelled as the end of
 * the name: the `.srt` filter runs first, so the other place where Python's
 * `$` may match (just before a final newline) never applies.
 */
module SubtitleNames {
  import opened Options
  import opened PyStrings

  /** The character class `[^.]` holds for every character of `s`. */
  predicate DotFree(s: string)
  {
    forall i :: 0 <= i < |s| ==> s[i] != '.'
  }

  /** The regex `.` holds for every character of `s`. */
  predicate NewlineFree(s: string)
  {
    forall i :: 0 <= i < |s| ==> s[i] != '\n'
  }

  /** `s` is exactly `.en.srt` or `.en-<X>.srt` with X non-empty and dot-free. */
  predicate IsLanguageSuffix(s: string)
  {
    s == ".en.srt" ||
    (|s| >= 9 && s[..4] == ".en-" && s[|s| - 4..] == ".srt" && DotFree(s[4..|s| - 4]))
  }

  /** `name` is `title` followed by a language suffix, and `title` is a valid group. */
  predicate SplitsAs(name: string, title: string)
  {
    1 <= |title| <= |name| && name[..|title|] == title && NewlineFree(title) &&
    IsLanguageSuffix(name[|title|..])
  }

  /** The name built from a title and an optional variant tag: `title.en.srt` or `title.en-variant.srt`. */
  function SubtitleName(title: string, variant: Option<string>): string
  {
    match variant
    case None => title + ".en.srt"
    case Some(v) => title + ".en-" + v + ".srt"
  }

  /** The lazy `.+?` search, trying a title of length `k` and then longer ones. */
  function LazyTitle(name: string, k: nat): Option<string>
    requires 1 <= k
    decreases |name| - k
  {
    if k > |name| || name[k - 1] == '\n' then None
    else if IsLanguageSuffix(name[k..]) then Some(name[..k])
    else LazyTitle(name, k + 1)
  }

  /**
   * The `title` group of a directory entry, or None when the entry does not
   * end in `.srt` or does not match the pattern. Every name has at most one
   * split, so the lazy and a greedy title would agree.
   */
  function TitleOf(name: string): (r: Option<string>)
    ensures r.Some? ==> SplitsAs(name, r.value) && EndsWith(name, ".srt")
    ensures forall t :: SplitsAs(name, t) ==> r == Some(t)
  {
    LazySound(name, 1);
    forall t | SplitsAs(name, t)
      ensures LazyTitle(name, 1) == Some(t)
    {
      LazyComplete(name, 1, t);
    }
    if EndsWith(name, ".srt") then LazyTitle(name, 1) else None
  }

  /** A language suffix never starts inside another one: a name has at most one split. */
  lemma SuffixUnique(name: string, a: int, b: int)
    requires 0 <= a < b <= |name|
    ensures !(IsLanguageSuffix(name[a..]) && IsLanguageSuffix(name[b..]))
  {
    var s, d := name[a..], b - a;
    assert name[b..] == s[d..];
    if IsLanguageSuffix(name[b..]) {
      assert s[d] == '.' && |s| - d >= 7;
      if |s| >= 9 && d < 4 {
        assert s[..4][d] == s[d];
      } else if |s| >= 9 && d < |s| - 4 {
        assert s[4..|s| - 4][d - 4] == s[d];
      }
    }
  }

  lemma {:induction false} LazySound(name: string, k: nat)
    requires 1 <= k
    requires forall i :: 0 <= i < k - 1 && i < |name| ==> name[i] != '\n'
    ensures LazyTitle(name, k).Some? ==> SplitsAs(name, LazyTitle(name, k).value)
    decreases |name| - k
  {
    if k <= |name| && name[k - 1] != '\n' && !IsLanguageSuffix(name[k..]) {
      LazySound(name, k + 1);
    }
  }

  lemma {:induction false} LazyComplete(name: string, k: nat, title: string)
    requires 1 <= k <= |title|
    requires SplitsAs(name, title)
    ensures LazyTitle(name, k) == Some(title)
    decreases |title| - k
  {
    assert name[k - 1] == title[k - 1];
    if k < |title| {
      SuffixUnique(name, k, |title|);
      LazyComplete(name, k + 1, title);
    }
  }

  /** Parsing a built name gives back its title: the title is what remains once the suffix is removed. */
  lemma TitleOfSubtitleName(title: string, variant: Option<string>)
    requires |title| >= 1 && NewlineFree(title)
    requires variant.Some? ==> |variant.value| >= 1 && DotFree(variant.value)
    ensures TitleOf(SubtitleName(title, variant)) == Some(title)
  {
    var name := SubtitleName(title, variant);
    assert name[..|title|] == title;
    match variant
    case None =>
      assert name[|title|..] == ".en.srt";
    case Some(v) =>
      var s := name[|title|..];
      assert s == ".en-" + v + ".srt";
      assert s[4..|s| - 4] == v;
    assert SplitsAs(name, title);
  }

  /** Every matching name is the built name of its title and some variant. */
  lemma TitleOfIsSubtitleName(name: string)
    requires TitleOf(name).Some?
    ensures exists v :: name == SubtitleName(TitleOf(name).value, v)
  {
    var t := TitleOf(name).value;
    var s := name[|t|..];
    assert name == t + s;
    if s == ".en.srt" {
      assert name == SubtitleName(t, None);
    } else {
      assert s == ".en-" + s[4..|s| - 4] + ".srt";
      assert name == SubtitleName(t, Some(s[4..|s| - 4]));
    }
  }
}
