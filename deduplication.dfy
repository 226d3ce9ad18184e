/**
 * Subtitle deduplication: after the downloads, the script groups the
 * subtitle files of its output directory by title and, in every group of two
 * or more, keeps one name and deletes the others.
 *
 * The rule is specified on the SET of names in the directory (`Survivors`),
 * and the method that performs it, `DeduplicateSubtitles`, reads the
 * directory listing in whatever order the file system returns it. Its
 * postcondition ties the new directory to `Survivors` of the old one, so the
 * outcome does not depend on the listing order.
 */
module Deduplication {
  import opened Options
  import opened PyStrings
  import opened SubtitleNames

  // ---------------------------------------------------------------------
  // Specification on the set of names in the directory
  // ---------------------------------------------------------------------

  /** The names of `dir` grouped under title `t` (one value of `files_by_title`). */
  function TitleGroup(dir: set<string>, t: string): set<string>
  {
    set f | f in dir && TitleOf(f) == Some(t)
  }

  /**
   * A name the script treats as a manual subtitle: it has a `-` somewhere and
   * no `orig` anywhere. Both tests look at the whole name, title included.
   */
  predicate IsManual(name: string)
    ensures IsManual(name) <==> '-' in name && forall i :: !OccursAt(name, "orig", i)
  {
    assert Contains(name, "-") <==> '-' in name by {
      if '-' in name {
        var i :| 0 <= i < |name| && name[i] == '-';
        assert name[i..i + 1] == "-";
        ContainsAt(name, "-", i);
      }
      if Contains(name, "-") {
        var i := Find(name, "-").value;
        assert name[i..i + 1][0] == name[i];
      }
    }
    Contains(name, "-") && !Contains(name, "orig")
  }

  /** The manual members of a group. */
  function ManualOf(group: set<string>): set<string>
  {
    set f | f in group && IsManual(f)
  }

  /** The plain name `title.en.srt`, kept when a group has no manual member. */
  function PlainName(title: string): string
  {
    title + ".en.srt"
  }

  /** The name a group of two or more keeps: its least manual member, or else the plain name. */
  ghost function Keeper(title: string, group: set<string>): string
  {
    if ManualOf(group) != {} then Least(ManualOf(group)) else PlainName(title)
  }

  /** `f` is deleted: it has a title, its group has more than one file, and it is not the keeper. */
  ghost predicate Removed(dir: set<string>, f: string)
  {
    f in dir && TitleOf(f).Some? &&
    var g := TitleGroup(dir, TitleOf(f).value);
    |g| != 1 && f != Keeper(TitleOf(f).value, g)
  }

  /** The names left in the directory once deduplication has run. */
  ghost function Survivors(dir: set<string>): (left: set<string>)
    ensures left <= dir
    ensures forall f :: f in dir && TitleOf(f).None? ==> f in left
  {
    set f | f in dir && !Removed(dir, f)
  }

  // ---------------------------------------------------------------------
  // The directory and the lists the script builds
  // ---------------------------------------------------------------------

  predicate Distinct(s: seq<string>)
  {
    forall i, j :: 0 <= i < j < |s| ==> s[i] != s[j]
  }

  /** The output directory, as the set of entry names it holds. */
  class Directory {
    var names: set<string>

    constructor (names: set<string>)
      ensures this.names == names
    {
      this.names := names;
    }

    /** `os.listdir`: every entry exactly once, in an order the file system chooses. */
    method List() returns (listing: seq<string>)
      ensures Distinct(listing)
      ensures forall f :: f in listing <==> f in names
    {
      listing := [];
      var rest := names;
      while rest != {}
        invariant rest <= names
        invariant Distinct(listing)
        invariant forall f :: f in listing <==> f in names && f !in rest
        decreases rest
      {
        var f :| f in rest;
        listing := listing + [f];
        rest := rest - {f};
      }
    }

    /** `os.remove`: the entry must exist. */
    method Remove(name: string)
      requires name in names
      modifies this
      ensures names == old(names) - {name}
    {
      names := names - {name};
    }
  }

  /** The entries of `listing` with title `t`, in listing order: what the grouping loop appends. */
  function FilesTitled(listing: seq<string>, t: string): seq<string>
  {
    if listing == [] then []
    else
      var init, last := listing[..|listing| - 1], listing[|listing| - 1];
      FilesTitled(init, t) + if TitleOf(last) == Some(t) then [last] else []
  }

  /** The grouping collects exactly the listed names with title `t`, each as often as it is listed. */
  lemma {:induction false} FilesTitledMembers(listing: seq<string>, t: string)
    ensures forall f :: f in FilesTitled(listing, t) <==> f in listing && TitleOf(f) == Some(t)
    ensures Distinct(listing) ==> Distinct(FilesTitled(listing, t))
  {
    if listing != [] {
      var init, last := listing[..|listing| - 1], listing[|listing| - 1];
      assert listing == init + [last];
      FilesTitledMembers(init, t);
    }
  }

  lemma FilesTitledAppend(listing: seq<string>, name: string)
    ensures forall t :: FilesTitled(listing + [name], t) ==
                        FilesTitled(listing, t) + (if TitleOf(name) == Some(t) then [name] else [])
  {
    assert (listing + [name])[..|listing|] == listing;
  }

  /** `[f for f in files if '-' in f and 'orig' not in f]`. */
  function ManualCandidates(files: seq<string>): (manual: seq<string>)
    ensures forall f :: f in manual <==> f in files && IsManual(f)
  {
    if files == [] then []
    else (if IsManual(files[0]) then [files[0]] else []) + ManualCandidates(files[1..])
  }

  /** `min(manual) if manual else f'{title}.en.srt'`, over the list of one group. */
  function KeepName(title: string, files: seq<string>): (keep: string)
    ensures keep == Keeper(title, set f | f in files)
  {
    var manual := ManualCandidates(files);
    if |manual| > 0 then
      MinIsLeast(manual, ManualOf(set f | f in files));
      Min(manual)
    else
      assert ManualOf(set f | f in files) == {} by {
        forall f | f in files && IsManual(f) ensures f in manual { }
      }
      PlainName(title)
  }

  lemma {:induction false} DistinctCardinality(s: seq<string>)
    requires Distinct(s)
    ensures |set f | f in s| == |s|
  {
    if s != [] {
      var init := s[..|s| - 1];
      assert (set f | f in s) == (set f | f in init) + {s[|s| - 1]};
      assert s[|s| - 1] !in init;
      DistinctCardinality(init);
    }
  }

  // ---------------------------------------------------------------------
  // The deduplication pass
  // ---------------------------------------------------------------------

  /**
   * The grouping loop: `files_by_title.setdefault(title, []).append(file)`
   * for every listed `.srt` name that matches the pattern. `titles` holds
   * the keys, each once; the order the script visits them in does not change
   * the outcome, so the model leaves it unstated.
   */
  method GroupByTitle(listing: seq<string>) returns (filesByTitle: map<string, seq<string>>, titles: seq<string>)
    ensures forall t :: t in filesByTitle <==> t in titles
    ensures forall t :: t in filesByTitle <==> FilesTitled(listing, t) != []
    ensures forall t :: t in filesByTitle ==> filesByTitle[t] == FilesTitled(listing, t)
    ensures Distinct(titles)
  {
    filesByTitle, titles := map[], [];
    var i := 0;
    while i < |listing|
      invariant 0 <= i <= |listing|
      invariant forall t :: t in filesByTitle <==> t in titles
      invariant forall t :: t in filesByTitle <==> FilesTitled(listing[..i], t) != []
      invariant forall t :: t in filesByTitle ==> filesByTitle[t] == FilesTitled(listing[..i], t)
      invariant Distinct(titles)
    {
      var name := listing[i];
      assert listing[..i + 1] == listing[..i] + [name];
      FilesTitledAppend(listing[..i], name);
      match TitleOf(name) {
        case None =>
        case Some(title) =>
          if title in filesByTitle {
            filesByTitle := filesByTitle[title := filesByTitle[title] + [name]];
          } else {
            filesByTitle := filesByTitle[title := [name]];
            titles := titles + [title];
          }
      }
      i := i + 1;
    }
    assert listing[..i] == listing;
  }

  /** The deletion loop of one group: remove every listed name other than `keep`. */
  method RemoveAllBut(dir: Directory, files: seq<string>, keep: string)
    requires Distinct(files)
    requires forall f :: f in files && f != keep ==> f in dir.names
    modifies dir
    ensures dir.names == old(dir.names) - set f | f in files && f != keep
  {
    var j := 0;
    while j < |files|
      invariant 0 <= j <= |files|
      invariant dir.names == old(dir.names) - set f | f in files[..j] && f != keep
    {
      var f := files[j];
      assert files[..j + 1] == files[..j] + [f];
      if f != keep {
        assert f !in files[..j];
        dir.Remove(f);
      }
      j := j + 1;
    }
    assert files[..j] == files;
  }

  /** The names of `dir` deleted while handling the titles in `done`. */
  ghost function DeletedFor(dir: set<string>, done: seq<string>): set<string>
  {
    set f | f in dir && Removed(dir, f) && TitleOf(f).value in done
  }

  /** Handling one more title deletes exactly the non-kept names of its list, if it has two or more. */
  lemma DeletedStep(dir: set<string>, listing: seq<string>, done: seq<string>, title: string, files: seq<string>)
    requires Distinct(listing) && forall f :: f in listing <==> f in dir
    requires files == FilesTitled(listing, title) && title !in done
    ensures Distinct(files)
    ensures DeletedFor(dir, done) <= dir
    ensures DeletedFor(dir, done) !! set f | f in files
    ensures DeletedFor(dir, done + [title]) ==
            DeletedFor(dir, done) + if |files| != 1 then set f | f in files && f != KeepName(title, files) else {}
  {
    GroupIsListed(dir, listing, title, files);
    var keep := KeepName(title, files);
    var extra := if |files| != 1 then set f | f in files && f != keep else {};
    forall f | f in DeletedFor(dir, done + [title])
      ensures f in DeletedFor(dir, done) + extra
    {
      if TitleOf(f).value !in done {
        assert TitleOf(f).value in done + [title];
        assert TitleOf(f) == Some(title);
        assert f in TitleGroup(dir, title);
      }
    }
    forall f | f in extra
      ensures f in DeletedFor(dir, done + [title])
    {
      assert f in TitleGroup(dir, title);
    }
  }

  /** Once every title of the listing is handled, what was deleted is what does not survive. */
  lemma DeletedAll(dir: set<string>, listing: seq<string>, titles: seq<string>)
    requires forall f :: f in listing <==> f in dir
    requires forall t :: t in titles <==> FilesTitled(listing, t) != []
    ensures DeletedFor(dir, titles) == dir - Survivors(dir)
  {
    forall f | f in dir && TitleOf(f).Some?
      ensures TitleOf(f).value in titles
    {
      FilesTitledMembers(listing, TitleOf(f).value);
      assert f in FilesTitled(listing, TitleOf(f).value);
    }
  }

  /**
   * The deduplication block: group the listed names by title, then in each
   * group of two or more delete every name other than the keeper.
   */
  method DeduplicateSubtitles(dir: Directory)
    modifies dir
    ensures dir.names == Survivors(old(dir.names))
  {
    ghost var before := dir.names;
    var listing := dir.List();
    var filesByTitle, titles := GroupByTitle(listing);

    var k := 0;
    while k < |titles|
      invariant 0 <= k <= |titles|
      invariant dir.names == before - DeletedFor(before, titles[..k])
    {
      var title := titles[k];
      var files := filesByTitle[title];
      assert titles[..k + 1] == titles[..k] + [title];
      DeletedStep(before, listing, titles[..k], title, files);
      if |files| != 1 {
        var keep := KeepName(title, files);
        RemoveAllBut(dir, files, keep);
      }
      k := k + 1;
    }
    assert titles[..k] == titles;
    DeletedAll(before, listing, titles);
  }

  /** The list the grouping loop collected for `title` is the title's group, each name once. */
  lemma GroupIsListed(dir: set<string>, listing: seq<string>, title: string, files: seq<string>)
    requires Distinct(listing) && forall f :: f in listing <==> f in dir
    requires files == FilesTitled(listing, title)
    ensures Distinct(files)
    ensures (set f | f in files) == TitleGroup(dir, title)
    ensures |TitleGroup(dir, title)| == |files|
    ensures forall f :: f in files ==> Removed(dir, f) == (|files| != 1 && f != KeepName(title, files))
  {
    FilesTitledMembers(listing, title);
    DistinctCardinality(files);
  }

  // ---------------------------------------------------------------------
  // Properties of the rule
  // ---------------------------------------------------------------------

  /** A name with no title (not a `.srt`, or not matching the pattern) is never deleted. */
  lemma UnmatchedNeverRemoved(dir: set<string>, f: string)
    requires f in dir && TitleOf(f).None?
    ensures f in Survivors(dir)
  {
  }

  /** A title with exactly one file keeps that file. */
  lemma SingleFileTitleUntouched(dir: set<string>, t: string)
    requires |TitleGroup(dir, t)| == 1
    ensures TitleGroup(dir, t) <= Survivors(dir)
  {
  }

  /** At most one file of each title survives. */
  lemma AtMostOneSurvivorPerTitle(dir: set<string>, t: string, a: string, b: string)
    requires a in TitleGroup(dir, t) && a in Survivors(dir)
    requires b in TitleGroup(dir, t) && b in Survivors(dir)
    ensures a == b
  {
    var g := TitleGroup(dir, t);
    if |g| == 1 {
      assert |g - {a}| == 0;
    }
  }

  /**
   * In a group of two or more with a manual member, exactly one file survives:
   * the least manual member in string order.
   */
  lemma ManualVariantKept(dir: set<string>, t: string)
    requires |TitleGroup(dir, t)| >= 2 && ManualOf(TitleGroup(dir, t)) != {}
    ensures forall f :: f in TitleGroup(dir, t) ==>
      (f in Survivors(dir) <==> IsLeast(f, ManualOf(TitleGroup(dir, t))))
    ensures exists f :: f in TitleGroup(dir, t) && f in Survivors(dir)
  {
    var g := TitleGroup(dir, t);
    var k := Least(ManualOf(g));
    forall f | f in g && IsLeast(f, ManualOf(g))
      ensures f == k
    {
      LeastUnique(f, k, ManualOf(g));
    }
    assert k in g && k in Survivors(dir);
  }

  /**
   * In a group of two or more without a manual member, the file that survives
   * is `title.en.srt` when the group has it, and none otherwise.
   */
  lemma NoManualVariantKeepsPlain(dir: set<string>, t: string)
    requires |TitleGroup(dir, t)| >= 2 && ManualOf(TitleGroup(dir, t)) == {}
    ensures forall f :: f in TitleGroup(dir, t) ==> (f in Survivors(dir) <==> f == PlainName(t))
  {
  }

  /** `orig` cannot straddle the end of a title and the `.en.srt` that follows it. */
  lemma OrigStaysInTitle(t: string, i: int)
    ensures OccursAt(PlainName(t), "orig", i) ==> OccursAt(t, "orig", i)
  {
    var s := PlainName(t);
    if OccursAt(s, "orig", i) {
      assert s[i] == 'o' && s[i + 1] == 'r' && s[i + 2] == 'i' && s[i + 3] == 'g';
      assert forall m :: 0 <= m < 7 ==> s[|t| + m] == ".en.srt"[m];
      if i + 4 <= |t| {
        assert s[i..i + 4] == t[i..i + 4];
      }
    }
  }

  /**
   * A group of two or more whose every member contains `orig`, under a title
   * without `orig`, loses all of its files.
   */
  lemma OrigOnlyGroupEmptied(dir: set<string>, t: string)
    requires |TitleGroup(dir, t)| >= 2
    requires forall f :: f in TitleGroup(dir, t) ==> Contains(f, "orig")
    requires !Contains(t, "orig")
    ensures TitleGroup(dir, t) * Survivors(dir) == {}
  {
    var plain := PlainName(t);
    if Contains(plain, "orig") {
      var i := Find(plain, "orig").value;
      OrigStaysInTitle(t, i);
      ContainsAt(t, "orig", i);
    }
    NoManualVariantKeepsPlain(dir, t);
  }

  /** Running the deduplication a second time deletes nothing. */
  lemma DeduplicationIdempotent(dir: set<string>)
    ensures Survivors(Survivors(dir)) == Survivors(dir)
  {
    var left := Survivors(dir);
    forall f | f in left
      ensures !Removed(left, f)
    {
      if TitleOf(f).Some? {
        var t := TitleOf(f).value;
        var g := TitleGroup(left, t);
        forall h | h in g ensures h == f {
          AtMostOneSurvivorPerTitle(dir, t, h, f);
        }
        assert g == {f};
      }
    }
  }
}
