/** The optional value used for "no match" / "not found" results. */
module Options {
  datatype Option<+T> = None | Some(value: T)
}

/**
 * The handful of Python `str` operations the script relies on, stated over
 * `seq<char>`: substring search (`in`, `str.split`), suffix test
 * (`str.endswith`), string order (`<`) and `min` over a list of strings.
 */
module PyStrings {
  import opened Options

  /** `sub` occurs in `s` starting at index `i`. */
  predicate OccursAt(s: string, sub: string, i: int)
  {
    0 <= i && i + |sub| <= |s| && s[i..i + |sub|] == sub
  }

  /** Index of the first occurrence of `sub` in `s` at or after `from`. */
  function FindFrom(s: string, sub: string, from: nat): (r: Option<nat>)
    decreases |s| - from
    ensures r.Some? ==> from <= r.value && OccursAt(s, sub, r.value)
    ensures r.Some? ==> forall j :: from <= j < r.value ==> !OccursAt(s, sub, j)
    ensures r.None? ==> forall j :: from <= j ==> !OccursAt(s, sub, j)
  {
    if from + |sub| > |s| then None
    else if s[from..from + |sub|] == sub then Some(from)
    else FindFrom(s, sub, from + 1)
  }

  /** `str.find`: the index of the first occurrence of `sub` in `s`. */
  function Find(s: string, sub: string): (r: Option<nat>)
    ensures r.Some? ==> OccursAt(s, sub, r.value)
    ensures r.Some? ==> forall j :: 0 <= j < r.value ==> !OccursAt(s, sub, j)
    ensures r.None? <==> forall j :: !OccursAt(s, sub, j)
  {
    FindFrom(s, sub, 0)
  }

  /** Python's `sub in s`. */
  predicate Contains(s: string, sub: string)
    ensures Contains(s, sub) <==> exists i :: OccursAt(s, sub, i)
  {
    Find(s, sub).Some?
  }

  lemma ContainsAt(s: string, sub: string, i: int)
    requires OccursAt(s, sub, i)
    ensures Contains(s, sub)
  {
  }

  /** Python's `s.endswith(suffix)`. */
  predicate EndsWith(s: string, suffix: string)
    ensures EndsWith(s, suffix) <==> exists head :: s == head + suffix
  {
    assert |suffix| <= |s| ==> s == s[..|s| - |suffix|] + s[|s| - |suffix|..];
    assert forall head :: s == head + suffix ==> s[|s| - |suffix|..] == suffix;
    |suffix| <= |s| && s[|s| - |suffix|..] == suffix
  }

  /** `a` is a proper prefix of `b`. */
  predicate ProperPrefix(a: string, b: string)
  {
    |a| < |b| && b[..|a|] == a
  }

  /** `a` and `b` first differ at an index where `a` holds the smaller code point. */
  predicate FirstDifferenceBelow(a: string, b: string)
  {
    exists k :: 0 <= k < |a| && k < |b| && a[..k] == b[..k] && a[k] < b[k]
  }

  /** When the first characters differ, they alone decide lexicographic order. */
  lemma LexicographicHeadDiffers(a: string, b: string)
    requires |a| > 0 && |b| > 0 && a[0] != b[0]
    ensures !ProperPrefix(a, b)
    ensures FirstDifferenceBelow(a, b) <==> a[0] < b[0]
  {
    if |a| < |b| {
      assert b[..|a|][0] == b[0];
    }
    assert a[..0] == b[..0];
    forall k | 0 < k <= |a| && k <= |b|
      ensures a[..k][0] == a[0] && b[..k][0] == b[0]
    {
    }
  }

  /** When the first characters agree, `a` is a proper prefix of `b` exactly when its tail is one of `b`'s tail. */
  lemma ProperPrefixTail(a: string, b: string)
    requires |a| > 0 && |b| > 0 && a[0] == b[0]
    ensures ProperPrefix(a, b) <==> ProperPrefix(a[1..], b[1..])
  {
    if ProperPrefix(a[1..], b[1..]) {
      assert b[..|a|] == [b[0]] + b[1..][..|a| - 1];
      assert a == [a[0]] + a[1..];
    }
    if ProperPrefix(a, b) {
      assert b[1..][..|a| - 1] == b[..|a|][1..];
    }
  }

  /** When the first characters agree, the first difference of `a` and `b` is that of their tails. */
  lemma FirstDifferenceTail(a: string, b: string)
    requires |a| > 0 && |b| > 0 && a[0] == b[0]
    ensures FirstDifferenceBelow(a, b) <==> FirstDifferenceBelow(a[1..], b[1..])
  {
    if FirstDifferenceBelow(a, b) {
      var k :| 0 <= k < |a| && k < |b| && a[..k] == b[..k] && a[k] < b[k];
      assert k > 0;
      assert a[1..][..k - 1] == a[..k][1..] && b[1..][..k - 1] == b[..k][1..];
      assert a[1..][k - 1] == a[k] && b[1..][k - 1] == b[k];
    }
    if FirstDifferenceBelow(a[1..], b[1..]) {
      var k :| 0 <= k < |a[1..]| && k < |b[1..]| && a[1..][..k] == b[1..][..k] && a[1..][k] < b[1..][k];
      assert a[..k + 1] == [a[0]] + a[1..][..k] && b[..k + 1] == [b[0]] + b[1..][..k];
    }
  }

  /** Python's `a < b` on `str`: lexicographic order of code points. */
  predicate Below(a: string, b: string)
    ensures Below(a, b) <==> ProperPrefix(a, b) || FirstDifferenceBelow(a, b)
    decreases |a|
  {
    if |a| == 0 || |b| == 0 then
      assert |a| == 0 ==> b[..|a|] == a;
      |b| > 0
    else if a[0] != b[0] then
      LexicographicHeadDiffers(a, b);
      a[0] < b[0]
    else
      ProperPrefixTail(a, b);
      FirstDifferenceTail(a, b);
      Below(a[1..], b[1..])
  }

  lemma {:induction false} BelowIrreflexive(a: string)
    ensures !Below(a, a)
    decreases |a|
  {
    if |a| > 0 {
      BelowIrreflexive(a[1..]);
    }
  }

  lemma {:induction false} BelowTransitive(a: string, b: string, c: string)
    requires Below(a, b) && Below(b, c)
    ensures Below(a, c)
    decreases |a|
  {
    if |a| > 0 && a[0] == b[0] && b[0] == c[0] {
      BelowTransitive(a[1..], b[1..], c[1..]);
    }
  }

  lemma {:induction false} BelowTotal(a: string, b: string)
    requires a != b
    ensures Below(a, b) || Below(b, a)
    decreases |a|
  {
    if |a| > 0 && |b| > 0 && a[0] == b[0] {
      assert a == [a[0]] + a[1..] && b == [b[0]] + b[1..];
      BelowTotal(a[1..], b[1..]);
    }
  }

  lemma BelowAsymmetric(a: string, b: string)
    requires Below(a, b)
    ensures !Below(b, a)
  {
    if Below(b, a) {
      BelowTransitive(a, b, a);
      BelowIrreflexive(a);
    }
  }

  /** `m` is the least element of `s` under Python's string order. */
  predicate IsLeast(m: string, s: set<string>)
  {
    m in s && forall x :: x in s ==> m == x || Below(m, x)
  }

  /** A set of strings has at most one least element. */
  lemma LeastUnique(a: string, b: string, s: set<string>)
    requires IsLeast(a, s) && IsLeast(b, s)
    ensures a == b
  {
    if a != b {
      BelowAsymmetric(a, b);
    }
  }

  /**
   * Python's built-in `min` on a non-empty list of strings: a left fold that
   * replaces the running minimum only by a strictly smaller item.
   */
  function Min(s: seq<string>): (m: string)
    requires |s| > 0
    ensures IsLeast(m, set x | x in s)
  {
    if |s| == 1 then s[0]
    else
      var rest := Min(s[..|s| - 1]);
      var last := s[|s| - 1];
      assert forall x :: x in s ==> x in s[..|s| - 1] || x == last;
      if Below(last, rest) then
        assert forall x :: x in s[..|s| - 1] ==> last == x || Below(last, x) by {
          forall x | x in s[..|s| - 1] && rest != x
            ensures Below(last, x)
          {
            BelowTransitive(last, rest, x);
          }
        }
        last
      else
        assert rest == last || Below(rest, last) by {
          if rest != last { BelowTotal(rest, last); }
        }
        rest
  }

  /** The least element of a non-empty finite set of strings. */
  ghost function Least(s: set<string>): (m: string)
    requires s != {}
    ensures IsLeast(m, s)
  {
    var x :| x in s;
    if s == {x} then x
    else
      var rest := Least(s - {x});
      if Below(x, rest) then
        assert forall y :: y in s - {x} ==> x == y || Below(x, y) by {
          forall y | y in s - {x} && rest != y
            ensures Below(x, y)
          {
            BelowTransitive(x, rest, y);
          }
        }
        x
      else
        BelowTotal(rest, x);
        rest
  }

  /** `min` over a list depends only on the set of its items, not on their order. */
  lemma MinIsLeast(s: seq<string>, items: set<string>)
    requires |s| > 0 && items == set x | x in s
    ensures items != {} && Min(s) == Least(items)
  {
    assert s[0] in items;
    LeastUnique(Min(s), Least(items), items);
  }
}
