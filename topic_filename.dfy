/**
 * The filename that the book generation agent derives from a free-text topic request
 * (`make_filename_from_topic` in agent.py): trim whitespace, lower-case, replace every
 * maximal run of characters outside `[a-z0-9]` by one `_`, trim `_` at both ends,
 * fall back to `output` when nothing is left, and append `.md`.
 */
module TopicFilename {
  import opened PyStr

  /** The characters the pattern `[^a-z0-9]` does NOT match. */
  predicate IsAlnum(c: char) {
    'a' <= c <= 'z' || '0' <= c <= '9'
  }

  /** The argument of `strip("_")`. */
  const Underscores := Chars({'_'})

  predicate IsSlugChar(c: char) {
    IsAlnum(c) || c == '_'
  }

  predicate NoDoubleUnderscore(s: seq<char>) {
    forall i, j :: 0 <= i < |s| && 0 <= j < |s| && j == i + 1 ==> !(s[i] == '_' && s[j] == '_')
  }

  /**
   * A well-formed slug: `[a-z0-9_]+`, no `_` at either end, and no two `_` in a row
   * (each separator stands for exactly one run of other characters).
   */
  predicate IsSlug(s: seq<char>) {
    && |s| > 0
    && (forall i :: 0 <= i < |s| ==> IsSlugChar(s[i]))
    && s[0] != '_'
    && s[|s| - 1] != '_'
    && NoDoubleUnderscore(s)
  }

  /** The `[a-z0-9]` characters of `s`, in order. */
  function Alnums(s: seq<char>): (r: seq<char>)
    ensures |r| <= |s|
    ensures forall i :: 0 <= i < |r| ==> IsAlnum(r[i])
  {
    if s == [] then []
    else (if IsAlnum(s[0]) then [s[0]] else []) + Alnums(s[1..])
  }

  /** `s` with every `_` removed. */
  function WithoutUnderscores(s: seq<char>): (r: seq<char>)
    ensures |r| <= |s|
    ensures forall i :: 0 <= i < |r| ==> r[i] != '_'
  {
    if s == [] then []
    else (if s[0] != '_' then [s[0]] else []) + WithoutUnderscores(s[1..])
  }

  lemma {:induction false} AlnumsAppend(a: seq<char>, b: seq<char>)
    ensures Alnums(a + b) == Alnums(a) + Alnums(b)
    decreases |a|
  {
    if a == [] {
      assert a + b == b;
    } else {
      assert (a + b)[0] == a[0];
      assert (a + b)[1..] == a[1..] + b;
      AlnumsAppend(a[1..], b);
    }
  }

  // ---------------------------------------------------------------------------
  // re.sub(r"[^a-z0-9]+", "_", base)
  // ---------------------------------------------------------------------------

  /** Length of the greedy match of `[^a-z0-9]+` (or of nothing) at the start of `s`. */
  function RunLength(s: seq<char>): (n: nat)
    ensures n <= |s|
    ensures forall i :: 0 <= i < n ==> !IsAlnum(s[i])
    ensures n == |s| || IsAlnum(s[n])
  {
    if s == [] || IsAlnum(s[0]) then 0 else 1 + RunLength(s[1..])
  }

  /**
   * The substitution as the regular-expression engine performs it: scanning left to
   * right, a character of `[a-z0-9]` is copied, and at any other character the longest
   * run of such characters is matched and replaced by one `_`.
   */
  function SubstituteRuns(s: seq<char>): (r: seq<char>)
    ensures |r| <= |s|
    ensures forall i :: 0 <= i < |r| ==> IsSlugChar(r[i])
    decreases |s|
  {
    if s == [] then []
    else if IsAlnum(s[0]) then [s[0]] + SubstituteRuns(s[1..])
    else ['_'] + SubstituteRuns(s[RunLength(s)..])
  }

  /**
   * The same substitution as a single pass that remembers whether the previous
   * character was already part of a replaced run (`inRun`).
   */
  function CollapseRuns(s: seq<char>, inRun: bool): (r: seq<char>)
    ensures forall i :: 0 <= i < |r| ==> IsSlugChar(r[i])
    ensures NoDoubleUnderscore(r)
    ensures inRun && r != [] ==> r[0] != '_'
    decreases |s|
  {
    if s == [] then []
    else if IsAlnum(s[0]) then [s[0]] + CollapseRuns(s[1..], false)
    else if inRun then CollapseRuns(s[1..], true)
    else ['_'] + CollapseRuns(s[1..], true)
  }

  /** Whether a pass over `a` that started with flag `inRun` ends inside a run. */
  function EndsInRun(a: seq<char>, inRun: bool): bool {
    if a == [] then inRun else !IsAlnum(a[|a| - 1])
  }

  lemma {:induction false} CollapseRunsSkipsRun(s: seq<char>, k: nat)
    requires k <= |s|
    requires forall j :: 0 <= j < k ==> !IsAlnum(s[j])
    ensures CollapseRuns(s, true) == CollapseRuns(s[k..], true)
    decreases k
  {
    if k > 0 {
      assert s[1..][k - 1..] == s[k..];
      CollapseRunsSkipsRun(s[1..], k - 1);
    }
  }

  /** The one-pass scanner computes exactly the regular-expression substitution. */
  lemma {:induction false} CollapseRunsIsSubstitution(s: seq<char>)
    ensures CollapseRuns(s, false) == SubstituteRuns(s)
    decreases |s|
  {
    if s != [] {
      if IsAlnum(s[0]) {
        CollapseRunsIsSubstitution(s[1..]);
      } else {
        var n := RunLength(s);
        var rest := s[n..];
        assert s[1..][n - 1..] == rest;
        CollapseRunsSkipsRun(s[1..], n - 1);
        if rest != [] {
          assert rest[0] == s[n];
        }
        assert CollapseRuns(rest, true) == CollapseRuns(rest, false);
        CollapseRunsIsSubstitution(rest);
      }
    }
  }

  /** The pass over a concatenation is the pass over each part, the flag carried over. */
  lemma {:induction false} CollapseRunsAppend(a: seq<char>, b: seq<char>, inRun: bool)
    ensures CollapseRuns(a + b, inRun) == CollapseRuns(a, inRun) + CollapseRuns(b, EndsInRun(a, inRun))
    decreases |a|
  {
    if a == [] {
      assert a + b == b;
    } else {
      var t, flag := a[1..], !IsAlnum(a[0]);
      assert (a + b)[0] == a[0];
      assert (a + b)[1..] == t + b;
      CollapseRunsAppend(t, b, flag);
      assert EndsInRun(t, flag) == EndsInRun(a, inRun);
    }
  }

  /** The pass drops no `[a-z0-9]` character and adds none. */
  lemma {:induction false} CollapseRunsKeepsAlnums(s: seq<char>, inRun: bool)
    ensures Alnums(CollapseRuns(s, inRun)) == Alnums(s)
    decreases |s|
  {
    if s != [] {
      var flag := !IsAlnum(s[0]);
      var x := CollapseRuns(s[1..], flag);
      CollapseRunsKeepsAlnums(s[1..], flag);
      if !flag {
        assert CollapseRuns(s, inRun) == [s[0]] + x;
        assert ([s[0]] + x)[1..] == x;
      } else if !inRun {
        assert CollapseRuns(s, inRun) == ['_'] + x;
        assert (['_'] + x)[1..] == x;
      }
    }
  }

  lemma {:induction false} NoAlnumsMeansJunk(s: seq<char>)
    ensures Alnums(s) == [] <==> forall k :: 0 <= k < |s| ==> !IsAlnum(s[k])
    decreases |s|
  {
    if s != [] {
      NoAlnumsMeansJunk(s[1..]);
      assert forall k :: 1 <= k < |s| ==> s[k] == s[1..][k - 1];
    }
  }

  /** A text without `[a-z0-9]` characters collapses to underscores only. */
  lemma CollapseRunsOfJunk(w: seq<char>, inRun: bool)
    requires forall k :: 0 <= k < |w| ==> !IsAlnum(w[k])
    ensures forall k :: 0 <= k < |CollapseRuns(w, inRun)| ==> CollapseRuns(w, inRun)[k] == '_'
  {
    var r := CollapseRuns(w, inRun);
    NoAlnumsMeansJunk(w);
    CollapseRunsKeepsAlnums(w, inRun);
    NoAlnumsMeansJunk(r);
  }

  /** After trimming `_`, it does not matter whether the pass started inside a run. */
  lemma TrimmedCollapseIgnoresFlag(m: seq<char>)
    ensures Strip(CollapseRuns(m, true), Underscores) == Strip(CollapseRuns(m, false), Underscores)
  {
    if m != [] && !IsAlnum(m[0]) {
      var x := CollapseRuns(m[1..], true);
      assert CollapseRuns(m, false) == ['_'] + x + [];
      assert x + [] == x;
      StripIgnoresDroppedEdges(['_'], x, [], Underscores);
    }
  }

  // ---------------------------------------------------------------------------
  // The filename derivation
  // ---------------------------------------------------------------------------

  /** `lower()`, then `re.sub(...)`, then `strip("_")`, before the `output` fallback. */
  function Normalize(s: seq<char>): (r: seq<char>)
    ensures r == [] || IsSlug(r)
  {
    var c := CollapseRuns(Lower(s), false);
    StripKeepsSlugText(c);
    Strip(c, Underscores)
  }

  /** Trimming `_` from substituted text keeps it over `[a-z0-9_]` and free of `__`. */
  lemma StripKeepsSlugText(c: seq<char>)
    requires forall i :: 0 <= i < |c| ==> IsSlugChar(c[i])
    requires NoDoubleUnderscore(c)
    ensures var r := Strip(c, Underscores);
            (forall k :: 0 <= k < |r| ==> IsSlugChar(r[k])) && NoDoubleUnderscore(r)
  {
    var r := Strip(c, Underscores);
    var a, b := StripParts(c, Underscores);
    forall k | 0 <= k < |r|
      ensures IsSlugChar(r[k])
    {
      assert r[k] == c[|a| + k];
    }
    forall k | 0 <= k < |r| - 1
      ensures !(r[k] == '_' && r[k + 1] == '_')
    {
      assert r[k] == c[|a| + k];
      assert r[k + 1] == c[|a| + k + 1];
    }
  }

  /** The slug of a topic request (agent.py, lines 66-68). */
  function Slug(topic: seq<char>): (r: seq<char>)
    ensures IsSlug(r)
  {
    var n := Normalize(Strip(topic, Whitespace));
    if n == [] then "output" else n
  }

  /** The filename of a topic request (agent.py, line 69). */
  function Filename(topic: seq<char>): (r: seq<char>)
    ensures |r| > 3 && r[|r| - 3..] == ".md"
    ensures r[..|r| - 3] == Slug(topic) && IsSlug(r[..|r| - 3])
  {
    Slug(topic) + ".md"
  }

  // ---------------------------------------------------------------------------
  // Properties
  // ---------------------------------------------------------------------------

  /** Leading and trailing text without `[a-z0-9]` characters leaves `Normalize` unchanged. */
  lemma NormalizeIgnoresJunkEdges(a: seq<char>, m: seq<char>, b: seq<char>)
    requires forall k :: 0 <= k < |a| ==> !IsAlnum(LowerChar(a[k]))
    requires forall k :: 0 <= k < |b| ==> !IsAlnum(LowerChar(b[k]))
    ensures Normalize(a + m + b) == Normalize(m)
  {
    var la, lm, lb := Lower(a), Lower(m), Lower(b);
    LowerAppend(a + m, b);
    LowerAppend(a, m);
    CollapseRunsAppend(la + lm, lb, false);
    CollapseRunsAppend(la, lm, false);
    var u := CollapseRuns(la, false);
    var x := CollapseRuns(lm, EndsInRun(la, false));
    var v := CollapseRuns(lb, EndsInRun(la + lm, false));
    CollapseRunsOfJunk(la, false);
    CollapseRunsOfJunk(lb, EndsInRun(la + lm, false));
    StripIgnoresDroppedEdges(u, x, v, Underscores);
    TrimmedCollapseIgnoresFlag(lm);
  }

  /** Whitespace never lowers into `[a-z0-9]`. */
  lemma SpaceIsJunk(w: seq<char>)
    requires forall k :: 0 <= k < |w| ==> IsSpace(w[k])
    ensures forall k :: 0 <= k < |w| ==> !IsAlnum(LowerChar(w[k]))
  {
  }

  /**
   * The initial `strip()` is redundant: every whitespace character would be replaced
   * by `_` and then trimmed anyway.
   */
  lemma SlugIgnoresStrip(topic: seq<char>)
    ensures Slug(topic) == (var n := Normalize(topic); if n == [] then "output" else n)
  {
    var m := Strip(topic, Whitespace);
    var a, b := StripParts(topic, Whitespace);
    SpaceIsJunk(a);
    SpaceIsJunk(b);
    NormalizeIgnoresJunkEdges(a, m, b);
  }

  /** Surrounding whitespace in the request does not change its slug. */
  lemma SlugIgnoresSurroundingSpace(a: seq<char>, topic: seq<char>, b: seq<char>)
    requires forall k :: 0 <= k < |a| ==> IsSpace(a[k])
    requires forall k :: 0 <= k < |b| ==> IsSpace(b[k])
    ensures Slug(a + topic + b) == Slug(topic)
  {
    SlugIgnoresStrip(a + topic + b);
    SlugIgnoresStrip(topic);
    SpaceIsJunk(a);
    SpaceIsJunk(b);
    NormalizeIgnoresJunkEdges(a, topic, b);
  }

  /** Trimming `_` keeps every `[a-z0-9]` character. */
  lemma StripUnderscoreKeepsAlnums(c: seq<char>)
    ensures Alnums(Strip(c, Underscores)) == Alnums(c)
  {
    var r := Strip(c, Underscores);
    var a, b := StripParts(c, Underscores);
    assert Alnums(a) == [] by {
      NoAlnumsMeansJunk(a);
    }
    assert Alnums(b) == [] by {
      NoAlnumsMeansJunk(b);
    }
    calc {
      Alnums(c);
    ==
      Alnums(a + r + b);
    == { AlnumsAppend(a + r, b); }
      Alnums(a + r) + Alnums(b);
    == { AlnumsAppend(a, r); }
      Alnums(a) + Alnums(r) + Alnums(b);
    ==
      Alnums(r);
    }
  }

  /** Removing `_` from text made of slug characters leaves its `[a-z0-9]` characters. */
  lemma {:induction false} DropUnderscoresOfSlugText(s: seq<char>)
    requires forall i :: 0 <= i < |s| ==> IsSlugChar(s[i])
    ensures WithoutUnderscores(s) == Alnums(s)
    decreases |s|
  {
    if s != [] {
      DropUnderscoresOfSlugText(s[1..]);
    }
  }

  /**
   * The slug keeps the `[a-z0-9]` characters of the lower-cased request, in order, and
   * only those; when there are none, it is `output`.
   */
  lemma SlugKeepsAlnums(topic: seq<char>)
    ensures Alnums(Lower(topic)) == [] ==> Slug(topic) == "output"
    ensures Alnums(Lower(topic)) != [] ==> WithoutUnderscores(Slug(topic)) == Alnums(Lower(topic))
  {
    SlugIgnoresStrip(topic);
    var n := Normalize(topic);
    StripUnderscoreKeepsAlnums(CollapseRuns(Lower(topic), false));
    CollapseRunsKeepsAlnums(Lower(topic), false);
    if n != [] {
      assert IsAlnum(n[0]);
      assert Alnums(n) == [n[0]] + Alnums(n[1..]);
      DropUnderscoresOfSlugText(n);
    }
  }

  lemma {:induction false} CollapseRunsFixesSlugText(s: seq<char>, inRun: bool)
    requires forall i :: 0 <= i < |s| ==> IsSlugChar(s[i])
    requires NoDoubleUnderscore(s)
    requires inRun ==> s == [] || s[0] != '_'
    ensures CollapseRuns(s, inRun) == s
    decreases |s|
  {
    if s != [] {
      if |s| > 1 {
        assert s[0] == '_' ==> s[1] != '_';
      }
      CollapseRunsFixesSlugText(s[1..], !IsAlnum(s[0]));
    }
  }

  /** Lower-casing leaves text over `[a-z0-9_]` unchanged. */
  lemma LowerFixesSlugText(s: seq<char>)
    requires forall k :: 0 <= k < |s| ==> IsSlugChar(s[k])
    ensures Lower(s) == s
  {
    forall k | 0 <= k < |s|
      ensures Lower(s)[k] == s[k]
    {
      assert !IsAsciiUpper(s[k]);
    }
  }

  /** A well-formed slug is its own slug. */
  lemma SlugFixesSlugs(s: seq<char>)
    requires IsSlug(s)
    ensures Slug(s) == s
  {
    StripKeepsClean(s, Whitespace);
    LowerFixesSlugText(s);
    CollapseRunsFixesSlugText(s, false);
    StripKeepsClean(s, Underscores);
  }

  /** Deriving the slug twice gives the same slug, and therefore the same filename. */
  lemma SlugIdempotent(topic: seq<char>)
    ensures Slug(Slug(topic)) == Slug(topic)
    ensures Filename(Slug(topic)) == Filename(topic)
  {
    SlugFixesSlugs(Slug(topic));
  }

  /** A request without any letter or digit (only blanks, punctuation, ...) gets the fallback slug. */
  lemma SlugFallback(topic: seq<char>)
    requires forall k :: 0 <= k < |topic| ==> !IsAlnum(LowerChar(topic[k]))
    ensures Slug(topic) == "output"
    ensures Filename(topic) == "output.md"
  {
    assert Alnums(Lower(topic)) == [] by {
      var lowered := Lower(topic);
      assert forall k :: 0 <= k < |lowered| ==> !IsAlnum(lowered[k]);
      NoAlnumsMeansJunk(lowered);
    }
    SlugKeepsAlnums(topic);
  }
}
