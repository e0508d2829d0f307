/**
 * The Python string primitives that the filename derivation of agent.py relies on:
 * `str.strip()` (surrounding whitespace), `str.strip(chars)` (surrounding characters
 * of a given set) and `str.lower()` restricted to ASCII letters.
 */
module PyStr {

  /** `str.isspace()` for one character: what `str.strip()` without arguments removes. */
  predicate IsSpace(c: char) {
    || ('\t' <= c <= '\r')
    || ('\U{1C}' <= c <= '\U{1F}')
    || c == ' '
    || c == '\U{85}'
    || c == '\U{A0}'
    || c == '\U{1680}'
    || ('\U{2000}' <= c <= '\U{200A}')
    || c == '\U{2028}'
    || c == '\U{2029}'
    || c == '\U{202F}'
    || c == '\U{205F}'
    || c == '\U{3000}'
  }

  /** The argument of `str.strip`: none (whitespace) or an explicit set of characters. */
  datatype StripChars = Whitespace | Chars(cs: set<char>)

  /** Whether `str.strip` called with `how` removes the character `c`. */
  predicate Drops(how: StripChars, c: char) {
    match how
    case Whitespace => IsSpace(c)
    case Chars(cs) => c in cs
  }

  predicate IsAsciiUpper(c: char) {
    'A' <= c <= 'Z'
  }

  /** Lower-cases one character: ASCII `A-Z` become `a-z`, everything else is kept. */
  function LowerChar(c: char): (r: char)
    ensures !IsAsciiUpper(r)
    ensures IsAsciiUpper(c) ==> 'a' <= r <= 'z' && r as int - 'a' as int == c as int - 'A' as int
    ensures !IsAsciiUpper(c) ==> r == c
  {
    if IsAsciiUpper(c) then (c as int - 'A' as int + 'a' as int) as char else c
  }

  /** `str.lower()` on the ASCII letters: a character-by-character mapping. */
  function Lower(s: seq<char>): (r: seq<char>)
    ensures |r| == |s|
    ensures forall i :: 0 <= i < |s| ==> r[i] == LowerChar(s[i])
  {
    if s == [] then [] else [LowerChar(s[0])] + Lower(s[1..])
  }

  lemma LowerAppend(a: seq<char>, b: seq<char>)
    ensures Lower(a + b) == Lower(a) + Lower(b)
  {
    forall i | 0 <= i < |a + b|
      ensures Lower(a + b)[i] == (Lower(a) + Lower(b))[i]
    {
      if i < |a| {
        assert (a + b)[i] == a[i];
      } else {
        assert (a + b)[i] == b[i - |a|];
      }
    }
  }

  /** `str.lstrip()` / `str.lstrip(chars)`: drops the leading characters that `how` names. */
  function LStrip(s: seq<char>, how: StripChars): (r: seq<char>)
    ensures |r| <= |s|
    ensures r == [] || !Drops(how, r[0])
    decreases |s|
  {
    if s != [] && Drops(how, s[0]) then LStrip(s[1..], how) else s
  }

  /** `str.rstrip()` / `str.rstrip(chars)`: drops the trailing characters that `how` names. */
  function RStrip(s: seq<char>, how: StripChars): (r: seq<char>)
    ensures |r| <= |s|
    ensures r == [] || !Drops(how, r[|r| - 1])
    ensures r != [] ==> r[0] == s[0]
    decreases |s|
  {
    if s != [] && Drops(how, s[|s| - 1]) then RStrip(s[..|s| - 1], how) else s
  }

  /** `str.strip()` / `str.strip(chars)`: drops the leading and the trailing characters that `how` names. */
  function Strip(s: seq<char>, how: StripChars): (r: seq<char>)
    ensures |r| <= |s|
    ensures r == [] || (!Drops(how, r[0]) && !Drops(how, r[|r| - 1]))
  {
    RStrip(LStrip(s, how), how)
  }

  /** `LStrip` removes a prefix of characters that `how` names and keeps the rest as it is. */
  lemma {:induction false} LStripParts(s: seq<char>, how: StripChars) returns (front: seq<char>)
    ensures s == front + LStrip(s, how)
    ensures forall k :: 0 <= k < |front| ==> Drops(how, front[k])
    decreases |s|
  {
    if s != [] && Drops(how, s[0]) {
      var rest := LStripParts(s[1..], how);
      front := [s[0]] + rest;
      assert s == [s[0]] + s[1..];
    } else {
      front := [];
    }
  }

  /** `RStrip` removes a suffix of characters that `how` names and keeps the rest as it is. */
  lemma {:induction false} RStripParts(s: seq<char>, how: StripChars) returns (back: seq<char>)
    ensures s == RStrip(s, how) + back
    ensures forall k :: 0 <= k < |back| ==> Drops(how, back[k])
    decreases |s|
  {
    if s != [] && Drops(how, s[|s| - 1]) {
      var rest := RStripParts(s[..|s| - 1], how);
      back := rest + [s[|s| - 1]];
      assert s == s[..|s| - 1] + [s[|s| - 1]];
    } else {
      back := [];
    }
  }

  /**
   * Stripping removes only characters that `how` names, all of them at the two ends:
   * `s` is `front + Strip(s, how) + back`, and `front` and `back` consist only of
   * removable characters.
   */
  lemma StripParts(s: seq<char>, how: StripChars) returns (front: seq<char>, back: seq<char>)
    ensures s == front + Strip(s, how) + back
    ensures forall k :: 0 <= k < |front| ==> Drops(how, front[k])
    ensures forall k :: 0 <= k < |back| ==> Drops(how, back[k])
  {
    var l, r := LStrip(s, how), Strip(s, how);
    front := LStripParts(s, how);
    back := RStripParts(l, how);
    assert l == r + back;
    assert front + (r + back) == front + r + back;
  }

  /** `Strip` changes nothing when neither end holds a character that `how` names. */
  lemma StripKeepsClean(s: seq<char>, how: StripChars)
    requires s == [] || (!Drops(how, s[0]) && !Drops(how, s[|s| - 1]))
    ensures Strip(s, how) == s
  {
    assert LStrip(s, how) == s;
  }

  lemma {:induction false} LStripSkipsDropped(u: seq<char>, x: seq<char>, how: StripChars)
    requires forall k :: 0 <= k < |u| ==> Drops(how, u[k])
    ensures LStrip(u + x, how) == LStrip(x, how)
    decreases |u|
  {
    if u == [] {
      assert u + x == x;
    } else {
      assert (u + x)[0] == u[0];
      assert (u + x)[1..] == u[1..] + x;
      LStripSkipsDropped(u[1..], x, how);
    }
  }

  lemma {:induction false} RStripSkipsDropped(x: seq<char>, v: seq<char>, how: StripChars)
    requires forall k :: 0 <= k < |v| ==> Drops(how, v[k])
    ensures RStrip(x + v, how) == RStrip(x, how)
    decreases |v|
  {
    if v == [] {
      assert x + v == x;
    } else {
      var xv := x + v;
      assert xv[|xv| - 1] == v[|v| - 1];
      assert xv[..|xv| - 1] == x + v[..|v| - 1];
      RStripSkipsDropped(x, v[..|v| - 1], how);
    }
  }

  lemma {:induction false} LStripKeepsTail(x: seq<char>, v: seq<char>, how: StripChars)
    requires forall k :: 0 <= k < |v| ==> Drops(how, v[k])
    ensures LStrip(x + v, how) == if LStrip(x, how) == [] then [] else LStrip(x, how) + v
    decreases |x|
  {
    if x == [] {
      assert x + v == v + [];
      LStripSkipsDropped(v, [], how);
    } else if Drops(how, x[0]) {
      assert (x + v)[0] == x[0];
      assert (x + v)[1..] == x[1..] + v;
      LStripKeepsTail(x[1..], v, how);
    } else {
      assert (x + v)[0] == x[0];
    }
  }

  /** Stripping ignores any run of droppable characters added on either side. */
  lemma StripIgnoresDroppedEdges(u: seq<char>, x: seq<char>, v: seq<char>, how: StripChars)
    requires forall k :: 0 <= k < |u| ==> Drops(how, u[k])
    requires forall k :: 0 <= k < |v| ==> Drops(how, v[k])
    ensures Strip(u + x + v, how) == Strip(x, how)
  {
    assert u + x + v == u + (x + v);
    LStripSkipsDropped(u, x + v, how);
    LStripKeepsTail(x, v, how);
    if LStrip(x, how) != [] {
      RStripSkipsDropped(LStrip(x, how), v, how);
    }
  }
}
