/**
 * The pieces of Rust's `str` API that the pipeline relies on, over Dafny strings
 * (sequences of Unicode scalar values, which is exactly what a Rust `char` is):
 * UTF-8 byte length (`str::len`), `str::trim`, `str::to_lowercase` (ASCII letters only),
 * `str::trim_start_matches` with a string pattern, and `str::split(c).next()`.
 */
module Text {

  type String = seq<char>

  // ---------------------------------------------------------------------------
  // UTF-8 length

  /** Number of bytes the scalar value `c` occupies in UTF-8. */
  function Utf8Width(c: char): (w: nat)
    ensures 1 <= w <= 4
    ensures w == 1 <==> (c as int) < 0x80
  {
    if (c as int) < 0x80 then 1
    else if (c as int) < 0x800 then 2
    else if (c as int) < 0x1_0000 then 3
    else 4
  }

  predicate IsAscii(s: String) {
    forall i :: 0 <= i < |s| ==> (s[i] as int) < 0x80
  }

  /** `str::len`: the length of `s` in bytes once encoded as UTF-8. */
  function Utf8Len(s: String): (n: nat)
    ensures n >= |s|
    ensures n == |s| <==> IsAscii(s)
  {
    if s == [] then 0
    else
      var n := Utf8Width(s[0]) + Utf8Len(s[1..]);
      assert IsAscii(s) <==> (s[0] as int) < 0x80 && IsAscii(s[1..]) by {
        if IsAscii(s[1..]) && (s[0] as int) < 0x80 {
          forall i | 0 <= i < |s| ensures (s[i] as int) < 0x80 {
            if i > 0 { assert s[i] == s[1..][i - 1]; }
          }
        }
      }
      n
  }

  // ---------------------------------------------------------------------------
  // Whitespace and trimming

  /**
   * `char::is_whitespace`: the Unicode White_Space property, which is what `str::trim`
   * strips.
   */
  predicate IsWhitespace(c: char) {
    ('\t' <= c <= '\r') || c == ' ' || c == '\U{85}' || c == '\U{A0}' || c == '\U{1680}'
    || ('\U{2000}' <= c <= '\U{200A}') || c == '\U{2028}' || c == '\U{2029}'
    || c == '\U{202F}' || c == '\U{205F}' || c == '\U{3000}'
  }

  predicate AllWhitespace(s: String) {
    forall i :: 0 <= i < |s| ==> IsWhitespace(s[i])
  }

  /** `str::trim_start`: `s` without its leading whitespace. */
  function TrimStart(s: String): (r: String)
    ensures |r| <= |s| && forall i :: 0 <= i < |r| ==> r[i] == s[|s| - |r| + i]
    ensures AllWhitespace(s[..|s| - |r|])
    ensures r == [] || !IsWhitespace(r[0])
  {
    if s != [] && IsWhitespace(s[0]) then
      var r := TrimStart(s[1..]);
      LeadingWhitespace(s, |s| - |r|);
      r
    else
      s
  }

  /** A whitespace character followed by whitespace is whitespace. */
  lemma LeadingWhitespace(s: String, k: nat)
    requires 0 < k <= |s| && IsWhitespace(s[0]) && AllWhitespace(s[1..][..k - 1])
    ensures AllWhitespace(s[..k])
  {
    forall i | 0 <= i < k ensures IsWhitespace(s[..k][i]) {
      if i > 0 {
        assert s[..k][i] == s[1..][..k - 1][i - 1];
      }
    }
  }

  /** `str::trim_end`: `s` without its trailing whitespace. */
  function TrimEnd(s: String): (r: String)
    ensures |r| <= |s| && forall i :: 0 <= i < |r| ==> r[i] == s[i]
    ensures AllWhitespace(s[|r|..])
    ensures r == [] || !IsWhitespace(r[|r| - 1])
  {
    if s != [] && IsWhitespace(s[|s| - 1]) then
      var r := TrimEnd(s[..|s| - 1]);
      assert s[|r|..] == s[..|s| - 1][|r|..] + [s[|s| - 1]];
      r
    else
      s
  }

  /** `str::trim`: `s` without its leading and trailing whitespace. */
  function Trim(s: String): (r: String)
    ensures |r| <= |s|
    ensures r == [] <==> AllWhitespace(s)
    ensures r == [] || (!IsWhitespace(r[0]) && !IsWhitespace(r[|r| - 1]))
  {
    var t := TrimStart(s);
    var r := TrimEnd(t);
    assert r == [] ==> AllWhitespace(s) by {
      if r == [] {
        assert s[..|s| - |t|] == s;
      }
    }
    r
  }

  /** A string that neither starts nor ends with whitespace is its own trim. */
  lemma TrimOfTrimmed(s: String)
    requires s == [] || (!IsWhitespace(s[0]) && !IsWhitespace(s[|s| - 1]))
    ensures Trim(s) == s
  {
    assert TrimStart(s) == s;
  }

  /** Trimming twice is trimming once. */
  lemma TrimIdempotent(s: String)
    ensures Trim(Trim(s)) == Trim(s)
  {
    TrimOfTrimmed(Trim(s));
  }

  // ---------------------------------------------------------------------------
  // Lower-casing (ASCII letters)

  predicate IsUpperAscii(c: char) {
    'A' <= c <= 'Z'
  }

  /** `char::to_lowercase`, restricted to the ASCII letters. */
  function LowerChar(c: char): (d: char)
    ensures !IsUpperAscii(d)
    ensures IsUpperAscii(c) || d == c
    ensures IsWhitespace(d) <==> IsWhitespace(c)
  {
    if IsUpperAscii(c) then (c as int + 32) as char else c
  }

  /** No ASCII upper-case letter occurs in `s`. */
  predicate IsLower(s: String) {
    forall i :: 0 <= i < |s| ==> !IsUpperAscii(s[i])
  }

  /** `str::to_lowercase` (ASCII letters only): character by character. */
  function ToLower(s: String): (r: String)
    ensures |r| == |s|
    ensures forall i :: 0 <= i < |s| ==> r[i] == LowerChar(s[i])
  {
    if s == [] then [] else [LowerChar(s[0])] + ToLower(s[1..])
  }

  /** The lower-cased string is lower case, and lower-casing changes nothing else. */
  lemma ToLowerIsLower(s: String)
    ensures IsLower(ToLower(s))
    ensures IsLower(s) ==> ToLower(s) == s
  {
  }

  /** Lower-casing is idempotent. */
  lemma ToLowerIdempotent(s: String)
    ensures ToLower(ToLower(s)) == ToLower(s)
  {
    ToLowerIsLower(s);
    ToLowerIsLower(ToLower(s));
  }

  /** Lower-casing works piece by piece. */
  lemma ToLowerConcat(a: String, b: String)
    ensures ToLower(a + b) == ToLower(a) + ToLower(b)
  {
    var l, la, lb := ToLower(a + b), ToLower(a), ToLower(b);
    forall i | 0 <= i < |a + b| ensures l[i] == (la + lb)[i] {
      if i < |a| {
        assert (a + b)[i] == a[i];
      } else {
        assert (a + b)[i] == b[i - |a|];
      }
    }
  }

  /** Lower-casing keeps every `/` where it was and introduces no new one. */
  lemma ToLowerKeepsSlash(s: String)
    ensures '/' in ToLower(s) <==> '/' in s
  {
    var r := ToLower(s);
    if '/' in r {
      var i :| 0 <= i < |r| && r[i] == '/';
      assert s[i] == '/';
    }
    if '/' in s {
      var i :| 0 <= i < |s| && s[i] == '/';
      assert r[i] == '/';
    }
  }

  // ---------------------------------------------------------------------------
  // Prefix stripping and splitting

  /** `t` is zero or more copies of `p` laid end to end. */
  predicate RepeatsOf(t: String, p: String)
    decreases |t|
  {
    t == [] || (p != [] && p <= t && RepeatsOf(t[|p|..], p))
  }

  /**
   * `str::trim_start_matches(p)` for a string pattern: removes `p` from the front of `s`
   * as many times as it occurs there. An empty pattern removes nothing.
   */
  function TrimStartMatches(s: String, p: String): (r: String)
    ensures |r| <= |s| && r == s[|s| - |r|..]
    ensures p == [] || !(p <= r)
    decreases |s|
  {
    if p != [] && p <= s then TrimStartMatches(s[|p|..], p) else s
  }

  /** A string that does not start with the pattern is left alone. */
  lemma TrimStartMatchesNoMatch(s: String, p: String)
    requires !(p <= s)
    ensures TrimStartMatches(s, p) == s
  {
  }

  /** A string that starts with the pattern loses that copy and is stripped again. */
  lemma TrimStartMatchesStep(s: String, p: String)
    requires p != [] && p <= s
    ensures TrimStartMatches(s, p) == TrimStartMatches(s[|p|..], p)
  {
  }

  /** What `TrimStartMatches` removes is nothing but copies of the pattern. */
  lemma {:induction false} TrimStartMatchesRemovesCopies(s: String, p: String)
    ensures RepeatsOf(s[..|s| - |TrimStartMatches(s, p)|], p)
    decreases |s|
  {
    var r := TrimStartMatches(s, p);
    if p != [] && p <= s {
      TrimStartMatchesRemovesCopies(s[|p|..], p);
      var rest := s[|p|..][..|s| - |p| - |r|];
      RepeatsPrepend(p, rest);
      assert s[..|s| - |r|] == p + rest;
    } else {
      assert s[..|s| - |r|] == [];
    }
  }

  /** One more copy of `p` in front of copies of `p` is still copies of `p`. */
  lemma RepeatsPrepend(p: String, t: String)
    requires p != [] && RepeatsOf(t, p)
    ensures RepeatsOf(p + t, p)
  {
    assert (p + t)[|p|..] == t;
  }

  /** `str::split(sep).next()`: the text before the first `sep`, or all of `s`. */
  function SplitFirst(s: String, sep: char): (r: String)
    ensures r <= s
    ensures sep !in r
    ensures |r| == |s| || s[|r|] == sep
  {
    if s == [] || s[0] == sep then []
    else
      var r := SplitFirst(s[1..], sep);
      assert [s[0]] + r <= s;
      [s[0]] + r
  }

  /** Without a separator there is nothing to split off. */
  lemma SplitFirstWithoutSep(s: String, sep: char)
    requires sep !in s
    ensures SplitFirst(s, sep) == s
  {
  }

  /** The first piece ends at the first separator. */
  lemma SplitFirstAt(s: String, sep: char, k: nat)
    requires k < |s| && s[k] == sep && sep !in s[..k]
    ensures SplitFirst(s, sep) == s[..k]
  {
  }
}
