/**
 * NSFW classification by domain: `extract_domain`, `is_nsfw_domain`, `is_nsfw` and the
 * per-line transform of `load_nsfw_domains` (pulse/src/main.rs).
 */
module Domains {
  import opened Wrappers
  import opened Text

  const HttpScheme: String := "http://"
  const HttpsScheme: String := "https://"
  const WwwPrefix: String := "www."

  /**
   * What `extract_domain` keeps before splitting: every leading `http://` is removed, then
   * every leading `https://`, then every leading `www.` (this last one case-sensitively,
   * since it happens before lower-casing).
   */
  function StripPrefixes(url: String): (h: String)
    ensures |h| <= |url|
    ensures !(WwwPrefix <= h)
  {
    TrimStartMatches(TrimStartMatches(TrimStartMatches(url, HttpScheme), HttpsScheme), WwwPrefix)
  }

  /**
   * `extract_domain`: the lower-cased text before the first `/` once the prefixes are
   * stripped. `split('/').next()` always yields a first piece, so the result is never None.
   */
  function ExtractDomain(url: String): (r: Option<String>)
    ensures r.Some?
    ensures '/' !in r.value && IsLower(r.value)
    ensures |r.value| <= |url|
  {
    var d := ToLower(SplitFirst(StripPrefixes(url), '/'));
    ToLowerIsLower(SplitFirst(StripPrefixes(url), '/'));
    ToLowerKeepsSlash(SplitFirst(StripPrefixes(url), '/'));
    Some(d)
  }

  /** `is_nsfw_domain`: the extracted domain is one of the listed ones. */
  function IsNsfwDomain(url: String, nsfwDomains: set<String>): (r: bool)
    ensures r <==> ExtractDomain(url).value in nsfwDomains
  {
    match ExtractDomain(url)
    case Some(domain) => domain in nsfwDomains
    case None => false
  }

  /** `is_nsfw`: free text is classified exactly as if it were a url. */
  function IsNsfw(text: String, nsfwDomains: set<String>): (r: bool)
    ensures r <==> ExtractDomain(text).value in nsfwDomains
  {
    IsNsfwDomain(text, nsfwDomains)
  }

  /**
   * The per-line transform of `load_nsfw_domains`: trim, then lower-case. The entry is lower
   * case and has nothing left to trim; it is empty exactly when the line was blank.
   */
  function NormaliseEntry(line: String): (d: String)
    ensures IsLower(d)
    ensures Trim(d) == d
    ensures d == [] <==> AllWhitespace(line)
  {
    var t := Trim(line);
    var d := ToLower(t);
    ToLowerIsLower(t);
    assert d != [] ==> d[0] == LowerChar(t[0]) && d[|d| - 1] == LowerChar(t[|t| - 1]);
    TrimOfTrimmed(d);
    d
  }

  /** The set of the images of `xs` under `f`: what `.map(f).collect::<HashSet<_>>()` builds. */
  function Image<A, B>(xs: seq<A>, f: A -> B): (r: set<B>)
    ensures forall x :: x in xs ==> f(x) in r
    ensures forall y :: y in r ==> exists x :: x in xs && y == f(x)
    ensures |r| <= |xs|
  {
    if xs == [] then {}
    else
      var rest := Image(xs[1..], f);
      var r := {f(xs[0])} + rest;
      assert |r| <= 1 + |rest|;
      assert forall x :: x in xs ==> x == xs[0] || x in xs[1..];
      assert forall y :: y in r ==> exists x :: x in xs && y == f(x) by {
        forall y | y in r ensures exists x :: x in xs && y == f(x) {
          if y != f(xs[0]) {
            var x :| x in xs[1..] && y == f(x);
            assert x in xs;
          }
        }
      }
      r
  }

  /**
   * The blocklist built from the lines of the blocklist file: the normalised lines, as a
   * set, so duplicates collapse.
   */
  function LoadNsfwDomains(lines: seq<String>): (r: set<String>)
    ensures forall l :: l in lines ==> NormaliseEntry(l) in r
    ensures forall d :: d in r ==> exists l :: l in lines && d == NormaliseEntry(l)
    ensures |r| <= |lines|
  {
    Image(lines, NormaliseEntry)
  }

  // ---------------------------------------------------------------------------
  // Properties of the classification

  /** Every blocklist entry is lower case and already trimmed. */
  lemma BlocklistEntriesNormalised(lines: seq<String>, d: String)
    requires d in LoadNsfwDomains(lines)
    ensures IsLower(d) && Trim(d) == d
  {
    var l :| l in lines && d == NormaliseEntry(l);
  }

  /** A blank line in the blocklist file puts the empty string into the blocklist. */
  lemma BlankLineListsEmptyDomain(lines: seq<String>, i: nat)
    requires i < |lines| && AllWhitespace(lines[i])
    ensures "" in LoadNsfwDomains(lines)
  {
    assert lines[i] in lines;
  }

  /** The domain of the empty text is the empty string, so "" is NSFW exactly when "" is listed. */
  lemma EmptyTextMatchesIffEmptyListed(nsfwDomains: set<String>)
    ensures ExtractDomain("") == Some("")
    ensures IsNsfw("", nsfwDomains) <==> "" in nsfwDomains
  {
  }

  /**
   * An entry holding an ASCII capital letter is never the domain of any url, so listing it
   * or not changes no classification.
   */
  lemma UpperCaseEntryNeverMatches(url: String, nsfwDomains: set<String>, d: String)
    requires !IsLower(d)
    ensures ExtractDomain(url).value != d
    ensures IsNsfwDomain(url, nsfwDomains) <==> IsNsfwDomain(url, nsfwDomains - {d})
  {
  }

  /** A character of the pattern occurs in any string the pattern starts. */
  lemma PrefixChar(p: String, s: String, i: nat)
    requires i < |p|
    ensures p <= s ==> p[i] in s
  {
    if p <= s {
      assert s[i] == p[i];
    }
  }

  /** Any number of leading `http://` are ignored. */
  lemma RepeatedHttpIgnored(url: String)
    ensures ExtractDomain(HttpScheme + url) == ExtractDomain(url)
  {
    var u := HttpScheme + url;
    assert u[|HttpScheme|..] == url;
    TrimStartMatchesStep(u, HttpScheme);
  }

  /** A single leading `https://` is ignored, provided no `http://` follows it. */
  lemma HttpsIgnored(url: String)
    requires !(HttpScheme <= url)
    ensures ExtractDomain(HttpsScheme + url) == ExtractDomain(url)
  {
    var u := HttpsScheme + url;
    assert u[4] == 's';
    TrimStartMatchesNoMatch(u, HttpScheme);
    TrimStartMatchesNoMatch(url, HttpScheme);
    assert u[|HttpsScheme|..] == url;
    TrimStartMatchesStep(u, HttpsScheme);
    assert StripPrefixes(u) == StripPrefixes(url);
  }

  /** Two strings that differ at a position inside the first cannot be prefix and string. */
  lemma DifferAt(p: String, s: String, i: nat)
    requires i < |p| && i < |s| && p[i] != s[i]
    ensures !(p <= s)
  {
  }

  /**
   * The strips run in a fixed order, so an `http://` that follows an `https://` survives
   * and the "domain" becomes the scheme name, whatever follows.
   */
  lemma SchemeOrderQuirk(rest: String)
    ensures ExtractDomain(HttpsScheme + (HttpScheme + rest)) == Some("http:")
  {
    var v := HttpScheme + rest;
    var u := HttpsScheme + v;
    var h := SplitFirst(v, '/');
    assert ExtractDomain(u) == Some(ToLower(h)) by { SchemeOrderStrip(rest); }
    assert h == "http:" by { SchemeSplit(rest); }
    SchemeNameLower();
  }

  /** What remains of such a url ends at the first `/` of `http://`. */
  lemma SchemeSplit(rest: String)
    ensures SplitFirst(HttpScheme + rest, '/') == "http:"
  {
    var v := HttpScheme + rest;
    assert v[..5] == HttpScheme[..5];
    assert v[5] == '/';
    assert '/' !in v[..5];
    SplitFirstAt(v, '/', 5);
  }

  lemma SchemeNameLower()
    ensures ToLower("http:") == "http:"
  {
    assert IsLower("http:");
    ToLowerIsLower("http:");
  }

  /** The strips applied to `https://http://…`: only the `https://` goes. */
  lemma SchemeOrderStrip(rest: String)
    ensures StripPrefixes(HttpsScheme + (HttpScheme + rest)) == HttpScheme + rest
  {
    var v := HttpScheme + rest;
    var u := HttpsScheme + v;
    DifferAt(HttpScheme, u, 4);
    TrimStartMatchesNoMatch(u, HttpScheme);
    assert u[|HttpsScheme|..] == v;
    TrimStartMatchesStep(u, HttpsScheme);
    DifferAt(HttpsScheme, v, 4);
    TrimStartMatchesNoMatch(v, HttpsScheme);
    DifferAt(WwwPrefix, v, 0);
    TrimStartMatchesNoMatch(v, WwwPrefix);
  }

  /** The capitalised `www.` prefix, which the case-sensitive strip leaves in place. */
  const UpperWww: String := "WWW."

  /**
   * The `www.` strip is case-sensitive and lower-casing comes after it, so a capitalised
   * `WWW.` survives as `www.`, and extracting again then removes it.
   */
  lemma WwwCaseQuirk(host: String)
    requires '/' !in host && !(WwwPrefix <= ToLower(host))
    ensures ExtractDomain(UpperWww + host) == Some(WwwPrefix + ToLower(host))
    ensures ExtractDomain(WwwPrefix + ToLower(host)) == Some(ToLower(host))
  {
    UpperWwwKept(host);
    LowerWwwStripped(ToLower(host));
  }

  lemma UpperWwwKept(host: String)
    requires '/' !in host
    ensures ExtractDomain(UpperWww + host) == Some(WwwPrefix + ToLower(host))
  {
    var u := UpperWww + host;
    DifferAt(HttpScheme, u, 0);
    DifferAt(HttpsScheme, u, 0);
    DifferAt(WwwPrefix, u, 0);
    TrimStartMatchesNoMatch(u, HttpScheme);
    TrimStartMatchesNoMatch(u, HttpsScheme);
    TrimStartMatchesNoMatch(u, WwwPrefix);
    assert StripPrefixes(u) == u;
    NoSlashConcat(UpperWww, host);
    SplitFirstWithoutSep(u, '/');
    ToLowerConcat(UpperWww, host);
    LowerOfUpperWww();
  }

  lemma NoSlashConcat(a: String, b: String)
    requires '/' !in a && '/' !in b
    ensures '/' !in a + b
  {
  }

  lemma LowerOfUpperWww()
    ensures ToLower(UpperWww) == WwwPrefix
  {
    var w := ToLower(UpperWww);
    assert |w| == 4 && w[0] == LowerChar('W') && w[3] == LowerChar('.');
  }

  lemma LowerWwwStripped(l: String)
    requires '/' !in l && !(WwwPrefix <= l) && IsLower(l)
    ensures ExtractDomain(WwwPrefix + l) == Some(l)
  {
    var w := WwwPrefix + l;
    DifferAt(HttpScheme, w, 0);
    DifferAt(HttpsScheme, w, 0);
    TrimStartMatchesNoMatch(w, HttpScheme);
    TrimStartMatchesNoMatch(w, HttpsScheme);
    assert w[|WwwPrefix|..] == l;
    TrimStartMatchesStep(w, WwwPrefix);
    TrimStartMatchesNoMatch(l, WwwPrefix);
    assert StripPrefixes(w) == l;
    SplitFirstWithoutSep(l, '/');
    ToLowerIsLower(l);
  }

  /**
   * Re-extracting from an extracted domain gives it back, unless the domain starts with
   * `www.` (which only happens when the original had a capitalised `WWW.`-style prefix).
   */
  lemma ExtractDomainIdempotent(url: String)
    requires !(WwwPrefix <= ExtractDomain(url).value)
    ensures ExtractDomain(ExtractDomain(url).value) == ExtractDomain(url)
  {
    var d := ExtractDomain(url).value;
    PrefixChar(HttpScheme, d, 5);
    PrefixChar(HttpsScheme, d, 6);
    TrimStartMatchesNoMatch(d, HttpScheme);
    TrimStartMatchesNoMatch(d, HttpsScheme);
    TrimStartMatchesNoMatch(d, WwwPrefix);
    SplitFirstWithoutSep(d, '/');
    ToLowerIsLower(d);
  }

  /**
   * A url `http://www.<host>/<path>` classifies by its host alone: it is NSFW exactly when the
   * lower-cased host is listed.
   */
  lemma HostOfFullUrl(host: String, path: String, nsfwDomains: set<String>)
    requires '/' !in host && !(WwwPrefix <= host)
    ensures ExtractDomain(HttpScheme + (WwwPrefix + (host + ("/" + path)))) == Some(ToLower(host))
    ensures IsNsfwDomain(HttpScheme + (WwwPrefix + (host + ("/" + path))), nsfwDomains)
        <==> ToLower(host) in nsfwDomains
  {
    var h := host + ("/" + path);
    StripOfFullUrl(host, path);
    assert h[..|host|] == host && h[|host|] == '/';
    SplitFirstAt(h, '/', |host|);
  }

  lemma StripOfFullUrl(host: String, path: String)
    requires '/' !in host && !(WwwPrefix <= host)
    ensures StripPrefixes(HttpScheme + (WwwPrefix + (host + ("/" + path)))) == host + ("/" + path)
  {
    var h := host + ("/" + path);
    var v := WwwPrefix + h;
    var u := HttpScheme + v;
    assert u[|HttpScheme|..] == v;
    TrimStartMatchesStep(u, HttpScheme);
    DifferAt(HttpScheme, v, 0);
    DifferAt(HttpsScheme, v, 0);
    TrimStartMatchesNoMatch(v, HttpScheme);
    TrimStartMatchesNoMatch(v, HttpsScheme);
    assert v[|WwwPrefix|..] == h;
    TrimStartMatchesStep(v, WwwPrefix);
    NoWwwBeforeSlash(host, path);
    TrimStartMatchesNoMatch(h, WwwPrefix);
  }

  /** A host that does not start with `www.` still does not once `/<path>` follows it. */
  lemma NoWwwBeforeSlash(host: String, path: String)
    requires '/' !in host && !(WwwPrefix <= host)
    ensures !(WwwPrefix <= host + ("/" + path))
  {
    var h := host + ("/" + path);
    if |host| >= |WwwPrefix| {
      assert h[..|WwwPrefix|] == host[..|WwwPrefix|];
    } else {
      assert h[|host|] == '/';
      DifferAt(WwwPrefix, h, |host|);
    }
  }
}
