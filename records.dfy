/**
 * The record read from one JSONL line (`JsonlEntry`), the document derived from it for the
 * index, and the derivation itself: `generate_preview`, the language default and the
 * record-level NSFW flag (pulse/src/main.rs).
 */
module Records {
  import opened Wrappers
  import opened Text
  import opened Domains

  /**
   * One deserialised JSONL record. `url` is a required string (a line without it does not
   * deserialise at all), every other field may be absent; an empty `url` is accepted.
   */
  datatype JsonlEntry = JsonlEntry(
    url: String,
    title: Option<String>,
    contentText: Option<String>,
    metaContent: Option<String>,
    language: Option<String>)

  /** The fields handed to the index for one record. */
  datatype Document = Document(
    url: String,
    title: String,
    content: String,
    preview: String,
    language: String,
    metaTags: String,
    nsfw: bool)

  /** The `max_len` the pipeline passes to `generate_preview`. */
  const PreviewMaxLen: nat := 500
  const Ellipsis: String := "..."
  const DefaultLanguage: String := "en"

  function Min(a: nat, b: nat): nat {
    if a <= b then a else b
  }

  /**
   * `generate_preview`: the trimmed text if its UTF-8 length in BYTES is at most `maxLen`;
   * otherwise its first `maxLen` CHARACTERS (all of it when it has fewer) followed by "...".
   * The result is always the trimmed text, or a prefix of it with the marker appended.
   */
  function GeneratePreview(text: String, maxLen: nat): (r: String)
    ensures |r| <= maxLen + |Ellipsis|
    ensures r == Trim(text)
         || (|r| >= |Ellipsis| && r[|r| - |Ellipsis|..] == Ellipsis && r[..|r| - |Ellipsis|] <= Trim(text))
  {
    var t := Trim(text);
    if Utf8Len(t) <= maxLen then t
    else
      var r := t[..Min(maxLen, |t|)] + Ellipsis;
      assert r[..|r| - |Ellipsis|] == t[..Min(maxLen, |t|)];
      r
  }

  /**
   * A trimmed text of at most `maxLen` bytes comes back unchanged, whatever its characters:
   * "é" with `maxLen` 2 is its own preview.
   */
  lemma PreviewWithinByteBudget(text: String, maxLen: nat)
    requires Utf8Len(Trim(text)) <= maxLen
    ensures GeneratePreview(text, maxLen) == Trim(text)
    ensures |GeneratePreview(text, maxLen)| <= maxLen
  {
  }

  /**
   * A trimmed text of more than `maxLen` characters is cut to exactly `maxLen` characters,
   * which are its first ones, and marked.
   */
  lemma PreviewOfLongText(text: String, maxLen: nat)
    requires |Trim(text)| > maxLen
    ensures GeneratePreview(text, maxLen) == Trim(text)[..maxLen] + Ellipsis
    ensures |GeneratePreview(text, maxLen)| == maxLen + |Ellipsis|
  {
  }

  /**
   * Because the length test counts bytes but the cut counts characters, a text with at most
   * `maxLen` characters but more than `maxLen` bytes comes back whole with the marker
   * appended, although nothing was cut.
   */
  lemma PreviewMarksUncutMultibyteText(text: String, maxLen: nat)
    requires |Trim(text)| <= maxLen < Utf8Len(Trim(text))
    ensures GeneratePreview(text, maxLen) == Trim(text) + Ellipsis
  {
    var t := Trim(text);
    assert Min(maxLen, |t|) == |t|;
    assert t[..|t|] == t;
  }

  /**
   * Such texts exist: any single character outside ASCII that is not whitespace (`é`, say)
   * against a one-byte budget.
   */
  lemma PreviewMarksUncutExample(c: char)
    requires (c as int) >= 0x80 && !IsWhitespace(c)
    ensures GeneratePreview([c], 1) == [c] + Ellipsis
  {
    var t: String := [c];
    assert Trim(t) == t by { TrimOfTrimmed(t); }
    assert Utf8Len(t) == Utf8Width(c) by { assert t[1..] == []; }
    PreviewMarksUncutMultibyteText(t, 1);
  }

  /** Blank or missing content yields an empty preview. */
  lemma PreviewOfBlank(text: String, maxLen: nat)
    requires AllWhitespace(text)
    ensures GeneratePreview(text, maxLen) == ""
  {
  }

  /**
   * The record-level flag: `is_nsfw` on content, title and meta (a missing field read as ""), then
   * `is_nsfw` and `is_nsfw_domain` on the url. It holds exactly when one of the four texts
   * has a listed domain, so the order of the tests does not matter and the second url test
   * adds nothing.
   */
  function RecordIsNsfw(e: JsonlEntry, nsfwDomains: set<String>): (r: bool)
    ensures r <==> exists f ::
      f in {e.contentText.UnwrapOr(""), e.title.UnwrapOr(""), e.metaContent.UnwrapOr(""), e.url}
      && IsNsfwDomain(f, nsfwDomains)
  {
    var content := e.contentText.UnwrapOr("");
    var title := e.title.UnwrapOr("");
    var meta := e.metaContent.UnwrapOr("");
    AnyOfFour(content, title, meta, e.url, f => IsNsfwDomain(f, nsfwDomains));
    IsNsfw(content, nsfwDomains)
    || IsNsfw(title, nsfwDomains)
    || IsNsfw(meta, nsfwDomains)
    || IsNsfw(e.url, nsfwDomains)
    || IsNsfwDomain(e.url, nsfwDomains)
  }

  /** A disjunction over four texts is a test over the set of them. */
  lemma AnyOfFour(a: String, b: String, c: String, d: String, p: String -> bool)
    ensures (p(a) || p(b) || p(c) || p(d)) <==> exists f :: f in {a, b, c, d} && p(f)
  {
    var fields := {a, b, c, d};
    if exists f :: f in fields && p(f) {
      var f :| f in fields && p(f);
      assert f == a || f == b || f == c || f == d;
    }
    if p(a) { assert a in fields; }
    if p(b) { assert b in fields; }
    if p(c) { assert c in fields; }
    if p(d) { assert d in fields; }
  }

  /**
   * The document built from one record: url, title, content and meta tags as given (missing
   * ones as ""), the language as given or "en" only when absent (a given "" is kept), the
   * preview of the stored content, of at most 503 characters, and the record's NSFW flag.
   */
  function MakeDocument(e: JsonlEntry, nsfwDomains: set<String>): (d: Document)
    ensures d.url == e.url
    ensures e.title.Some? ==> d.title == e.title.value
    ensures e.title.None? ==> d.title == ""
    ensures e.contentText.Some? ==> d.content == e.contentText.value
    ensures e.contentText.None? ==> d.content == ""
    ensures e.metaContent.Some? ==> d.metaTags == e.metaContent.value
    ensures e.metaContent.None? ==> d.metaTags == ""
    ensures e.language.Some? ==> d.language == e.language.value
    ensures e.language.None? ==> d.language == "en"
    ensures d.preview == GeneratePreview(d.content, PreviewMaxLen)
    ensures |d.preview| <= PreviewMaxLen + |Ellipsis|
    ensures d.nsfw == RecordIsNsfw(e, nsfwDomains)
  {
    var content := e.contentText.UnwrapOr("");
    Document(
      e.url,
      e.title.UnwrapOr(""),
      content,
      GeneratePreview(content, PreviewMaxLen),
      e.language.UnwrapOr(DefaultLanguage),
      e.metaContent.UnwrapOr(""),
      RecordIsNsfw(e, nsfwDomains))
  }

  /**
   * Once "" is listed (as a blank blocklist line makes it), every record with a missing or
   * empty content, title or meta field, or an empty url, is flagged.
   */
  lemma EmptyFieldFlagged(e: JsonlEntry, nsfwDomains: set<String>)
    requires "" in nsfwDomains
    requires e.contentText.UnwrapOr("") == "" || e.title.UnwrapOr("") == ""
          || e.metaContent.UnwrapOr("") == "" || e.url == ""
    ensures MakeDocument(e, nsfwDomains).nsfw
  {
    EmptyTextMatchesIffEmptyListed(nsfwDomains);
  }

  /** The same, starting from the blocklist file: one blank line flags every record without a title. */
  lemma BlankBlocklistLineFlagsUntitled(lines: seq<String>, i: nat, e: JsonlEntry)
    requires i < |lines| && AllWhitespace(lines[i])
    requires e.title.None?
    ensures MakeDocument(e, LoadNsfwDomains(lines)).nsfw
  {
    BlankLineListsEmptyDomain(lines, i);
    EmptyFieldFlagged(e, LoadNsfwDomains(lines));
  }
}
