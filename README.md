# pulse indexer — a Dafny model

`pulse` builds a full-text search index from JSONL crawl analyses. It globs the
`analyses/partition=*/*.jsonl` files, reads every line as a `JsonlEntry` record, and derives
an index document from each record. A document holds a preview of the trimmed content
(cut to 500 characters plus "..." when too long, so at most 503 characters), a language
that defaults to `en`, and an NSFW flag. The flag is set when the
domain of the text, title, meta content or url is on a blocklist. The indexer adds each
document to a tantivy `IndexWriter`, commits after every 1000 documents, and commits once
more at the end. This project models that core, as written in `pulse/src/main.rs`, and proves
what it guarantees.

Modules:

- `Wrappers`: `Option` and `Result`.
- `Text`: the parts of Rust's `str` API the program relies on. These are UTF-8 byte length,
  `trim` over the Unicode White_Space set, `to_lowercase`, `trim_start_matches` and
  `split('/').next()`.
- `Domains`: `extract_domain`, `is_nsfw_domain`, `is_nsfw`, and the blocklist built by
  `load_nsfw_domains` from the lines of its file.
- `Records`: `JsonlEntry`, the derived `Document`, `generate_preview` and the record-level
  NSFW flag.
- `Sink`: the index writer. It is a class that records the documents added and the commits
  issued. Whether each `add_document` and each `commit` call succeeds is decided by oracle
  sequences given when the writer is made.
- `Ingest`: `check_files_exist`, and the loops of `index_documents` over glob entries, over
  lines and over commits.

The model follows the code as written, including these behaviours a reader may not expect:

- The preview compares the byte length of the trimmed text with 500 but cuts at 500
  characters. A text of at most 500 characters but more than 500 bytes therefore gets
  "..." appended without losing anything; a non-ASCII text of at most 500 bytes comes back
  unchanged.
- The prefixes are stripped repeatedly and in a fixed order: `http://`, then `https://`, then
  `www.`. So `https://http://x` yields the domain `http:`, and `WWW.` is not stripped.
- `extract_domain` never returns `None`. An empty text gives the domain `""`, and a blank
  line in the blocklist puts `""` on the list, which flags every record with an empty field.
- The language default `en` applies only when the field is absent. A given empty language
  is kept.
- The url is checked twice, once through `is_nsfw` and once through `is_nsfw_domain`. The
  two checks are the same.
- An empty url is accepted.

## Model

| member | source | states |
|---|---|---|
| Text.Utf8Len | pulse/src/main.rs:26 | the byte length is at least the character count, and equals it exactly when the text is ASCII |
| Text.TrimStart | pulse/src/main.rs:25 | the result is a suffix of the input, everything removed is whitespace, and the result does not start with whitespace |
| Text.TrimEnd | pulse/src/main.rs:25 | the result is a prefix of the input, everything removed is whitespace, and the result does not end with whitespace |
| Text.Trim | pulse/src/main.rs:25 | the trimmed text is empty exactly when the input is all whitespace, and otherwise neither starts nor ends with whitespace |
| Text.TrimIdempotent | pulse/src/main.rs:25 | trimming an already trimmed text changes nothing |
| Text.ToLower | pulse/src/main.rs:222 | lower-casing keeps the length and maps every character to its lower-case form |
| Text.ToLowerIsLower | pulse/src/main.rs:222 | the lower-cased text has no upper-case letter, and lower-case text is left unchanged |
| Text.ToLowerIdempotent | pulse/src/main.rs:233 | lower-casing twice equals lower-casing once |
| Text.TrimStartMatches | pulse/src/main.rs:228-230 | the result is a suffix of the input that no longer starts with the pattern |
| Text.TrimStartMatchesRemovesCopies | pulse/src/main.rs:228-230 | what was removed is a whole number of copies of the pattern |
| Text.SplitFirst | pulse/src/main.rs:231-232 | the first piece is a prefix of the input without the separator, ending at the first separator or at the end |
| Text.SplitFirstAt | pulse/src/main.rs:231-232 | when the first separator is at position k, the first piece is the input up to k |
| Domains.StripPrefixes | pulse/src/main.rs:228-230 | what remains after the three prefix strips never starts with `www.` |
| Domains.ExtractDomain | pulse/src/main.rs:227-234 | a domain always exists, contains no `/`, is lower case and is no longer than the url |
| Domains.IsNsfwDomain | pulse/src/main.rs:236-242 | a url is flagged exactly when its extracted domain is in the blocklist |
| Domains.IsNsfw | pulse/src/main.rs:244-246 | a text is flagged exactly when its extracted domain is in the blocklist |
| Domains.NormaliseEntry | pulse/src/main.rs:222 | a normalised blocklist line is lower case and trimmed, and is empty exactly when the line was blank |
| Domains.LoadNsfwDomains | pulse/src/main.rs:219-225 | the blocklist holds exactly the normalised lines of the file and has at most one entry per line |
| Domains.BlocklistEntriesNormalised | pulse/src/main.rs:219-225 | every blocklist entry is lower case and trimmed |
| Domains.BlankLineListsEmptyDomain | pulse/src/main.rs:219-225 | a blank line puts the empty domain on the blocklist |
| Domains.EmptyTextMatchesIffEmptyListed | pulse/src/main.rs:227-246 | an empty text has the empty domain, and is flagged exactly when the empty domain is listed |
| Domains.UpperCaseEntryNeverMatches | pulse/src/main.rs:233-238 | a blocklist entry with an upper-case letter is never the domain of any url, so removing it from the blocklist changes no classification |
| Domains.RepeatedHttpIgnored | pulse/src/main.rs:228 | any number of leading `http://` prefixes do not change the domain |
| Domains.HttpsIgnored | pulse/src/main.rs:228-229 | a leading `https://` does not change the domain of a url that does not start with `http://` |
| Domains.SchemeOrderQuirk | pulse/src/main.rs:228-232 | `https://http://...` yields the domain `http:` because the strips run in a fixed order |
| Domains.WwwCaseQuirk | pulse/src/main.rs:230-233 | `WWW.host` keeps `www.` in its domain, while `www.host` loses it |
| Domains.ExtractDomainIdempotent | pulse/src/main.rs:227-234 | extracting the domain of a domain gives it back, unless that domain starts with `www.` |
| Domains.HostOfFullUrl | pulse/src/main.rs:227-242 | `http://www.host/path` has the domain lower(host), and is flagged exactly when that is listed |
| Records.GeneratePreview | pulse/src/main.rs:24-33 | the preview is the trimmed text, or a prefix of it followed by "...", and is at most max_len+3 characters |
| Records.PreviewWithinByteBudget | pulse/src/main.rs:25-27 | a trimmed text of at most max_len bytes, whatever its characters, is its own preview |
| Records.PreviewOfLongText | pulse/src/main.rs:28-31 | a text of more than max_len characters is cut to max_len characters followed by "..." |
| Records.PreviewMarksUncutMultibyteText | pulse/src/main.rs:26-31 | a text within the character limit but over the byte limit is kept whole and gets "..." appended |
| Records.PreviewMarksUncutExample | pulse/src/main.rs:26-31 | one non-ASCII, non-space character with limit 1 gives that character followed by "..." |
| Records.PreviewOfBlank | pulse/src/main.rs:25-27 | a blank text has an empty preview |
| Records.RecordIsNsfw | pulse/src/main.rs:114-118 | a record is flagged exactly when one of its text, title, meta or url fields has a listed domain |
| Records.MakeDocument | pulse/src/main.rs:106-128 | the document keeps the url, uses "" for a missing title, content or meta, "en" only for a missing language, holds the preview of its content (at most 503 characters) and the record's NSFW flag |
| Records.EmptyFieldFlagged | pulse/src/main.rs:107-118 | when the empty domain is listed, any record with an empty or missing field is flagged |
| Records.BlankBlocklistLineFlagsUntitled | pulse/src/main.rs:111-118 | a blank blocklist line flags every record without a title |
| Sink.IndexWriter.constructor | pulse/src/main.rs:86 | a new writer holds no documents and has issued no calls or commits |
| Sink.IndexWriter.AddDocument | pulse/src/main.rs:120-128 | a call is counted; if it succeeds the document is appended, otherwise nothing is added; commits are untouched |
| Sink.IndexWriter.Commit | pulse/src/main.rs:133 | a commit is logged with the current document count and makes that count durable only if it succeeds |
| Sink.DurableIsLastSuccess | pulse/src/main.rs:133 | the durable count is the count of the last successful commit, or 0 when none succeeded |
| Ingest.MatchCount | pulse/src/main.rs:62-67 | the number of matched paths is zero exactly when every glob entry is an error |
| Ingest.CheckFilesExist | pulse/src/main.rs:60-75 | a bad pattern is an error; otherwise the result is the number of matched paths, or NoFilesFound when there is none |
| Ingest.AcceptedCount | pulse/src/main.rs:103-153 | every line either yields a record or counts as malformed |
| Ingest.AcceptedMembership | pulse/src/main.rs:105-106 | a record is processed exactly when some line parses into it |
| Ingest.OneGoodOneMalformed | pulse/src/main.rs:145-152 | a malformed line is skipped and the good line before it is kept |
| Ingest.ProcessedPlusMalformed | pulse/src/main.rs:91-165 | over all files, processed records plus malformed lines equal the total line count |
| Ingest.DocumentOfRecord | pulse/src/main.rs:106-128 | the k-th document handed to the writer is the document derived from the k-th record |
| Ingest.CheckpointsCount | pulse/src/main.rs:130-133 | after n documents, n/1000 periodic commits have been issued |
| Ingest.CheckpointsAre | pulse/src/main.rs:130-133 | a periodic commit happens at count m exactly when 0 < m <= n and m is a multiple of 1000 |
| Ingest.CheckpointsIndex | pulse/src/main.rs:130-133 | the k-th periodic commit is issued at count (k+1)*1000 |
| Ingest.CommitCalls | pulse/src/main.rs:130-168 | a complete run issues n/1000+1 commits; 2500 documents commit at 1000, 2000 and 2500 |
| Ingest.IndexRecord | pulse/src/main.rs:120-143 | an accepted document raises the count by one and commits at a multiple of 1000; a refused document stops with the count unchanged |
| Ingest.IndexFile | pulse/src/main.rs:103-154 | every parsed line of the file is added in order with its commits, or the loop stops at the first refused document |
| Ingest.RefusalOutcome | pulse/src/main.rs:120-128 | a refused document ends the run with AddFailed, after exactly the documents read before it |
| Ingest.IoErrorOutcome | pulse/src/main.rs:99-103 | a failed open or read ends the run with IoError, after all records read before the failure |
| Ingest.FinalOutcome | pulse/src/main.rs:167-177 | a complete run adds every record, issues the final commit, and succeeds with the totals exactly when that commit succeeds |
| Ingest.IndexEntries | pulse/src/main.rs:91-168 | over a fresh writer, the glob loop and the final commit leave the writer and the result as Outcome states |
| Ingest.IndexGlobEntry | pulse/src/main.rs:92-164 | a glob error is skipped; a path's file is indexed, and unless the job ends there the running totals cover one more entry |
| Ingest.IndexPath | pulse/src/main.rs:93-161 | a file read in full adds all its records and its line count; a refusal or a failed read ends the job as Outcome states |
| Ingest.FinalCommit | pulse/src/main.rs:167-168 | after every file is read in full, the final commit decides between the totals and FinalCommitFailed |
| Ingest.IndexDocuments | pulse/src/main.rs:77-178 | a bad pattern fails at once; otherwise the writer holds the documents of the records read, in order, up to the first refused one, with the periodic commits, and the result is as Outcome states |

## Left out

- `create_search_index` and its schema (main.rs:35-58) are left out. It does file-system and clock work, and the model only needs the document fields.
- `main` (main.rs:180-204) is left out. It only wires the steps together. When the blocklist file cannot be read, it continues with an empty blocklist.
- Reading the blocklist file and splitting it with `lines()` are left out. `Domains.LoadNsfwDomains` takes the lines as given.
- Glob resolution and file reading are inputs. A glob result is the sequence of entries it yields, and a file is its lines plus whether reading reached the end. `main` and `index_documents` evaluate the glob separately, and the model does not relate the two results.
- JSON deserialisation is not modelled. Each line arrives already parsed (`Parsed`) or rejected (`Malformed`).
- Async execution and the writer's thread count and memory budget are left out. None of them affects which documents are indexed.
- A failure to create the writer (main.rs:86) is left out. It would end the job before any document is added.
- Timing, rates and tracing logs are left out. The source returns `()`. `Ingest.IndexDocuments` instead returns a `Summary` with counts the program logs: the documents processed and the files (the final log, main.rs:171-176), and each file's line count (the per-file log, main.rs:156-161).
- Text.ToLower: lowers only the ASCII letters, because the model has no Unicode case tables. Rust's `to_lowercase` also lowers non-ASCII letters and can change the length of the text.
- Text.Trim: the contract does not state that the trimmed text is the contiguous middle of the input. `Text.TrimStart` and `Text.TrimEnd` each state it for their own end, and `Text.Trim` is the one applied after the other.
- Ingest.IndexEntries, Ingest.IndexGlobEntry, Ingest.IndexPath, Ingest.FinalCommit, Ingest.IndexFile, Ingest.IndexRecord and the Outcome lemmas split `index_documents` into steps. They are structure of the model, not separate functions of the source.
