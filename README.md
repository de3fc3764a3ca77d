# CockroachDB changefeed to Elasticsearch, and a transaction retry helper

This project models two pieces of a small CockroachDB/Elasticsearch demo.

**The changefeed sink `jsonHandler`.** A CockroachDB changefeed with a
cloud-storage sink PUTs files of newline-delimited JSON to
`/<date>/<full_id>`. The handler works in four steps:

1. It reads the database, schema and table from the file name with the
   regular expression `^.+?-(\w+)\.(\w+)\.(\w+)-\d+\.ndjson`.
2. It decodes the body as UTF-8, strips it and splits it at newlines.
3. For each record it builds the document id: `schema-table-` followed by
   the primary-key values, each with its `-` removed, joined with `-`. The
   id is then percent-encoded with `quote_plus`.
4. It issues a DELETE when the row's `after` image is null and a POST of
   `after` otherwise, at `<db>/_doc/<id>`.

**The retry helper `run_transaction`.** It runs `op` inside `with conn:` up
to `max_retries` times:
- On `SerializationFailure` it rolls back and sleeps `2^k · 0.1 · (r + 0.5)`
  seconds, then tries again.
- Any other `psycopg2.Error` is re-raised at once.
- When every attempt failed, it raises `ValueError`.

The project has these modules:
- `Text`: `str.split`, `join`, `replace` and `strip`.
- `Utf8`: UTF-8 encoding and decoding.
- `UrlQuote`: `quote_plus` and `unquote_plus`.
- `ChangefeedAddress`: the file-name pattern and the leftmost, shortest-prefix
  search that `re.search` performs.
- `DocumentId`: the id scheme.
- `CdcProjector`: the handler. It has a pure specification (`Project`,
  `Ingest`). Elasticsearch is a `SearchIndex` object whose methods update
  the documents it holds and the log of requests it received. The imperative
  handler `HandleWrite`/`WriteLines` is proved against that specification.
- `RetryExecutor`: a specification function `Transaction` and the loop
  `RunTransaction` proved equal to it. The loop records calls, rollbacks,
  sleeps and the exit from `with conn:` as events.

Some edge cases of the handler are easy to misread:
- A blank body is not an empty batch. An empty or whitespace-only body is
  one empty line after `strip()` and `split('\n')`. `json.loads` rejects
  that line, so the request fails (`CdcProjector.IngestBlankBody`).
- An empty key is not rejected. It gives the id `schema-table-`
  (`DocumentId.RawIdEmptyKeyCollision`).
- A file name that does not match is not an error. The handler answers
  `OK` without writing anything (`CdcProjector.IngestSpec`).
- A line that fails to decode is not rolled back. It aborts the batch only
  from that line on, and the writes of the lines before it have already
  been issued (`CdcProjector.ProjectSpec`).

## Model

| member | source | states |
|---|---|---|
| Text.Remove | cdc_http.py:73 | `x.replace('-', '')` leaves no `-`, keeps the characters of `x` other than `-`, and is no longer than `x`. |
| Text.RemoveCounts | cdc_http.py:73 | `replace` drops every occurrence of `-` and keeps every occurrence of each other character, so the result is shorter by the number of `-`. |
| Text.RemoveAppend | cdc_http.py:73 | `replace` on a concatenation is the concatenation of the pieces' results, so what is kept stays in order. |
| Text.RemoveOne | cdc_http.py:73 | On one character, `replace` drops `-` and keeps anything else; with `RemoveAppend` this determines the result. |
| Text.Split | cdc_http.py:71 | `split('\n')` returns at least one part, and no part holds the separator. |
| Text.Join | cdc_http.py:76 | Defines `sep.join(parts)`. `SplitJoin` and `JoinSplit` relate it to `split`. |
| Text.Strip | cdc_http.py:71 | `strip()` gives a slice of the input that has only whitespace around it and neither starts nor ends with whitespace. The result is empty exactly when the input is all whitespace. |
| Text.SplitJoin | cdc_http.py:76 | Splitting a `join` at the separator gives the parts back when no part holds the separator. |
| Text.JoinSplit | cdc_http.py:71 | Joining the parts of `split('\n')` gives the text back, so no character of the body is lost or reordered. |
| Utf8.Decode | cdc_http.py:71 | Defines `request.data.decode()`: strict UTF-8 decoding, `None` where Python raises `UnicodeDecodeError`. `DecodeEncode` is its round trip. |
| Utf8.DecodeEncode | cdc_http.py:71 | Decoding the UTF-8 encoding of any text gives the text back. |
| Utf8.EncodeAscii | cdc_http.py:74 | ASCII text encodes to one byte per character, equal to its code. |
| UrlQuote.QuotePlus | cdc_http.py:74 | Defines `quote_plus` with no safe characters: the UTF-8 bytes of the text, unreserved ones kept, space as `+`, the rest as `%XX` in upper-case hex. Its properties are the lemmas below. |
| UrlQuote.UnquotePlus | cdc_http.py:74 | Defines `unquote_plus`: `+` as space, `%XX` as a byte, then UTF-8 decoding. It is the inverse of `QuotePlus` (`UnquoteQuotePlus`). |
| UrlQuote.QuotePlusAlphabet | cdc_http.py:74 | `quote_plus` output consists only of ASCII letters, digits, `_.-~`, `%` and `+`. In particular it holds no `/`. |
| UrlQuote.UnquoteQuotePlus | cdc_http.py:74 | `unquote_plus(quote_plus(s)) == s` for every string, and the percent-decoded bytes are the UTF-8 encoding of `s`. |
| UrlQuote.QuotePlusInjective | cdc_http.py:74 | Distinct strings quote to distinct strings. |
| UrlQuote.QuotePlusUnreserved | cdc_http.py:74 | Text made only of unreserved characters (RFC 3986 section 2.3) is left unchanged. |
| ChangefeedAddress.ParseAddress | cdc_http.py:62-66 | Defines `re.search` with the pattern: the groups of the first match, or `None`. `ParseAddressCorrect` and `ParseAddressComplete` prove it returns exactly the leftmost match. |
| ChangefeedAddress.SearchFrom | cdc_http.py:62 | Defines the lazy `.+?`: tries prefix lengths in increasing order and stops at a newline, which `.` cannot cross. `SearchFromCorrect` relates it to the leftmost match. |
| ChangefeedAddress.SearchFromCorrect | cdc_http.py:62 | From a prefix length with no match before it, the search finds the first matching length and its groups, and `None` means no length matches. |
| ChangefeedAddress.MatchTail | cdc_http.py:62-66 | Defines the match of `(\w+)\.(\w+)\.(\w+)-\d+\.ndjson` at one position, with greedy runs. `MatchesAtTail` proves it agrees with the declarative match. |
| ChangefeedAddress.MatchesAtTail | cdc_http.py:62-66 | At a prefix length, `MatchTail` succeeds after a `-` exactly when the pattern matches there, and it returns that match's groups. |
| ChangefeedAddress.ParseAddressCorrect | cdc_http.py:62-66 | If a match is found, some prefix length gives a match with those groups and no shorter prefix gives any. If none is found, the pattern matches at no prefix length. |
| ChangefeedAddress.ParseAddressComplete | cdc_http.py:62-66 | Whenever the pattern's leftmost match has groups `a`, the parse returns `a`. |
| ChangefeedAddress.MatchesAtUnique | cdc_http.py:62-66 | For a given prefix length the groups are determined: `\w+` is greedy and cannot cross `.` or `-`. |
| ChangefeedAddress.ParseAddressWords | cdc_http.py:63-66 | db, schema and table are non-empty runs of word characters. |
| ChangefeedAddress.ParseAddressSpelled | cdc_http.py:62-66 | `<prefix>-<db>.<schema>.<table>-<digits>.ndjson<rest>` parses to (db, schema, table) whenever the prefix is non-empty and holds no `.` and no newline. The prefix may hold `-`. |
| ChangefeedAddress.MatchesAtExtended | cdc_http.py:62 | With no end anchor, text appended after a match leaves the match in place. |
| ChangefeedAddress.ParseAddressExtended | cdc_http.py:62-66 | With no end anchor, appending text to a name that parses leaves the parse unchanged: an earlier `-` cannot start a match that reaches into the appended text. |
| ChangefeedAddress.NoMatchBeforeHyphen | cdc_http.py:62 | When no `.` precedes a `-`, no shorter prefix lets the pattern match, whatever other `-`s precede it. |
| ChangefeedAddress.NoHyphenNoMatch | cdc_http.py:62-63 | A name without `-` never matches. |
| ChangefeedAddress.ParseAddressExample | cdc_http.py:62-66 | `foo-mydb.public.orders-7.ndjson` gives (mydb, public, orders). |
| ChangefeedAddress.ParseAddressTrailingExample | cdc_http.py:62-66 | `foo-mydb.public.orders-7.ndjson.tmp` still gives (mydb, public, orders). |
| ChangefeedAddress.ParseAddressSinkExample | cdc_http.py:62-66 | A sink-shaped name, `2020-5608-1-72-0000-mydb.public.orders-1.ndjson`, gives (mydb, public, orders) despite the `-`s before the topic. |
| ChangefeedAddress.ParseAddressGarbageExample | cdc_http.py:62-63 | `garbage.txt` does not match. |
| DocumentId.KeyParts | cdc_http.py:73 | One part per key value, in order. Each part is the value with `-` removed. |
| DocumentId.RawId | cdc_http.py:69-73 | Defines the unquoted id `schema-table-` followed by the `-`-free key values joined by `-`. `RawIdSplit` and `RawIdInjective` are its inverse and its exact collision condition. |
| DocumentId.EsId | cdc_http.py:74 | Defines the id sent to Elasticsearch, `quote_plus` of the raw id. `EsIdUnquote` and `EsIdIdentifiesRow` state what it preserves. |
| DocumentId.RawIdSplit | cdc_http.py:69-73 | Splitting the raw id at `-` gives `[schema, table]` followed by the key values with `-` removed. An empty key reads back as one empty field. |
| DocumentId.RawIdInjective | cdc_http.py:69-73 | For schema and table without `-`, equal raw ids mean equal schema, table and `-`-free key values, and conversely. |
| DocumentId.RawIdHyphenCollision | cdc_http.py:73 | The keys `["a-b"]` and `["ab"]` give the same id. |
| DocumentId.RawIdEmptyKeyCollision | cdc_http.py:73 | An empty key gives `schema-table-`, the same as the key `[""]`. |
| DocumentId.EsIdNoSlash | cdc_http.py:74 | The quoted id holds no `/` and only quote-safe characters. |
| DocumentId.EsIdUnquote | cdc_http.py:74 | `unquote_plus` of the quoted id is the raw id. |
| DocumentId.EsIdInjective | cdc_http.py:74 | Quoted ids are equal exactly when the raw ids are. |
| DocumentId.EsIdIdentifiesRow | cdc_http.py:62-74 | For word-character schema and table names, two rows get the same document id exactly when schema, table and `-`-free key values agree. |
| DocumentId.EsIdPlain | cdc_http.py:74 | A raw id made of unreserved characters is sent as it is. |
| CdcProjector.Path | cdc_http.py:76 | Defines `'/'.join([index_name, "_doc", es_id])`. `PathSplit` and `PathInjective` state its inverse. |
| CdcProjector.Target | cdc_http.py:68-74 | Defines a record's document: the index is the db group, and the id is the quoted id of schema, table and key. `TargetPath` and `TargetsCoincide` state its properties. |
| CdcProjector.WriteFor | cdc_http.py:75-84 | Defines the write for one record: a DELETE of the target when `after` is null, a POST of `after` to it otherwise. `ApplyWriteFor` states its effect. |
| CdcProjector.Project | cdc_http.py:71-85 | Defines the `for` loop over lines as a value. `ProjectSpec` characterises it, and `WriteLines` is proved equal to it. |
| CdcProjector.Ingest | cdc_http.py:56-86 | Defines the whole request as a value. `IngestSpec` characterises it, and `HandleWrite` is proved equal to it. |
| CdcProjector.Apply | cdc_http.py:77-84 | Defines what one request does to Elasticsearch's documents: POST replaces and DELETE removes. `SearchIndex.Delete` and `SearchIndex.Post` are proved to do this. |
| CdcProjector.ApplyAll | cdc_http.py:71-84 | Defines the requests applied in order. `ApplyAllLastWrite` states the last-write-wins result. |
| CdcProjector.Lines | cdc_http.py:71 | Splitting the stripped body always yields at least one line. |
| CdcProjector.ProjectSpec | cdc_http.py:71-84 | The loop issues write `k` for line `k`: a DELETE or POST of that line's record. It stops at the first line that fails to decode, issuing nothing for it or later lines. With no failure there is one write per line. |
| CdcProjector.ProjectStops | cdc_http.py:71-72 | The loop fails at a line that does not decode, every line before it having decoded. It runs to the end only when every line decodes. |
| CdcProjector.NoFailureBefore | cdc_http.py:71-72 | If the first `i` lines decode, the loop fails no earlier than line `i`, and exactly there if line `i` does not decode. |
| CdcProjector.IngestSpec | cdc_http.py:56-86 | An unmatched name gives `OK` and no writes. A matched name with a body that is not UTF-8 fails with no writes, and that failure occurs in no other case. Otherwise the writes follow the lines in order up to the first undecodable one, where the request fails. |
| CdcProjector.IngestBlankBody | cdc_http.py:71-72 | A blank body is the single line `""`. The request fails at line 0 with no write. |
| CdcProjector.SearchIndex.Delete | cdc_http.py:79 | A DELETE is logged and removes the document, whether or not it was present. |
| CdcProjector.SearchIndex.Post | cdc_http.py:83 | A POST is logged and replaces the document with the body. |
| CdcProjector.HandleWrite | cdc_http.py:56-86 | The handler's answer, the requests Elasticsearch receives (in order) and its resulting documents are those `Ingest` specifies. |
| CdcProjector.WriteLines | cdc_http.py:71-85 | The `for` loop issues exactly `Project`'s writes, in order, and reports the same failing line. |
| CdcProjector.WriteRecord | cdc_http.py:75-84 | One record issues one DELETE (null `after`) or one POST of `after`, at the record's document. |
| CdcProjector.PathSplit | cdc_http.py:76 | The path `index/_doc/id` splits back into index, `_doc` and id. |
| CdcProjector.PathInjective | cdc_http.py:76 | Distinct documents have distinct paths. |
| CdcProjector.TargetPath | cdc_http.py:68-76 | A record's write goes to `<db>/_doc/<quoted id>`: the index is the db group. |
| CdcProjector.TargetsCoincide | cdc_http.py:73-76 | Two records of one file address the same document exactly when their key values agree once `-` is removed. |
| CdcProjector.ApplyWriteFor | cdc_http.py:77-84 | After a record's write, its document holds `after`, or is absent if `after` is null. Every other document is unchanged. |
| CdcProjector.ApplyRecordTwice | cdc_http.py:77-84 | Applying the same record twice gives the same index as applying it once. |
| CdcProjector.DeleteAbsent | cdc_http.py:79 | Deleting an absent document changes nothing. |
| CdcProjector.LastWriteTo | cdc_http.py:71-84 | Finds the last write of a batch to a document, or reports that none touches it. |
| CdcProjector.ApplyAllLastWrite | cdc_http.py:71-84 | After a batch, each document holds the effect of the last write to it. An untouched document keeps what it held. |
| CdcProjector.BatchLastRecordWins | cdc_http.py:71-84 | After a batch of records, a document holds the `after` of the last record with its key, or is absent if that is null. |
| RetryExecutor.ClauseFor | html_indexer.py:52-62 | `SerializationFailure` is retried although it is a `psycopg2.Error`. Other `psycopg2.Error`s are re-raised. Anything else is caught by neither clause. |
| RetryExecutor.Backoff | html_indexer.py:56 | Defines the sleep `2^k · 0.1 · (r + 0.5)`. `BackoffBounds` gives its range. |
| RetryExecutor.Attempts | html_indexer.py:48-62 | Defines the loop from attempt `k` on as a value. `AttemptsShape` gives its exact events. |
| RetryExecutor.Transaction | html_indexer.py:46-63 | Defines the whole call, inside `with conn:`, as a value. `TransactionShape` and the `Iff` lemmas characterise it, and `RunTransaction` is proved equal to it. |
| RetryExecutor.RunTransaction | html_indexer.py:46-63 | The loop's result and its calls, rollbacks, sleeps and `with conn:` exit are exactly `Transaction`'s. `max_retries` defaults to 3. |
| RetryExecutor.FirstStop | html_indexer.py:48-62 | Finds the first attempt that does not raise `SerializationFailure`, or the attempt after the budget. |
| RetryExecutor.AttemptsShape | html_indexer.py:48-62 | From attempt `k` on, the loop's events are the failed attempts' call/rollback/sleep triples, then the stopping call if the budget allows one. |
| RetryExecutor.TransactionShape | html_indexer.py:46-63 | The whole call has that shape, then the exit from `with conn:`. It commits exactly on success. |
| RetryExecutor.SuccessIff | html_indexer.py:49-51 | The call returns normally exactly when attempt `n` completes after `n - 1` serialization failures within the budget. `op` was then called `n` times. |
| RetryExecutor.PropagatedIff | html_indexer.py:59-62 | An exception other than `SerializationFailure` at attempt `n` is re-raised unchanged. Then `op` was called `n` times, with `n - 1` rollbacks and no further attempt. |
| RetryExecutor.ExhaustedIff | html_indexer.py:48-63 | `ValueError` is raised exactly when every attempt in the budget fails with `SerializationFailure`. Then there were `max_retries` calls, rollbacks and sleeps (none if `max_retries < 1`). |
| RetryExecutor.NoBudget | html_indexer.py:48-63 | With `max_retries < 1`, `op` is never called and `ValueError` is raised. |
| RetryExecutor.InvocationsBounded | html_indexer.py:46-63 | `op` is called at most `max_retries` times. There is exactly one exit from `with conn:`, and it is the last event. |
| RetryExecutor.TransactionCounts | html_indexer.py:48-63 | With `n` the stopping attempt, there are `n - 1` rollbacks and sleeps, and `n` calls (`n - 1` when exhausted). |
| RetryExecutor.BackoffBounds | html_indexer.py:56 | With `r` in `[0, 1)`, the sleep after attempt `k` lies in `[0.05·2^k, 0.15·2^k)`. |
| RetryExecutor.SleepFollowsFailure | html_indexer.py:52-58 | Every sleep comes right after a rollback, which comes right after a call that raised `SerializationFailure`. The sleep lasts `2^k · 0.1 · (r + 0.5)` for that attempt `k`. |

## Left out

- JSON: `json.loads(line)` and the lookups `obj["key"]` and `obj["after"]` are the parameter `decode`, with `None` for any exception they raise. No JSON parser is modelled. Key values are strings; an integer key would make `x.replace` raise, and it is not modelled.
- Unicode `\w` and `\d`: the pattern's classes are the ASCII ones. Non-ASCII text is still quoted correctly, through its UTF-8 bytes.
- Lone surrogates: a JSON `\ud800` escape gives a string holding a lone surrogate, and `quote_plus` then raises `UnicodeEncodeError` before the write. Dafny strings cannot hold one, so `decode` maps such a line to `None`, which fails the request at that line as Python does.
- UTF-8 errors: `unquote_plus` and `request.data.decode()` give `None` on invalid UTF-8. `unquote_plus` would insert U+FFFD instead; this never arises for quoted ids.
- HTTP: Flask routing, the `/status` route, `waitress`, the `date` segment, `es_url`, credentials, TLS settings, headers, status codes and the `(OK, 200)` tuple. These are plumbing. The answer is `Ok` or the failure that would escape.
- Elasticsearch responses: `requests.delete`/`requests.post` always succeed in the model and only update `SearchIndex`. Connection errors, error statuses and the `r.json()` call after each write are not modelled; that call can raise on a non-JSON response and would abort the batch.
- Logging calls and the `print` calls in `run_transaction`: output only.
- The `--create-index` branch, env/config reads, `es_search.py`, and `insert_row`, `index_uri` and the script body of `html_indexer.py`: I/O and database plumbing outside the core.
- `random.random()` and `time.sleep`: the jitter is the parameter `jitter(k)`, and a sleep is a recorded `Sleep` event.
- RetryExecutor.Backoff: computed in exact real arithmetic, not IEEE double precision.
- `psycopg2` itself: the transaction's effect on the database is not modelled. The commit or rollback when leaving `with conn:` is an event, and `op` is a sequence of outcomes.
- Concurrency across requests: the handler is modelled one request at a time.
