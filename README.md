# Vahset user-lookup service: a Dafny model of `VahsetAPI`

`api.py` is a small lookup service for user records. The dump files it reads
hold one SQL-style tuple per line, for example
`('123', 'dXNlckBleGFtcGxlLmNvbQ==', ..., '192.0.2.1'),`. Each line becomes a
record keyed by user id, holding the base64-decoded email, the network address
and the email as encoded. The records live in an insertion-ordered store, an
`OrderedDict`. The service builds the store in one of two ways: from a fresh
cache file, or by a full reload of every dump file. It answers lookups by id,
substring searches, bulk lookups and a count. A lookup that misses the store
reads the files again and inserts the record it finds. That insert evicts the
oldest record once the store grows past `MAX_CACHE_SIZE`.

The model has seven modules:

- `PyStr`: the Python string built-ins the service uses. These are `strip()`
  with Python's `isspace` set, `strip("'\"")`, `lower()`, `split('\n')` and
  the `in` substring test.
- `Base64`: `base64.b64decode` as CPython's non-validating `a2b_base64`
  decodes, as a partial function. `b64encode` is its partner, and the round
  trip is proved. The alphabet is that of RFC 4648, section 4.
- `LineParser`: `parse_line`, in two forms.
  - `ParseLine` is a method that walks the characters as the source does.
  - `Parse` is the specification it is proved against: a fold of one
    tokeniser step over the characters.
- `OrderedDict`: `OrderedDict` as a value.
  - Assigning to a new key appends it.
  - Assigning to an existing key overwrites its value in place.
  - `PopOldest` is `del d[next(iter(d))]`.
- `Sources`: the records that a sequence of fetched files yields. A file that
  could not be fetched is `None`. This module also holds the full-reload fold
  and the first record for an id.
- `Api`: the constants and the class `VahsetApi`, whose fields `order` and
  `users` are the store's key order and its records. It also holds the
  specification functions for `search`, `bulk_search` and the live insert.
- `Optional`: the `Option` type.

The methods follow the loops of the source.
- `ParseLine` holds the tokenising loop.
- `LoadFromSources` and `AssignLines` hold the nested loops of
  `load_from_github`.
- `GetUser` and `FindLine` hold the loops of the live path.
- `FirstHits` holds the loop of `search`, with its early exit at 50 results.
- `BulkSearch` holds the loop of `bulk_search`.

Each method is proved equal to a specification function, and the lemmas state
what those functions promise.

Inputs the service gets from the world are parameters of the model:
- the fetched file contents (`seq<Option<string>>`);
- the current time and the cache file's modification time, in whole seconds;
- the cache file's records, or `None` when it cannot be read;
- the UTF-8 decoder (`Utf8Decoder`).

The lemmas about `Sources` are stated for any `Reader`, which is a pair of a
line splitter and a line parser. The service itself uses
`ServiceReader(utf8)`: the split is `content.strip().split('\n')` and the
parser is `parse_line`.

Some behaviour one might expect of such a service is not in the code, and the
model follows the code:
- On a full reload, a repeated id keeps the position of its first appearance
  and takes the value of its last. One might expect the first-seen record to
  win instead.
- A live insert past the bound evicts the single oldest key, not a batch of
  the oldest records.
- `search` has no minimum query length, and an empty query matches every
  record.
- Ids are not checked for being empty or `"null"`.
- A lookup by id is exact. There is no lookup by variations of the id and no
  substring fallback.
- There is no email or address index.
- No `=` padding is added before base64 decoding. Text missing its padding
  (`"QQ"`, `"QQ="`) fails to decode, and the encoded text is kept as the
  email. Extra `=` after a complete padding group is ignored (`"QQ==="`), and
  so is `=` where a new group of four would start (`"QUJD="`).
- An email that decodes to the empty string stays empty.
- A full reload does not enforce `MAX_CACHE_SIZE`. The bound is therefore not
  an invariant of the class. `InsertLiveBound` shows that a store within the
  bound stays within it.

## Model

| member | source | states |
|---|---|---|
| LineParser.Body | api.py:84-92 | a line gives a body exactly when, once stripped, it is non-empty, starts with `(` and ends with `)` or `),`; the body is the text between the parentheses |
| LineParser.Unwrap | api.py:84-92 | the strip, comma-drop and parenthesis checks of `parse_line` compute `Body` |
| LineParser.Tokenize | api.py:94-114 | the character loop with `in_quotes`/`quote_char` yields exactly the fields of the tokeniser fold `Fields` |
| LineParser.RunQuoted | api.py:99-111 | while a quote is open, every other character goes into the current field, commas and the other quote character included |
| LineParser.FieldsWithoutQuotes | api.py:94-114 | for text without quote characters the fields are the comma-split pieces, each stripped, with an empty last piece dropped |
| LineParser.Parse | api.py:83-139 | `parse_line` gives a record exactly when the line has a body with at least nine fields, and None otherwise |
| LineParser.ParseLine | api.py:83-139 | the imperative `parse_line` computes `Parse` on every line |
| LineParser.EmailOf | api.py:118-126 | the email is `"N/A"` for an empty or `"null"` field, the encoded text whenever `b64decode` fails (non-ASCII text, wrong padding or length), and the UTF-8 decoding of the bytes when base64 decoding succeeds |
| LineParser.ToParsed | api.py:116-137 | the record takes the quote-stripped field 0 as its id and field 1 as its encoded email, the email from `EmailOf` of field 1, and as address the quote-stripped field 8, or `"N/A"` exactly when that is empty, `"null"` or `"N/A"` |
| LineParser.ToParsedUsesThreeFields | api.py:116-137 | only fields 0, 1 and 8 reach the record: field lists that agree on them give the same record |
| LineParser.IpOf | api.py:128-130 | the address is the field as given, or `"N/A"`; it is `"N/A"` exactly when the field is empty, case-insensitively `"null"`, or `"N/A"` itself |
| LineParser.ParseDumpLine | api.py:83-137 | a tuple line of quoted fields, with or without the trailing comma, parses exactly when it has at least nine fields, to the unquoted id of field 0, the email decoded from field 1, the unchanged encoded field 1 and the address of field 8 |
| LineParser.EmailOfEncoded | api.py:121-124 | an email that `b64encode` produced comes back as its decoded text |
| LineParser.EmailOfUndecodable | api.py:121-126 | a non-null email field that is not valid base64 is kept as the encoded text: non-ASCII text, or unpadded text whose count of alphabet characters is not a multiple of four |
| Base64.Decode | api.py:123 | `b64decode` of text with a non-ASCII character fails, as Python's `ValueError` does |
| Base64.PaddingCases | api.py:123 | `"QQ"` and `"QQ="` fail to decode; `"QQ=="` and `"QQ==="` decode to `b"A"`; `"QUJD="` decodes to `b"ABC"` |
| Base64.DecodeEncode | api.py:123 | `b64decode(b64encode(b)) == b` for every byte string |
| Base64.DecodeIgnoresNoise | api.py:123 | on ASCII text the decoder skips characters outside the alphabet, so the text decodes as its alphabet characters and `=` alone |
| Base64.DecodeUnpadded | api.py:123 | ASCII text without `=` decodes exactly when its count of alphabet characters is a multiple of four |
| PyStr.LStripSpec | api.py:84 | `lstrip` removes the longest prefix of stripped characters and leaves the rest unchanged |
| PyStr.RStripSpec | api.py:84 | `rstrip` removes the longest suffix of stripped characters and leaves the rest unchanged |
| PyStr.SplitJoin | api.py:67 | `split('\n')` gives pieces without a newline that join back to the text |
| OrderedDict.Put | api.py:70-74 | assigning to a key sets its value and leaves every other key and value as it was; the key order grows only by appending a new key |
| OrderedDict.PopOldest | api.py:181-182 | deleting `next(iter(d))` drops exactly the first key and keeps every other record |
| OrderedDict.ValidSize | api.py:233 | `len(d)` equals the number of keys in the order |
| OrderedDict.PutAllKeys | api.py:63-74 | after a run of assignments into an empty dict, the keys are exactly the assigned keys |
| OrderedDict.PutAllValues | api.py:63-74 | after a run of assignments, each key holds the value of its last assignment |
| OrderedDict.PutAllOrder | api.py:63-74 | after a run of assignments, the keys stand in the order of their first assignment |
| Sources.Reload | api.py:61-79 | the store a full reload builds, by assigning the records of every available file in order into an empty dict, is a consistent ordered dict |
| Sources.UnparseableLineIgnored | api.py:67-69 | a line that `parse_line` rejects contributes no record |
| Sources.UnavailableSourceIgnored | api.py:64-76 | a file that could not be fetched contributes no record |
| Sources.EmptySource | api.py:167 | empty content yields no record |
| Sources.ReloadContents | api.py:60-81 | after a full reload the keys are exactly the ids of the parsed records; each key sits at the position of its first record and holds the value of its last |
| Sources.ReloadKeys | api.py:63-79 | an id is in the reloaded store exactly when some parseable line of an available file carries it |
| Sources.FirstMatchIsFirst | api.py:164-172 | the live lookup's record is that of the earliest record with the id, across files and lines in order; there is none exactly when no record has the id |
| Sources.FirstMatchAppend | api.py:164-172 | the first record in two runs of files is that of the first run, or else that of the second |
| Api.FreshBoundary | api.py:51-56 | a readable cache file one second short of `CACHE_TTL` old is loaded as it is; one exactly `CACHE_TTL` old is stale and the store is reloaded |
| Api.CachedStore | api.py:47-58 | the store `load_cache` leaves is a consistent ordered dict: the fresh, readable cache file's records in file order, or else the full reload |
| Api.CachedStoreChoice | api.py:47-58 | a missing, stale or unreadable cache file means a full reload; a fresh readable one gives exactly its own ids |
| Api.InsertLiveKeys | api.py:174-182 | inserting a new id appends it; past `MAX_CACHE_SIZE` exactly the oldest key goes; every other record keeps its value |
| Api.InsertLiveKeepsNew | api.py:174-182 | the newly inserted id survives its own insert, with its record, as the newest key |
| Api.InsertLiveBound | api.py:180-182 | a store within `MAX_CACHE_SIZE` stays within it after a live insert |
| Api.InsertLive | api.py:174-182 | the live insert, `users_data[id] = rec` then eviction of the oldest key past `MAX_CACHE_SIZE`, keeps the store consistent and creates or changes no record other than the one for `id` |
| Api.Hits | api.py:210-218 | the matching records of the keys, in key order, as `(id, email, ip)` hits; never more hits than keys |
| Api.HitsSound | api.py:210-218 | each match is a record of the store, returned as stored, whose lower-cased id, email or ip contains the query |
| Api.HitsComplete | api.py:210-218 | every record whose lower-cased id, email or ip contains the query is a match |
| Api.SearchResults | api.py:205-221 | `search` returns at most 50 results, each a matching record of the store; when fewer than 50 are returned, every matching record is among them |
| Api.FirstHits | api.py:207-221 | the scan with its early exit at 50 yields the first 50 matches in store order |
| Api.Bulk | api.py:246-256 | the found hits and missing ids for the stripped input ids; neither list is longer than the input, and every missing id is absent from the store |
| Api.BulkPartition | api.py:258-263 | `found_count + not_found_count` equals the number of input ids |
| Api.BulkSound | api.py:246-256 | found entries carry the store's email and ip for a stripped input id; not-found ids are stripped input ids absent from the store |
| Api.BulkComplete | api.py:246-256 | every stripped input id absent from the store is reported not found, and every present one is found with its record |
| Api.BulkAppend | api.py:246-256 | the results and the not-found ids each keep input order: for `a + b` they are those of `a` followed by those of `b` |
| Api.AssignLines | api.py:67-74 | the inner reload loop assigns the records of one file's lines, in order, into the store being built |
| Api.FindLine | api.py:168-172 | the inner live-lookup loop returns the record of the first line of a file that parses to the id |
| Api.VahsetApi.constructor | api.py:42-45 | a new service holds the store that `load_cache` chooses |
| Api.VahsetApi.LoadCache | api.py:47-58 | the store becomes the fresh cache file's records, or else the full reload |
| Api.VahsetApi.LoadFromSources | api.py:60-81 | the store becomes the full reload of the fetched files, and its key order and records agree |
| Api.VahsetApi.GetUser | api.py:148-203 | a stored stripped id gives its record with origin `cache` and leaves the store unchanged; otherwise the first record for the id across the fetched files gives origin `github_live` and is inserted live; otherwise the result is not found and the store is unchanged |
| Api.VahsetApi.Search | api.py:205-229 | the query is lower-cased and stripped; the results are the first 50 matches in store order, and the count is their number |
| Api.VahsetApi.BulkSearch | api.py:241-265 | the found hits and the not-found ids are those of `Bulk` on the stripped input ids, in input order |
| Api.VahsetApi.TotalUsers | api.py:231-239 | `total_users` is the number of keys in the store |

## Left out

- Flask, CORS and the route functions, with their parameter checks and the
  splitting of `ids`: HTTP plumbing.
- `requests.get` and `fetch_url`: network I/O. Fetched contents are an input
  sequence in which `None` stands for a failed or non-200 fetch.
- `save_cache`, and the reading and JSON decoding of the cache file: file I/O.
  The cache file is an input that holds its modification time and its records
  in file order, or `None` when it cannot be read.
- `load_cache`: when a reload inside its `try` raises, the source reloads a
  second time. The model reloads once, from the same fetched contents.
- `threading.Lock`, and the eviction in `get_user` that runs outside the lock:
  concurrency. Every operation is sequential.
- `datetime.now().isoformat()` timestamps in the results: wall-clock values.
  `time.time()` is a float; the freshness test uses whole seconds.
- `str(user_id)` applied to non-string ids: ids are strings in the model.
- UTF-8 decoding with `errors='ignore'` is a parameter of the model and is not
  defined here.
- PyStr.Lower: folds only ASCII letters, not the full Unicode `lower()`. Non-ASCII
  emails and ids may therefore match `search` differently in the source.
- LineParser.Parse: its own contract says only when a record comes out. The
  record's fields are stated for dump-format lines by `ParseDumpLine`, and for
  the address by `IpOf`.
- Api.VahsetApi.Valid: the bound `MAX_CACHE_SIZE` is not part of the class
  invariant, because a full reload can exceed it.
