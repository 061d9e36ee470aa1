# RSS to Telegram forwarder — verified model

The program polls one RSS/Atom feed, compares the newest entry with the id
it delivered last (kept in a small JSON cache file), and forwards a new entry
to one Telegram chat as an HTML-formatted message. This project models the
two pieces of sequential logic in `send_rss_to_telegram.py` and proves what
they promise:

- **Message dispatch** (`send_telegram_message`), module `Dispatch` in
  `Dispatch.dfy`. A text longer than 4096 characters is cut into the slices
  that start at 0, 4096, 8192, …; the slices are posted in order and the
  first reply whose status is not 200 aborts the delivery. The endpoint is a
  sequence of status codes: the k-th post made receives the k-th status, and
  a post for which no status is left stands for a transport failure. The
  method `SendMessage` runs the loop of the program and is proved equal to
  the function `Deliver`, whose contract states the ordering and abort rules;
  `Chunks` and its lemmas state the slicing.
- **One pass of the feed checker** (`check_feed`), module `Feed` in
  `Feed.dfy`. The cache is the record `Cache(etag, modified, firstEntryId)`;
  a missing cache file, or one whose text is not valid JSON, loads as the
  record with three blank fields. The method `CheckFeed` builds the
  conditional headers and the cache step by step as the program does, and is
  proved equal to the function
  `Pass`, about which the lemmas state when the pass posts, what it posts and
  when and what it writes to the cache file. The feed response (status,
  headers, parsed entries), the endpoint's statuses, the state of the cache
  file, the debug switch and the HTML sanitizer are inputs; the headers sent
  with the fetch, the texts posted and the record written are outputs.
- **Stripping of entry ids** (Python's `str.strip()`), module `Strings` in
  `Strings.dfy`, with whitespace as `str.isspace` defines it.

Only the newest entry of the feed is ever a candidate (the program has no
backfill of older entries). The debug switch `BYPASS_CACHE_CHECK` is a
parameter of the pass; its shipped value, `true`, is the constant
`Feed.BypassCacheCheck`.

On these points the program may behave other than expected; the model
follows the code:

- a feed response with a status other than 304 (an error page, say) is not an
  error: its body is parsed like any other (`Feed.OnlyNotModifiedStatusMatters`);
- the validators of the response (etag, last-modified) are written to the
  cache file only together with a delivered entry, never on a pass that
  delivers nothing (`Feed.SaveOnlyAfterDelivery`);
- conditional headers are switched off as shipped (`Feed.ShippedFetchIsUnconditional`);
- nothing keeps the stored id from moving to an older entry: it is simply the
  id of the newest entry of the last feed whose message was delivered.

## Model

| member | source | states |
|---|---|---|
| `Dispatch.Chunks` | send_rss_to_telegram.py:47-52 | a message of length L > 0 is posted as ceil(L / 4096) texts, the empty message as one |
| `Dispatch.JoinChunks` | send_rss_to_telegram.py:51-52 | the chunks concatenated in order give back the message |
| `Dispatch.ChunkAt` | send_rss_to_telegram.py:51-52 | chunk k is the slice of the message that starts at k * 4096 and ends 4096 characters later or at the end of the message |
| `Dispatch.ChunkSizes` | send_rss_to_telegram.py:51-52 | every chunk has at most 4096 characters, all but the last exactly 4096, and none of a non-empty message is empty |
| `Dispatch.ShortMessageIsOnePost` | send_rss_to_telegram.py:66-74 | a message of at most 4096 characters is posted whole, as the only text |
| `Dispatch.FirstRefusal` | send_rss_to_telegram.py:64-65 | the index of the first post not answered with 200, every earlier post having been accepted |
| `Dispatch.Deliver` | send_rss_to_telegram.py:49-78 | the posts made are a non-empty prefix of the chunks in order, all but the last accepted; delivery succeeds iff every chunk is accepted, and otherwise ends at the first refused chunk with nothing posted after it |
| `Dispatch.SendMessage` | send_rss_to_telegram.py:46-78 | the chunking loop posts exactly what `Deliver` describes, and a short message is posted as one text |
| `Strings.Strip` | send_rss_to_telegram.py:112 | the stripped value is a slice of the raw value that starts after its leading whitespace |
| `Strings.StripTrims` | send_rss_to_telegram.py:112 | the stripped id is the slice of the raw value between leading and trailing whitespace, and it neither starts nor ends with whitespace |
| `Strings.StripIdempotent` | send_rss_to_telegram.py:112 | stripping an already stripped id changes nothing |
| `Strings.BlankStripsToEmpty` | send_rss_to_telegram.py:112 | an id made only of whitespace strips to the empty string |
| `Feed.LoadCache` | send_rss_to_telegram.py:23-36 | the stored record, or the blank record when the file is missing or its text is not valid JSON |
| `Feed.SaveCache` | send_rss_to_telegram.py:39-41 | the file written holds a record, and loading it gives back the record that was saved |
| `Feed.LoadFallback` | send_rss_to_telegram.py:31-36 | a missing cache file, or one whose text is not valid JSON, loads as the record whose etag, modified and first entry id are blank |
| `Feed.ConditionalHeaders` | send_rss_to_telegram.py:85-90 | no header when the switch is on; otherwise If-None-Match exactly when an etag is cached and If-Modified-Since exactly when a date is cached, carrying the cached values, and no other header |
| `Feed.ShippedFetchIsUnconditional` | send_rss_to_telegram.py:20 | with the switch as shipped, the fetch carries no conditional header |
| `Feed.RefreshValidators` | send_rss_to_telegram.py:105-108 | etag and modified are taken from the response when it has them and kept otherwise; the stored entry id is untouched |
| `Feed.EntryId` | send_rss_to_telegram.py:112 | the id is the stripped `id` field, else the stripped link, and is missing exactly when the entry has neither |
| `Feed.EntryIdIsTrimmed` | send_rss_to_telegram.py:112 | a derived id never starts or ends with whitespace |
| `Feed.LinkText` | send_rss_to_telegram.py:122 | the link written into the message is the entry's link, else its url, else the text `None` |
| `Feed.Description` | send_rss_to_telegram.py:123 | the description is the HTML content when present, else the plain description, else empty |
| `Feed.Body` | send_rss_to_telegram.py:125-133 | the body is the fallback text exactly when the description is empty, and the sanitized description otherwise |
| `Feed.BodyFallback` | send_rss_to_telegram.py:123-133 | the body is the sanitized description when there is one, and the fixed fallback text when the HTML content is empty or both content and description are missing or empty |
| `Feed.FormatMessage` | send_rss_to_telegram.py:135 | the message starts with the bold-tag opening and the title, ends with the body, and is 25 characters longer than title, twice the link and body |
| `Feed.MessageLayout` | send_rss_to_telegram.py:135 | the message is the bold title line, the anchor line whose text is the link, a blank line and the body, 25 characters longer than title, twice the link and body |
| `Feed.Pass` | send_rss_to_telegram.py:82-143 | the fetch carries the conditional headers of the loaded cache; the cache file is written exactly when the pass delivered an entry, and then holds that entry's id |
| `Feed.NotModifiedIsQuiet` | send_rss_to_telegram.py:93-95 | a 304 answer ends the pass with nothing posted and no cache write |
| `Feed.EmptyFeedIsQuiet` | send_rss_to_telegram.py:101-103 | a feed without entries ends the pass with nothing posted and no cache write |
| `Feed.OnlyNotModifiedStatusMatters` | send_rss_to_telegram.py:92-97 | any two non-304 statuses lead to the same pass |
| `Feed.SeenEntryIsQuiet` | send_rss_to_telegram.py:115-118 | when the newest entry's id equals the cached one, nothing is posted and nothing is written |
| `Feed.FreshEntryIsSent` | send_rss_to_telegram.py:116-143 | a new newest entry with a title is formatted and sent: the posts are those of its delivery, the pass is delivered and the cache written with the refreshed validators and its id exactly when every chunk gets 200, and otherwise it fails at the first refused chunk and nothing is written |
| `Feed.SaveOnlyAfterDelivery` | send_rss_to_telegram.py:105-141 | the cache file is written iff the whole message was delivered, every posted chunk having been answered with 200; it then holds the response's validators (or the cached ones) and the new entry's id, and the posted texts are the chunks of the entry's message |
| `Feed.FailedSendKeepsCache` | send_rss_to_telegram.py:137-143 | a refused chunk ends the pass without a cache write, after posting the chunks up to and including it, every earlier one accepted |
| `Feed.PostsOnlyWhenSending` | send_rss_to_telegram.py:93-139 | a pass posts something exactly when it reaches the send, that is exactly when the answer is not 304, the feed has an entry, and the newest entry has an id (or link) other than the cached one and a title |
| `Feed.UnreadableEntryIsQuiet` | send_rss_to_telegram.py:111-121 | a newest entry with neither id nor link, or a new one without a title (where the program raises), ends the pass with nothing posted and nothing written |
| `Feed.DeliveredEntryIsNotResent` | send_rss_to_telegram.py:112-141 | after a delivery, a pass that reads the saved record and finds the same entry on top posts and writes nothing |
| `Feed.BlankIdIsNeverDelivered` | send_rss_to_telegram.py:112-118 | starting from an empty cache, an entry whose id is all whitespace is taken as already seen and is never delivered |
| `Feed.SingleEntryDelivery` | send_rss_to_telegram.py:110-141 | from an empty cache, a fresh entry with id "a1", title "Hello" and link "http://x/1" whose sanitized body (left symbolic) is at most 4000 characters is posted as one text, the exact title and link lines followed by that body, and the cache then holds id "a1" |
| `Feed.CheckFeed` | send_rss_to_telegram.py:82-143 | the pass as the program runs it, step by step, does exactly what `Pass` describes |

## Left out

- HTTP: `requests.get` and `requests.post` (lines 53-61, 74, 92) are replaced by the `Response` input and the sequence of statuses; the body text of a reply, the request URL and the form fields are not modelled. A transport failure of `requests.post` is a missing status; a transport failure of `requests.get` (an exception that leaves the pass) is not modelled.
- Response headers are looked up by lower-case name; the HTTP client's case-insensitive header lookup is assumed to have normalised them.
- Cache file I/O and JSON encoding (lines 23-43) are the `CacheFile` value: missing, text that is not valid JSON, or holding a record. A file that holds valid JSON without the three string fields, and operating-system errors while reading or writing, are not modelled.
- A cache file whose bytes do not decode as text makes `json.load` (line 27) raise an error that the `except json.JSONDecodeError` of line 31 does not catch, so the program ends before fetching; the model has no such file state and does not capture this abort.
- `feedparser.parse` (line 97) is replaced by the parsed entries; each field the parser may omit is an option.
- HTML sanitizing with BeautifulSoup (lines 126-131) is the `sanitize` parameter, an arbitrary function of the description.
- Environment variables and their check (lines 8-14), the closure of `create_feed_checker` and the catch-all in `main` (lines 145-153), and all logging are left out. A missing title or a missing id and link make the program raise out of the pass; the model ends the pass with the outcome `EntryUnreadable` instead, with nothing posted and nothing written, as in the program (`Feed.UnreadableEntryIsQuiet`).
- The in-memory update of etag and modified on a pass that then writes nothing is not an output: it is lost when the pass ends, as in the program.
- Lengths are counted in characters as Python's `len` counts them; no other measure of message length is modelled.
