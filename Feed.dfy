/** One pass of the feed checker (`check_feed`): load the cache, fetch the
    feed with conditional headers, and deliver the newest entry when it is
    not the one delivered last.

    Everything outside the process is an input: the state of the cache file,
    the debug switch that turns conditional headers off, the feed response
    (its status, its headers and the entries the feed parser found), the
    statuses the messaging endpoint answers, and the HTML sanitizer. What the
    pass does to the outside is its output: the headers it sends with the
    fetch, the texts it posts, and the record it writes to the cache file. */
module Feed {
  import Dispatch
  import Strings

  datatype Option<T> = None | Some(value: T)

  /** The persisted cache record: the validators of the last fetch and the
      id of the last delivered entry. */
  datatype Cache = Cache(etag: string, modified: string, firstEntryId: string)

  /** The record a pass starts from when there is no usable cache file. */
  const EmptyCache := Cache("", "", "")

  /** What the cache file holds when a pass starts: no file, text that is
      not valid JSON, or a record. */
  datatype CacheFile = Missing | InvalidJson | Stored(record: Cache)

  /** The cache a pass starts from: the stored record, or the empty record
      when the file is missing or its text is not valid JSON. */
  function LoadCache(file: CacheFile): (c: Cache)
    ensures file.Stored? ==> c == file.record
    ensures !file.Stored? ==> c == EmptyCache
  {
    match file
    case Stored(record) => record
    case _ => EmptyCache
  }

  /** The cache file after the record is written to it. */
  function SaveCache(record: Cache): (file: CacheFile)
    ensures file.Stored? && LoadCache(file) == record
  {
    Stored(record)
  }

  /** A missing cache file, or one whose text is not valid JSON, loads as
      the record whose three fields are blank. */
  lemma LoadFallback(file: CacheFile)
    requires !file.Stored?
    ensures LoadCache(file).etag == "" && LoadCache(file).modified == ""
    ensures LoadCache(file).firstEntryId == ""
  {
  }

  /** The value the program ships with for the debug switch: conditional
      headers are never sent. */
  const BypassCacheCheck := true

  const IfNoneMatch := "If-None-Match"
  const IfModifiedSince := "If-Modified-Since"

  /** The conditional headers sent with the fetch: none when the switch is
      on; otherwise If-None-Match exactly when an etag is cached and
      If-Modified-Since exactly when a modification date is cached, each
      carrying the cached value. */
  function ConditionalHeaders(cache: Cache, bypass: bool): (h: map<string, string>)
    ensures bypass ==> h == map[]
    ensures !bypass ==> (IfNoneMatch in h <==> cache.etag != "")
    ensures !bypass ==> (IfModifiedSince in h <==> cache.modified != "")
    ensures IfNoneMatch in h ==> h[IfNoneMatch] == cache.etag
    ensures IfModifiedSince in h ==> h[IfModifiedSince] == cache.modified
    ensures forall name :: name in h ==> name == IfNoneMatch || name == IfModifiedSince
  {
    if bypass then map[]
    else
      var h := if cache.etag != "" then map[IfNoneMatch := cache.etag] else map[];
      if cache.modified != "" then h[IfModifiedSince := cache.modified] else h
  }

  /** With the switch as shipped, the fetch never carries a conditional
      header. */
  lemma ShippedFetchIsUnconditional(cache: Cache)
    ensures ConditionalHeaders(cache, BypassCacheCheck) == map[]
  {
  }

  /** One entry as the feed parser reports it; a field the entry lacks is
      None. */
  datatype Entry = Entry(
    id: Option<string>,
    link: Option<string>,
    url: Option<string>,
    title: Option<string>,
    contentHtml: Option<string>,
    description: Option<string>)

  /** The feed response. Header names are in lower case, as the HTTP
      client's case-insensitive lookup sees them. */
  datatype Response = Response(status: int, headers: map<string, string>, entries: seq<Entry>)

  const NotModifiedStatus := 304
  const EtagHeader := "etag"
  const LastModifiedHeader := "last-modified"

  /** The cache with the validators the response carries; a validator the
      response lacks keeps its cached value. */
  function RefreshValidators(cache: Cache, headers: map<string, string>): (c: Cache)
    ensures c.firstEntryId == cache.firstEntryId
    ensures c.etag == if EtagHeader in headers then headers[EtagHeader] else cache.etag
    ensures c.modified == if LastModifiedHeader in headers then headers[LastModifiedHeader] else cache.modified
  {
    var c := if EtagHeader in headers then cache.(etag := headers[EtagHeader]) else cache;
    if LastModifiedHeader in headers then c.(modified := headers[LastModifiedHeader]) else c
  }

  /** The id of an entry: its `id` field, or its link when it has none,
      stripped of surrounding whitespace; None when it has neither (the
      program then fails on the missing value). */
  function EntryId(e: Entry): (r: Option<string>)
    ensures r.None? <==> e.id.None? && e.link.None?
    ensures e.id.Some? ==> r == Some(Strings.Strip(e.id.value))
    ensures e.id.None? && e.link.Some? ==> r == Some(Strings.Strip(e.link.value))
  {
    match e.id
    case Some(i) => Some(Strings.Strip(i))
    case None =>
      match e.link
      case Some(l) => Some(Strings.Strip(l))
      case None => None
  }

  /** The derived id never starts or ends with whitespace. */
  lemma EntryIdIsTrimmed(e: Entry)
    requires EntryId(e).Some?
    ensures var id := EntryId(e).value;
      id == [] || (!Strings.IsSpace(id[0]) && !Strings.IsSpace(id[|id| - 1]))
  {
    if e.id.Some? {
      Strings.StripTrims(e.id.value);
    } else {
      Strings.StripTrims(e.link.value);
    }
  }

  /** The link as it is written into the message: the entry's link, else
      its url, else the text Python prints for a missing value. */
  function LinkText(e: Entry): (link: string)
    ensures e.link.Some? ==> link == e.link.value
    ensures e.link.None? && e.url.Some? ==> link == e.url.value
    ensures e.link.None? && e.url.None? ==> link == "None"
  {
    match e.link
    case Some(l) => l
    case None =>
      match e.url
      case Some(u) => u
      case None => "None"
  }

  /** The raw description: the HTML content, else the description, else
      empty. */
  function Description(e: Entry): (d: string)
    ensures e.contentHtml.Some? ==> d == e.contentHtml.value
    ensures e.contentHtml.None? && e.description.Some? ==> d == e.description.value
    ensures e.contentHtml.None? && e.description.None? ==> d == ""
  {
    match e.contentHtml
    case Some(c) => c
    case None =>
      match e.description
      case Some(d) => d
      case None => ""
  }

  const NoDescription := "No description available."

  /** The body of the message: the sanitized description, or a fixed text
      when the description is empty. */
  function Body(description: string, sanitize: string -> string): (body: string)
    ensures description == "" ==> body == NoDescription
    ensures description != "" ==> body == sanitize(description)
  {
    if description != "" then sanitize(description) else NoDescription
  }

  /** The fallback text is used exactly when the description is empty; an
      entry whose HTML content is present but empty gets the fallback text
      even when it has a non-empty plain description. */
  lemma BodyFallback(e: Entry, sanitize: string -> string)
    ensures Body(Description(e), sanitize) == NoDescription
         <== (e.contentHtml == Some("") || (e.contentHtml.None? && e.description in {None, Some("")}))
    ensures Description(e) != "" ==> Body(Description(e), sanitize) == sanitize(Description(e))
    ensures e.contentHtml.Some? ==> Description(e) == e.contentHtml.value
  {
  }

  /** The text sent for an entry: the title in bold, the link as an anchor
      whose text is the link itself, a blank line, and the body. */
  function FormatMessage(title: string, link: string, body: string): (m: string)
    ensures |m| == |title| + 2 * |link| + |body| + 25
    ensures m[..3 + |title|] == "<b>" + title
    ensures m[|m| - |body|..] == body
  {
    "<b>" + title + "</b>\n<a href='" + link + "'>" + link + "</a>\n\n" + body
  }

  /** The message is laid out line by line as the title line, the link line,
      a blank line and the body, and adds 25 characters of markup to them. */
  lemma MessageLayout(title: string, link: string, body: string)
    ensures var m := FormatMessage(title, link, body);
      var head := "<b>" + title + "</b>\n";
      var anchor := "<a href='" + link + "'>" + link + "</a>\n";
      m == head + anchor + "\n" + body
      && |m| == |title| + 2 * |link| + |body| + 25
      && m[..|head|] == head
      && m[|m| - |body|..] == body
  {
    var m := FormatMessage(title, link, body);
    var head := "<b>" + title + "</b>\n";
    var anchor := "<a href='" + link + "'>" + link + "</a>\n";
    assert m == head + (anchor + "\n" + body);
    assert m == (head + anchor + "\n") + body;
  }

  /** How a pass ends. */
  datatype PassOutcome =
    | NotModified              // the server answered 304
    | NoEntries                // the parsed feed has no entry
    | EntryUnreadable          // the newest entry lacks both id and link, or its title
    | AlreadySeen(id: string)  // the newest entry is the one delivered last
    | Delivered(id: string)    // every chunk of its message was accepted
    | SendFailed(chunk: nat)   // the endpoint refused this chunk

  /** What a pass does to the outside world. */
  datatype Run = Run(
    request: map<string, string>,  // headers sent with the fetch
    posted: seq<string>,           // texts posted to the chat, in order
    saved: Option<Cache>,          // record written to the cache file, if any
    outcome: PassOutcome)

  /** One pass, as a function of its inputs. The fetch carries the
      conditional headers of the loaded cache, and the cache file is written
      only when the newest entry was delivered, with that entry's id. */
  function Pass(file: CacheFile, bypass: bool, response: Response, statuses: seq<int>,
                sanitize: string -> string): (run: Run)
    ensures run.request == ConditionalHeaders(LoadCache(file), bypass)
    ensures run.saved.Some? <==> run.outcome.Delivered?
    ensures run.saved.Some? ==> run.saved.value.firstEntryId == run.outcome.id
  {
    var loaded := LoadCache(file);
    var request := ConditionalHeaders(loaded, bypass);
    if response.status == NotModifiedStatus then Run(request, [], None, NotModified)
    else if response.entries == [] then Run(request, [], None, NoEntries)
    else
      var cache := RefreshValidators(loaded, response.headers);
      var first := response.entries[0];
      match EntryId(first)
      case None => Run(request, [], None, EntryUnreadable)
      case Some(id) =>
        if id == cache.firstEntryId then Run(request, [], None, AlreadySeen(id))
        else
          match first.title
          case None => Run(request, [], None, EntryUnreadable)
          case Some(title) =>
            var message := FormatMessage(title, LinkText(first), Body(Description(first), sanitize));
            var d := Dispatch.Deliver(message, statuses);
            if d.result.Sent? then Run(request, d.posted, Some(cache.(firstEntryId := id)), Delivered(id))
            else Run(request, d.posted, None, SendFailed(d.result.chunk))
  }

  /** The message a pass sends for its newest entry. */
  function NewestMessage(response: Response, sanitize: string -> string): string
    requires response.entries != [] && response.entries[0].title.Some?
  {
    var e := response.entries[0];
    FormatMessage(e.title.value, LinkText(e), Body(Description(e), sanitize))
  }

  /** A 304 answer ends the pass: nothing is posted and the cache file is
      not written. */
  lemma NotModifiedIsQuiet(file: CacheFile, bypass: bool, response: Response, statuses: seq<int>,
                           sanitize: string -> string)
    requires response.status == NotModifiedStatus
    ensures var run := Pass(file, bypass, response, statuses, sanitize);
      run.outcome == NotModified && run.posted == [] && run.saved == None
  {
  }

  /** A feed without entries ends the pass: nothing is posted and the cache
      file is not written, so the validators of the response are dropped. */
  lemma EmptyFeedIsQuiet(file: CacheFile, bypass: bool, response: Response, statuses: seq<int>,
                         sanitize: string -> string)
    requires response.status != NotModifiedStatus && response.entries == []
    ensures var run := Pass(file, bypass, response, statuses, sanitize);
      run.outcome == NoEntries && run.posted == [] && run.saved == None
  {
  }

  /** When the newest entry's id is the cached one, nothing is posted and the
      cache file is not written. */
  lemma SeenEntryIsQuiet(file: CacheFile, bypass: bool, response: Response, statuses: seq<int>,
                         sanitize: string -> string)
    requires response.status != NotModifiedStatus && response.entries != []
    requires EntryId(response.entries[0]) == Some(LoadCache(file).firstEntryId)
    ensures var run := Pass(file, bypass, response, statuses, sanitize);
      run.outcome == AlreadySeen(LoadCache(file).firstEntryId) && run.posted == [] && run.saved == None
  {
  }

  /** Every status other than 304 is handled alike: an error page is parsed
      as a feed, and the pass depends only on what the parser found in it. */
  lemma OnlyNotModifiedStatusMatters(file: CacheFile, bypass: bool, response: Response, status: int,
                                     statuses: seq<int>, sanitize: string -> string)
    requires response.status != NotModifiedStatus && status != NotModifiedStatus
    ensures Pass(file, bypass, response, statuses, sanitize)
         == Pass(file, bypass, response.(status := status), statuses, sanitize)
  {
  }

  /** The cache file is written exactly when the whole message was
      delivered, and it then holds the validators of the response (or the
      cached ones where the response has none) and the id of the delivered
      entry; the texts posted are the chunks of that entry's message. */
  lemma SaveOnlyAfterDelivery(file: CacheFile, bypass: bool, response: Response, statuses: seq<int>,
                              sanitize: string -> string)
    ensures var run := Pass(file, bypass, response, statuses, sanitize);
      (run.saved.Some? <==> run.outcome.Delivered?)
      && (run.saved.Some? ==> forall j :: 0 <= j < |run.posted| ==> Dispatch.Accepted(statuses, j))
      && (run.outcome.Delivered? ==>
            response.status != NotModifiedStatus
            && response.entries != [] && response.entries[0].title.Some?
            && EntryId(response.entries[0]) == Some(run.outcome.id)
            && run.outcome.id != LoadCache(file).firstEntryId
            && run.saved.value
               == RefreshValidators(LoadCache(file), response.headers).(firstEntryId := run.outcome.id)
            && run.posted == Dispatch.Chunks(NewestMessage(response, sanitize))
            && Dispatch.Join(run.posted) == NewestMessage(response, sanitize))
  {
    var run := Pass(file, bypass, response, statuses, sanitize);
    if run.outcome.Delivered? {
      var message := NewestMessage(response, sanitize);
      assert run.posted == Dispatch.Deliver(message, statuses).posted;
      Dispatch.JoinChunks(message);
    }
  }

  /** A new newest entry with a title is formatted and sent: the texts
      posted are those of its delivery, the pass succeeds and writes the
      cache exactly when the endpoint accepts every chunk, and otherwise it
      fails at the first refused chunk and writes nothing. */
  lemma FreshEntryIsSent(file: CacheFile, bypass: bool, response: Response, statuses: seq<int>,
                         sanitize: string -> string)
    requires response.status != NotModifiedStatus && response.entries != []
    requires EntryId(response.entries[0]).Some?
    requires EntryId(response.entries[0]).value != LoadCache(file).firstEntryId
    requires response.entries[0].title.Some?
    ensures var run := Pass(file, bypass, response, statuses, sanitize);
      var message := NewestMessage(response, sanitize);
      var d := Dispatch.Deliver(message, statuses);
      var id := EntryId(response.entries[0]).value;
      var count := |Dispatch.Chunks(message)|;
      run.posted == d.posted
      && (run.outcome == Delivered(id) <==> forall j :: 0 <= j < count ==> Dispatch.Accepted(statuses, j))
      && (run.outcome.Delivered? ==>
            run.saved == Some(RefreshValidators(LoadCache(file), response.headers).(firstEntryId := id)))
      && (!run.outcome.Delivered? ==>
            run.saved == None && run.outcome == SendFailed(Dispatch.FirstRefusal(statuses, count)))
  {
  }

  /** A refused chunk ends the pass without writing the cache file, so the
      stored id stays what it was; the chunks before it were posted in order
      and accepted, and nothing after it was posted. */
  lemma FailedSendKeepsCache(file: CacheFile, bypass: bool, response: Response, statuses: seq<int>,
                             sanitize: string -> string)
    ensures var run := Pass(file, bypass, response, statuses, sanitize);
      run.outcome.SendFailed? ==>
        run.saved == None
        && response.entries != [] && response.entries[0].title.Some?
        && var chunks := Dispatch.Chunks(NewestMessage(response, sanitize));
        run.outcome.chunk < |chunks|
        && run.posted == chunks[..run.outcome.chunk + 1]
        && !Dispatch.Accepted(statuses, run.outcome.chunk)
        && forall j :: 0 <= j < run.outcome.chunk ==> Dispatch.Accepted(statuses, j)
  {
  }

  /** Only a pass that reaches the send posts anything, and it reaches the
      send exactly when the answer is not 304, the feed has an entry, and its
      newest entry has an id (or a link) that differs from the cached one
      and a title. */
  lemma PostsOnlyWhenSending(file: CacheFile, bypass: bool, response: Response, statuses: seq<int>,
                             sanitize: string -> string)
    ensures var run := Pass(file, bypass, response, statuses, sanitize);
      run.posted != [] <==> run.outcome.Delivered? || run.outcome.SendFailed?
    ensures var run := Pass(file, bypass, response, statuses, sanitize);
      run.posted != []
      <==> (response.status != NotModifiedStatus && response.entries != []
            && EntryId(response.entries[0]).Some?
            && EntryId(response.entries[0]).value != LoadCache(file).firstEntryId
            && response.entries[0].title.Some?)
  {
  }

  /** A newest entry with neither id nor link, or a new one without a title,
      ends the pass where the program raises: nothing is posted and the
      cache file is not written. */
  lemma UnreadableEntryIsQuiet(file: CacheFile, bypass: bool, response: Response, statuses: seq<int>,
                               sanitize: string -> string)
    requires response.status != NotModifiedStatus && response.entries != []
    requires EntryId(response.entries[0]).None?
          || (EntryId(response.entries[0]).value != LoadCache(file).firstEntryId
              && response.entries[0].title.None?)
    ensures var run := Pass(file, bypass, response, statuses, sanitize);
      run.outcome == EntryUnreadable && run.posted == [] && run.saved == None
  {
  }

  /** After a pass that delivered an entry, a pass that reads the record it
      saved and finds the same entry on top of the feed posts nothing and
      writes nothing. */
  lemma {:induction false} DeliveredEntryIsNotResent(
      file: CacheFile, bypass: bool, response: Response, statuses: seq<int>,
      later: Response, laterBypass: bool, laterStatuses: seq<int>, sanitize: string -> string)
    requires Pass(file, bypass, response, statuses, sanitize).outcome.Delivered?
    requires later.status != NotModifiedStatus && later.entries != []
    requires EntryId(later.entries[0]) == EntryId(response.entries[0])
    ensures var first := Pass(file, bypass, response, statuses, sanitize);
      var second := Pass(SaveCache(first.saved.value), laterBypass, later, laterStatuses, sanitize);
      second.outcome.AlreadySeen? && second.posted == [] && second.saved == None
  {
    var first := Pass(file, bypass, response, statuses, sanitize);
    SaveOnlyAfterDelivery(file, bypass, response, statuses, sanitize);
  }

  /** An entry whose id is blank is never delivered from an empty cache: its
      stripped id equals the blank id the empty record holds. */
  lemma {:induction false} BlankIdIsNeverDelivered(file: CacheFile, bypass: bool, response: Response,
                                                   statuses: seq<int>, sanitize: string -> string)
    requires !file.Stored?
    requires response.status != NotModifiedStatus && response.entries != []
    requires response.entries[0].id.Some? && Strings.AllSpace(response.entries[0].id.value)
    ensures var run := Pass(file, bypass, response, statuses, sanitize);
      run.outcome == AlreadySeen("") && run.posted == [] && run.saved == None
  {
    Strings.BlankStripsToEmpty(response.entries[0].id.value);
  }

  /** The title and link lines of the entry used by SingleEntryDelivery. */
  lemma {:induction false} SampleMessage(body: string)
    ensures FormatMessage("Hello", "http://x/1", body)
         == "<b>Hello</b>\n<a href='http://x/1'>http://x/1</a>\n\n" + body
  {
    var p1 := "<b>" + "Hello";
    assert p1 == "<b>Hello";
    var p2 := p1 + "</b>\n<a href='";
    assert p2 == "<b>Hello</b>\n<a href='";
    var p3 := p2 + "http://x/1";
    assert p3 == "<b>Hello</b>\n<a href='http://x/1";
    var p4 := p3 + "'>";
    assert p4 == "<b>Hello</b>\n<a href='http://x/1'>";
    var p5 := p4 + "http://x/1";
    assert p5 == "<b>Hello</b>\n<a href='http://x/1'>http://x/1";
    var p6 := p5 + "</a>\n\n";
    assert p6 == "<b>Hello</b>\n<a href='http://x/1'>http://x/1</a>\n\n";
  }

  /** A fresh entry from an empty cache: with a sanitized body short enough
      for one message, its text is posted in one piece, and on success the
      cache records its id. The sanitizer's output stays symbolic. */
  lemma {:induction false} SingleEntryDelivery(sanitize: string -> string)
    requires |sanitize("<script>x</script><b>ok</b>")| <= 4000
    ensures var entry := Entry(Some("a1"), Some("http://x/1"), None, Some("Hello"),
                               Some("<script>x</script><b>ok</b>"), None);
      var run := Pass(Missing, false, Response(200, map[], [entry]), [200], sanitize);
      run.outcome == Delivered("a1")
      && run.posted == ["<b>Hello</b>\n<a href='http://x/1'>http://x/1</a>\n\n"
                        + sanitize("<script>x</script><b>ok</b>")]
      && run.saved == Some(Cache("", "", "a1"))
  {
    assert Strings.LeadingSpaces("a1") == 0 && Strings.TrailingSpaces("a1") == 0;
    assert Strings.Strip("a1") == "a1";
    var body := sanitize("<script>x</script><b>ok</b>");
    SampleMessage(body);
    Dispatch.ShortMessageIsOnePost("<b>Hello</b>\n<a href='http://x/1'>http://x/1</a>\n\n" + body);
  }

  /** The pass as the program runs it: the headers and the cache are built up
      step by step, and the message is sent chunk by chunk. */
  method CheckFeed(file: CacheFile, bypass: bool, response: Response, statuses: seq<int>,
                   sanitize: string -> string) returns (run: Run)
    ensures run == Pass(file, bypass, response, statuses, sanitize)
  {
    var cache := LoadCache(file);

    var headers: map<string, string> := map[];
    if !bypass {
      if cache.etag != "" {
        headers := headers[IfNoneMatch := cache.etag];
      }
      if cache.modified != "" {
        headers := headers[IfModifiedSince := cache.modified];
      }
    }

    if response.status == NotModifiedStatus {
      return Run(headers, [], None, NotModified);
    }
    if response.entries == [] {
      return Run(headers, [], None, NoEntries);
    }

    if EtagHeader in response.headers {
      cache := cache.(etag := response.headers[EtagHeader]);
    }
    if LastModifiedHeader in response.headers {
      cache := cache.(modified := response.headers[LastModifiedHeader]);
    }

    var first := response.entries[0];
    var id := EntryId(first);
    if id.None? {
      return Run(headers, [], None, EntryUnreadable);
    }
    if id.value == cache.firstEntryId {
      return Run(headers, [], None, AlreadySeen(id.value));
    }

    if first.title.None? {
      return Run(headers, [], None, EntryUnreadable);
    }
    var message := FormatMessage(first.title.value, LinkText(first), Body(Description(first), sanitize));

    var d := Dispatch.SendMessage(message, statuses);
    if d.result.Sent? {
      cache := cache.(firstEntryId := id.value);
      run := Run(headers, d.posted, Some(cache), Delivered(id.value));
    } else {
      run := Run(headers, d.posted, None, SendFailed(d.result.chunk));
    }
  }
}
