/** The HTTP server of backend/http.c: the handler table filled by
    HttpServerInit and HttpServerAttachHandler, the route lookup of the
    server loop, and the response text it formats (status line, the one
    CORS header, a blank line and the handler's content). Sockets are left
    out: the bytes `recv` delivered and the handlers' replies are
    parameters. */
module HttpServers {
  import opened Common
  import opened Arenas
  import opened JsonTokens
  import opened JsonParser
  import opened HttpRequests

  /** `http_response_status`: the enumerator values are the status codes. */
  const STATUS_OK: nat := 200
  const STATUS_NOT_FOUND: nat := 404
  const STATUS_INTERNAL_SERVER_ERROR: nat := 500

  /** `DEFAULT_REQUEST_ARENA_CAPACITY` and `HTTP_SERVER_ARENA_CAPACITY`: 4 GiB each. */
  const DEFAULT_REQUEST_ARENA_CAPACITY: nat := 0x1_0000_0000
  const HTTP_SERVER_ARENA_CAPACITY: nat := 0x1_0000_0000

  /** `HTTP_SERVER_MAX_HANDLERS`. */
  const HTTP_SERVER_MAX_HANDLERS: nat := 100

  /** `sizeof(http_request_handler)`: the size of a function address. */
  const SIZE_OF_HANDLER: nat := 8

  /** An `http_request_handler` function: the null entry of the
      zeroed table, or one of the application's handlers by number. */
  datatype Handler = NullHandler | HandlerFunction(id: nat)

  /** What a handler leaves behind: the status it returns and the bytes of
      `ResponseContext.Content` (empty unless it wrote some). */
  datatype Reply = Reply(status: nat, content: seq<Byte>)

  /** GetHttpResponseStatusReasonPhrase: the phrase of each listed status;
      any other value reaches UNREACHABLE. */
  function ReasonPhrase(status: nat): (r: Outcome<seq<Byte>>)
    ensures r.Ok? <==> status == STATUS_OK || status == STATUS_NOT_FOUND || status == STATUS_INTERNAL_SERVER_ERROR
    ensures r.Abort? ==> r.fault == Unreachable
  {
    if status == STATUS_OK then
      Ok([0x4F, 0x4B]) // OK
    else if status == STATUS_NOT_FOUND then
      Ok([0x4E, 0x6F, 0x74, 0x20, 0x46, 0x6F, 0x75, 0x6E, 0x64]) // Not Found
    else if status == STATUS_INTERNAL_SERVER_ERROR then
      Ok([0x49, 0x6E, 0x74, 0x65, 0x72, 0x6E, 0x61, 0x6C, 0x20, 0x53, 0x65, 0x72, 0x76,
          0x65, 0x72, 0x20, 0x45, 0x72, 0x72, 0x6F, 0x72]) // Internal Server Error
    else Abort(Unreachable)
  }

  /** The phrase bytes are the texts of the status table. */
  lemma ReasonPhrasesAreAscii()
    ensures ReasonPhrase(STATUS_OK) == Ok(Ascii("OK"))
    ensures ReasonPhrase(STATUS_NOT_FOUND) == Ok(Ascii("Not Found"))
    ensures ReasonPhrase(STATUS_INTERNAL_SERVER_ERROR) == Ok(Ascii("Internal Server Error"))
  {
    AsciiIs("OK", ReasonPhrase(STATUS_OK).value);
    AsciiIs("Not Found", ReasonPhrase(STATUS_NOT_FOUND).value);
    AsciiIs("Internal Server Error", ReasonPhrase(STATUS_INTERNAL_SERVER_ERROR).value);
  }

  /** A byte sequence equal character by character to an ASCII text is its
      Ascii image. */
  lemma AsciiIs(text: string, bytes: seq<Byte>)
    requires |text| == |bytes| && forall i :: 0 <= i < |text| ==> text[i] as int == bytes[i]
    ensures Ascii(text) == bytes
  {
  }

  /** `%u`: the decimal digits of a number, most significant first. */
  function DecimalText(n: nat): (r: seq<Byte>)
    ensures |r| > 0 && AllDigits(r)
  {
    var last: Byte := DIGIT_ZERO + n % 10;
    if n < 10 then [last] else DecimalText(n / 10) + [last]
  }

  /** `%u` reads back as the number it printed, with no leading zero. */
  lemma {:induction false} DecimalTextReadsBack(n: nat)
    ensures DecimalValue(DecimalText(n)) == n
    ensures n > 0 ==> DecimalText(n)[0] != DIGIT_ZERO
    decreases n
  {
    if n >= 10 {
      var r := DecimalText(n);
      DecimalTextReadsBack(n / 10);
      assert r[..|r| - 1] == DecimalText(n / 10);
      assert r[0] == DecimalText(n / 10)[0];
    }
  }

  /** `SV_FMT` (`%.*s`) of a content view: its bytes up to the first NUL. */
  function Printed(content: seq<Byte>): (r: seq<Byte>)
    ensures r <= content && NUL !in r
    ensures |r| < |content| ==> content[|r|] == NUL
    ensures NUL !in content ==> r == content
  {
    content[..IndexOf(content, 0, NUL)]
  }

  /** `"%s %u %s\r\n"`: version, status code and reason phrase. */
  function StatusLine(version: HttpVersion, status: nat, phrase: seq<Byte>): seq<Byte>
  {
    VersionString(version) + [SPACE] + DecimalText(status) + [SPACE] + phrase + [CR, LF]
  }

  /** The one header every response carries. */
  function CorsHeader(): seq<Byte>
  {
    // Access-Control-Allow-Origin: *
    [0x41, 0x63, 0x63, 0x65, 0x73, 0x73, 0x2D, 0x43, 0x6F, 0x6E, 0x74, 0x72, 0x6F, 0x6C, 0x2D,
     0x41, 0x6C, 0x6C, 0x6F, 0x77, 0x2D, 0x4F, 0x72, 0x69, 0x67, 0x69, 0x6E, 0x3A, 0x20, 0x2A,
     CR, LF]
  }

  /** The header bytes are the text `Access-Control-Allow-Origin: *` and CRLF. */
  lemma CorsHeaderIsAscii()
    ensures CorsHeader() == Ascii("Access-Control-Allow-Origin: *") + [CR, LF]
  {
    var text := "Access-Control-Allow-Origin: *";
    AsciiIs(text, CorsHeader()[..|text|]);
    assert CorsHeader() == CorsHeader()[..|text|] + [CR, LF];
  }

  /** The status line, the CORS header and the blank line. */
  function ResponseHead(version: HttpVersion, status: nat, phrase: seq<Byte>): seq<Byte>
  {
    StatusLine(version, status, phrase) + CorsHeader() + [CR, LF]
  }

  /** The text ArenaFormat builds for a response: the head and then the
      printed content. */
  function ResponseText(version: HttpVersion, status: nat, content: seq<Byte>): (r: Outcome<seq<Byte>>)
    ensures r.Abort? <==> ReasonPhrase(status).Abort?
    ensures r.Abort? ==> r.fault == Unreachable
  {
    match ReasonPhrase(status)
    case Abort(fault) => Abort(fault)
    case Ok(phrase) => Ok(ResponseHead(version, status, phrase) + Printed(content))
  }

  /** Two space-terminated fields at the start of a text are found by the
      two space searches a client makes. */
  lemma SpaceTerminatedFields(text: seq<Byte>, first: seq<Byte>, second: seq<Byte>)
    requires SPACE !in first && SPACE !in second
    requires |first| + |second| + 2 <= |text|
    requires text[..|first| + |second| + 2] == first + [SPACE] + second + [SPACE]
    ensures IndexOf(text, 0, SPACE) == |first|
    ensures IndexOf(text, |first| + 1, SPACE) == |first| + 1 + |second|
    ensures text[..|first|] == first && text[|first| + 1..|first| + 1 + |second|] == second
  {
    var fields := first + [SPACE] + second + [SPACE];
    var firstEnd := |first|;
    var secondEnd := firstEnd + 1 + |second|;
    assert forall j :: 0 <= j < |fields| ==> text[j] == fields[j];
    assert forall j :: 0 <= j < firstEnd ==> fields[j] == first[j];
    assert forall j :: firstEnd < j < secondEnd ==> fields[j] == second[j - firstEnd - 1];
    IndexOfIs(text, 0, firstEnd, SPACE);
    IndexOfIs(text, firstEnd + 1, secondEnd, SPACE);
    assert text[..firstEnd] == first;
    assert text[firstEnd + 1..secondEnd] == second;
  }

  /** A client reading the response back finds the version before the
      first space, the status code between the first two spaces, and the
      printed content at the end. */
  lemma ResponseReadsBack(version: HttpVersion, status: nat, content: seq<Byte>)
    requires ResponseText(version, status, content).Ok?
    ensures var text := ResponseText(version, status, content).value;
      var versionEnd := IndexOf(text, 0, SPACE);
      var codeEnd := IndexOf(text, versionEnd + 1, SPACE);
      versionEnd < codeEnd < |text| && VersionOf(text[..versionEnd]) == Some(version) &&
      AllDigits(text[versionEnd + 1..codeEnd]) && DecimalValue(text[versionEnd + 1..codeEnd]) == status &&
      text[|text| - |Printed(content)|..] == Printed(content)
  {
    var phrase := ReasonPhrase(status).value;
    HeadReadsBack(version, status, phrase, Printed(content));
  }

  /** ResponseReadsBack for any phrase and any printed content. */
  lemma HeadReadsBack(version: HttpVersion, status: nat, phrase: seq<Byte>, printed: seq<Byte>)
    ensures var text := ResponseHead(version, status, phrase) + printed;
      var versionEnd := IndexOf(text, 0, SPACE);
      var codeEnd := IndexOf(text, versionEnd + 1, SPACE);
      versionEnd < codeEnd < |text| && VersionOf(text[..versionEnd]) == Some(version) &&
      AllDigits(text[versionEnd + 1..codeEnd]) && DecimalValue(text[versionEnd + 1..codeEnd]) == status &&
      text[|text| - |printed|..] == printed
  {
    var v := VersionString(version);
    var digits := DecimalText(status);
    var head := ResponseHead(version, status, phrase);
    var text := head + printed;
    HeadStartsWithFields(version, status, phrase, printed);
    SpaceTerminatedFields(text, v, digits);
    VersionOfIsString(v, version);
    DecimalTextReadsBack(status);
    assert text[|head|..] == printed;
  }

  /** The response starts with the version, a space, the code and a space. */
  lemma HeadStartsWithFields(version: HttpVersion, status: nat, phrase: seq<Byte>, printed: seq<Byte>)
    ensures var fields := VersionString(version) + [SPACE] + DecimalText(status) + [SPACE];
      var text := ResponseHead(version, status, phrase) + printed;
      |fields| <= |text| && text[..|fields|] == fields
  {
    var head := ResponseHead(version, status, phrase);
    var line := StatusLine(version, status, phrase);
    var fields := VersionString(version) + [SPACE] + DecimalText(status) + [SPACE];
    var text := head + printed;
    assert text[..|head|] == head;
    assert head[..|line|] == line;
    assert line[..|fields|] == fields;
  }

  /** The route lookup from `from` on: the first path equal to `path`. */
  function FirstMatchFrom(paths: seq<seq<Byte>>, path: seq<Byte>, from: nat): (r: Option<nat>)
    ensures r.Some? ==> from <= r.value < |paths| && paths[r.value] == path
    ensures r.Some? ==> forall j :: from <= j < r.value ==> paths[j] != path
    ensures r.None? ==> forall j :: from <= j < |paths| ==> paths[j] != path
    decreases |paths| - from
  {
    if from >= |paths| then None
    else if paths[from] == path then Some(from)
    else FirstMatchFrom(paths, path, from + 1)
  }

  /** The handler loop of the server: the first attached path that equals
      the request path. */
  function FirstMatch(paths: seq<seq<Byte>>, path: seq<Byte>): Option<nat>
  {
    FirstMatchFrom(paths, path, 0)
  }

  /** FirstMatch finds a path exactly when the path was attached, and then
      the earliest position holding it. */
  lemma FirstMatchIsEarliest(paths: seq<seq<Byte>>, path: seq<Byte>)
    ensures FirstMatch(paths, path).None? <==> path !in paths
    ensures FirstMatch(paths, path).Some? ==>
      var i := FirstMatch(paths, path).value;
      i < |paths| && paths[i] == path && path !in paths[..i]
  {
    if path in paths {
      var k :| 0 <= k < |paths| && paths[k] == path;
      assert FirstMatch(paths, path).Some?;
    }
    if FirstMatch(paths, path).Some? {
      var i := FirstMatch(paths, path).value;
      assert forall j :: 0 <= j < i ==> paths[..i][j] == paths[j];
    }
  }

  /** Whatever position holds the first copy of `path` is what FirstMatch
      yields. */
  lemma FirstMatchAt(paths: seq<seq<Byte>>, path: seq<Byte>, i: nat)
    requires i < |paths| && paths[i] == path
    requires forall j :: 0 <= j < i ==> paths[j] != path
    ensures FirstMatch(paths, path) == Some(i)
  {
  }

  /** Attaching one more path: an earlier equal path still wins, and a new
      path is found at the new last position. */
  lemma AttachedPathIsRouted(paths: seq<seq<Byte>>, attached: seq<Byte>, path: seq<Byte>)
    ensures FirstMatch(paths + [attached], path) ==
      if path in paths then FirstMatch(paths, path)
      else if path == attached then Some(|paths|)
      else None
  {
    var extended := paths + [attached];
    FirstMatchIsEarliest(paths, path);
    FirstMatchIsEarliest(extended, path);
    if path in paths {
      var i := FirstMatch(paths, path).value;
      assert forall j :: 0 <= j < i ==> paths[..i][j] == paths[j];
      FirstMatchAt(extended, path, i);
    } else if path == attached {
      FirstMatchAt(extended, path, |paths|);
    } else {
      assert path !in extended;
    }
  }

  /** The response to a parsed request, as the server loop sends it: the
      first handler whose path equals the request path answers, and with
      none the answer is a 404 with no content. */
  function Respond(paths: seq<seq<Byte>>, handlers: seq<Handler>, buffer: seq<Byte>, request: Request,
                   handle: (Handler, Request, seq<Byte>) -> Reply): Outcome<seq<Byte>>
    requires |paths| == |handlers| && request.path.Within(|buffer|)
  {
    match FirstMatch(paths, Slice(buffer, request.path))
    case Some(i) =>
      var reply := handle(handlers[i], request, buffer);
      ResponseText(request.version, reply.status, reply.content)
    case None => ResponseText(request.version, STATUS_NOT_FOUND, [])
  }

  /** A request whose path was attached is answered by the handler at the
      first position holding that path, with the status and content it
      left. */
  lemma AttachedPathIsAnswered(paths: seq<seq<Byte>>, handlers: seq<Handler>, buffer: seq<Byte>, request: Request,
                               handle: (Handler, Request, seq<Byte>) -> Reply, i: nat)
    requires |paths| == |handlers| && request.path.Within(|buffer|)
    requires i < |paths| && paths[i] == Slice(buffer, request.path) && Slice(buffer, request.path) !in paths[..i]
    ensures var reply := handle(handlers[i], request, buffer);
      Respond(paths, handlers, buffer, request, handle) == ResponseText(request.version, reply.status, reply.content)
  {
    assert forall j :: 0 <= j < i ==> paths[..i][j] == paths[j];
    FirstMatchAt(paths, Slice(buffer, request.path), i);
  }

  /** A request whose path was never attached gets `404 Not Found`, the
      CORS header and nothing else. */
  lemma UnattachedPathIsNotFound(paths: seq<seq<Byte>>, handlers: seq<Handler>, buffer: seq<Byte>, request: Request,
                                 handle: (Handler, Request, seq<Byte>) -> Reply)
    requires |paths| == |handlers| && request.path.Within(|buffer|)
    requires Slice(buffer, request.path) !in paths
    ensures Respond(paths, handlers, buffer, request, handle) ==
      Ok(StatusLine(request.version, STATUS_NOT_FOUND, ReasonPhrase(STATUS_NOT_FOUND).value) + CorsHeader() + [CR, LF])
  {
    FirstMatchIsEarliest(paths, Slice(buffer, request.path));
    var head := ResponseHead(request.version, STATUS_NOT_FOUND, ReasonPhrase(STATUS_NOT_FOUND).value);
    assert Printed([]) == [];
    assert head + [] == head;
  }

  /** One turn of the server loop after `recv`: the request arena starts
      over, Offset is the received count rounded up to a word, and the
      request is parsed there. A rejected request gets no response (the
      connection is closed); an accepted one gets Respond's text. */
  function ServeConnection(paths: seq<seq<Byte>>, handlers: seq<Handler>, received: seq<Byte>,
                           handle: (Handler, Request, seq<Byte>) -> Reply): Outcome<Option<seq<Byte>>>
    requires |paths| == |handlers| && |received| <= DEFAULT_REQUEST_ARENA_CAPACITY
  {
    AlignedOffsetFits(|received|, DEFAULT_REQUEST_ARENA_CAPACITY);
    ParsedPathIsWithin(received, AlignWord(|received|), DEFAULT_REQUEST_ARENA_CAPACITY);
    match RequestParse(received, AlignWord(|received|), DEFAULT_REQUEST_ARENA_CAPACITY)
    case Abort(fault) => Abort(fault)
    case Ok((None, _)) => Ok(None)
    case Ok((Some(request), _)) =>
      match Respond(paths, handlers, received, request, handle)
      case Abort(fault) => Abort(fault)
      case Ok(text) => Ok(Some(text))
  }

  /** Bytes without an accepted request line are closed on without a
      response. */
  lemma RejectedRequestGetsNoResponse(paths: seq<seq<Byte>>, handlers: seq<Handler>, received: seq<Byte>,
                                      handle: (Handler, Request, seq<Byte>) -> Reply)
    requires |paths| == |handlers| && |received| <= DEFAULT_REQUEST_ARENA_CAPACITY
    requires RequestLineOf(received).None?
    ensures ServeConnection(paths, handlers, received, handle) == Ok(None)
  {
    AlignedOffsetFits(|received|, DEFAULT_REQUEST_ARENA_CAPACITY);
  }

  /** `http_server`: its own arena holding the handler table and the path
      table, and the number of handlers attached. */
  class HttpServer {
    var arena: Arena
    var handlers: array<Handler>
    var handlerPaths: array<seq<Byte>>
    var handlersCount: nat
    var handlersAt: nat  // where `Handlers` points in the arena
    var pathsAt: nat     // where `HandlersPaths` points in the arena

    ghost predicate Valid()
      reads this, arena
    {
      arena.Valid() && arena.capacity == HTTP_SERVER_ARENA_CAPACITY &&
      handlers.Length == HTTP_SERVER_MAX_HANDLERS && handlerPaths.Length == HTTP_SERVER_MAX_HANDLERS &&
      handlersCount <= HTTP_SERVER_MAX_HANDLERS
    }

    /** The attached paths, in the order they were attached. */
    ghost function Paths(): seq<seq<Byte>>
      reads this, arena, handlerPaths
      requires Valid()
    {
      handlerPaths[..handlersCount]
    }

    /** The attached handlers, in the same order. */
    ghost function Handlers(): seq<Handler>
      reads this, arena, handlers
      requires Valid()
    {
      handlers[..handlersCount]
    }

    /** HttpServerInit: a 4 GiB arena, the handler table (100 entries) and
      the path table (100 views) pushed from it, no handler attached. */
    constructor Init()
      ensures Valid() && fresh(arena) && fresh(handlers) && fresh(handlerPaths)
      ensures handlersCount == 0 && Paths() == [] && Handlers() == []
      ensures handlersAt == 0 && pathsAt == SIZE_OF_HANDLER * HTTP_SERVER_MAX_HANDLERS
      ensures arena.offset == (SIZE_OF_HANDLER + SIZE_OF_VIEW) * HTTP_SERVER_MAX_HANDLERS
    {
      var serverArena := new Arena.Init(HTTP_SERVER_ARENA_CAPACITY);
      PushedExact(0, HTTP_SERVER_ARENA_CAPACITY, SIZE_OF_HANDLER * HTTP_SERVER_MAX_HANDLERS);
      var handlerTable := serverArena.Push(SIZE_OF_HANDLER * HTTP_SERVER_MAX_HANDLERS);
      assert handlerTable.Ok?;
      PushedExact(SIZE_OF_HANDLER * HTTP_SERVER_MAX_HANDLERS, HTTP_SERVER_ARENA_CAPACITY,
                  SIZE_OF_VIEW * HTTP_SERVER_MAX_HANDLERS);
      var pathTable := serverArena.Push(SIZE_OF_VIEW * HTTP_SERVER_MAX_HANDLERS);
      assert pathTable.Ok?;
      arena := serverArena;
      handlersAt := handlerTable.value;
      pathsAt := pathTable.value;
      handlers := new Handler[HTTP_SERVER_MAX_HANDLERS](_ => NullHandler);
      handlerPaths := new seq<Byte>[HTTP_SERVER_MAX_HANDLERS](_ => []);
      handlersCount := 0;
    }

    /** HttpServerAttachHandler: past the table size it panics; otherwise
        the C string's bytes before its NUL (SV_LIT) and the handler go in
        the next slot. */
    method AttachHandler(path: seq<Byte>, handler: Handler) returns (r: Outcome<()>)
      requires Valid() && NUL in path
      modifies this, handlers, handlerPaths
      ensures Valid() && arena == old(arena) && handlers == old(handlers) && handlerPaths == old(handlerPaths)
      ensures old(handlersCount) >= HTTP_SERVER_MAX_HANDLERS ==>
        r == Abort(TooManyHandlers) && Paths() == old(Paths()) && Handlers() == old(Handlers())
      ensures old(handlersCount) < HTTP_SERVER_MAX_HANDLERS ==>
        r.Ok? && Paths() == old(Paths()) + [path[..CStrLength(path)]] && Handlers() == old(Handlers()) + [handler]
    {
      if handlersCount >= HTTP_SERVER_MAX_HANDLERS {
        return Abort(TooManyHandlers);
      }
      handlerPaths[handlersCount] := path[..CStrLength(path)];
      handlers[handlersCount] := handler;
      handlersCount := handlersCount + 1;
      r := Ok(());
    }

    /** The handler loop: StringViewEqual against each attached path in
        turn; the first equal one is taken. */
    method Route(path: seq<Byte>) returns (index: Option<nat>)
      requires Valid()
      ensures index == FirstMatch(Paths(), path)
    {
      var i := 0;
      while i < handlersCount
        invariant i <= handlersCount
        invariant FirstMatchFrom(Paths(), path, i) == FirstMatch(Paths(), path)
      {
        var equal := StringViewEqual(handlerPaths[i], path);
        if equal {
          return Some(i);
        }
        i := i + 1;
      }
      return None;
    }

    /** One turn of HttpServerStart's loop on the bytes `recv` delivered:
        the request arena takes them, then the request is parsed, routed
        and answered as ServeConnection says. */
    method Serve(requestArena: Arena, received: seq<Byte>, handle: (Handler, Request, seq<Byte>) -> Reply)
      returns (response: Outcome<Option<seq<Byte>>>)
      requires Valid() && requestArena.Valid() && requestArena != arena
      requires requestArena.capacity == DEFAULT_REQUEST_ARENA_CAPACITY && |received| <= requestArena.capacity
      modifies requestArena, requestArena.items
      ensures requestArena.Valid() && requestArena.capacity == old(requestArena.capacity)
      ensures requestArena.items[..|received|] == received
      ensures response == ServeConnection(Paths(), Handlers(), received, handle)
    {
      AlignedOffsetFits(|received|, DEFAULT_REQUEST_ARENA_CAPACITY);
      Receive(requestArena, received);
      ghost var stored := requestArena.items[..requestArena.offset];
      assert stored[..|received|] == received;
      var parsed := HttpRequestParse(requestArena, received);
      assert requestArena.items[..|received|] == stored[..|received|];
      if parsed.Abort? {
        return Abort(parsed.fault);
      }
      if parsed.value.None? {
        return Ok(None);
      }
      ParsedPathIsWithin(received, AlignWord(|received|), DEFAULT_REQUEST_ARENA_CAPACITY);
      var request := parsed.value.value;
      var text := Answer(received, request, handle);
      response := if text.Ok? then Ok(Some(text.value)) else Abort(text.fault);
    }

    /** The rest of the loop turn for a parsed request: the handler loop,
        the handler's call and the response text, or the 404 text. */
    method Answer(received: seq<Byte>, request: Request, handle: (Handler, Request, seq<Byte>) -> Reply)
      returns (text: Outcome<seq<Byte>>)
      requires Valid() && request.path.Within(|received|)
      ensures text == Respond(Paths(), Handlers(), received, request, handle)
    {
      var index := Route(Slice(received, request.path));
      if index.Some? {
        var reply := handle(handlers[index.value], request, received);
        text := ResponseText(request.version, reply.status, reply.content);
      } else {
        text := ResponseText(request.version, STATUS_NOT_FOUND, []);
      }
    }
  }

  /** The start of a loop turn: ArenaReset, `recv` writing the bytes at the
      start of Items, and Offset set to their count rounded up to a word. */
  method Receive(requestArena: Arena, received: seq<Byte>)
    requires requestArena.Valid() && |received| <= requestArena.capacity
    requires AlignWord(|received|) <= requestArena.capacity
    modifies requestArena, requestArena.items
    ensures requestArena.Valid() && requestArena.items == old(requestArena.items)
    ensures requestArena.capacity == old(requestArena.capacity)
    ensures requestArena.items[..|received|] == received && requestArena.offset == AlignWord(|received|)
  {
    requestArena.Reset();
    for i := 0 to |received|
      invariant requestArena.items == old(requestArena.items) && requestArena.Valid()
      invariant requestArena.capacity == old(requestArena.capacity)
      invariant requestArena.items[..i] == received[..i]
    {
      requestArena.items[i] := received[i];
    }
    requestArena.offset := AlignWord(|received|);
  }
}
