/** HttpRequestParse of backend/http.c: one pass over the received bytes
    that reads the request line (section 5.1 of RFC 2616), the header
    lines (section 5.3) and the body (section 4.3), pushing one header slot
    into the arena per header. */
module HttpRequests {
  import opened Common
  import opened Arenas

  /** The request methods of section 5.1.1 of RFC 2616, in
      `ENUM_HTTP_METHODS` order. */
  datatype HttpMethod = Options | Get | Post | Put | Delete | Trace | Connect

  /** The one version `ENUM_HTTP_VERSIONS` lists. */
  datatype HttpVersion = Http11

  /** The bytes the source compares a method against (the enumerator name). */
  function MethodText(m: HttpMethod): string
  {
    match m
    case Options => "OPTIONS"
    case Get => "GET"
    case Post => "POST"
    case Put => "PUT"
    case Delete => "DELETE"
    case Trace => "TRACE"
    case Connect => "CONNECT"
  }

  /** The ASCII bytes of the method's name. */
  function MethodName(m: HttpMethod): seq<Byte>
  {
    match m
    case Options => [0x4F, 0x50, 0x54, 0x49, 0x4F, 0x4E, 0x53]
    case Get => [0x47, 0x45, 0x54]
    case Post => [0x50, 0x4F, 0x53, 0x54]
    case Put => [0x50, 0x55, 0x54]
    case Delete => [0x44, 0x45, 0x4C, 0x45, 0x54, 0x45]
    case Trace => [0x54, 0x52, 0x41, 0x43, 0x45]
    case Connect => [0x43, 0x4F, 0x4E, 0x4E, 0x45, 0x43, 0x54]
  }

  /** The bytes are those of the enumerator's name. */
  lemma MethodNameIsAscii(m: HttpMethod)
    ensures MethodName(m) == Ascii(MethodText(m))
  {
    match m
    case Options => case Get => case Post => case Put =>
    case Delete => case Trace => case Connect =>
  }

  /** No method name is empty or holds a space. */
  lemma MethodNameIsWord(m: HttpMethod)
    ensures |MethodName(m)| > 0 && SPACE !in MethodName(m)
  {
    match m
    case Options => case Get => case Post => case Put =>
    case Delete => case Trace => case Connect =>
  }

  /** `HttpVersionStrings`: the text of each version. */
  function VersionString(v: HttpVersion): seq<Byte>
  {
    [0x48, 0x54, 0x54, 0x50, 0x2F, 0x31, 0x2E, 0x31] // HTTP/1.1
  }

  /** The version bytes are the text `HTTP/1.1`. */
  lemma VersionStringIsAscii()
    ensures VersionString(Http11) == Ascii("HTTP/1.1")
  {
    var text := Ascii("HTTP/1.1");
    assert text[0] == 0x48 && text[1] == 0x54 && text[2] == 0x54 && text[3] == 0x50;
    assert text[4] == 0x2F && text[5] == 0x31 && text[6] == 0x2E && text[7] == 0x31;
  }

  /** The chain of `StringViewEqualCStr` tests of the `X(Method)` expansion:
      the first method whose name equals the bytes exactly. */
  function MethodOf(bytes: seq<Byte>): Option<HttpMethod>
  {
    if bytes == MethodName(Options) then Some(Options)
    else if bytes == MethodName(Get) then Some(Get)
    else if bytes == MethodName(Post) then Some(Post)
    else if bytes == MethodName(Put) then Some(Put)
    else if bytes == MethodName(Delete) then Some(Delete)
    else if bytes == MethodName(Trace) then Some(Trace)
    else if bytes == MethodName(Connect) then Some(Connect)
    else None
  }

  /** The same chain for the version. */
  function VersionOf(bytes: seq<Byte>): Option<HttpVersion>
  {
    if bytes == VersionString(Http11) then Some(Http11) else None
  }

  /** A method is recognised exactly when the bytes are its name, byte for
      byte and case-sensitively. */
  lemma MethodOfIsName(bytes: seq<Byte>, m: HttpMethod)
    ensures MethodOf(bytes) == Some(m) <==> bytes == MethodName(m)
  {
    var n := MethodName(m);
    if bytes == n {
      match m
      case Options =>
      case Get =>
        assert n[0] != MethodName(Options)[0];
      case Post =>
        assert n[0] != MethodName(Options)[0];
      case Put =>
        assert n[0] != MethodName(Get)[0];
        assert n[0] != MethodName(Options)[0];
      case Delete =>
      case Trace =>
      case Connect =>
        assert n[0] != MethodName(Options)[0];
    }
  }

  /** A version is recognised exactly when the bytes are `HTTP/1.1`. */
  lemma VersionOfIsString(bytes: seq<Byte>, v: HttpVersion)
    ensures VersionOf(bytes) == Some(v) <==> bytes == VersionString(v)
  {
  }

  /** What the request line yields: the method, the path view, the version
      and where the header lines begin. */
  datatype RequestLine = RequestLine(requestMethod: HttpMethod, path: View, version: HttpVersion, headersFrom: nat)

  /** The request line as HttpRequestParse reads it (method, path, version,
      CRLF): the method is everything
      before the first space; the path is everything up to the second space,
      undecoded; the version is everything up to the first CR, which must
      be followed by LF. */
  function RequestLineOf(buffer: seq<Byte>): (r: Option<RequestLine>)
    ensures r.Some? ==> r.value.path.Within(|buffer|) && r.value.headersFrom <= |buffer|
  {
    var methodEnd := IndexOf(buffer, 0, SPACE);
    if methodEnd >= |buffer| then None
    else match MethodOf(buffer[..methodEnd])
    case None => None
    case Some(requestMethod) =>
      var pathStart := methodEnd + 1;
      var pathEnd := IndexOf(buffer, pathStart, SPACE);
      if pathEnd >= |buffer| then None
      else
        var versionStart := pathEnd + 1;
        var cr := IndexOf(buffer, versionStart, CR);
        if cr >= |buffer| then None
        else match VersionOf(buffer[versionStart..cr])
        case None => None
        case Some(version) =>
          if |buffer| - cr <= 1 then None
          else if buffer[cr + 1] != LF then None
          else Some(RequestLine(requestMethod, View(pathStart, pathEnd - pathStart), version, cr + 2))
  }

  const U64_MODULUS: int := 0x1_0000_0000_0000_0000

  /** Unsigned 64-bit subtraction: the result modulo 2^64. */
  function Wrap64(x: int): (r: nat)
    ensures r < U64_MODULUS
    ensures 0 <= x < U64_MODULUS ==> r == x
    ensures -U64_MODULUS <= x < 0 ==> r == x + U64_MODULUS
  {
    if 0 <= x < U64_MODULUS then
      ModUnique(x, U64_MODULUS, 0, x);
      x % U64_MODULUS
    else if -U64_MODULUS <= x < 0 then
      ModUnique(x, U64_MODULUS, -1, x + U64_MODULUS);
      x % U64_MODULUS
    else x % U64_MODULUS
  }

  /** An `http_header`: the name and value views. */
  datatype Header = Header(name: View, value: View)

  /** Where the header loop stops: at a line beginning with CRLF (with the
      headers read before it), or at a malformed line or the end of the
      bytes (with the headers already pushed). */
  datatype HeaderScan = Blank(headers: seq<Header>, at: nat) | Malformed(headers: seq<Header>)

  /** One header line from index `i`: the name runs to the first `:` at
      or after `i` (which may lie on a later line), the value to the next
      CR, which must be followed by LF. The value view is taken as written:
      it starts two bytes past that CR and is two bytes shorter than the
      value, in unsigned arithmetic. The next line starts past the LF. */
  function HeaderLineAt(buffer: seq<Byte>, i: nat): (r: Option<(Header, nat)>)
    requires i < |buffer|
    ensures r.Some? ==> i < r.value.1 <= |buffer| && r.value.0.name.Within(|buffer|)
    ensures r.Some? ==> r.value.0.name.start == i && i + 3 <= r.value.1 && buffer[r.value.1 - 2] == CR && buffer[r.value.1 - 1] == LF
  {
    var colon := IndexOf(buffer, i, COLON);
    if colon >= |buffer| then None
    else
      var valueStart := colon + 1;
      var cr := IndexOf(buffer, valueStart, CR);
      if |buffer| - cr <= 1 then None
      else if buffer[cr + 1] != LF then None
      else Some((Header(View(i, colon - i), View(cr + 2, Wrap64(cr - valueStart - 2))), cr + 2))
  }

  /** The line begins with CRLF. */
  predicate BlankAt(buffer: seq<Byte>, i: nat)
    requires i < |buffer|
  {
    buffer[i] == CR && |buffer| - i > 1 && buffer[i + 1] == LF
  }

  /** The header loop from index `i`: a line beginning with CRLF ends it,
      any other line must be a header line; the headers are kept in wire
      order after those already read. */
  function ScanHeaders(buffer: seq<Byte>, i: nat, acc: seq<Header>): (r: HeaderScan)
    requires i <= |buffer|
    ensures |r.headers| >= |acc| && r.headers[..|acc|] == acc
    ensures r.Blank? ==> i <= r.at && r.at + 1 < |buffer| && buffer[r.at] == CR && buffer[r.at + 1] == LF
    decreases |buffer| - i
  {
    if i >= |buffer| then Malformed(acc)
    else if BlankAt(buffer, i) then Blank(acc, i)
    else match HeaderLineAt(buffer, i)
    case None => Malformed(acc)
    case Some((header, next)) =>
      var r := ScanHeaders(buffer, next, acc + [header]);
      assert (acc + [header])[..|acc|] == acc;
      assert r.headers[..|acc|] == r.headers[..|acc| + 1][..|acc|];
      r
  }

  /** The bytes that `n` header slots of `sizeof(http_header)` take. */
  function HeaderBytes(n: nat): nat
  {
    32 * n
  }

  /** A parsed `http_request`. `headersAt` is where the header slots begin
      in the arena. */
  datatype Request = Request(requestMethod: HttpMethod, path: View, version: HttpVersion,
                             headers: seq<Header>, headersAt: nat, body: View)

  /** HttpRequestParse as a whole: no request when the request line is
      rejected (and nothing pushed); otherwise what RequestAfterLine says.
      The pair carries the arena Offset afterwards. */
  function RequestParse(buffer: seq<Byte>, offset: nat, capacity: nat): (r: Outcome<(Option<Request>, nat)>)
    requires offset <= capacity
    ensures r.Ok? ==> offset <= r.value.1 <= capacity
    ensures r.Ok? && r.value.0.Some? ==>
      r.value.1 == offset + HeaderBytes(|r.value.0.value.headers| + 1) &&
      r.value.0.value.headersAt == offset
    ensures r.Ok? && r.value.0.Some? ==> r.value.0.value.body.start + r.value.0.value.body.count == |buffer|
    ensures r.Abort? ==> r.fault == OutOfMemory
  {
    match RequestLineOf(buffer)
    case None => Ok((None, offset))
    case Some(line) => RequestAfterLine(buffer, line, offset, capacity)
  }

  /** The path of a parsed request lies inside the buffer it was parsed from. */
  lemma ParsedPathIsWithin(buffer: seq<Byte>, offset: nat, capacity: nat)
    requires offset <= capacity
    ensures var r := RequestParse(buffer, offset, capacity);
      r.Ok? && r.value.0.Some? ==> r.value.0.value.path.Within(|buffer|)
  {
  }

  /** HttpRequestParse after an accepted request line: one zeroed header
      slot plus one slot per header read are pushed, which aborts when they
      do not fit, and the request exists only if a blank line was reached.
      The body is every byte after that blank line's CRLF. */
  function RequestAfterLine(buffer: seq<Byte>, line: RequestLine, offset: nat, capacity: nat)
    : (r: Outcome<(Option<Request>, nat)>)
    requires offset <= capacity && line.headersFrom <= |buffer|
    ensures r.Ok? ==> offset <= r.value.1 <= capacity
    ensures r.Ok? && r.value.0.Some? ==>
      r.value.1 == offset + HeaderBytes(|r.value.0.value.headers| + 1) &&
      r.value.0.value.headersAt == offset
    ensures r.Ok? && r.value.0.Some? ==> r.value.0.value.body.start + r.value.0.value.body.count == |buffer|
    ensures r.Abort? ==> r.fault == OutOfMemory
  {
    var scan := ScanHeaders(buffer, line.headersFrom, []);
    var footprint := HeaderBytes(|scan.headers| + 1);
    if capacity - offset < footprint then Abort(OutOfMemory)
    else
      var request :=
        if scan.Blank? then
          Some(Request(line.requestMethod, line.path, line.version, scan.headers, offset,
                       View(scan.at + 2, |buffer| - scan.at - 2)))
        else None;
      Ok((request, offset + footprint))
  }

  /** `StringViewEqualCStr(sv, #Method)`. */
  method EqualsMethodName(sv: seq<Byte>, m: HttpMethod) returns (equal: bool)
    ensures equal <==> sv == MethodName(m)
  {
    var text := MethodText(m);
    assert forall j :: 0 <= j < |text| ==> 0 < text[j] as int < 256 by {
      match m
      case Options => case Get => case Post => case Put =>
      case Delete => case Trace => case Connect =>
    }
    var name := CStr(text);
    MethodNameIsAscii(m);
    equal := StringViewEqualCStr(sv, name);
  }

  /** The `X(Method)` chain: the first name that matches. */
  method ParseMethod(sv: seq<Byte>) returns (m: Option<HttpMethod>)
    ensures m == MethodOf(sv)
  {
    var names := [Options, Get, Post, Put, Delete, Trace, Connect];
    for k := 0 to |names|
      invariant forall j :: 0 <= j < k ==> sv != MethodName(names[j])
    {
      var equal := EqualsMethodName(sv, names[k]);
      if equal {
        MethodOfIsName(sv, names[k]);
        return Some(names[k]);
      }
    }
    assert sv != MethodName(names[0]) && sv != MethodName(names[1]) && sv != MethodName(names[2]);
    assert sv != MethodName(names[3]) && sv != MethodName(names[4]) && sv != MethodName(names[5]);
    assert sv != MethodName(names[6]);
    return None;
  }

  /** The `X(Version, String)` chain for the one version. */
  method ParseVersion(sv: seq<Byte>) returns (v: Option<HttpVersion>)
    ensures v == VersionOf(sv)
  {
    var equal := StringViewEqualLiteral(sv, "HTTP/1.1");
    VersionStringIsAscii();
    v := if equal then Some(Http11) else None;
  }

  /** The request-line part of HttpRequestParse (method, path, version,
      CRLF): three scans for a space, a space and a CR, and the comparisons. */
  method ParseRequestLine(buffer: seq<Byte>) returns (line: Option<RequestLine>)
    ensures line == RequestLineOf(buffer)
  {
    var i := ScanFor(buffer, 0, SPACE);
    if i >= |buffer| {
      return None;
    }
    var requestMethod := ParseMethod(buffer[..i]);
    if requestMethod.None? {
      return None;
    }
    var pathStart := i + 1;
    i := ScanFor(buffer, pathStart, SPACE);
    if i >= |buffer| {
      return None;
    }
    var path := View(pathStart, i - pathStart);
    var versionStart := i + 1;
    i := ScanFor(buffer, versionStart, CR);
    if i >= |buffer| {
      return None;
    }
    var version := ParseVersion(buffer[versionStart..i]);
    if version.None? {
      return None;
    }
    if |buffer| - i <= 1 {
      return None;
    }
    if buffer[i + 1] != LF {
      return None;
    }
    return Some(RequestLine(requestMethod.value, path, version.value, i + 2));
  }

  /** The body of the header loop: scan to the colon, then to the CR, and
      check the LF. */
  method ReadHeaderLine(buffer: seq<Byte>, i: nat) returns (line: Option<(Header, nat)>)
    requires i < |buffer|
    ensures line == HeaderLineAt(buffer, i)
  {
    var nameStart := i;
    var at := ScanFor(buffer, i, COLON);
    if at >= |buffer| {
      return None;
    }
    var name := View(nameStart, at - nameStart);
    var valueStart := at + 1;
    at := ScanFor(buffer, valueStart, CR);
    if |buffer| - at <= 1 {
      return None;
    }
    if buffer[at + 1] != LF {
      return None;
    }
    var value := View(at + 2, Wrap64(at - valueStart - 2));
    return Some((Header(name, value), at + 2));
  }

  /** The header loop of HttpRequestParse: one ArenaPush of a header slot
      per header line. It ends where ScanHeaders ends, having pushed one
      slot per header, or aborts when a slot no longer fits. */
  method ReadHeaders(arena: Arena, buffer: seq<Byte>, from: nat) returns (r: Outcome<HeaderScan>)
    requires arena.Valid() && from <= |buffer|
    modifies arena
    ensures arena.Valid() && arena.items == old(arena.items) && arena.capacity == old(arena.capacity)
    ensures r.Ok? ==> (r.value == ScanHeaders(buffer, from, []) &&
      arena.offset == old(arena.offset) + HeaderBytes(|r.value.headers|))
    ensures r.Abort? ==> (r.fault == OutOfMemory &&
      arena.capacity - old(arena.offset) < HeaderBytes(|ScanHeaders(buffer, from, []).headers|))
  {
    ghost var offset := arena.offset;
    ghost var scan := ScanHeaders(buffer, from, []);
    var headers: seq<Header> := [];
    var i := from;
    while i < |buffer| && !(buffer[i] == CR && |buffer| - i > 1 && buffer[i + 1] == LF)
      invariant i <= |buffer|
      invariant ScanHeaders(buffer, i, headers) == scan
      invariant arena.Valid() && arena.items == old(arena.items) && arena.capacity == old(arena.capacity)
      invariant arena.offset == offset + HeaderBytes(|headers|)
      decreases |buffer| - i
    {
      var line := ReadHeaderLine(buffer, i);
      if line.None? {
        return Ok(Malformed(headers));
      }
      ScanHeadersStep(buffer, i, headers, line.value.0, line.value.1);
      headers := headers + [line.value.0];
      ghost var before := arena.offset;
      var pushed := arena.Push(SIZE_OF_HTTP_HEADER);
      if pushed.Abort? {
        assert |scan.headers| >= |headers|;
        SlotsOverflow(arena.capacity, offset, |headers| - 1, |scan.headers|);
        return Abort(pushed.fault);
      }
      PushedExact(before, arena.capacity, SIZE_OF_HTTP_HEADER);
      i := line.value.1;
    }
    if i >= |buffer| {
      return Ok(Malformed(headers));
    }
    BlankLineEndsHeaders(buffer, i, headers);
    return Ok(Blank(headers, i));
  }

  /** When the slot after `k` slots does not fit, neither do `n > k` slots. */
  lemma SlotsOverflow(capacity: nat, offset: nat, k: nat, n: nat)
    requires offset + HeaderBytes(k) <= capacity
    requires Pushed(offset + HeaderBytes(k), capacity, SIZE_OF_HTTP_HEADER).Abort? && n > k
    ensures capacity - offset < HeaderBytes(n)
  {
    AlignForwardValue(SIZE_OF_HTTP_HEADER, SIZE_OF_UZ);
  }

  /** A header line is one step of ScanHeaders. */
  lemma ScanHeadersStep(buffer: seq<Byte>, i: nat, acc: seq<Header>, header: Header, next: nat)
    requires i < |buffer| && !BlankAt(buffer, i) && HeaderLineAt(buffer, i) == Some((header, next))
    ensures next <= |buffer| && ScanHeaders(buffer, i, acc) == ScanHeaders(buffer, next, acc + [header])
  {
  }

  /** HttpRequestParse on an arena: the request line, then the rest as
      ParseAfterLine does it. The result and the arena Offset are those of
      RequestParse; the bytes below the old Offset are untouched. */
  method HttpRequestParse(arena: Arena, buffer: seq<Byte>) returns (r: Outcome<Option<Request>>)
    requires arena.Valid()
    modifies arena, arena.items
    ensures arena.Valid() && arena.items == old(arena.items) && arena.capacity == old(arena.capacity)
    ensures arena.items[..old(arena.offset)] == old(arena.items[..arena.offset])
    ensures RequestParse(buffer, old(arena.offset), arena.capacity).Abort? <==> r.Abort?
    ensures r.Abort? ==> r.fault == RequestParse(buffer, old(arena.offset), arena.capacity).fault
    ensures r.Ok? ==> RequestParse(buffer, old(arena.offset), arena.capacity) == Ok((r.value, arena.offset))
  {
    var line := ParseRequestLine(buffer);
    if line.None? {
      return Ok(None);
    }
    AcceptedLineParses(buffer, line.value, arena.offset, arena.capacity);
    r := ParseAfterLine(arena, buffer, line.value);
  }

  /** The part of HttpRequestParse after the request line: ARENA_NEW of
      one header slot, the header loop, then the body, as RequestAfterLine
      says. */
  method ParseAfterLine(arena: Arena, buffer: seq<Byte>, line: RequestLine) returns (r: Outcome<Option<Request>>)
    requires arena.Valid() && line.headersFrom <= |buffer|
    modifies arena, arena.items
    ensures arena.Valid() && arena.items == old(arena.items) && arena.capacity == old(arena.capacity)
    ensures arena.items[..old(arena.offset)] == old(arena.items[..arena.offset])
    ensures RequestAfterLine(buffer, line, old(arena.offset), arena.capacity).Abort? <==> r.Abort?
    ensures r.Abort? ==> r.fault == RequestAfterLine(buffer, line, old(arena.offset), arena.capacity).fault
    ensures r.Ok? ==> RequestAfterLine(buffer, line, old(arena.offset), arena.capacity) == Ok((r.value, arena.offset))
  {
    ghost var offset := arena.offset;
    var headersAt := arena.PushZero(SIZE_OF_HTTP_HEADER);
    if headersAt.Abort? {
      return Abort(headersAt.fault);
    }
    PushedExact(offset, arena.capacity, SIZE_OF_HTTP_HEADER);
    assert arena.items[..offset] == old(arena.items[..arena.offset]);
    ghost var zeroed := arena.items[..];
    var scan := ReadHeaders(arena, buffer, line.headersFrom);
    assert arena.items[..] == zeroed;
    if scan.Abort? {
      return Abort(scan.fault);
    }
    if scan.value.Malformed? {
      return Ok(None);
    }
    var i := scan.value.at;
    var body := View(i + 2, |buffer| - i - 2);
    r := Ok(Some(Request(line.requestMethod, line.path, line.version,
                         scan.value.headers, headersAt.value, body)));
  }

  /** IndexOf finds `b` at `at` when nothing before it from `from` is `b`. */
  lemma IndexOfIs(bytes: seq<Byte>, from: nat, at: nat, b: Byte)
    requires from <= at < |bytes| && bytes[at] == b
    requires forall j :: from <= j < at ==> bytes[j] != b
    ensures IndexOf(bytes, from, b) == at
  {
  }

  /** Where the request line's separators are, it yields those parts. */
  lemma RequestLineAt(buffer: seq<Byte>, m: HttpMethod, methodEnd: nat, pathEnd: nat, cr: nat)
    requires methodEnd < pathEnd < cr && cr + 1 < |buffer|
    requires buffer[methodEnd] == SPACE && buffer[pathEnd] == SPACE && buffer[cr] == CR && buffer[cr + 1] == LF
    requires forall j :: 0 <= j < methodEnd ==> buffer[j] != SPACE
    requires forall j :: methodEnd < j < pathEnd ==> buffer[j] != SPACE
    requires forall j :: pathEnd < j < cr ==> buffer[j] != CR
    requires buffer[..methodEnd] == MethodName(m) && buffer[pathEnd + 1..cr] == VersionString(Http11)
    ensures RequestLineOf(buffer) == Some(RequestLine(m, View(methodEnd + 1, pathEnd - methodEnd - 1), Http11, cr + 2))
  {
    IndexOfIs(buffer, 0, methodEnd, SPACE);
    MethodOfIsName(buffer[..methodEnd], m);
    assert MethodOf(buffer[..methodEnd]) == Some(m);
    IndexOfIs(buffer, methodEnd + 1, pathEnd, SPACE);
    IndexOfIs(buffer, pathEnd + 1, cr, CR);
    assert VersionOf(buffer[pathEnd + 1..cr]) == Some(Http11);
  }

  /** `<method> SP <path> SP HTTP/1.1 CRLF`, for a path without a space. */
  function RequestLineText(m: HttpMethod, path: seq<Byte>): seq<Byte>
  {
    MethodName(m) + [SPACE] + path + [SPACE] + VersionString(Http11) + [CR, LF]
  }

  /** Where the separators of `name SP path SP version CRLF rest` fall. */
  lemma RequestLineLayout(name: seq<Byte>, path: seq<Byte>, version: seq<Byte>, rest: seq<Byte>)
    ensures var buffer := name + [SPACE] + path + [SPACE] + version + [CR, LF] + rest; var n := |name|;
      var pathEnd := n + 1 + |path|; var cr := pathEnd + 1 + |version|;
      |buffer| == cr + 2 + |rest| &&
      buffer[n] == SPACE && buffer[pathEnd] == SPACE && buffer[cr] == CR && buffer[cr + 1] == LF &&
      buffer[..n] == name && buffer[n + 1..pathEnd] == path &&
      buffer[pathEnd + 1..cr] == version && buffer[cr + 2..] == rest
  {
    var buffer := name + [SPACE] + path + [SPACE] + version + [CR, LF] + rest;
    var tail3 := [CR, LF] + rest;
    var tail2 := version + tail3;
    var tail1 := [SPACE] + tail2;
    var tail0 := path + tail1;
    assert buffer == name + ([SPACE] + tail0);
    assert buffer[|name|..] == [SPACE] + tail0;
    assert buffer[|name| + 1..] == tail0;
    assert buffer[|name| + 1 + |path|..] == tail1;
    assert buffer[|name| + 2 + |path|..] == tail2;
    assert buffer[|name| + 2 + |path| + |version|..] == tail3;
  }

  /** A request line put together from its parts reads back as those
      parts: the method, the path's bytes, HTTP/1.1, and the headers
      beginning right after the CRLF. */
  lemma RequestLineReadsBack(m: HttpMethod, path: seq<Byte>, rest: seq<Byte>)
    requires SPACE !in path
    ensures var buffer := RequestLineText(m, path) + rest;
      var n := |MethodName(m)|;
      RequestLineOf(buffer) == Some(RequestLine(m, View(n + 1, |path|), Http11, |RequestLineText(m, path)|)) &&
      Slice(buffer, View(n + 1, |path|)) == path
  {
    var name := MethodName(m);
    var version := VersionString(Http11);
    var buffer := name + [SPACE] + path + [SPACE] + version + [CR, LF] + rest;
    assert buffer == RequestLineText(m, path) + rest;
    var n := |name|;
    var pathEnd := n + 1 + |path|;
    var cr := pathEnd + 9;
    RequestLineLayout(name, path, version, rest);
    MethodNameIsWord(m);
    assert forall j :: 0 <= j < 8 ==> version[j] != CR;
    RequestLineAt(buffer, m, n, pathEnd, cr);
  }

  /** Where a header line's colon, CR and LF are, it yields the header
      with the name up to the colon and the value view as written, and the
      scan goes on past the LF. */
  lemma HeaderLineAtSeparators(buffer: seq<Byte>, i: nat, acc: seq<Header>, colon: nat, cr: nat)
    requires i <= colon < cr && cr + 1 < |buffer|
    requires buffer[colon] == COLON && buffer[cr] == CR && buffer[cr + 1] == LF
    requires forall j :: i <= j < colon ==> buffer[j] != COLON
    requires forall j :: colon < j < cr ==> buffer[j] != CR
    requires !BlankAt(buffer, i)
    ensures HeaderLineAt(buffer, i) == Some((Header(View(i, colon - i), View(cr + 2, Wrap64(cr - colon - 3))), cr + 2))
    ensures ScanHeaders(buffer, i, acc) ==
      ScanHeaders(buffer, cr + 2, acc + [Header(View(i, colon - i), View(cr + 2, Wrap64(cr - colon - 3)))])
  {
    IndexOfIs(buffer, i, colon, COLON);
    IndexOfIs(buffer, colon + 1, cr, CR);
  }

  /** A line beginning with CRLF ends the headers there. */
  lemma BlankLineEndsHeaders(buffer: seq<Byte>, i: nat, acc: seq<Header>)
    requires i + 2 <= |buffer| && buffer[i] == CR && buffer[i + 1] == LF
    ensures ScanHeaders(buffer, i, acc) == Blank(acc, i)
  {
  }

  /** `name:value CRLF CRLF body`, with no `:` in the name, no CR in the
      value, and a name that does not begin with CR: the separators fall
      where the parts say. */
  lemma HeaderBlockLayout(name: seq<Byte>, value: seq<Byte>, body: seq<Byte>)
    requires COLON !in name && CR !in value && |name| > 0 && name[0] != CR
    ensures var block := name + [COLON] + value + [CR, LF] + [CR, LF] + body;
      var colon := |name|; var cr := colon + 1 + |value|;
      |block| == cr + 4 + |body| && block[0] != CR &&
      block[colon] == COLON && block[cr] == CR && block[cr + 1] == LF &&
      block[cr + 2] == CR && block[cr + 3] == LF &&
      (forall j :: 0 <= j < colon ==> block[j] != COLON) &&
      (forall j :: colon < j < cr ==> block[j] != CR) &&
      block[..colon] == name && block[cr + 4..] == body
  {
    var block := name + [COLON] + value + [CR, LF] + [CR, LF] + body;
    assert block == name + ([COLON] + (value + ([CR, LF, CR, LF] + body)));
    assert block[|name|..] == [COLON] + (value + ([CR, LF, CR, LF] + body));
    assert block[|name| + 1..] == value + ([CR, LF, CR, LF] + body);
    assert block[|name| + 1 + |value|..] == [CR, LF, CR, LF] + body;
    assert forall j :: 0 <= j < |name| ==> block[j] == name[j];
    assert forall j :: |name| < j < |name| + 1 + |value| ==> block[j] == value[j - |name| - 1];
  }

  /** A request line followed by headers that end at a blank line is a
      request with those headers and the bytes after the blank line as
      body, provided the header slots fit. */
  lemma RequestOfScan(buffer: seq<Byte>, line: RequestLine, headers: seq<Header>, at: nat, offset: nat, capacity: nat)
    requires line.headersFrom <= |buffer|
    requires ScanHeaders(buffer, line.headersFrom, []) == Blank(headers, at)
    requires offset + HeaderBytes(|headers| + 1) <= capacity
    ensures var r := RequestAfterLine(buffer, line, offset, capacity);
      r.Ok? && r.value.1 == offset + HeaderBytes(|headers| + 1) && r.value.0.Some? &&
      r.value.0.value.requestMethod == line.requestMethod && r.value.0.value.path == line.path &&
      r.value.0.value.headers == headers && r.value.0.value.headersAt == offset &&
      r.value.0.value.body == View(at + 2, |buffer| - (at + 2))
  {
  }

  /** Once the request line is accepted, RequestParse is RequestAfterLine. */
  lemma AcceptedLineParses(buffer: seq<Byte>, line: RequestLine, offset: nat, capacity: nat)
    requires offset <= capacity && RequestLineOf(buffer) == Some(line)
    ensures RequestParse(buffer, offset, capacity) == RequestAfterLine(buffer, line, offset, capacity)
  {
  }

  /** A request with one header and a body, put together from its parts,
      parses into that method, path, the one header as written, and the
      body; the arena grows by two header slots. */
  lemma OneHeaderRequestParses(m: HttpMethod, path: seq<Byte>, name: seq<Byte>, value: seq<Byte>,
                               body: seq<Byte>, offset: nat, capacity: nat)
    requires SPACE !in path && COLON !in name && CR !in value && |name| > 0 && name[0] != CR
    requires offset + HeaderBytes(2) <= capacity
    ensures var buffer := RequestLineText(m, path) + (name + [COLON] + value + [CR, LF] + [CR, LF] + body);
      var lineEnd := |RequestLineText(m, path)|;
      var cr := lineEnd + |name| + 1 + |value|;
      var r := RequestParse(buffer, offset, capacity);
      r.Ok? && r.value.1 == offset + HeaderBytes(2) && r.value.0.Some? &&
      r.value.0.value.requestMethod == m && Slice(buffer, r.value.0.value.path) == path &&
      |r.value.0.value.headers| == 1 &&
      r.value.0.value.headers[0].name == View(lineEnd, |name|) &&
      r.value.0.value.headers[0].value == View(cr + 2, Wrap64(|value| - 2)) &&
      Slice(buffer, r.value.0.value.headers[0].name) == name &&
      r.value.0.value.body.Within(|buffer|) && Slice(buffer, r.value.0.value.body) == body
  {
    var block := name + [COLON] + value + [CR, LF] + [CR, LF] + body;
    RequestLineReadsBack(m, path, block);
    var line := RequestLine(m, View(|MethodName(m)| + 1, |path|), Http11, |RequestLineText(m, path)|);
    HeaderBlockLayout(name, value, body);
    OneHeaderAfterText(RequestLineText(m, path) + block, RequestLineText(m, path), line, block,
                       name, |value|, body, offset, capacity);
  }

  /** OneHeaderRequestParses for any request line text the request line
      parser accepts, followed by a block laid out as HeaderBlockLayout
      describes. */
  lemma OneHeaderAfterText(buffer: seq<Byte>, lineText: seq<Byte>, line: RequestLine, block: seq<Byte>,
                           name: seq<Byte>, valueLength: nat, body: seq<Byte>, offset: nat, capacity: nat)
    requires buffer == lineText + block
    requires RequestLineOf(buffer) == Some(line)
    requires line.headersFrom == |lineText|
    requires var colon := |name|; var cr := colon + 1 + valueLength;
      |block| == cr + 4 + |body| && block[0] != CR &&
      block[colon] == COLON && block[cr] == CR && block[cr + 1] == LF &&
      block[cr + 2] == CR && block[cr + 3] == LF &&
      (forall j :: 0 <= j < colon ==> block[j] != COLON) &&
      (forall j :: colon < j < cr ==> block[j] != CR) &&
      block[..colon] == name && block[cr + 4..] == body
    requires offset + HeaderBytes(2) <= capacity
    ensures var lineEnd := |lineText|;
      var cr := lineEnd + |name| + 1 + valueLength;
      var r := RequestParse(buffer, offset, capacity);
      r.Ok? && r.value.1 == offset + HeaderBytes(2) && r.value.0.Some? &&
      r.value.0.value.requestMethod == line.requestMethod && r.value.0.value.path == line.path &&
      |r.value.0.value.headers| == 1 &&
      r.value.0.value.headers[0].name == View(lineEnd, |name|) &&
      r.value.0.value.headers[0].value == View(cr + 2, Wrap64(valueLength - 2)) &&
      Slice(buffer, r.value.0.value.headers[0].name) == name &&
      r.value.0.value.body.Within(|buffer|) && Slice(buffer, r.value.0.value.body) == body
  {
    OneHeaderSlices(buffer, lineText, block, |name| + 1 + valueLength, name, body);
    OneHeaderWithSlices(buffer, line, block, name, valueLength, body, offset, capacity);
  }

  /** The name and body views of a one-header request read back the bytes
      they were laid out from. */
  lemma OneHeaderViewsReadBack(buffer: seq<Byte>, request: Request, at: nat, name: seq<Byte>, cr: nat, body: seq<Byte>)
    requires |buffer| == cr + 4 + |body| && at + |name| <= cr
    requires |request.headers| == 1 && request.headers[0].name == View(at, |name|)
    requires request.body == View(cr + 4, |buffer| - (cr + 4))
    requires Slice(buffer, View(at, |name|)) == name
    requires Slice(buffer, View(cr + 4, |buffer| - (cr + 4))) == body
    ensures Slice(buffer, request.headers[0].name) == name
    ensures request.body.Within(|buffer|) && Slice(buffer, request.body) == body
  {
  }

  /** OneHeaderRequestAt with the name and body read back from the buffer. */
  lemma OneHeaderWithSlices(buffer: seq<Byte>, line: RequestLine, block: seq<Byte>, name: seq<Byte>, valueLength: nat,
                            body: seq<Byte>, offset: nat, capacity: nat)
    requires RequestLineOf(buffer) == Some(line) && buffer[line.headersFrom..] == block
    requires var colon := |name|; var cr := colon + 1 + valueLength;
      cr + 4 <= |block| && block[0] != CR &&
      block[colon] == COLON && block[cr] == CR && block[cr + 1] == LF &&
      block[cr + 2] == CR && block[cr + 3] == LF &&
      (forall j :: 0 <= j < colon ==> block[j] != COLON) &&
      (forall j :: colon < j < cr ==> block[j] != CR)
    requires var at := line.headersFrom; var cr := at + |name| + 1 + valueLength;
      |buffer| == cr + 4 + |body| && Slice(buffer, View(at, |name|)) == name &&
      Slice(buffer, View(cr + 4, |buffer| - (cr + 4))) == body
    requires offset + HeaderBytes(2) <= capacity
    ensures var at := line.headersFrom; var cr := at + |name| + 1 + valueLength;
      var r := RequestParse(buffer, offset, capacity);
      r.Ok? && r.value.1 == offset + HeaderBytes(2) && r.value.0.Some? &&
      r.value.0.value.requestMethod == line.requestMethod && r.value.0.value.path == line.path &&
      |r.value.0.value.headers| == 1 &&
      r.value.0.value.headers[0].name == View(at, |name|) &&
      r.value.0.value.headers[0].value == View(cr + 2, Wrap64(valueLength - 2)) &&
      Slice(buffer, r.value.0.value.headers[0].name) == name &&
      r.value.0.value.body.Within(|buffer|) && Slice(buffer, r.value.0.value.body) == body
  {
    OneHeaderRequestAt(buffer, line, block, |name|, valueLength, offset, capacity);
    var r := RequestParse(buffer, offset, capacity);
    OneHeaderViewsReadBack(buffer, r.value.0.value, line.headersFrom, name, line.headersFrom + |name| + 1 + valueLength, body);
  }

  /** An accepted request line followed by one header line and a blank
      line is a request with that header; two header slots are pushed. */
  lemma OneHeaderRequestAt(buffer: seq<Byte>, line: RequestLine, block: seq<Byte>, nameLength: nat, valueLength: nat,
                           offset: nat, capacity: nat)
    requires RequestLineOf(buffer) == Some(line) && buffer[line.headersFrom..] == block
    requires var colon := nameLength; var cr := colon + 1 + valueLength;
      cr + 4 <= |block| && block[0] != CR &&
      block[colon] == COLON && block[cr] == CR && block[cr + 1] == LF &&
      block[cr + 2] == CR && block[cr + 3] == LF &&
      (forall j :: 0 <= j < colon ==> block[j] != COLON) &&
      (forall j :: colon < j < cr ==> block[j] != CR)
    requires offset + HeaderBytes(2) <= capacity
    ensures var at := line.headersFrom; var cr := at + nameLength + 1 + valueLength;
      var r := RequestParse(buffer, offset, capacity);
      r.Ok? && r.value.1 == offset + HeaderBytes(2) && r.value.0.Some? &&
      r.value.0.value.requestMethod == line.requestMethod && r.value.0.value.path == line.path &&
      |r.value.0.value.headers| == 1 &&
      r.value.0.value.headers[0].name == View(at, nameLength) &&
      r.value.0.value.headers[0].value == View(cr + 2, Wrap64(valueLength - 2)) &&
      r.value.0.value.body == View(cr + 4, |buffer| - (cr + 4))
  {
    OneHeaderAfterLine(buffer, line, block, nameLength, valueLength, offset, capacity);
    AcceptedLineParses(buffer, line, offset, capacity);
  }

  /** Where the name and the body sit in a one-header request. */
  lemma OneHeaderSlices(buffer: seq<Byte>, lineText: seq<Byte>, block: seq<Byte>, cr: nat,
                        name: seq<Byte>, body: seq<Byte>)
    requires buffer == lineText + block
    requires |name| <= cr && |block| == cr + 4 + |body| && block[..|name|] == name && block[cr + 4..] == body
    ensures var at := |lineText|; var end := at + cr;
      buffer[at..] == block && |buffer| == end + 4 + |body| && Slice(buffer, View(at, |name|)) == name &&
      Slice(buffer, View(end + 4, |buffer| - (end + 4))) == body
  {
    var at := |lineText|;
    assert buffer[at..at + |name|] == block[..|name|];
    assert buffer[at + cr + 4..] == block[cr + 4..];
  }


  /** After an accepted request line, a block of one header line and a
      blank line is a request with that header, two header slots pushed. */
  lemma OneHeaderAfterLine(buffer: seq<Byte>, line: RequestLine, block: seq<Byte>, nameLength: nat, valueLength: nat,
                           offset: nat, capacity: nat)
    requires line.headersFrom <= |buffer| && buffer[line.headersFrom..] == block
    requires var colon := nameLength; var cr := colon + 1 + valueLength;
      cr + 4 <= |block| && block[0] != CR &&
      block[colon] == COLON && block[cr] == CR && block[cr + 1] == LF &&
      block[cr + 2] == CR && block[cr + 3] == LF &&
      (forall j :: 0 <= j < colon ==> block[j] != COLON) &&
      (forall j :: colon < j < cr ==> block[j] != CR)
    requires offset + HeaderBytes(2) <= capacity
    ensures var at := line.headersFrom; var cr := at + nameLength + 1 + valueLength;
      var r := RequestAfterLine(buffer, line, offset, capacity);
      r.Ok? && r.value.1 == offset + HeaderBytes(2) && r.value.0.Some? &&
      r.value.0.value.requestMethod == line.requestMethod && r.value.0.value.path == line.path &&
      r.value.0.value.headers == [Header(View(at, nameLength), View(cr + 2, Wrap64(valueLength - 2)))] &&
      r.value.0.value.body == View(cr + 4, |buffer| - (cr + 4))
  {
    var at := line.headersFrom;
    var cr := at + nameLength + 1 + valueLength;
    var header := Header(View(at, nameLength), View(cr + 2, Wrap64(valueLength - 2)));
    OneHeaderBlockScans(buffer, at, block, nameLength, valueLength);
    RequestOfScan(buffer, line, [header], cr + 2, offset, capacity);
  }

  /** The header block of OneHeaderRequestParses, found at `at` in the
      whole buffer, scans to one header and the blank line. */
  lemma OneHeaderBlockScans(buffer: seq<Byte>, at: nat, block: seq<Byte>, nameLength: nat, valueLength: nat)
    requires at <= |buffer| && buffer[at..] == block
    requires var colon := nameLength; var cr := colon + 1 + valueLength;
      cr + 4 <= |block| && block[0] != CR &&
      block[colon] == COLON && block[cr] == CR && block[cr + 1] == LF &&
      block[cr + 2] == CR && block[cr + 3] == LF &&
      (forall j :: 0 <= j < colon ==> block[j] != COLON) &&
      (forall j :: colon < j < cr ==> block[j] != CR)
    ensures var header := Header(View(at, nameLength), View(at + nameLength + valueLength + 3, Wrap64(valueLength - 2)));
      ScanHeaders(buffer, at, []) == Blank([header], at + nameLength + valueLength + 3)
  {
    var colon := at + nameLength;
    var cr := colon + 1 + valueLength;
    assert forall j :: at <= j < |buffer| ==> buffer[j] == block[j - at];
    var header := Header(View(at, nameLength), View(cr + 2, Wrap64(valueLength - 2)));
    HeaderLineAtSeparators(buffer, at, [], colon, cr);
    assert [] + [header] == [header];
    BlankLineEndsHeaders(buffer, cr + 2, [header]);
  }

  /** A one- or zero-byte header value gets a length that wraps round to
      within two of 2^64. */
  lemma ShortHeaderValueWraps(valueLength: nat)
    requires valueLength < 2
    ensures Wrap64(valueLength - 2) == U64_MODULUS - 2 + valueLength
  {
  }

  /** A request line with an unknown method, such as lower-case `get`, is
      rejected before anything is pushed. */
  lemma UnknownMethodRejected(buffer: seq<Byte>, offset: nat, capacity: nat)
    requires offset <= capacity
    requires IndexOf(buffer, 0, SPACE) < |buffer|
    requires forall m :: buffer[..IndexOf(buffer, 0, SPACE)] != MethodName(m)
    ensures RequestParse(buffer, offset, capacity) == Ok((None, offset))
  {
    var n := IndexOf(buffer, 0, SPACE);
    if MethodOf(buffer[..n]).Some? {
      MethodOfIsName(buffer[..n], MethodOf(buffer[..n]).value);
    }
  }

  /** Bytes with no space at all are not a request. */
  lemma NoSpaceRejected(buffer: seq<Byte>, offset: nat, capacity: nat)
    requires offset <= capacity && SPACE !in buffer
    ensures RequestParse(buffer, offset, capacity) == Ok((None, offset))
  {
  }

  /** When the bytes end before the blank line the headers read so far are
      still pushed, but no request is produced. */
  lemma MissingBlankLineYieldsNoRequest(buffer: seq<Byte>, line: RequestLine, offset: nat, capacity: nat)
    requires offset <= capacity && RequestLineOf(buffer) == Some(line)
    requires ScanHeaders(buffer, line.headersFrom, []).Malformed?
    ensures var footprint := HeaderBytes(|ScanHeaders(buffer, line.headersFrom, []).headers| + 1);
      var next: nat := offset + footprint;
      (capacity - offset < footprint ==> RequestParse(buffer, offset, capacity) == Abort(OutOfMemory)) &&
      (footprint <= capacity - offset ==> RequestParse(buffer, offset, capacity) == Ok((None, next)))
  {
    AcceptedLineParses(buffer, line, offset, capacity);
    MalformedHeadersAfterLine(buffer, line, offset, capacity);
  }

  /** RequestAfterLine when the header scan stops short of a blank line. */
  lemma MalformedHeadersAfterLine(buffer: seq<Byte>, line: RequestLine, offset: nat, capacity: nat)
    requires offset <= capacity && line.headersFrom <= |buffer|
    requires ScanHeaders(buffer, line.headersFrom, []).Malformed?
    ensures var footprint := HeaderBytes(|ScanHeaders(buffer, line.headersFrom, []).headers| + 1);
      var next: nat := offset + footprint;
      (capacity - offset < footprint ==> RequestAfterLine(buffer, line, offset, capacity) == Abort(OutOfMemory)) &&
      (footprint <= capacity - offset ==> RequestAfterLine(buffer, line, offset, capacity) == Ok((None, next)))
  {
  }
}
