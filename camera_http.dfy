/**
  The camera daemon's HTTP handler (`StreamingHandler.do_GET`): which
  response each request path gets, and the exact bytes of one part of the
  `multipart/x-mixed-replace` stream that carries the frames.

  Header lines are written the way `send_header` writes them (`Name: value`
  and CRLF, Latin-1 encoded) and `end_headers` closes a header block with an
  empty line. The part layout follows the boundary delimiter of section 5.1.1
  of RFC 2046; the header syntax is that of section 3.2 of RFC 7230.
 */
module CameraHttp {
  import opened Wrappers
  import opened Bytes

  datatype Header = Header(name: string, value: string)

  predicate Encodable(h: Header)
  {
    IsLatin1(h.name) && IsLatin1(h.value)
  }

  /**
    `send_header(name, value)`: one `Name: value` line, CRLF-terminated, in
    Latin-1 (the encoding of the formatted line, piece by piece).
   */
  function HeaderLine(h: Header): (r: seq<byte>)
    requires Encodable(h)
    ensures |r| == |h.name| + |h.value| + 4
    ensures r[|h.name|] == 0x3A && r[|r| - 2] == 0x0D && r[|r| - 1] == 0x0A
  {
    Latin1(h.name) + FieldSep + Latin1(h.value) + CRLF
  }

  /** CR LF, `"\r\n"` in Latin-1. */
  const CRLF: seq<byte> := [0x0D, 0x0A]
  /** `": "` in Latin-1. */
  const FieldSep: seq<byte> := [0x3A, 0x20]

  /** A header line is the Latin-1 encoding of the formatted text `name: value` and CRLF. */
  lemma HeaderLineIsEncodedText(h: Header)
    requires Encodable(h)
    ensures IsLatin1(h.name + ": " + h.value + "\r\n")
    ensures HeaderLine(h) == Latin1(h.name + ": " + h.value + "\r\n")
  {
    assert CRLF == Latin1("\r\n") && FieldSep == Latin1(": ");
    Latin1Concat(h.name, ": ");
    Latin1Concat(h.name + ": ", h.value);
    Latin1Concat(h.name + ": " + h.value, "\r\n");
  }

  /** The header lines in order, then the empty line of `end_headers`. */
  function HeaderBlock(hs: seq<Header>): (r: seq<byte>)
    requires forall i :: 0 <= i < |hs| ==> Encodable(hs[i])
    ensures |r| >= 2 && r[|r| - 2] == 0x0D && r[|r| - 1] == 0x0A
    ensures hs == [] <==> |r| == 2
    ensures hs != [] ==> |r| >= 6 && r[|r| - 4] == 0x0D && r[|r| - 3] == 0x0A
  {
    if hs == [] then CRLF else HeaderLine(hs[0]) + HeaderBlock(hs[1..])
  }

  /** The value of the first header called `name`, if any. */
  function Lookup(hs: seq<Header>, name: string): Option<string>
  {
    if hs == [] then None
    else if hs[0].name == name then Some(hs[0].value)
    else Lookup(hs[1..], name)
  }

  /** What the handler sends after the status line: nothing, the page, or the endless part stream. */
  datatype Body = NoBody | Content(bytes: seq<byte>) | PartStream

  datatype Response = Response(status: nat, headers: seq<Header>, body: Body)

  const Boundary := "FRAME"
  const MultipartReplace := "multipart/x-mixed-replace"

  /**
    The response to `GET path`; `page` is the landing page, already UTF-8
    encoded. `path` is the request target as `http.server` leaves it in
    `self.path`, so it is compared as text, with no decoding or
    normalisation here (recent CPython versions collapse a leading `//`
    before this point, which serves `//index.html` as `/index.html`).
   */
  function Route(path: string, page: seq<byte>): (r: Response)
    ensures r.status == 301 || r.status == 200 || r.status == 404
    ensures r.status == 404 <==> r.headers == []
    ensures r.status != 200 ==> r.body == NoBody
    ensures r.body.Content? ==> r.body.bytes == page
  {
    if path == "/" then
      Response(301, [Header("Location", "/index.html")], NoBody)
    else if path == "/index.html" then
      Response(200, [Header("Content-Type", "text/html"), Header("Content-Length", Decimal(|page|))], Content(page))
    else if path == "/stream.mjpg" then
      Response(200, [Header("Age", Decimal(0)),
                     Header("Cache-Control", "no-cache, private"),
                     Header("Pragma", "no-cache"),
                     Header("Content-Type", MultipartReplace + "; boundary=" + Boundary)],
               PartStream)
    else
      Response(404, [], NoBody)
  }

  /** The headers of one streamed part. */
  function PartHeaders(frame: seq<byte>): seq<Header>
  {
    [Header("Content-Type", "image/jpeg"), Header("Content-Length", Decimal(|frame|))]
  }

  /** `--FRAME` and CRLF: the boundary delimiter line that opens every part. */
  const Delimiter: seq<byte> := [0x2D, 0x2D, 0x46, 0x52, 0x41, 0x4D, 0x45, 0x0D, 0x0A]

  /** One part of the stream: the delimiter line, the part's header block, the frame, CRLF. */
  function Part(frame: seq<byte>): (r: seq<byte>)
    ensures |r| > |Delimiter| + |frame| + 2
    ensures r[..|Delimiter|] == Delimiter
    ensures r[|r| - |frame| - 2..] == frame + CRLF
  {
    Delimiter + HeaderBlock(PartHeaders(frame)) + frame + CRLF
  }

  /** The stream body that carries `frames`, one part each. */
  function StreamBody(frames: seq<seq<byte>>): (r: seq<byte>)
    ensures r == [] <==> frames == []
    ensures frames != [] ==> |r| > |Delimiter| && r[..|Delimiter|] == Delimiter
  {
    if frames == [] then [] else Part(frames[0]) + StreamBody(frames[1..])
  }

  // ---------------------------------------------------------------------
  // Routing properties

  predicate KnownPath(path: string)
  {
    path == "/" || path == "/index.html" || path == "/stream.mjpg"
  }

  /** `/` redirects, the page and the stream answer 200, everything else is 404. */
  lemma RouteStatus(path: string, page: seq<byte>)
    ensures Route(path, page).status == 301 <==> path == "/"
    ensures Route(path, page).status == 200 <==> path == "/index.html" || path == "/stream.mjpg"
    ensures Route(path, page).status == 404 <==> !KnownPath(path)
    ensures Route(path, page).body == PartStream <==> path == "/stream.mjpg"
  {
  }

  /**
    The redirect of `/` (section 6.4.2 of RFC 7231) names its target in a
    `Location` header, and that target is served with 200 and the page.
   */
  lemma RedirectTargetIsPage(page: seq<byte>)
    ensures Route("/", page).status == 301
    ensures Lookup(Route("/", page).headers, "Location").Some?
    ensures var target := Lookup(Route("/", page).headers, "Location").value;
      Route(target, page).status == 200 && Route(target, page).body == Content(page)
  {
  }

  /** The page is sent as `text/html` with a `Content-Length` that reads back as its byte length. */
  lemma PageContentLength(page: seq<byte>)
    ensures Lookup(Route("/index.html", page).headers, "Content-Type") == Some("text/html")
    ensures var v := Lookup(Route("/index.html", page).headers, "Content-Length");
      v.Some? && IsLatin1(v.value) && (forall i :: 0 <= i < |v.value| ==> IsDigitByte(Latin1(v.value)[i]))
      && DigitsValue(Latin1(v.value)) == |page|
  {
    DecimalRoundTrip(|page|);
  }

  /** The stream's response head, in the order the handler sends it. */
  lemma StreamHeaders(page: seq<byte>)
    ensures Route("/stream.mjpg", page).headers
         == [Header("Age", "0"), Header("Cache-Control", "no-cache, private"), Header("Pragma", "no-cache"),
             Header("Content-Type", MultipartReplace + "; boundary=" + Boundary)]
  {
    assert Decimal(0) == "0";
  }

  /** The boundary that the stream's content type declares is the one every part is opened with. */
  lemma StreamDeclaresPartBoundary(page: seq<byte>, frame: seq<byte>)
    ensures Lookup(Route("/stream.mjpg", page).headers, "Content-Type")
         == Some(MultipartReplace + "; boundary=" + Boundary)
    ensures Part(frame)[..|Delimiter|] == Delimiter == Latin1("--" + Boundary + "\r\n")
  {
    var hs := Route("/stream.mjpg", page).headers;
    StreamHeaders(page);
    assert hs[0].name != "Content-Type" && hs[1].name != "Content-Type" && hs[2].name != "Content-Type";
    assert Lookup(hs, "Content-Type") == Lookup(hs[1..], "Content-Type") == Lookup(hs[1..][1..], "Content-Type")
        == Lookup(hs[1..][1..][1..], "Content-Type");
    DelimiterText();
    Split(Delimiter, HeaderBlock(PartHeaders(frame)) + frame + CRLF);
  }

  /** The delimiter bytes are the Latin-1 encoding of `--`, the boundary and CRLF. */
  lemma DelimiterText()
    ensures IsLatin1("--" + Boundary + "\r\n") && Delimiter == Latin1("--" + Boundary + "\r\n")
  {
    assert "--" + Boundary + "\r\n" == "--FRAME\r\n";
  }

  // ---------------------------------------------------------------------
  // Header syntax of section 3.2 of RFC 7230

  predicate IsTChar(c: char)
  {
    ('a' <= c <= 'z') || ('A' <= c <= 'Z') || ('0' <= c <= '9') || c in "!#$%&'*+-.^_`|~"
  }

  /** A field name: a non-empty token. */
  predicate IsToken(s: string)
  {
    |s| > 0 && forall i :: 0 <= i < |s| ==> IsTChar(s[i])
  }

  predicate IsFieldChar(c: char)
  {
    c == ' ' || c == '\t' || ('!' <= c <= '~') || (128 <= c as int <= 255)
  }

  /** A field value: visible characters, spaces and tabs, no CR or LF, no surrounding white space. */
  predicate IsFieldValue(s: string)
  {
    && (forall i :: 0 <= i < |s| ==> IsFieldChar(s[i]))
    && (|s| > 0 ==> s[0] != ' ' && s[0] != '\t' && s[|s| - 1] != ' ' && s[|s| - 1] != '\t')
  }

  predicate WellFormed(h: Header)
  {
    IsToken(h.name) && IsFieldValue(h.value)
  }

  lemma DecimalIsFieldValue(n: nat)
    ensures IsFieldValue(Decimal(n))
  {
    var s := Decimal(n);
    assert forall i :: 0 <= i < |s| ==> IsDigit(s[i]);
  }

  lemma StreamTypeIsFieldValue()
    ensures IsFieldValue(MultipartReplace + "; boundary=" + Boundary)
  {
    var s := MultipartReplace + "; boundary=" + Boundary;
    assert IsFieldValue(MultipartReplace) && IsFieldValue("; boundary=") && IsFieldValue(Boundary);
    forall i | 0 <= i < |s| ensures IsFieldChar(s[i]) {
      if i < |MultipartReplace| {
        assert s[i] == MultipartReplace[i];
      } else if i < |MultipartReplace| + 11 {
        assert s[i] == "; boundary="[i - |MultipartReplace|];
      } else {
        assert s[i] == Boundary[i - |MultipartReplace| - 11];
      }
    }
  }

  lemma AgeWellFormed()
    ensures WellFormed(Header("Age", "0"))
  {
  }

  lemma CacheControlWellFormed()
    ensures WellFormed(Header("Cache-Control", "no-cache, private"))
  {
  }

  lemma PragmaWellFormed()
    ensures WellFormed(Header("Pragma", "no-cache"))
  {
  }

  lemma PageHeadersWellFormed(page: seq<byte>)
    ensures forall h :: h in Route("/index.html", page).headers ==> WellFormed(h)
  {
    DecimalIsFieldValue(|page|);
    assert IsToken("Content-Type") && IsToken("Content-Length");
    assert IsFieldValue("text/html");
  }

  lemma StreamHeadersWellFormed(page: seq<byte>)
    ensures forall h :: h in Route("/stream.mjpg", page).headers ==> WellFormed(h)
  {
    StreamHeaders(page);
    StreamTypeIsFieldValue();
    AgeWellFormed();
    CacheControlWellFormed();
    PragmaWellFormed();
    assert IsToken("Content-Type");
  }

  /** Every header line the handler writes in a response head is a well-formed header field. */
  lemma RouteHeadersWellFormed(path: string, page: seq<byte>)
    ensures forall h :: h in Route(path, page).headers ==> WellFormed(h)
  {
    if path == "/" {
      assert IsToken("Location") && IsFieldValue("/index.html");
    } else if path == "/index.html" {
      PageHeadersWellFormed(page);
    } else if path == "/stream.mjpg" {
      StreamHeadersWellFormed(page);
    }
  }

  /** Both header lines of every streamed part are well-formed header fields. */
  lemma PartHeadersWellFormed(frame: seq<byte>)
    ensures forall h :: h in PartHeaders(frame) ==> WellFormed(h)
  {
    DecimalIsFieldValue(|frame|);
    assert IsToken("Content-Type") && IsToken("Content-Length");
    assert IsFieldValue("image/jpeg");
  }

  // ---------------------------------------------------------------------
  // Reading parts back: a viewer's view of the stream

  /** The fixed bytes that open every part, up to the length's digits. */
  const PartPrefix: seq<byte> :=
    Delimiter + HeaderLine(Header("Content-Type", "image/jpeg")) + Latin1("Content-Length") + FieldSep

  /** The number of leading decimal digit bytes of `s`. */
  function DigitRun(s: seq<byte>): (k: nat)
    ensures k <= |s|
    ensures forall i :: 0 <= i < k ==> IsDigitByte(s[i])
    ensures k < |s| ==> !IsDigitByte(s[k])
  {
    if s == [] || !IsDigitByte(s[0]) then 0 else 1 + DigitRun(s[1..])
  }

  /** Read a decimal length off the front of `s`: its value and what follows the digits. */
  function ParseLength(s: seq<byte>): (r: Option<(nat, seq<byte>)>)
    ensures r.Some? ==> |r.value.1| < |s|
  {
    var k := DigitRun(s);
    if k == 0 then None else Some((DigitsValue(s[..k]), s[k..]))
  }

  /** After the length: the empty line, `n` bytes of frame, CRLF. Answers the frame and what follows. */
  function ParseBody(n: nat, s: seq<byte>): (r: Option<(seq<byte>, seq<byte>)>)
    ensures r.Some? ==> |r.value.1| < |s|
  {
    if |s| < n + 6 || s[..4] != CRLF + CRLF || s[n + 4..n + 6] != CRLF then None
    else Some((s[4..n + 4], s[n + 6..]))
  }

  /**
    Read one part off the front of `s`: the delimiter and headers, the
    frame of the announced length, and the closing CRLF. Answers the frame
    and what follows the part.
   */
  function ParsePart(s: seq<byte>): (r: Option<(seq<byte>, seq<byte>)>)
    ensures r.Some? ==> |r.value.1| < |s|
  {
    if |s| < |PartPrefix| || s[..|PartPrefix|] != PartPrefix then None
    else
      match ParseLength(s[|PartPrefix|..])
      case None => None
      case Some((n, after)) => ParseBody(n, after)
  }

  /** Read a whole stream body into its frames. */
  function ParseStream(s: seq<byte>): Option<seq<seq<byte>>>
    decreases |s|
  {
    if s == [] then Some([])
    else
      match ParsePart(s)
      case None => None
      case Some((frame, rest)) =>
        match ParseStream(rest)
        case None => None
        case Some(frames) => Some([frame] + frames)
  }

  /** A part whose length is written as `d`, laid out byte by byte. */
  lemma LayoutWith(d: string, frame: seq<byte>)
    requires IsLatin1(d)
    ensures var hs := [Header("Content-Type", "image/jpeg"), Header("Content-Length", d)];
      Delimiter + HeaderBlock(hs) + frame + CRLF == PartPrefix + Latin1(d) + CRLF + CRLF + frame + CRLF
  {
    var hs := [Header("Content-Type", "image/jpeg"), Header("Content-Length", d)];
    assert hs[1..][1..] == [];
    assert HeaderBlock(hs[1..]) == HeaderLine(hs[1]) + CRLF;
    Regroup(Delimiter, HeaderLine(hs[0]), Latin1("Content-Length"), FieldSep, Latin1(d), CRLF, frame);
  }

  /** A part laid out byte by byte. */
  lemma PartLayout(frame: seq<byte>)
    ensures Part(frame) == PartPrefix + Latin1(Decimal(|frame|)) + CRLF + CRLF + frame + CRLF
  {
    LayoutWith(Decimal(|frame|), frame);
  }

  /** Concatenation regrouped, stated on opaque pieces so that none of them is unfolded. */
  lemma Regroup<T>(a: seq<T>, l: seq<T>, f: seq<T>, c: seq<T>, g: seq<T>, e: seq<T>, h: seq<T>)
    ensures a + (l + ((f + c + g + e) + e)) + h + e == (a + l + f + c) + g + e + e + h + e
  {
  }

  /** Reading a part whose length digits are `d`. */
  lemma ParseLaidOutPart(d: seq<byte>, frame: seq<byte>, rest: seq<byte>)
    requires d != [] && forall i :: 0 <= i < |d| ==> IsDigitByte(d[i])
    requires DigitsValue(d) == |frame|
    ensures ParsePart(PartPrefix + d + CRLF + CRLF + frame + CRLF + rest) == Some((frame, rest))
  {
    var after := CRLF + CRLF + frame + CRLF + rest;
    Regroup2(PartPrefix, d, CRLF, frame, rest);
    Split(PartPrefix, d + after);
    ReadLength(d, after);
    Trailer(CRLF, frame, rest);
  }

  lemma ReadLength(d: seq<byte>, after: seq<byte>)
    requires d != [] && forall i :: 0 <= i < |d| ==> IsDigitByte(d[i])
    requires after != [] && !IsDigitByte(after[0])
    ensures ParseLength(d + after) == Some((DigitsValue(d), after))
  {
    Split(d, after);
    DigitRunStops(d, after);
  }

  /** Concatenation regrouped, stated on opaque pieces. */
  lemma Regroup2<T>(p: seq<T>, d: seq<T>, c: seq<T>, f: seq<T>, r: seq<T>)
    ensures p + d + c + c + f + c + r == p + (d + (c + c + f + c + r))
  {
  }

  lemma Split<T>(a: seq<T>, b: seq<T>)
    ensures (a + b)[..|a|] == a && (a + b)[|a|..] == b
  {
  }

  lemma DigitRunStops(d: seq<byte>, t: seq<byte>)
    requires forall i :: 0 <= i < |d| ==> IsDigitByte(d[i])
    requires t != [] && !IsDigitByte(t[0])
    ensures DigitRun(d + t) == |d|
  {
    assert forall i :: 0 <= i < |d| ==> (d + t)[i] == d[i];
    assert (d + t)[|d|] == t[0];
  }

  lemma Trailer(c: seq<byte>, f: seq<byte>, r: seq<byte>)
    requires c == CRLF
    ensures ParseBody(|f|, c + c + f + c + r) == Some((f, r))
  {
    var s := c + c + f + c + r;
    assert s == (c + c) + (f + (c + r));
    assert s[..4] == c + c && s[4..|f| + 4] == f && s[|f| + 4..|f| + 6] == c && s[|f| + 6..] == r;
  }

  /** A part is read back as its frame, whatever the frame's bytes and whatever follows. */
  lemma PartRoundTrip(frame: seq<byte>, rest: seq<byte>)
    ensures ParsePart(Part(frame) + rest) == Some((frame, rest))
  {
    PartLayout(frame);
    DecimalRoundTrip(|frame|);
    ParseLaidOutPart(Latin1(Decimal(|frame|)), frame, rest);
  }

  /** The stream body of any sequence of frames reads back as exactly those frames. */
  lemma {:induction false} StreamRoundTrip(frames: seq<seq<byte>>)
    ensures ParseStream(StreamBody(frames)) == Some(frames)
  {
    if frames != [] {
      var frame, tail := frames[0], frames[1..];
      StreamRoundTrip(tail);
      PartThenStream(frame, StreamBody(tail), tail);
      assert StreamBody(frames) == Part(frame) + StreamBody(tail);
      assert [frame] + tail == frames;
    }
  }

  /** A part followed by a readable stream reads as the part's frame, then that stream's frames. */
  lemma PartThenStream(frame: seq<byte>, rest: seq<byte>, frames: seq<seq<byte>>)
    requires ParseStream(rest) == Some(frames)
    ensures ParseStream(Part(frame) + rest) == Some([frame] + frames)
  {
    PartRoundTrip(frame, rest);
    ParseStreamCons(Part(frame) + rest, frame, rest, frames);
  }

  /** A stream that opens with a readable part is that part's frame followed by the frames of the rest. */
  lemma ParseStreamCons(s: seq<byte>, frame: seq<byte>, rest: seq<byte>, frames: seq<seq<byte>>)
    requires ParsePart(s) == Some((frame, rest)) && ParseStream(rest) == Some(frames)
    ensures ParseStream(s) == Some([frame] + frames)
  {
  }
}
