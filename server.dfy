/** The request handling of the thread-per-connection server: how a request target is
    split into a path and a query, how a path is recognised as an image request
    ("/<width>,<height>"), how the remaining paths are checked and mapped below the
    document root, which response each case produces, the per-connection read loop, and
    the counter that numbers the connections. */
module Server {
  import opened CTypes
  import opened Decimal
  import opened Scan
  import opened Bmp
  import opened FileBody

  // ---------------------------------------------------------------------------------
  // Configuration and responses

  /** What the handlers take from outside the request: the document root the file paths
      are appended to, the text of the `Server` header, and the content type chosen for
      a path. */
  datatype Config = Config(root: string, serverName: string, mimeType: string -> string)

  const StatusOk: nat := 200
  const StatusBadRequest: nat := 400
  const StatusNotFound: nat := 404
  const StatusInternalServerError: nat := 500

  /** The largest image side a request may ask for. */
  const MaxImageSide: int := 2048

  /** A string body, the bytes of a generated image, or a file streamed from disk. */
  datatype Body = Text(text: string) | Bytes(bytes: seq<byte>) | FileStream(path: string)

  datatype Response = Response(status: nat, headers: seq<(string, string)>, body: Body)

  /** The value of the first header field called `name`. */
  function Header(headers: seq<(string, string)>, name: string): (v: Option<string>)
    ensures v.None? <==> forall i :: 0 <= i < |headers| ==> headers[i].0 != name
    ensures v.Some? ==>
      exists i :: 0 <= i < |headers| && headers[i] == (name, v.value) &&
                  forall j :: 0 <= j < i ==> headers[j].0 != name
  {
    if headers == [] then None
    else if headers[0].0 == name then Some(headers[0].1)
    else
      var v := Header(headers[1..], name);
      if v.Some? then
        var i :| 0 <= i < |headers| - 1 && headers[1..][i] == (name, v.value) &&
          forall j :: 0 <= j < i ==> headers[1..][j].0 != name;
        assert headers[i + 1] == (name, v.value);
        assert forall j :: 0 <= j < i + 1 ==> headers[j].0 != name by {
          forall j | 0 < j < i + 1 ensures headers[j].0 != name {
            assert headers[j] == headers[1..][j - 1];
          }
        }
        v
      else v
  }

  /** The three header fields every response of the server sets. */
  function StandardHeaders(server: string, contentType: string, contentLength: string)
    : seq<(string, string)>
  {
    [("Server", server), ("Content-Type", contentType), ("Content-Length", contentLength)]
  }

  /** Each of the three fields can be looked up by its name. */
  lemma StandardHeaderFields(server: string, contentType: string, contentLength: string)
    ensures var hs := StandardHeaders(server, contentType, contentLength);
      Header(hs, "Server") == Some(server) &&
      Header(hs, "Content-Type") == Some(contentType) &&
      Header(hs, "Content-Length") == Some(contentLength)
  {
    var hs := StandardHeaders(server, contentType, contentLength);
    assert |"Server"| == 6 && |"Content-Type"| == 12 && |"Content-Length"| == 14;
    assert hs[1..] == [("Content-Type", contentType), ("Content-Length", contentLength)];
    assert hs[1..][1..] == [("Content-Length", contentLength)];
    assert Header(hs[1..][1..], "Content-Length") == Some(contentLength);
    assert Header(hs[1..], "Content-Length") == Some(contentLength);
    assert Header(hs[1..], "Content-Type") == Some(contentType);
  }

  /** `error_response`: a plain-text body made of the message and a line break; preparing
      the payload sets the content length to the size of that body, which reads back as
      that size. */
  function ErrorResponse(cfg: Config, status: nat, text: string): (res: Response)
    ensures res.status == status && res.body == Text(text + "\r\n")
    ensures Header(res.headers, "Server") == Some(cfg.serverName)
    ensures Header(res.headers, "Content-Type") == Some("text/plain")
    ensures Header(res.headers, "Content-Length").Some? &&
      (var len := Header(res.headers, "Content-Length").value;
       AllDigits(len) && DigitsValue(len) == |text| + 2)
  {
    var body := text + "\r\n";
    StandardHeaderFields(cfg.serverName, "text/plain", NatToDecimal(|body|));
    NatToDecimalRoundTrip(|body|);
    Response(status, StandardHeaders(cfg.serverName, "text/plain", NatToDecimal(|body|)), Text(body))
  }

  /** The 200 response of `serve_image`: the generated bytes with their length. */
  function ImageResponse(cfg: Config, bytes: seq<byte>): Response {
    Response(StatusOk, StandardHeaders(cfg.serverName, "image/bmp", NatToDecimal(|bytes|)), Bytes(bytes))
  }

  /** An image response is a 200 holding the bytes, announced as a bitmap whose
      Content-Length reads back as their number. */
  lemma ImageResponseFields(cfg: Config, bytes: seq<byte>)
    ensures var res := ImageResponse(cfg, bytes);
      res.status == StatusOk && res.body == Bytes(bytes) &&
      Header(res.headers, "Server") == Some(cfg.serverName) &&
      Header(res.headers, "Content-Type") == Some("image/bmp") &&
      Header(res.headers, "Content-Length") == Some(NatToDecimal(|bytes|)) &&
      DigitsValue(NatToDecimal(|bytes|)) == |bytes|
  {
    StandardHeaderFields(cfg.serverName, "image/bmp", NatToDecimal(|bytes|));
    NatToDecimalRoundTrip(|bytes|);
  }

  /** The 200 response of `serve_file`: the file streamed by the file body, with its
      content type and the size the filesystem reported. */
  function FileResponse(cfg: Config, full: string, rqpath: string, length: uint64): Response {
    Response(StatusOk,
      StandardHeaders(cfg.serverName, cfg.mimeType(rqpath), NatToDecimal(length as nat)),
      FileStream(full))
  }

  /** A file response is a 200 streaming the file, with the content type of the path and
      a Content-Length that reads back as the size the filesystem reported. */
  lemma FileResponseFields(cfg: Config, full: string, rqpath: string, length: uint64)
    ensures var res := FileResponse(cfg, full, rqpath, length);
      res.status == StatusOk && res.body == FileStream(full) &&
      Header(res.headers, "Server") == Some(cfg.serverName) &&
      Header(res.headers, "Content-Type") == Some(cfg.mimeType(rqpath)) &&
      Header(res.headers, "Content-Length") == Some(NatToDecimal(length as nat)) &&
      DigitsValue(NatToDecimal(length as nat)) == length as nat
  {
    StandardHeaderFields(cfg.serverName, cfg.mimeType(rqpath), NatToDecimal(length as nat));
    NatToDecimalRoundTrip(length as nat);
  }

  /** The text `ec.message()` gives for the error codes of this model. The text of an
      errno value is not part of the model, so it is empty. */
  function Message(ec: ErrorCode): string {
    match ec
    case NoError => "Success"
    case Errno => ""
    case IoError => "Input/output error"
    case SystemError(message) => message
  }

  /** The message of an error response: the request path in quotes, then the reason. */
  function Quoted(rqpath: string, reason: string): string {
    "'" + rqpath + "': " + reason
  }

  // ---------------------------------------------------------------------------------
  // Splitting the target

  /** `s.find(c)`: the index of the first occurrence of `c`, None for `npos`. */
  function FindFirst(s: string, c: char): (r: Option<nat>)
    ensures r.None? <==> c !in s
    ensures r.Some? ==> r.value < |s| && s[r.value] == c && c !in s[..r.value]
  {
    if s == [] then None
    else if s[0] == c then Some(0)
    else match FindFirst(s[1..], c)
      case None => None
      case Some(i) =>
        assert s[..i + 1] == [s[0]] + s[1..][..i];
        Some(i + 1)
  }

  /** The request path and the query: the target up to and after its first '?'. */
  function SplitTarget(target: string): (r: (string, string))
    ensures '?' !in r.0
    ensures '?' !in target ==> r == (target, "")
    ensures '?' in target ==> target == r.0 + "?" + r.1
  {
    match FindFirst(target, '?')
    case None => (target, "")
    case Some(i) =>
      assert target == target[..i] + "?" + target[i + 1..];
      (target[..i], target[i + 1..])
  }

  /** A path followed by a query splits back into that path and that query. */
  lemma SplitTargetRoundTrip(rqpath: string, query: string)
    requires '?' !in rqpath
    ensures SplitTarget(rqpath) == (rqpath, "")
    ensures SplitTarget(rqpath + "?" + query) == (rqpath, query)
  {
    var t := rqpath + "?" + query;
    assert t == rqpath + ("?" + query);
    FindFirstAfter(rqpath, "?" + query, '?');
    assert t[..|rqpath|] == rqpath;
    assert t[|rqpath| + 1..] == query;
  }

  lemma FindFirstAfter(a: string, b: string, c: char)
    requires c !in a && b != [] && b[0] == c
    ensures FindFirst(a + b, c) == Some(|a|)
  {
    assert (a + b)[|a|] == c;
    assert (a + b)[..|a|] == a;
  }

  // ---------------------------------------------------------------------------------
  // Routing

  /** `s.find("..") != npos` */
  function HasDotDot(s: string): (b: bool)
    ensures b <==> exists i :: 0 <= i < |s| - 1 && s[i] == '.' && s[i + 1] == '.'
  {
    if |s| < 2 then false
    else if s[0] == '.' && s[1] == '.' then true
    else
      var t := s[1..];
      assert forall i :: 0 <= i < |t| ==> t[i] == s[i + 1];
      HasDotDot(t)
  }

  /** The paths `serve_file` refuses: empty, not starting with '/', or containing "..". */
  function BadPath(rqpath: string): (b: bool)
    ensures b <==>
      (rqpath == [] || rqpath[0] != '/' ||
       exists i :: 0 <= i < |rqpath| - 1 && rqpath[i] == '.' && rqpath[i + 1] == '.')
  {
    rqpath == [] || rqpath[0] != '/' || HasDotDot(rqpath)
  }

  /** What `do_request` decides from the target alone. */
  datatype Route =
    | ImageRoute(width: nat, height: nat, rqpath: string)
    | FileRoute(rqpath: string)
    | RouteRejected(status: nat, text: string)

  /** `do_request` on the request path: a path that `sscanf` reads as "/%d,%d" asks for
      an image of that size, which must lie between 1 and 2048 on both sides; every other
      path asks for a file. */
  function RouteOf(rqpath: string): (r: Route)
    ensures r.ImageRoute? ==>
      0 < r.width <= MaxImageSide && 0 < r.height <= MaxImageSide
    ensures r.RouteRejected? ==> r.status == StatusBadRequest
  {
    match ScanImagePath(rqpath)
    case Some((width, height)) =>
      if width <= 0 || width > MaxImageSide || height <= 0 || height > MaxImageSide then
        RouteRejected(StatusBadRequest, Quoted(rqpath, "bad image size"))
      else ImageRoute(width, height, rqpath)
    case None => FileRoute(rqpath)
  }

  /** What `serve_file` decides from the path and the filesystem. */
  datatype FileDecision =
    | ServeFile(full: string, rqpath: string, length: uint64)
    | FileRejected(status: nat, text: string)

  /** The path after `serve_file` maps the root to its index page; the mapping neither
      makes an acceptable path bad nor a bad one acceptable. */
  function Rewritten(rqpath: string): (p: string)
    ensures rqpath == "/" ==> p == "/index.html"
    ensures rqpath != "/" ==> p == rqpath
    ensures BadPath(p) == BadPath(rqpath)
  {
    if rqpath == "/" then
      IndexPageIsAcceptable();
      rqpath + "index.html"
    else rqpath
  }

  /** `serve_file`: refuse bad paths, map "/" to "/index.html", look the path up below the
      document root, and answer 404 when it is missing or its size cannot be read. */
  function FileDecisionOf(cfg: Config, fs: FileSystem, rqpath: string): (d: FileDecision)
    ensures d.FileRejected? ==>
      (d.status == StatusBadRequest <==> BadPath(rqpath)) &&
      (d.status == StatusBadRequest || d.status == StatusNotFound)
    ensures d.ServeFile? ==>
      d.rqpath == Rewritten(rqpath) && d.full == cfg.root + d.rqpath && !BadPath(d.rqpath) &&
      fs.present(d.full) && fs.fileSize(d.full) == SizeOk(d.length)
  {
    if BadPath(rqpath) then FileRejected(StatusBadRequest, Quoted(rqpath, "bad path"))
    else
      var p := Rewritten(rqpath);
      var full := cfg.root + p;
      if !fs.present(full) then FileRejected(StatusNotFound, Quoted(p, "not found"))
      else match fs.fileSize(full)
        case SizeError(message) => FileRejected(StatusNotFound, Quoted(p, message))
        case SizeOk(length) => ServeFile(full, p, length)
  }

  /** The response of `serve_file`: 200 with the file exactly when a file was decided on,
      otherwise the refusal's status and message. */
  function FileAnswer(cfg: Config, fs: FileSystem, rqpath: string): (res: Response)
    ensures var d := FileDecisionOf(cfg, fs, rqpath);
      (res.status == StatusOk <==> d.ServeFile?) &&
      (d.ServeFile? ==>
         res.body == FileStream(d.full) &&
         Header(res.headers, "Content-Type") == Some(cfg.mimeType(d.rqpath)) &&
         Header(res.headers, "Content-Length") == Some(NatToDecimal(d.length as nat))) &&
      (d.FileRejected? ==> res.status == d.status && res.body == Text(d.text + "\r\n"))
  {
    match FileDecisionOf(cfg, fs, rqpath)
    case FileRejected(status, text) => ErrorResponse(cfg, status, text)
    case ServeFile(full, p, length) =>
      StandardHeaderFields(cfg.serverName, cfg.mimeType(p), NatToDecimal(length as nat));
      FileResponse(cfg, full, p, length)
  }

  /** The response written for a route; `paint` colours generated images. */
  function RouteAnswer(cfg: Config, fs: FileSystem, paint: Painter, route: Route): (res: Response)
    ensures route.RouteRejected? ==>
      res.status == route.status && res.body == Text(route.text + "\r\n")
    ensures route.ImageRoute? ==>
      res.status == StatusOk && res.body == Bytes(Image(paint, route.width, route.height))
    ensures route.FileRoute? ==> res == FileAnswer(cfg, fs, route.rqpath)
  {
    match route
    case RouteRejected(status, text) => ErrorResponse(cfg, status, text)
    case ImageRoute(width, height, _) => ImageResponse(cfg, Image(paint, width, height))
    case FileRoute(rqpath) => FileAnswer(cfg, fs, rqpath)
  }

  /** The response `do_request` writes for a target: the query is split off and the
      path alone is routed. */
  function Respond(cfg: Config, fs: FileSystem, paint: Painter, target: string): (res: Response)
    ensures res.status in {StatusOk, StatusBadRequest, StatusNotFound}
  {
    RouteAnswer(cfg, fs, paint, RouteOf(SplitTarget(target).0))
  }

  // ---------------------------------------------------------------------------------
  // Handlers

  /** `serve_image`: generate the bitmap and answer with it, or with a 500 response
      naming the path when the generator reports an error. */
  method ServeImage(cfg: Config, paint: Painter, width: int, height: int, rqpath: string)
    returns (res: Response)
    requires 0 < width <= MaxImageSide && 0 < height <= MaxImageSide
    ensures res == ImageResponse(cfg, Image(paint, width, height))
  {
    ImageSidesAreValid(width, height);
    var data, ec := HttpGetImage(width, height, paint);
    if ec != NoError {
      res := ErrorResponse(cfg, StatusInternalServerError, Quoted(rqpath, Message(ec)));
      return;
    }
    res := ImageResponse(cfg, data[..]);
  }

  /** `do_request`, which runs the image generator. */
  method DoRequest(cfg: Config, fs: FileSystem, paint: Painter, target: string)
    returns (res: Response)
    ensures res == Respond(cfg, fs, paint, target)
  {
    var rqpath, query := SplitTarget(target).0, SplitTarget(target).1;
    ghost var route := RouteOf(rqpath);
    assert Respond(cfg, fs, paint, target) == RouteAnswer(cfg, fs, paint, route);
    ScannedPathsAreRouted(rqpath);
    var scanned := ScanImagePath(rqpath);
    if scanned.Some? {
      var width, height := scanned.value.0, scanned.value.1;
      if width <= 0 || width > MaxImageSide || height <= 0 || height > MaxImageSide {
        res := ErrorResponse(cfg, StatusBadRequest, Quoted(rqpath, "bad image size"));
        assert route == RouteRejected(StatusBadRequest, Quoted(rqpath, "bad image size"));
      } else {
        res := ServeImage(cfg, paint, width, height, rqpath);
        assert route == ImageRoute(width, height, rqpath);
      }
    } else {
      res := FileAnswer(cfg, fs, rqpath);
      assert route == FileRoute(rqpath);
    }
  }

  lemma ImageSidesAreValid(width: int, height: int)
    requires 0 < width <= MaxImageSide && 0 < height <= MaxImageSide
    ensures ValidSize(width, height)
  {
    assert Pitch(width) <= 3 * MaxImageSide + 3;
    assert Pitch(width) * height <= (3 * MaxImageSide + 3) * MaxImageSide;
  }

  // ---------------------------------------------------------------------------------
  // What the routing guarantees

  /** Which handler's response `do_request` writes for each route. */
  lemma RespondByRoute(cfg: Config, fs: FileSystem, paint: Painter, target: string)
    ensures var r := RouteOf(SplitTarget(target).0);
      var res := Respond(cfg, fs, paint, target);
      (r.RouteRejected? ==> r.status == StatusBadRequest && res == ErrorResponse(cfg, r.status, r.text)) &&
      (r.ImageRoute? ==> res == ImageResponse(cfg, Image(paint, r.width, r.height))) &&
      (r.FileRoute? ==> r.rqpath == SplitTarget(target).0 && res == FileAnswer(cfg, fs, r.rqpath))
  {
    var r := RouteOf(SplitTarget(target).0);
    assert Respond(cfg, fs, paint, target) == RouteAnswer(cfg, fs, paint, r);
    match r
    case RouteRejected(status, text) =>
      assert RouteAnswer(cfg, fs, paint, r) == ErrorResponse(cfg, status, text);
    case ImageRoute(width, height, _) =>
      assert RouteAnswer(cfg, fs, paint, r) == ImageResponse(cfg, Image(paint, width, height));
    case FileRoute(rqpath) =>
  }

  /** The route of every path, stated on what `sscanf` read from it: no pair is a file
      route with the path unchanged; a pair with both sides in 1..2048 is an image route
      of that size; any other pair is refused with 400 "bad image size". */
  lemma ScannedPathsAreRouted(rqpath: string)
    ensures ScanImagePath(rqpath).None? ==> RouteOf(rqpath) == FileRoute(rqpath)
    ensures ScanImagePath(rqpath).Some? ==>
      var width, height := ScanImagePath(rqpath).value.0, ScanImagePath(rqpath).value.1;
      (0 < width <= MaxImageSide && 0 < height <= MaxImageSide ==>
         RouteOf(rqpath) == ImageRoute(width, height, rqpath)) &&
      (!(0 < width <= MaxImageSide && 0 < height <= MaxImageSide) ==>
         RouteOf(rqpath) == RouteRejected(StatusBadRequest, Quoted(rqpath, "bad image size")))
  {
  }

  /** What `do_request` answers, in the terms of its own tests: a path `sscanf` does not
      read as "/%d,%d" goes to `serve_file` unchanged; a pair with both sides in
      1..2048 is answered with the bitmap of that size; any other pair is refused with
      400 "bad image size". */
  lemma RespondByScan(cfg: Config, fs: FileSystem, paint: Painter, target: string)
    ensures var rqpath := SplitTarget(target).0;
      var res := Respond(cfg, fs, paint, target);
      (ScanImagePath(rqpath).None? ==> res == FileAnswer(cfg, fs, rqpath)) &&
      (ScanImagePath(rqpath).Some? ==>
         var width, height := ScanImagePath(rqpath).value.0, ScanImagePath(rqpath).value.1;
         (0 < width <= MaxImageSide && 0 < height <= MaxImageSide ==>
            res.status == StatusOk && res.body == Bytes(Image(paint, width, height)) &&
            Header(res.headers, "Content-Type") == Some("image/bmp")) &&
         (!(0 < width <= MaxImageSide && 0 < height <= MaxImageSide) ==>
            res == ErrorResponse(cfg, StatusBadRequest, Quoted(rqpath, "bad image size"))))
  {
    ScannedPathsAreRouted(SplitTarget(target).0);
    RespondByRoute(cfg, fs, paint, target);
  }

  /** `serve_file` answers either with an error response or with the file it decided on. */
  lemma FileAnswerByDecision(cfg: Config, fs: FileSystem, rqpath: string)
    ensures var d := FileDecisionOf(cfg, fs, rqpath);
      var res := FileAnswer(cfg, fs, rqpath);
      (d.FileRejected? ==>
         (d.status == StatusBadRequest || d.status == StatusNotFound) &&
         res == ErrorResponse(cfg, d.status, d.text)) &&
      (d.ServeFile? ==> res == FileResponse(cfg, d.full, d.rqpath, d.length))
  {
  }

  /** A path with "..", or one not starting with '/', is refused with 400 before the
      filesystem is consulted: the answer is the same whatever the filesystem holds. */
  lemma BadPathsAreRefused(cfg: Config, fs1: FileSystem, fs2: FileSystem, rqpath: string)
    requires BadPath(rqpath)
    ensures FileDecisionOf(cfg, fs1, rqpath) == FileDecisionOf(cfg, fs2, rqpath)
         == FileRejected(StatusBadRequest, Quoted(rqpath, "bad path"))
  {
  }

  /** The index page is an acceptable path. */
  lemma IndexPageIsAcceptable()
    ensures !BadPath("/index.html")
  {
    var p := "/index.html";
    assert p[6] == '.' && p[7] == 'h';
    assert !HasDotDot(p[9..]);
    assert !HasDotDot(p[8..]);
    assert !HasDotDot(p[7..]);
    assert !HasDotDot(p[6..]);
    assert !HasDotDot(p[5..]);
    assert !HasDotDot(p[4..]);
    assert !HasDotDot(p[3..]);
    assert !HasDotDot(p[2..]);
    assert !HasDotDot(p[1..]);
  }

  /** The root of the site is the index page. */
  lemma RootIsIndexPage(cfg: Config, fs: FileSystem)
    ensures FileDecisionOf(cfg, fs, "/") == FileDecisionOf(cfg, fs, "/index.html")
  {
    assert "/index.html" != "/";
  }

  /** An acceptable path whose file exists below the root and has a readable size is
      served: 200, the file itself, the content type of its path and its size. */
  lemma ExistingFilesAreServed(cfg: Config, fs: FileSystem, rqpath: string, n: uint64)
    requires !BadPath(rqpath) && fs.present(cfg.root + Rewritten(rqpath))
    requires fs.fileSize(cfg.root + Rewritten(rqpath)) == SizeOk(n)
    ensures FileDecisionOf(cfg, fs, rqpath)
         == ServeFile(cfg.root + Rewritten(rqpath), Rewritten(rqpath), n)
    ensures var res := FileAnswer(cfg, fs, rqpath);
      res.status == StatusOk && res.body == FileStream(cfg.root + Rewritten(rqpath)) &&
      Header(res.headers, "Content-Type") == Some(cfg.mimeType(Rewritten(rqpath))) &&
      Header(res.headers, "Content-Length") == Some(NatToDecimal(n as nat))
  {
  }

  /** An acceptable path that does not exist below the root is answered with 404. */
  lemma MissingFilesAreNotFound(cfg: Config, fs: FileSystem, rqpath: string)
    requires !BadPath(rqpath) && !fs.present(cfg.root + Rewritten(rqpath))
    ensures FileAnswer(cfg, fs, rqpath)
         == ErrorResponse(cfg, StatusNotFound, Quoted(Rewritten(rqpath), "not found"))
  {
  }

  /** A path whose size cannot be read is answered with 404 and the system's message. */
  lemma UnreadableSizesAreNotFound(cfg: Config, fs: FileSystem, rqpath: string, message: string)
    requires !BadPath(rqpath) && fs.present(cfg.root + Rewritten(rqpath))
    requires fs.fileSize(cfg.root + Rewritten(rqpath)) == SizeError(message)
    ensures FileAnswer(cfg, fs, rqpath)
         == ErrorResponse(cfg, StatusNotFound, Quoted(Rewritten(rqpath), message))
  {
  }

  /** Only the query differs between a target with and without one: the path alone
      decides the answer. */
  lemma QueryIsIgnored(cfg: Config, fs: FileSystem, paint: Painter, rqpath: string, query: string)
    requires '?' !in rqpath
    ensures Respond(cfg, fs, paint, rqpath + "?" + query) == Respond(cfg, fs, paint, rqpath)
  {
    SplitTargetRoundTrip(rqpath, query);
  }

  /** A path is routed to the file handler exactly when `sscanf` does not read two
      numbers from it, and then the path reaches the handler unchanged. */
  lemma FilePathsAreNotImages(target: string)
    ensures RouteOf(SplitTarget(target).0).FileRoute? <==> ScanImagePath(SplitTarget(target).0).None?
    ensures RouteOf(SplitTarget(target).0).FileRoute? ==>
      RouteOf(SplitTarget(target).0).rqpath == SplitTarget(target).0
  {
  }

  /** "/<width>,<height>", optionally followed by anything that does not continue the
      second number, is an image request; it is refused with 400 when a side lies
      outside 1..2048, negative and zero sides included. */
  lemma ImagePathsAreRouted(width: int, height: int, rest: string)
    requires '?' !in rest && (rest == [] || !IsDigit(rest[0]))
    ensures var target := "/" + IntToDecimal(width) + "," + IntToDecimal(height) + rest;
      (0 < width <= MaxImageSide && 0 < height <= MaxImageSide ==>
        SplitTarget(target).0 == target && RouteOf(target) == ImageRoute(width, height, target)) &&
      (!(0 < width <= MaxImageSide && 0 < height <= MaxImageSide) ==>
        SplitTarget(target).0 == target &&
        RouteOf(target) == RouteRejected(StatusBadRequest, Quoted(target, "bad image size")))
  {
    NumbersHaveNoQuestionMark(width, height, rest);
    ImagePathRoundTrip(width, height, rest);
  }

  /** With both sides in range the answer is a 200 bitmap whose headers carry that size
      and whose length is announced. */
  lemma ImageRequestsAreServed(cfg: Config, fs: FileSystem, paint: Painter,
                               width: int, height: int, rest: string)
    requires 0 < width <= MaxImageSide && 0 < height <= MaxImageSide
    requires '?' !in rest && (rest == [] || !IsDigit(rest[0]))
    ensures var target := "/" + IntToDecimal(width) + "," + IntToDecimal(height) + rest;
      var res := Respond(cfg, fs, paint, target);
      res.status == StatusOk && res.body.Bytes? &&
      Header(res.headers, "Content-Type") == Some("image/bmp") &&
      Header(res.headers, "Content-Length") == Some(NatToDecimal(|res.body.bytes|)) &&
      HeadersSize <= |res.body.bytes| &&
      BmpWidth(res.body.bytes) == width && BmpHeight(res.body.bytes) == height &&
      TopDown(res.body.bytes)
  {
    var target := "/" + IntToDecimal(width) + "," + IntToDecimal(height) + rest;
    ImagePathsAreRouted(width, height, rest);
    RespondByRoute(cfg, fs, paint, target);
    var img := Image(paint, width, height);
    StandardHeaderFields(cfg.serverName, "image/bmp", NatToDecimal(|img|));
    ImageSidesAreValid(width, height);
    DecodedDimensions(paint, width, height);
  }

  lemma NumbersHaveNoQuestionMark(width: int, height: int, rest: string)
    requires '?' !in rest
    ensures '?' !in "/" + IntToDecimal(width) + "," + IntToDecimal(height) + rest
  {
    var dw, dh := IntToDecimal(width), IntToDecimal(height);
    NoQuestionMarkInNumber(width);
    NoQuestionMarkInNumber(height);
    var target := "/" + dw + "," + dh + rest;
    forall i | 0 <= i < |target| ensures target[i] != '?' {
      if i == 0 {
      } else if i < 1 + |dw| {
        assert target[i] == dw[i - 1];
      } else if i == 1 + |dw| {
      } else if i < 2 + |dw| + |dh| {
        assert target[i] == dh[i - 2 - |dw|];
      } else {
        assert target[i] == rest[i - 2 - |dw| - |dh|];
      }
    }
  }

  lemma NoQuestionMarkInNumber(v: int)
    ensures '?' !in IntToDecimal(v)
  {
    var s := IntToDecimal(v);
    forall i | 0 <= i < |s| ensures s[i] != '?' {
      if v < 0 && i > 0 {
        assert s[i] == s[1..][i - 1];
      }
    }
  }

  /** A plain-text body ending in a line break, whose announced length reads back as
      the length of that body. */
  predicate PlainText(res: Response) {
    res.body.Text? && Header(res.headers, "Content-Type") == Some("text/plain") &&
    |res.body.text| >= 2 && res.body.text[|res.body.text| - 2..] == "\r\n" &&
    Header(res.headers, "Content-Length").Some? &&
    (var len := Header(res.headers, "Content-Length").value;
     AllDigits(len) && DigitsValue(len) == |res.body.text|)
  }

  lemma ErrorResponseIsPlainText(cfg: Config, status: nat, text: string)
    ensures PlainText(ErrorResponse(cfg, status, text))
  {
    var body := text + "\r\n";
    assert body[|body| - 2..] == "\r\n";
  }

  /** Every response names the server, and every response other than a 200 is plain
      text ending in a line break whose announced length reads back as its length. */
  lemma ResponsesAreWellFormed(cfg: Config, fs: FileSystem, paint: Painter, target: string)
    ensures var res := Respond(cfg, fs, paint, target);
      Header(res.headers, "Server") == Some(cfg.serverName) &&
      (res.status != StatusOk ==> PlainText(res))
  {
    var r := RouteOf(SplitTarget(target).0);
    var res := Respond(cfg, fs, paint, target);
    RespondByRoute(cfg, fs, paint, target);
    match r
    case RouteRejected(status, text) =>
      ErrorResponseIsPlainText(cfg, status, text);
    case ImageRoute(width, height, _) =>
      StandardHeaderFields(cfg.serverName, "image/bmp", NatToDecimal(|Image(paint, width, height)|));
    case FileRoute(rqpath) =>
      var d := FileDecisionOf(cfg, fs, rqpath);
      FileAnswerByDecision(cfg, fs, rqpath);
      match d
      case FileRejected(status, text) =>
        ErrorResponseIsPlainText(cfg, status, text);
      case ServeFile(full, p, length) =>
        StandardHeaderFields(cfg.serverName, cfg.mimeType(p), NatToDecimal(length as nat));
  }

  /** A 200 answer is a file below the root or a generated image, and its announced
      length is the size of what is sent. */
  lemma SuccessfulResponses(cfg: Config, fs: FileSystem, paint: Painter, target: string)
    ensures var res := Respond(cfg, fs, paint, target);
      res.status == StatusOk ==>
        (res.body.FileStream? &&
         (var d := FileDecisionOf(cfg, fs, SplitTarget(target).0);
          d.ServeFile? && res.body.path == d.full == cfg.root + d.rqpath &&
          Header(res.headers, "Content-Length") == Some(NatToDecimal(d.length as nat)))) ||
        (res.body.Bytes? &&
         Header(res.headers, "Content-Length") == Some(NatToDecimal(|res.body.bytes|)))
  {
    var r := RouteOf(SplitTarget(target).0);
    RespondByRoute(cfg, fs, paint, target);
    if r.ImageRoute? {
      StandardHeaderFields(cfg.serverName, "image/bmp", NatToDecimal(|Image(paint, r.width, r.height)|));
    }
  }

  // ---------------------------------------------------------------------------------
  // The connection loop

  /** What one `http::read` on the socket produces. */
  datatype ReadOutcome = Request(target: string) | EndOfStream | ReadError

  /** The targets answered before the first read that ends the connection. */
  function Served(outcomes: seq<ReadOutcome>): (targets: seq<string>)
    ensures |targets| <= |outcomes|
    ensures forall i :: 0 <= i < |targets| ==> outcomes[i] == Request(targets[i])
    ensures |targets| < |outcomes| ==> !outcomes[|targets|].Request?
  {
    if outcomes == [] || !outcomes[0].Request? then []
    else [outcomes[0].target] + Served(outcomes[1..])
  }

  lemma ServedStep(outcomes: seq<ReadOutcome>, k: nat)
    requires k < |outcomes| && outcomes[k].Request?
    ensures Served(outcomes[k..]) == [outcomes[k].target] + Served(outcomes[k + 1..])
  {
    assert outcomes[k..][1..] == outcomes[k + 1..];
  }

  /** `do_run`: answer requests until the peer closes the stream or a read fails; a
      failed write does not end the loop. The result lists the targets handed to
      `do_request`, in order; the responses themselves go to the socket. */
  method DoRun(cfg: Config, fs: FileSystem, paint: Painter, outcomes: seq<ReadOutcome>)
    returns (answered: seq<string>)
    ensures answered == Served(outcomes)
  {
    answered := [];
    var k := 0;
    while k < |outcomes| && outcomes[k].Request?
      invariant k <= |outcomes|
      invariant Served(outcomes) == answered + Served(outcomes[k..])
    {
      ServedStep(outcomes, k);
      var res := DoRequest(cfg, fs, paint, outcomes[k].target);
      answered := answered + [outcomes[k].target];
      k := k + 1;
    }
  }

  // ---------------------------------------------------------------------------------
  // Connection numbers

  /** The static counter `next_id_` that numbers connections as they are created. */
  class ConnectionIds {
    var next: int

    /** The static counter of connections starts at zero. */
    constructor()
      ensures next == 0
    {
      next := 0;
    }

    /** A connection takes its number by pre-incrementing the counter. The counter is a C
        `int`, so it must not pass INT_MAX. */
    method NewId() returns (id: int)
      requires next < INT_MAX
      modifies this
      ensures id == old(next) + 1 && next == id
    {
      next := next + 1;
      id := next;
    }

    /** Creating `count` connections one after another numbers them consecutively, so
        no two connections share a number. */
    method NumberConnections(count: nat) returns (ids: seq<int>)
      requires next + count <= INT_MAX
      modifies this
      ensures |ids| == count && next == old(next) + count
      ensures forall i :: 0 <= i < count ==> ids[i] == old(next) + i + 1
      ensures forall i, j :: 0 <= i < j < count ==> ids[i] < ids[j]
    {
      ids := [];
      while |ids| < count
        invariant |ids| <= count && next == old(next) + |ids|
        invariant forall i :: 0 <= i < |ids| ==> ids[i] == old(next) + i + 1
      {
        var id := NewId();
        ids := ids + [id];
      }
    }
  }
}
