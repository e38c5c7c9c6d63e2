# beast_tpc_server: a Dafny model of request handling, file streaming and bitmap generation

This project models the core of a small thread-per-connection HTTP server built on Beast:

- **Routing** (`Server`). `do_request` splits the request target at its first `?`. It then asks
  `sscanf(rqpath, "/%d,%d")` whether the path names an image size; the scan is modelled in
  `Scan`, and the decimal text in `Decimal`.
  - An image needs both sides between 1 and 2048, otherwise the answer is 400.
  - When the scan fails, `serve_file` takes over. It refuses empty paths, paths without a
    leading `/` and paths containing `..` with 400. It maps `/` to `/index.html` and looks the
    path up below the document root. A missing path gets 404, and so does a path whose size
    cannot be read (with the system's message).
  - Every error goes through `error_response`: a `text/plain` body, the quoted path, a reason
    and a line break.
  - The per-connection loop `do_run` and the connection counter `next_id_` are modelled too.
- **The file body** (`FileBody`). `file_body::reader` hands out a file in chunks of at most
  4096 bytes. The count comes from the size query, the data from `fread`. `file_body::writer`
  stores request bodies with `fwrite` and `fflush`. C stdio is a small `CFile` class whose
  reads, writes and flushes may fail at any call; the error indicator is sticky, as `ferror`'s
  is.
- **The bitmap generator** (`Bmp`). `http_get_image` writes:
  - a 14-byte BITMAPFILEHEADER and a 40-byte BITMAPINFOHEADER, built from 16-bit and 32-bit
    words;
  - the height negated, so rows run top-down;
  - rows of BGR pixels, each padded with zeros to a multiple of four bytes.

  The model does this imperatively, into an array. It is proved to produce exactly a reference
  image function. That function is in turn proved to decode back to the requested dimensions
  and to the painted colours.

Where the behaviour of the code and its design description differ, the model follows the code:

- Characters after the second number are accepted: `/4,5.bmp` is an image request, because
  `sscanf` only matches a prefix.
- For the same reason `/1,2/..` is routed to the image generator and not refused as a bad path.
- The request method is never examined.

## Model

| member | source | states |
|---|---|---|
| Server.SplitTarget | beast_tpc_server.cpp:172-185 | the path never contains `?`; without a `?` the path is the whole target and the query is empty; otherwise target == path + "?" + query |
| Server.SplitTargetRoundTrip | beast_tpc_server.cpp:172-185 | a `?`-free path followed by `?` and any query splits back into exactly that path and query |
| Server.FindFirst | beast_tpc_server.cpp:176 | `find('?')` is None exactly when the character is absent, and otherwise is the index of its first occurrence |
| Server.HasDotDot | beast_tpc_server.cpp:126 | true exactly when two consecutive `.` occur somewhere in the path |
| Server.RouteOf | beast_tpc_server.cpp:187-203 | an image route always has both sides between 1 and 2048, and a refused route always carries 400 |
| Server.ScannedPathsAreRouted | beast_tpc_server.cpp:187-203 | a path `sscanf` does not read as two numbers is a file route with the path unchanged; a pair with both sides in 1..2048 is an image route of that size; any other pair is refused with 400 "bad image size" |
| Server.FilePathsAreNotImages | beast_tpc_server.cpp:187-203 | a target goes to the file handler exactly when the scan of "/%d,%d" fails, and then with the path unchanged |
| Server.ImagePathsAreRouted | beast_tpc_server.cpp:189-199 | "/w,h" followed by anything not continuing the number is an image request for (w, h) when 1 <= w, h <= 2048, and is refused with 400 "'path': bad image size" otherwise |
| Server.ImageRequestsAreServed | beast_tpc_server.cpp:100-121 | an in-range image request is answered 200 with `image/bmp`, a Content-Length equal to the byte count, and a bitmap whose headers decode to the requested width and height, top-down |
| Server.QueryIsIgnored | beast_tpc_server.cpp:172-203 | appending a query to a path never changes the response |
| Server.BadPathsAreRefused | beast_tpc_server.cpp:126-130 | empty paths, paths not starting with `/` and paths with `..` get 400 "'path': bad path", whatever the filesystem holds |
| Server.IndexPageIsAcceptable | beast_tpc_server.cpp:132-135 | `/index.html`, the page `/` is rewritten to, passes the path check |
| Server.Rewritten | beast_tpc_server.cpp:132-135 | `/` becomes `/index.html`, every other path is unchanged, and the rewriting never changes whether the path passes the check |
| Server.BadPath | beast_tpc_server.cpp:126 | a path is refused exactly when it is empty, does not start with `/`, or has two consecutive `.` somewhere |
| Server.RootIsIndexPage | beast_tpc_server.cpp:132-135 | the decision for `/` is the decision for `/index.html` |
| Server.FileDecisionOf | beast_tpc_server.cpp:124-151 | a refusal is 400 exactly for bad paths and 404 otherwise; a served file is the document root followed by the rewritten, acceptable path, it exists, and its length is what the size query returned |
| Server.FileAnswer | beast_tpc_server.cpp:124-162 | the status is 200 exactly when a file is served, then with that file as the body, the content type of its path and its size as Content-Length; a refusal carries its status and its message followed by CRLF |
| Server.ExistingFilesAreServed | beast_tpc_server.cpp:124-161 | an acceptable path whose file exists below the root with a readable size is served: 200, that file, the content type of the rewritten path and the reported size as Content-Length |
| Server.MissingFilesAreNotFound | beast_tpc_server.cpp:139-143 | an acceptable path missing below the root gets 404 "'path': not found", with the rewritten path |
| Server.UnreadableSizesAreNotFound | beast_tpc_server.cpp:145-151 | when the size query fails, the answer is 404 with the quoted path and the system's message |
| Server.ErrorResponse | beast_tpc_server.cpp:82-98 | the response has the given status, the body is the message followed by CRLF, the Server and text/plain fields are set, and Content-Length reads back as the body length |
| Server.ImageResponseFields | beast_tpc_server.cpp:111-118 | a 200 holding the generated bytes, with the Server field, Content-Type image/bmp and a Content-Length that reads back as the number of bytes |
| Server.FileResponseFields | beast_tpc_server.cpp:153-159 | a 200 streaming the file, with the Server field, the content type of the path and a Content-Length that reads back as the reported size |
| Server.ErrorResponseIsPlainText | beast_tpc_server.cpp:82-98 | an error response is plain text ending in CRLF whose Content-Length reads back as the length of its body |
| Server.StandardHeaderFields | beast_tpc_server.cpp:88-159 | the Server, Content-Type and Content-Length fields each look up to the value that was set |
| Server.ResponsesAreWellFormed | beast_tpc_server.cpp:82-161 | every response carries the Server header; every response other than 200 is text/plain, ends in CRLF and announces its own length |
| Server.SuccessfulResponses | beast_tpc_server.cpp:100-161 | a 200 response is either a file below the root announced with its reported size, or image bytes announced with their count |
| Server.ServeImage | beast_tpc_server.cpp:100-122 | serving an image yields the 200 response holding exactly the reference bitmap, since the generator never reports an error |
| Server.DoRequest | beast_tpc_server.cpp:164-204 | the method's response is the one the routing functions describe, for every target |
| Server.RouteAnswer | beast_tpc_server.cpp:187-203 | a refusal carries its status and message with CRLF; an image route is a 200 holding the reference bitmap of that size; a file route is the file handler's answer |
| Server.Respond | beast_tpc_server.cpp:164-204 | every status written is 200, 400 or 404: the 500 branch of serve_image is never taken |
| Server.RespondByScan | beast_tpc_server.cpp:187-203 | the response for a target: the file handler's answer for the unchanged path when the scan fails, a 200 bitmap of the scanned size when both sides are in 1..2048, and error_response 400 "bad image size" otherwise |
| Server.ImageSidesAreValid | beast_tpc_server.cpp:191-197 | sides in 1..2048 keep every C `int` computation of the generator free of overflow |
| Server.Served | beast_tpc_server.cpp:213-231 | the answered targets are a prefix of the reads, all of them requests, and the first read after them is not a request |
| Server.DoRun | beast_tpc_server.cpp:206-246 | the loop hands to `do_request` exactly the requests read before the first end of stream or read error, in order |
| Server.Header | beast_tpc_server.cpp:90-91 | the lookup finds nothing exactly when no field has that name, and otherwise returns the value of the first field with that name |
| Server.ConnectionIds.constructor | beast_tpc_server.cpp:260 | the counter starts at zero |
| Server.ConnectionIds.NewId | beast_tpc_server.cpp:40 | each new connection gets the pre-incremented counter, and the counter advances by one |
| Server.ConnectionIds.NumberConnections | beast_tpc_server.cpp:36-40 | `count` connections get consecutive numbers old+1 .. old+count, strictly increasing and so pairwise distinct |
| Scan.ImagePathRoundTrip | beast_tpc_server.cpp:189 | scanning "/" + decimal(w) + "," + decimal(h) + rest, where rest does not continue the number, yields (w, h) |
| Scan.ImagePathOf | beast_tpc_server.cpp:189 | "/" + numeral + "," + numeral + anything not continuing the second numeral is read as the values of the two numerals; numerals include leading white space, a `+` or `-`, and leading zeros |
| Scan.ImagePathShape | beast_tpc_server.cpp:189 | conversely, every path the scan accepts is "/" + numeral + "," + numeral + a rest that does not start with a digit, and the pair read is the values of those numerals |
| Scan.ScanSizeOf | beast_tpc_server.cpp:189 | the "%d,%d" part reads the values of two numerals separated by a comma |
| Scan.ScanCommaIntOf | beast_tpc_server.cpp:189 | the ",%d" part reads the value of the numeral after the comma |
| Scan.ScanIntOf | beast_tpc_server.cpp:189 | one `%d` reads any numeral not followed by a digit, consuming exactly the numeral and giving its value |
| Scan.ScanIntShape | beast_tpc_server.cpp:189 | conversely, whatever one `%d` accepts starts with a numeral, not followed by a digit, of which it consumed exactly all and whose value it gave |
| Scan.ScanNumeral | beast_tpc_server.cpp:189 | one `%d` reads white space, an optional sign and digits not followed by a digit as the signed value of the digits |
| Scan.ScanSignedOf | beast_tpc_server.cpp:189 | an optional `+` or `-` followed by digits not followed by a digit is read as the signed value of the digits, leading zeros included |
| Scan.ScanDigitsOf | beast_tpc_server.cpp:189 | a nonempty digit string not followed by a digit is read whole, as its value |
| Scan.ScanIntSkipsSpace | beast_tpc_server.cpp:189 | `%d` skips a leading white-space character: it succeeds exactly when it succeeds on the rest, with the same value and one more character consumed |
| Scan.ScanSignedDigitsOf | beast_tpc_server.cpp:189 | a sign and digits forming a whole numeral, not followed by a digit, are read whole as their signed value |
| Scan.SignedDigitsShape | beast_tpc_server.cpp:189 | a successful `%d` that does not start with white space consumed a sign and digits, not followed by a digit, and gave their signed value |
| Scan.NumeralOf | beast_tpc_server.cpp:189 | white space, an optional sign and a nonempty digit string form a numeral whose value is the signed value of the digits |
| Scan.NumeralParts | beast_tpc_server.cpp:189 | every numeral splits into white space, an optional sign and a nonempty digit string, and its value is their signed value |
| Scan.PrintedNumeral | beast_tpc_server.cpp:189 | the decimal text of any integer is a numeral of that integer |
| Scan.ScanIntAfterSpaces | beast_tpc_server.cpp:189 | `%d` after a run of white space behaves like the signed scan of what follows, offset by the run |
| Scan.ScanIntSplit | beast_tpc_server.cpp:189 | `%d` on a text that starts with k white-space characters, followed by something that is not white space, is the signed scan of the rest with k more characters consumed |
| Scan.SpaceRunOfPrefix | beast_tpc_server.cpp:189 | the white-space run of spaces followed by a non-space is exactly the spaces |
| Scan.DigitRunOfPrefix | beast_tpc_server.cpp:189 | the digit run of digits followed by a non-digit is exactly the digits |
| Scan.SpaceRun | beast_tpc_server.cpp:189 | the skipped prefix is all white space and stops at the first non-space |
| Scan.DigitRun | beast_tpc_server.cpp:189 | the counted prefix is all digits and stops at the first non-digit |
| Scan.ScanDigits | beast_tpc_server.cpp:189 | fails exactly when the text does not start with a digit; otherwise consumes a nonempty maximal digit run and gives the value of those digits |
| Scan.ScanSigned | beast_tpc_server.cpp:189 | a successful conversion ends on a digit and is not followed by one |
| Scan.ScanInt | beast_tpc_server.cpp:189 | a successful `%d` ends on a digit and is not followed by one |
| Scan.LooseNumeralsAreRead | beast_tpc_server.cpp:189 | `/007, +5` is read as a 7 by 5 image request: leading zeros, white space and a `+` are accepted |
| Scan.MalformedPairIsNotImage | beast_tpc_server.cpp:189 | "/12x,5" is not an image path, so it falls through to the file handler |
| Scan.FileNamesAreNotImages | beast_tpc_server.cpp:189 | "/" and "/index.html" are not image paths |
| Decimal.NatToDecimal | beast_tpc_server.cpp:115-119 | the printed length is a nonempty digit string without a leading zero |
| Decimal.IntToDecimal | beast_tpc_server.cpp:189 | the text starts with `-` exactly for negative values, and the rest is digits |
| Decimal.NatToDecimalRoundTrip | beast_tpc_server.cpp:115-119 | reading back a printed number gives the number |
| Decimal.NatToDecimalInjective | beast_tpc_server.cpp:115-119 | distinct lengths are printed differently |
| FileBody.Size | file_body.hpp:31-38 | the size is 0 when the size query fails and the reported size otherwise |
| FileBody.Amount | file_body.hpp:89 | a read asks for min(remain, 4096) bytes |
| FileBody.RemainAfter | file_body.hpp:111-118 | the remaining count never grows; it drops by the bytes read, or to 0 when more were read than remained |
| FileBody.CFile.constructor | file_body.hpp:71 | a freshly opened stream is at position 0, without error, open |
| FileBody.CFile.Read | file_body.hpp:97-99 | `fread` returns at most the requested count, copies exactly the bytes at the old position and advances by them; without error it reads min(amount, bytes left) |
| FileBody.CFile.Write | file_body.hpp:174-179 | `fwrite` appends a prefix of the bytes, and a short write sets the error indicator |
| FileBody.CFile.Flush | file_body.hpp:191 | `fflush` may set but never clears the error indicator |
| FileBody.CFile.Close | file_body.hpp:125-131 | the stream is closed afterwards |
| FileBody.FOpen | file_body.hpp:71 | `fopen` fails exactly when the file cannot be opened in that mode; "rb" starts at the file's bytes, "wb" truncates |
| FileBody.NewReader | file_body.hpp:67-85 | a failed open gives errno and no file; a failed size query keeps the file, sets the system error and remain 0; otherwise remain is the reported size |
| FileBody.Reader.constructor | file_body.hpp:67-85 | the reader starts with the given file and remain count, having handed out nothing |
| FileBody.Reader.Get | file_body.hpp:87-123 | nothing remaining gives none and no error; a read error gives errno, end of file gives an I/O error; otherwise a 1..4096-byte chunk of the next file bytes with more == (bytes remain) and the pending schedule advanced by one |
| FileBody.ChunksCoverFile | file_body.hpp:87-123 | when the file holds the announced size, the chunks concatenate to its first `remain` bytes, each is 1..4096 bytes, and only the last says no more follows |
| FileBody.ChunksOfShortFile | file_body.hpp:105-122 | when the file is shorter than announced, the chunks are the whole file and the last still says more follows |
| FileBody.Reader.Dispose | file_body.hpp:125-131 | a file that was opened is closed afterwards |
| FileBody.NewWriter | file_body.hpp:152-168 | `fopen(path, "wb")` success gives an empty file and no error; failure gives errno and no file |
| FileBody.Writer.constructor | file_body.hpp:152-155 | the writer holds the given path and file |
| FileBody.Writer.Put | file_body.hpp:170-187 | on success the file grows by the concatenated buffers; on error it grows by the buffers before the failing one plus a prefix of that one |
| FileBody.FlattenAppend | file_body.hpp:172-184 | concatenating the buffers distributes over splitting the buffer sequence |
| FileBody.FlattenFront | file_body.hpp:172-184 | the buffers in order are the first buffer followed by the others |
| FileBody.FileChunks | file_body.hpp:87-123 | every chunk holds 1 to 4096 bytes, and there are none exactly when nothing remains or the file has no bytes left |
| FileBody.Writer.Finish | file_body.hpp:189-200 | after the flush, `finish` reports errno exactly when the stream's error indicator is set, and it adds no bytes to the file |
| FileBody.Writer.Dispose | file_body.hpp:202-208 | a file that was opened is closed afterwards |
| CTypes.Min | file_body.hpp:89 | the minimum is one of the operands and no larger than either |
| Bmp.HttpGetImage | http_get_image.cpp:63-114 | the buffer holds exactly the reference image, headers then rows, and no error is reported |
| Bmp.WriteHeaders | http_get_image.cpp:65-96 | the first 54 bytes become the two headers, and the rest stays zero |
| Bmp.PaintRows | http_get_image.cpp:103-111 | after the headers, the buffer holds every row of the reference image |
| Bmp.PaintRow | http_get_image.cpp:105-110 | one row's pixels are written after what is already filled, with zero padding after them |
| Bmp.PutPixel | http_get_image.cpp:109 | the pixel's three bytes are written blue, green, red |
| Bmp.NewFileHeader | http_get_image.cpp:65-93 | the file header words are 'BM', the size in two words, two reserved zeros and the offset |
| Bmp.NewInfoHeader | http_get_image.cpp:74-86 | the info header words are exactly the ten BITMAPINFOHEADER fields |
| Bmp.CopyWords16 | http_get_image.cpp:95 | the memcpy of 16-bit words writes their little-endian bytes at the offset and nothing else |
| Bmp.CopyWords32 | http_get_image.cpp:96 | the memcpy of 32-bit words writes their little-endian bytes at the offset and nothing else |
| Bmp.PutWord16 | http_get_image.cpp:95 | one 16-bit word becomes two little-endian bytes at the offset |
| Bmp.PutWord32 | http_get_image.cpp:96 | one 32-bit word becomes four little-endian bytes at the offset |
| Bmp.WriteUint32 | http_get_image.cpp:57-61 | the low and high halves land in consecutive words, which together make up the value |
| Bmp.WordsJoin | http_get_image.cpp:57-61 | low word + 65536 * high word is the original value |
| Bmp.MasksAreDivMod | http_get_image.cpp:59-60 | `v & 0xFFFF` and `(v >> 16) & 0xFFFF` are v mod 65536 and v div 65536 |
| Bmp.PitchIsBmpStride | http_get_image.cpp:88 | the pitch equals the stride of a 24-bit bitmap, ((24w + 31) / 32) * 4 |
| Bmp.Pitch | http_get_image.cpp:88 | the pitch is a multiple of 4 and lies in [3w, 3w + 4) |
| Bmp.ImageSize | http_get_image.cpp:90 | the pixel area after the 54 header bytes is a whole number of 4-byte words |
| Bmp.Image | http_get_image.cpp:90-111 | the image is as long as the buffer is sized, and its first 54 bytes are the header bytes |
| Bmp.FileHeader | http_get_image.cpp:65-93 | seven words: "BM" in the first, the size in the next two (low word first), two zeros, and the offset 54 in the last two |
| Bmp.InfoHeader | http_get_image.cpp:74-86 | ten words: 40, the width and the negated height modulo 2^32, one plane and 24 bits per pixel, then zeros |
| Bmp.PixelIndexInBounds | http_get_image.cpp:101-111 | every byte index the pixel loop writes lies inside the buffer |
| Bmp.ClearLowBits | http_get_image.cpp:88 | `& ~3u` subtracts the remainder modulo 4 |
| Bmp.Rows | http_get_image.cpp:103-111 | the rows together are height * pitch bytes |
| Bmp.Row | http_get_image.cpp:105-110 | a row is pitch bytes: the pixels of the row, then zero padding |
| Bmp.RowsAt | http_get_image.cpp:105 | byte k of row i sits at i * pitch + k |
| Bmp.PixelAt | http_get_image.cpp:101-111 | channel k of pixel (i, j) sits at 54 + i * pitch + 3j + k and holds blue, green, red |
| Bmp.PaddingIsZero | http_get_image.cpp:88-110 | the bytes between 3w and the pitch in every row are zero |
| Bmp.FileHeaderFields | http_get_image.cpp:65-93 | "BM", bfSize equals the image length, zero reserved fields, bfOffBits 54 |
| Bmp.InfoHeaderDimensions | http_get_image.cpp:76-78 | biWidth is the width and biHeight the negated height, as signed 32-bit fields |
| Bmp.NegatedToUint32 | http_get_image.cpp:78 | `-height` stored in a uint32 is 2^32 - height for a positive height |
| Bmp.InfoHeaderFormat | http_get_image.cpp:74-86 | biSize 40, one plane, 24 bits per pixel, BI_RGB, and the other fields zero |
| Bmp.DecodedDimensions | http_get_image.cpp:74-90 | a decoder reads back the width and height, and sees a top-down image |
| Bmp.DecodedPixels | http_get_image.cpp:65-111 | a decoder that follows the header fields finds at pixel (i, j) exactly the painted colour |
| Bmp.Le16Word | http_get_image.cpp:95 | the bytes of a 16-bit word read back as that word |
| Bmp.Le32Word | http_get_image.cpp:96 | the bytes of a 32-bit word read back as that word |

## Left out

- Sockets, the accept loop and `main` (beast_tpc_server.cpp:262-288) are not modelled. Neither are the detached threads, the HTTP parser with its 8192-byte limits, `http::write`, the socket shutdown, logging, or the exception handler of `do_run`. The model starts at the parsed target and ends at the response value.
- `fs::exists` is a total predicate of `FileSystem`. The exception it can throw on a filesystem error, which ends the connection, is not modelled.
- `mime_type` lives in a header that is not part of this model. It is a parameter (`Config.mimeType`), and so is `BEAST_VERSION_STRING` (`Config.serverName`).
- `get_color` and `blend` are not modelled: they compute pixel colours in floating point from the time of day read with `time` and `localtime`. The generator takes them as a `Painter` argument, a function from row and column to a colour. A painter stands for one width, height and hour of day, since `get_color` (http_get_image.cpp:98-99, 109) depends on all three; `Server.DoRun` uses one painter for all the requests it answers, as if they all fell in the same hour; the painter's colours therefore do not follow the width and height of each request, which `get_color` divides the column and row by.
- `sscanf` conversions that overflow an `int` are undefined behaviour in C. The model reads unbounded integers instead. Out-of-range values are then refused by the 1..2048 check.
- The `memcpy` of the header words assumes a little-endian host. The model writes little-endian bytes explicitly.
- `data.resize` is only ever applied to the empty vector of `serve_image`, so the model allocates a fresh zeroed array. The C `int` products of `http_get_image` are required not to overflow (`ValidSize`). Every routed image size satisfies that requirement.
- `fread`, `fwrite`, `fflush` and `ferror` are modelled by their contracts: any call may fail, and errors are sticky. The errno value is not modelled, so `Errno` carries no number, and `Server.Message` gives it no text.
- A chunk returned by `file_body::reader::get` is a view of the reader's buffer, which the next call overwrites. In the model it is a copy of that buffer prefix. The buffer itself is still an array the method writes.
- `Server.DoRun`: states which requests are answered and in which order. The response to each request is stated by `Server.DoRequest`. It is not restated across the whole sequence, because the solver cannot relate the responses over the loop within the resource limit.
- `FileBody.NewWriter`: the `content_length` argument is accepted and ignored, as in the source.
- Body lengths of text responses count characters. They equal byte counts for the ASCII paths and messages the server produces.
- Server.ConnectionIds.NewId: requires the counter to be below `INT_MAX`. Incrementing `next_id_` past it is signed overflow, undefined behaviour in C, so that case is excluded rather than given a wrap-around.
- Server.ConnectionIds.NumberConnections: requires the counter plus the number of connections to stay within `INT_MAX`, for the same reason.
- Bmp.LowWord, Bmp.HighWord and Bmp.Pitch are defined on integers, by division and remainder. The bit masks `& 0xFFFF` and `>> 16` of `write_uint32` are related to that division and remainder by `Bmp.MasksAreDivMod`, and the mask `& ~3u` of the pitch (http_get_image.cpp:88) by `Bmp.ClearLowBits`. Both lemmas are stated on `bv32` values only, because converting between `bv32` and `int` inside the header proofs exceeds the solver's resource limit.
