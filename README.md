# A verified model of the request/response core of `app/server.c`

The program is a small HTTP/1.1 server written in C. Each connection is handled as follows:

1. It makes one bounded `read` of at most 4095 bytes and NUL-terminates them.
2. It splits the first three whitespace-separated words out of the text with `sscanf("%s %s %s")`. These are the method, the path and the version.
3. It scans the header lines after the request line for a `User-Agent` header (`get_header_value`).
4. It routes the path with `process_request`, an ordered if/else chain that builds a `Response` record with `create_response`.
5. `send_response` formats the header block into a 1024-byte buffer with `snprintf` and copies it, followed by the body, into one buffer that it sends.

This project models these steps in six Dafny modules, one per step plus the C primitives they use:

| module | file | models |
|---|---|---|
| `CText` | `ctext.dfy` | The C string and `scanf`/`printf` primitives: a C string ends at the first NUL, `strstr(s, "\r\n")`, the `%s` and `%[^…]` conversions, whitespace skipping, and `%d`/`%zu` decimal output. |
| `RequestLine` | `request_line.dfy` | The `"%s %s %s"` split of the request text. |
| `Headers` | `headers.dfy` | `get_header_value`, in two forms: the recursive specification `HeaderLookup` and the cursor-advancing loop `GetHeaderValue`. It also gives a reference reading of the header block as a list of lines. |
| `Router` | `router.dfy` | `create_response` and `process_request`, plus a reference route table with first-match dispatch. |
| `Serializer` | `serializer.dfy` | The `send_response` buffer assembly: the `snprintf` header block with its truncation, and the two copies into a fresh array. Its partner is a reader that parses the output back into a `Response`. |
| `Server` | `server.dfy` | `handle_request` as the function `Exchange` and as the method `HandleRequest`. Four end-to-end example requests pin down the exact bytes sent. |

The C `Response` struct (app/server.c:16-21) is the datatype `Router.Response`, with the code as an `int` and the three strings as `seq<char>`.

Where a step has undefined behaviour in C, the model turns it into a precondition (`Server.Defined`). Examples are a request without `"\r\n"` (line 149 adds 2 to NULL) and fewer than two words, which leaves `path` uninitialised. Everything the code handles stays inside the model:

- a failed read or an empty read;
- a NUL inside the data;
- a missing header;
- an empty header value;
- an unknown path;
- a header block too long for `snprintf`.

## Model

| member | source | states |
|---|---|---|
| CText.CString | app/server.c:135-144 | The text the C code sees after `buffer[byte_read] = '\0'` is the part of the bytes read before their first NUL: it is a prefix of them, has no NUL, and is followed by a NUL or by the end. When the bytes hold no NUL, it is all of them. |
| CText.FindCrlf | app/server.c:57 | `strstr(s, "\r\n")` gives an index at which two characters still fit, or NULL. `FindCrlfProps` proves it is the first CRLF. |
| CText.FindCrlfProps | app/server.c:57 | `strstr(s, "\r\n")` finds the first CRLF. There is a CRLF there and none before it. It finds nothing exactly when the text has no CRLF. |
| CText.FindCrlfAfterLine | app/server.c:57 | In a line with no CRLF followed by CRLF and more text, the first CRLF is the one right after the line. |
| CText.Span | app/server.c:63 | The `%[^stops]` conversion stores no more characters than its input has. `SpanProps` and `SpanOf` prove it is the longest prefix without a stop character. |
| CText.SpanProps | app/server.c:63 | A `%[^stops]` conversion stores a prefix of its input with no stop character in it. It ends at the input's end or at a stop character. |
| CText.SpanOf | app/server.c:63 | A prefix with no stop character, followed by a stop character or by nothing, is exactly what `%[^stops]` stores. |
| CText.SkipSpaces | app/server.c:67 | The whitespace directive leaves no more than its input. `SkipSpacesProps` and `SkipSpacesOf` prove it drops exactly the leading run of `isspace` characters. |
| CText.SkipSpacesProps | app/server.c:67 | The whitespace directive in a format drops a run of `isspace` characters from the front. What remains is empty or starts with a non-space. |
| CText.SkipSpacesOf | app/server.c:67 | Skipping whitespace over a run of spaces followed by a non-space leaves exactly the rest. |
| CText.Word | app/server.c:147 | `%s` stores no more characters than its input has. `WordProps` and `WordOf` prove it is the longest prefix without whitespace. |
| CText.WordProps | app/server.c:147 | `%s` stores a prefix with no whitespace, ending at the input's end or at whitespace. |
| CText.WordOf | app/server.c:147 | A word followed by whitespace or by nothing is exactly what `%s` stores. |
| CText.Digits | app/server.c:98-103 | The decimal digits `%d`/`%zu` print are digits, at least one, with no leading zero. |
| CText.DigitsValueOfDigits | app/server.c:98-103 | Reading the printed digits back gives the number: decimal printing is injective. |
| CText.DigitsBound | app/server.c:98-103 | A number below 10^k prints in at most k digits. This bounds the header block's length. |
| CText.FormatInt | app/server.c:98-103 | A printed integer is non-empty and has no NUL, whitespace, CR or LF. |
| CText.ParseFormatInt | app/server.c:98-103 | Printing an integer in decimal and reading it back gives the same integer. |
| RequestLine.Tokens | app/server.c:147 | `sscanf("%s %s %s")` stores at most three words. |
| RequestLine.TokensAreWords | app/server.c:147 | Every word the split stores is non-empty and has no whitespace. |
| RequestLine.TokensNoNul | app/server.c:146-147 | From a NUL-free text every stored word is NUL-free. |
| RequestLine.TokensShorter | app/server.c:146-147 | No stored word is longer than the text, so each fits its `MAX_BUFFER_SIZE` array. |
| RequestLine.BlankHasNoTokens | app/server.c:147 | A text of whitespace only yields no words. |
| RequestLine.TokensWord | app/server.c:147 | A word followed by whitespace or the end is stored, and the split goes on after it. |
| RequestLine.PrependWord | app/server.c:147 | A word in front of a whitespace-led text whose split is known adds that word in front of the split. |
| RequestLine.TokensCons | app/server.c:147 | Leading whitespace is skipped before a word. |
| RequestLine.SplitPathVersion | app/server.c:147 | `" path version…"`, followed by whitespace or the end, yields the path and the version. |
| RequestLine.SplitRequestLine | app/server.c:147 | `"method path version"`, followed by whitespace or the end, splits into exactly those three words. |
| Headers.ParseField | app/server.c:66-67 | When `sscanf(header, "%[^:]: %[^\r\n]")` returns 2, the name is the non-empty text before the header's first `:`. The value is non-empty, starts with no whitespace, has no CR or LF, is shorter than the line, and is NUL-free when the line is. |
| Headers.ValueWithin | app/server.c:67 | The value conversion has no CR or LF and starts with no whitespace. It is NUL-free when its input is. |
| Headers.ParseFieldOf | app/server.c:67 | `name:` followed by optional whitespace and a value parses to that name and that value. Leading whitespace is skipped; trailing whitespace is kept. |
| Headers.EmptyValueNeverParses | app/server.c:67 | A line whose value is empty or whitespace only makes `sscanf` return less than 2, so it never matches. |
| Headers.EmptyNameNeverParses | app/server.c:67 | A line that starts with `:` gives `%[^:]` nothing to store, so it never yields a field. |
| Headers.NoColonNeverParses | app/server.c:67 | A line without `:` never yields a field. |
| Headers.LineText | app/server.c:62-63 | The first `sscanf` stores no more characters than the line has, and they are NUL-free when the line is. |
| Headers.LineTextIsPrefix | app/server.c:63 | What the first `sscanf` stores is a prefix of the line that ends at the line's end or at a CR or LF. |
| Headers.LineTextOf | app/server.c:63 | A line with no CR or LF is stored whole. |
| Headers.HeaderLookup | app/server.c:55-72 | The value `get_header_value` returns, with None for NULL. `LookupIsFirstMatch` proves it is the value of the first line named `name` before the empty line. `LookupValueShape` gives the shape of the value, and `GetHeaderValue` is the loop that computes it. |
| Headers.LookupStep | app/server.c:57-64 | A non-matching line is passed over: the lookup from its start equals the lookup after its CRLF. |
| Headers.LookupHit | app/server.c:66-68 | A matching line ends the lookup with that line's value. |
| Headers.LookupEnds | app/server.c:57-59 | With no further CRLF, or at the empty line, the lookup gives NULL. |
| Headers.GetHeaderValue | app/server.c:55-72 | The `while` loop over `header_start` returns exactly what the recursive specification `HeaderLookup` gives. |
| Headers.LookupValueShape | app/server.c:63-68 | A value the lookup returns is non-empty, starts with no whitespace and has no CR or LF. It is shorter than the header text and NUL-free when that text is. |
| Headers.NameIsCaseSensitive | app/server.c:67 | `user-agent: curl` parses to the field `user-agent`, but it is not a `User-Agent` line: `strcmp` is case-sensitive. |
| Headers.FirstMatch | app/server.c:57-71 | On a list of lines, the first-match reference returns the value of a matching line with no matching line before it. It returns nothing exactly when no line matches. |
| Headers.LookupIsFirstMatch | app/server.c:55-72 | The scan over the text equals the first-match reference on the lines before the empty line. |
| Headers.HeaderLinesOfBlock | app/server.c:57-64 | Joining non-empty CRLF-free lines with CRLF and closing with an empty line reads back as exactly those lines. |
| Headers.LookupInBlock | app/server.c:55-72 | On such a block, whatever follows, `get_header_value` returns the first match among the lines. |
| Headers.BlockScanDefined | app/server.c:62-63 | On such a block of scannable lines, every `sscanf` the loop performs is defined. |
| Router.CreateResponse | app/server.c:74-81 | `create_response` fills a `Response` with the given code, reason and body, and always the content type `text/plain`. `ProcessRequest`'s contract carries this for every response the chain builds. |
| Router.ProcessRequest | app/server.c:74-93 | The chain equals first-match dispatch over the table `/` exact, `/echo/` prefix, `/user-agent` exact, else 404. The content type is always `text/plain` and the status is 200 "OK" or 404 "Not Found". NUL-free inputs give a NUL-free body. |
| Router.FirstRoute | app/server.c:84-92 | The selected route matches, and no earlier route does. No route matches exactly when none is selected. |
| Router.RoutesChoice | app/server.c:84-92 | Each route is chosen exactly when the path satisfies its test and the earlier tests fail. |
| Router.UserAgentIsNotEcho | app/server.c:86-88 | `/user-agent` is not under `/echo/`, so the third branch is reachable. |
| Router.DispatchOnRoutes | app/server.c:83-93 | Table dispatch gives the response of each branch of the chain. |
| Router.RootOnlyExact | app/server.c:84-85 | The root branch is taken exactly when the path is `/`. It answers 200 "OK" with an empty body. |
| Router.DoubleSlashIsNotFound | app/server.c:84-91 | `//` is not the root: it gets 404 "Not Found" with an empty body. |
| Router.EchoBody | app/server.c:86-87 | A path under `/echo/` answers 200 "OK" with the path minus its first six characters. `/echo/` gives an empty body. |
| Router.UserAgentBody | app/server.c:88-89 | `/user-agent` answers 200 "OK" with the User-Agent value, or `""` when it is NULL. |
| Router.NotFoundOtherwise | app/server.c:90-91 | The answer is 404 exactly when no branch claims the path, and then its body is empty. |
| Router.MethodIgnored | app/server.c:83-93 | Two requests differing only in method get the same response. |
| Serializer.HeaderBlock | app/server.c:97-103 | The text the `snprintf` format describes before truncation. `HeaderBlockRegrouped` gives its lines in order, and `ParseWireOfWire` reads it back. |
| Serializer.FormattedHeaders | app/server.c:96-103 | `snprintf` into `headers[1024]` keeps a prefix of the formatted block, at most 1023 characters long. That is the whole block when it fits, and exactly 1023 characters otherwise. |
| Serializer.Wire | app/server.c:105-118 | The bytes handed to `send`: the formatted headers, then the body. `AssembleResponse` builds them in an array, and `ParseWireOfWire` and `RoutedReadsBack` read them back as the response. |
| Serializer.RoutedCStrings | app/server.c:78-91 | Every response the chain builds from a NUL-free body is made of C strings, so `strlen` gives their lengths. |
| Serializer.AssembleResponse | app/server.c:105-116 | The assembled buffer is freshly allocated, has length `headers_len + body_len` and holds the formatted headers followed by the body. |
| Serializer.Concatenate | app/server.c:108-116 | The two `memcpy`s fill a fresh buffer with the first text at offset 0 and the second at the first's length. |
| Serializer.SplitLineOf | app/server.c:98-102 | Reading a CR-free line followed by CRLF gives back the line and the rest. |
| Serializer.FieldValueOf | app/server.c:99-100 | A fixed header prefix followed by a value reads back as that value. |
| Serializer.ParseStatusLineOf | app/server.c:98 | The status line `HTTP/1.1 <code> <reason>` reads back as that code and reason. |
| Serializer.ParseBodyOf | app/server.c:101-116 | After the `Connection` line and the empty line, the body reads back with the declared length. |
| Serializer.ParseContentLengthOf | app/server.c:100-116 | The `Content-Length` line, then the rest, reads back as a response whose body has exactly that length. |
| Serializer.ParseContentTypeOf | app/server.c:99-116 | The `Content-Type` line onwards reads back as the response, provided the content type has no CR. |
| Serializer.HeaderBlockRegrouped | app/server.c:97-103 | The formatted block plus the body is the status line, the three header lines, the empty line and the body, in that order. |
| Serializer.ParseWireOfWire | app/server.c:97-116 | When the block fits and the reason and content type have no CR, reading the bytes sent back gives the response. In particular, Content-Length states the length of the body that follows. |
| Serializer.RoutedHeaderFits | app/server.c:97-103 | For every routed response with a body shorter than 10^4, the header block fits in 1023 characters, so `snprintf` does not truncate. |
| Serializer.RoutedReadsBack | app/server.c:97-116 | For every routed response with a body shorter than 10^4, the bytes sent read back as that response. |
| Serializer.LongHeaderIsTruncated | app/server.c:97-116 | A header block of 1024 characters or more is cut to 1023 characters. The bytes sent are those 1023 followed by the whole body. |
| Server.AfterRequestLine | app/server.c:149 | The header scan reads the suffix of the request text that starts right after its first CRLF. There is a CRLF just before that suffix and none earlier in the text. |
| Server.RequestDefined | app/server.c:146-149 | A request text is handled without undefined behaviour when all of these hold: `sscanf` stores at least a method and a path, `strstr` finds a CRLF, and every header line the lookup scans is scannable (`Headers.ScanDefined`). |
| Server.Defined | app/server.c:135-149 | A read is handled without undefined behaviour when it failed, or it stored fewer than `MAX_BUFFER_SIZE` bytes and they are none, or their C string is a defined request. |
| Server.Answer | app/server.c:146-151 | The response to a request text is text/plain and 200 "OK" or 404 "Not Found". Its body is no longer than the text and NUL-free when the text is. |
| Server.InputsFromText | app/server.c:146-149 | The path and the User-Agent value taken from a request are no longer than it and NUL-free when it is. |
| Server.Exchange | app/server.c:131-159 | A failed or empty read sends nothing, and every other read sends something. What is sent reads back as the response to the NUL-terminated text. |
| Server.HandleRequest | app/server.c:131-159 | The imperative orchestration sends exactly what `Exchange` defines: read, split, scan the headers, route, assemble. |
| Server.ExchangeOfRequest | app/server.c:135-152 | For any request built from a method, a path, a version and well-formed header lines, what is sent is the wire form of routing that path with the first User-Agent line's value. |
| Server.RequestLineKnown | app/server.c:147-149 | For `method path version CRLF block`, the split gives the three words and the header scan starts at the block. |
| Server.ExchangeOfText | app/server.c:131-159 | The same as `ExchangeOfRequest`, for a request written as its request line, CRLF, the joined lines and the closing CRLF. |
| Server.FieldLine | app/server.c:62-67 | A line `name: value` with a non-space value and of bounded length is well formed and scannable, and it parses to that name and value. |
| Server.WireLines | app/server.c:97-116 | For a routed response, the bytes sent are the status line, `Content-Type: text/plain`, the `Content-Length` line, `Connection: keep-alive`, the empty line and the body. |
| Server.RootAccepted | app/server.c:84-85 | `GET / HTTP/1.1` with no headers is answered with the wire form of 200 "OK" and an empty body. |
| Server.RootRequest | app/server.c:84-116 | `GET /` is answered with exactly `HTTP/1.1 200 OK`, `Content-Type: text/plain`, `Content-Length: 0`, `Connection: keep-alive` and an empty line. |
| Server.EchoAccepted | app/server.c:86-87 | `GET /echo/abc` with a Host line is answered with the wire form of 200 "OK" and the body `abc`. |
| Server.EchoRequest | app/server.c:86-116 | `GET /echo/abc` is answered with exactly 200 OK, `Content-Length: 3` and the body `abc`. |
| Server.AgentFirstMatch | app/server.c:57-71 | With a Host line before the User-Agent line, the scan passes over the Host line and returns the User-Agent value. |
| Server.AgentAccepted | app/server.c:88-149 | `GET /user-agent` with Host and User-Agent lines is answered with the wire form of 200 "OK" and the User-Agent value. |
| Server.UserAgentRequest | app/server.c:88-149 | That request is answered with exactly 200 OK, `Content-Length: 15` and the body `test-client/1.0`. |
| Server.MissingAccepted | app/server.c:90-91 | `GET /index.html` is answered with the wire form of 404 "Not Found" and an empty body. |
| Server.NotFoundRequest | app/server.c:90-116 | `GET /index.html` is answered with exactly `HTTP/1.1 404 Not Found`, `Content-Length: 0` and an empty body. |

## Left out

- Socket creation, bind, listen and the accept loop (app/server.c:23-53, 161-191) are left out: they are operating-system I/O. The thread spawned per connection is left out because it only adds concurrency. `main` is left out too. src/http_server.c, src/main.c and include/http_server.h are not part of this model: the first two hold socket setup and `getopt` parsing, the last only declarations.
- `read`, `send` and `close` (app/server.c:118-121, 136-143, 157): the read is the parameter `ReadResult`. Its `ReadFailed` case stands for a negative return and `Received([])` for a return of 0. The send is the result `Some(bytes)`; its own failure only logs, and is not modelled. `perror` logging is not modelled.
- malloc and strdup failure (app/server.c:75, 79, 109-113), `free_response` and the `free` calls are not modelled. The model always allocates successfully and has no manual memory management.
- Server.Defined: undefined behaviour in the C code is a precondition, not a modelled outcome. This covers:
  - a request with no `"\r\n"` (line 149 adds 2 to NULL);
  - fewer than two words (`path` uninitialised);
  - a non-empty read whose first byte is NUL: its C string is empty, so `sscanf` at line 147 stores nothing and line 84 reads an uninitialised `path`;
  - a header line the loop scans that starts with CR or LF (so `%[^\r\n]` stores nothing), or does not fit `header[1024]`.
  An empty read and a failed read are still handled.
- Characters are Dafny `char`, not C bytes. `isspace` is the C-locale set (space, `\t`, `\n`, `\v`, `\f`, `\r`). No byte is treated as signed.
- Serializer.ParseWireOfWire: the reader used as the serializer's partner requires the reason phrase and content type hold no CR, and that the header block fits. Routed responses meet both, as `RoutedReadsBack` proves.
- Serializer.RoutedHeaderFits: it requires a body shorter than 10^4 characters. Every body that comes from a read of at most 4095 characters meets this.
- Integer widths (`int`, `size_t`, `ssize_t`) are unbounded here. Every length in the program is below 4096, so no wrap-around can occur.

Some behaviours of the code, stated here so that they are not mistaken for gaps in the model:

- The code always sends `Connection: keep-alive` (app/server.c:101), yet it closes the connection after one response (app/server.c:157).
- The code does not check `sscanf`'s return on the request line (app/server.c:147), so there is no "malformed request line" error. Fewer than two words is undefined behaviour. With exactly two, `version` is left unset, and the code never reads it.
- In a header value, only the whitespace after the `:` is skipped; trailing whitespace is kept (app/server.c:67).
- The code has no gzip, `Accept-Encoding`, `Content-Encoding`, reason-phrase table or `/files/` route. Reason phrases are the literals the chain passes (app/server.c:85-91).
- The body is measured with `strlen` (app/server.c:103, 106), so it ends at its first NUL. The model reproduces this through the NUL-terminated read (`CText.CString`) and `Serializer.CStrings`.
