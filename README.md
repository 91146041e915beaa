# File server request handling, modelled in Dafny

This project models how the quicr example file server (`quicr/examples/server.rs`)
handles one request. The server reads the whole request from a
bidirectional stream and logs it, each byte rendered by `ascii::escape_default`.
A printable ASCII byte other than `'`, `"` and `\` is logged as itself. Tab, CR,
LF, `'`, `"` and `\` get a backslash escape, and every other byte becomes `\xNN`.
The request is then run through `process_get`:

- the bytes must be `GET ` + path + `\r\n`;
- the path must be valid UTF-8;
- the path must be absolute;
- each component after the root must be a plain name. Each name is pushed
  onto the served root directory, and the resulting file is read.

On success the response is the file's bytes. On failure the response is
`failed to process request: ` + the error chain + a newline. The error
chain is the error's message followed by each cause's message, joined by
`: ` (the `PrettyErr` display).

Modules:

- `Wrappers`: `Option` and `Result`.
- `Utf8`:
  - UTF-8 validation as `str::from_utf8` does it: a width table, then the
    second-byte range check, reporting `valid_up_to` and `error_len`.
  - The encoding of a Dafny `string` into bytes (`String::into_bytes`).
  - A decoder, proving that the validated byte sequences are exactly the
    encodings of strings.
  - The decimal text of a number.
- `Failures`:
  - The failure chain: a `Fail` is a leaf `Message` or a `Context` wrapping a cause.
  - The `PrettyErr` loop, as a method proved against the chain's joined text.
  - The failure response bytes.
- `Escape`:
  - `ascii::escape_default`.
  - The logging loop, as a method proved against a function on the request.
  - A decoder proving the log text determines the request.
- `Paths`:
  - `Path::components` for Unix paths: an optional `RootDir`, then the
    `/`-separated pieces without empty pieces and `.`, and with `..` as
    `ParentDir`. A leading `CurDir` is produced only when the path has no root.
  - `PathBuf::push` of a relative name.
  - That pushing names onto the root only ever produces paths under the root.
- `Server`:
  - The request format and its parser.
  - `process_get` as a specification function and as a method with the
    source's loop.
  - The path rules, as the code applies them. A `.` component or a repeated `/`
    after the root is deliberately modelled as accepted and skipped, not rejected,
    because `Path::components` drops both. So `/./a` and `//a` serve the same
    file as `/a` (`Scenarios.MarkersAreSkipped`).
  - `handle_request`'s log text and response.
- `Scenarios`: concrete requests and what they produce.

The file system is a parameter: `FileSystem` maps a path to its contents
or to an I/O error message. Paths and wire data are byte sequences,
matching Unix `OsStr`. Error messages are Dafny strings, whose bytes on
the wire are their UTF-8 encoding.

## Model

| member | source | states |
|---|---|---|
| Server.ParseRequest | quicr/examples/server.rs:179-181 | "missing GET" exactly when the input is shorter than 4 bytes or does not start with `GET `; "missing \r\n" exactly when it does but the rest is shorter than 2 bytes or does not end in CR LF; success exactly when both checks pass and the bytes between are valid UTF-8; on success the input is `GET ` + path + CR LF; every other error is the malformed-UTF-8 context around the decoder's error |
| Server.ParseFormatRequest | quicr/examples/server.rs:179-181 | any valid UTF-8 path framed as `GET ` + path + CR LF is accepted and read back exactly |
| Server.MissingGetFirst | quicr/examples/server.rs:179 | the prefix check comes first: the whole request fails with "missing GET" exactly when the input does not start with `GET `, whatever the root and the file tree |
| Server.ResolvePath | quicr/examples/server.rs:184-194 | the path check and the push loop in closed form: "path must be absolute" unless the first component is `RootDir`, the `{:?}` text of the first later component that is not a plain name, or else the root with every name pushed. Its contract states that an accepted path is rooted and that the root is a prefix of the result. The exact acceptance condition is `Server.ResolvePathAccepts` and the layout is `Server.ResolvePathDescendant` |
| Server.FirstIllegal | quicr/examples/server.rs:189-194 | finds the first component from a position on that is not a plain name, and none exactly when all of them are plain names |
| Server.RootedFirstIllegal | quicr/examples/server.rs:184-194 | for a rooted path some component after the root is illegal exactly when a `..` piece occurs, and the first illegal one is then `ParentDir` |
| Server.ResolvePathAccepts | quicr/examples/server.rs:184-194 | the path check succeeds exactly when the path starts with `/` and has no `..` piece; a path without a root gives "path must be absolute"; a rooted path with `..` gives "illegal component in path: ParentDir" |
| Server.ResolvePathDescendant | quicr/examples/server.rs:183-194 | an accepted path resolves to the root followed by the path's plain names in order; the root is a prefix of the result, and the part after it parses back to exactly those names with no `..` |
| Server.ProcessGet | quicr/examples/server.rs:178-197 | the method with the source's component loop returns exactly what the `process_get` specification gives: wire checks, then the absolute check, then the component loop that pushes each name or stops at the first illegal component, then the read with "failed reading file" as context on an I/O error |
| Server.ReadFile | quicr/examples/server.rs:195 | `fs::read` with the "failed reading file" context: the file's bytes, or that context over the I/O error's text (a definition; its two outcomes are `Scenarios.ServesIndex` and `Scenarios.UnreadableFile`) |
| Server.ProcessGetSpec | quicr/examples/server.rs:178-197 | `process_get` as a function: the wire checks, then the path check, then the read, each error returned as it arises. Its contract states that a success passed both checks and holds exactly the contents of the resolved file. `Server.ProcessGet` is the loop proved equal to it |
| Server.ServeFormattedRequest | quicr/examples/server.rs:178-197 | a request for `/` + names (plain names, valid UTF-8) reads exactly the file at the root with those names pushed, and returns what the read returns |
| Server.RejectionReadsNoFile | quicr/examples/server.rs:179-194 | a request that fails the wire or path checks fails whatever the file system holds: no file is consulted |
| Server.ResolveStep | quicr/examples/server.rs:189-191 | one loop step: resolving one more plain name equals pushing that name onto the path resolved so far |
| Server.Response | quicr/examples/server.rs:164-166 | the bytes written back: the file's bytes on success, `Failures.FailureResponse` on failure (a definition; used by `Server.HandleRequest`) |
| Server.HandleRequest | quicr/examples/server.rs:156-167 | the logged content is the escaping of every request byte, and the response is the file's bytes on success or the UTF-8 bytes of `failed to process request: ` + the pretty error + a newline on failure |
| Failures.Chain | quicr/examples/server.rs:34-40 | the chain of messages is never empty and starts with the error's own message |
| Failures.PrettyText | quicr/examples/server.rs:33-41 | the text `PrettyErr` displays: the chain's messages joined by `: ` (a definition; `Failures.Pretty` is the loop proved equal to it, and `Failures.PrettyTextSplits` gives its shape) |
| Failures.Pretty | quicr/examples/server.rs:33-41 | the `while let` loop over the causes produces exactly the chain's messages joined by `: ` |
| Failures.PrettyTextSplits | quicr/examples/server.rs:34-40 | the pretty text is the error's own message followed by `: ` + message for each cause in turn |
| Failures.PrettySingle | quicr/examples/server.rs:34-36 | an error without a cause displays as its own message alone |
| Failures.PrettyContext | quicr/examples/server.rs:36-39 | an error with a cause displays as its message, `: `, then the cause's pretty text |
| Failures.PrettyStartsWithTop | quicr/examples/server.rs:34 | the pretty text always starts with the top error's message |
| Failures.FailureResponse | quicr/examples/server.rs:164-166 | the failure response is valid UTF-8 and is exactly the bytes of the fixed prefix, the top message, each `: ` + cause message, and a final newline byte |
| Failures.FailureResponseBytes | quicr/examples/server.rs:166 | the bytes of the failure text are the bytes of its four parts in order |
| Failures.EncodeNewline | quicr/examples/server.rs:166 | the newline ends the response as the single byte 10 |
| Failures.EncodeFramed | quicr/examples/server.rs:166 | encoding a framed text is the concatenation of the encodings of its parts |
| Escape.EscapeDefault | quicr/examples/server.rs:159 | a byte escapes to 1, 2 or 4 printable ASCII characters; to itself exactly when printable and not a quote, double quote or backslash; to a 4-character `\xNN` exactly when not printable and not tab, newline or carriage return |
| Escape.AsciiCharsDecode | quicr/examples/server.rs:159-160 | on ASCII bytes `str::from_utf8` succeeds, the text it yields has one character per byte with the same code, and that text's own bytes are the input again |
| Escape.EscapeDecodes | quicr/examples/server.rs:159-160 | every byte's escape is valid UTF-8, so the `unwrap` cannot fail, and it decodes to exactly the text that byte contributes to the log |
| Escape.EscapeAll | quicr/examples/server.rs:157-161 | the whole log text: the decoded escapes of the request's bytes, in order (a definition; its round trip is `Escape.UnescapeEscapeAll`, its bounds `Escape.EscapeAllLength` and `Escape.EscapeAllPrintable`) |
| Escape.EscapeRequest | quicr/examples/server.rs:157-161 | the escape of every request byte is valid UTF-8, and the loop, which appends the decoding of each escape, builds exactly the concatenated escapes of every byte in order |
| Escape.EscapeAllSnoc | quicr/examples/server.rs:157-161 | escaping one more byte appends that byte's escape |
| Escape.EscapeAllPrintable | quicr/examples/server.rs:157-161 | the logged content holds only printable ASCII characters |
| Escape.EscapeAllLength | quicr/examples/server.rs:157-161 | the logged content is at least as long as the request and at most four times as long |
| Escape.EscapedCharsUnescape | quicr/examples/server.rs:159 | decoding a byte's escape followed by more text yields that byte followed by the rest's decoding |
| Escape.UnescapeEscapeAll | quicr/examples/server.rs:157-161 | decoding the logged content gives back the request exactly |
| Escape.EscapeAllInjective | quicr/examples/server.rs:157-161 | two requests with the same logged content are the same request |
| Paths.FirstSlash | quicr/examples/server.rs:184 | the first `/` of a path: no `/` before it, and it is a `/` when inside the path |
| Paths.Components | quicr/examples/server.rs:184-193 | `Path::components` on Unix: `RootDir` for a leading `/`, `CurDir` only for a relative path that is `.` or starts with `./`, then one component per `/`-separated piece, with empty and `.` pieces dropped and `..` as `ParentDir` (a definition; its properties are `Paths.ComponentsRooted`, `Paths.ClassifyAllKinds` and `Paths.ClassifyAllNames`) |
| Paths.JoinSlashPieces | quicr/examples/server.rs:184 | splitting a path at `/` and joining the pieces with `/` gives back the path |
| Paths.PiecesJoinSlash | quicr/examples/server.rs:184 | joining pieces without `/` and splitting again gives back the pieces |
| Paths.PiecesHaveNoSlash | quicr/examples/server.rs:184 | no piece of a split path contains `/` |
| Paths.ClassifyAllConcat | quicr/examples/server.rs:184 | classifying pieces distributes over concatenation |
| Paths.ClassifyAllKinds | quicr/examples/server.rs:184-193 | after the root, only plain names and `ParentDir` occur; `ParentDir` occurs exactly when a `..` piece does; every plain name is one of the pieces |
| Paths.ClassifyKeepsNormalNames | quicr/examples/server.rs:191 | pieces without `/` classify to names that are not empty, `.` or `..` and hold no `/` |
| Paths.ClassifyAllNormalNames | quicr/examples/server.rs:191 | every plain name after the root is non-empty, not `.` or `..`, and has no `/` |
| Paths.ComponentsRooted | quicr/examples/server.rs:184-188 | the first component is `RootDir` exactly when the path starts with `/`, and then the rest are the components of the body |
| Paths.ClassifyAllNames | quicr/examples/server.rs:189-191 | without a `..` piece every component after the root is a plain name, and the names are the non-empty, non-`.` pieces in order |
| Paths.NamesConcat | quicr/examples/server.rs:189-191 | names distribute over concatenation of plain components |
| Paths.ClassifyNormalNames | quicr/examples/server.rs:191 | plain names classify to themselves |
| Paths.JoinSlashSnoc | quicr/examples/server.rs:191 | joining one more name adds `/` and the name |
| Paths.JoinSlashEndsWithLast | quicr/examples/server.rs:191 | a join ends with the last byte of its last name |
| Paths.Push | quicr/examples/server.rs:191 | `PathBuf::push` of a relative name: a `/` is inserted only when the buffer is non-empty and does not already end in `/` (a definition; `Server.ResolveStep` ties the loop's push to it) |
| Paths.Resolve | quicr/examples/server.rs:183-191 | the root with each name pushed in turn (a definition; its layout is `Paths.ResolveLayout`, its prefix `Paths.ResolveKeepsRoot`) |
| Paths.ResolveKeepsRoot | quicr/examples/server.rs:183-191 | pushing names never removes or changes any byte of the root: the root is a prefix of the result |
| Paths.ResolveLayoutSnoc | quicr/examples/server.rs:191 | when the root, separator and joined names describe the path so far, pushing one more plain name extends the join by `/` and that name |
| Paths.ResolveLayout | quicr/examples/server.rs:183-191 | pushing plain names onto the root gives the root, a `/` only when the root is non-empty and does not end in `/`, then the names joined by `/` |
| Paths.ResolveIsDescendant | quicr/examples/server.rs:183-191 | the resolved path starts with the root, and what follows parses to exactly the pushed names |
| Paths.SuffixComponents | quicr/examples/server.rs:183-191 | the joined names, with or without a leading `/`, parse back to those names |
| Paths.BodyAfterSlash | quicr/examples/server.rs:184 | extra leading `/` does not change the components after the root |
| Utf8.CheckFirst | quicr/examples/server.rs:181 | the first character is accepted exactly when it is one of the well-formed byte sequences of Table 3-7 of the Unicode Standard, each width given by its lead and second-byte ranges; on success its width is the width the lead byte announces; a reported error length is 1 to 3 and lies within the input |
| Utf8.CheckFirstLocal | quicr/examples/server.rs:181 | the first-character check looks only at the bytes of that character |
| Utf8.ValidUpToIsValidPrefix | quicr/examples/server.rs:181 | on failure the reported `valid_up_to` lies inside the input and the bytes before it are valid UTF-8 |
| Utf8.AsciiIsValid | quicr/examples/server.rs:160 | bytes below 0x80 are valid UTF-8 |
| Utf8.EncodeChar | quicr/examples/server.rs:166 | a character encodes to 1 to 4 bytes (that the bytes determine the character is `Utf8.DecodeEncodeChar` and `Utf8.EncodeCharInjective`) |
| Utf8.EncodeConcat | quicr/examples/server.rs:166 | encoding distributes over concatenation |
| Utf8.EncodeAscii | quicr/examples/server.rs:166 | ASCII text encodes to its own codes, one byte each |
| Utf8.EncodeCharChecks | quicr/examples/server.rs:166 | each encoded character passes the decoder's first-character check with its own width |
| Utf8.EncodeIsValid | quicr/examples/server.rs:166 | the bytes of any string are valid UTF-8 |
| Utf8.Validate | quicr/examples/server.rs:181 | `str::from_utf8`'s check: character by character, the first error with its `valid_up_to` counted from the start of the input (a definition; `Utf8.ValidUpToIsValidPrefix` and `Utf8.ValidIffEncoded` are its properties) |
| Utf8.DecodeChar | quicr/examples/server.rs:181 | an accepted first character decodes to the one character whose encoding is exactly the accepted bytes |
| Utf8.DecodeEncodeChar | quicr/examples/server.rs:181 | an encoded character is accepted with its own width, whatever follows, and decodes back to that character |
| Utf8.EncodeCharInjective | quicr/examples/server.rs:166 | two characters with the same encoding are the same character |
| Utf8.Decode | quicr/examples/server.rs:181 | valid UTF-8 decodes to a string whose encoding is exactly the input |
| Utf8.DecodeEncode | quicr/examples/server.rs:181 | the encoding of any string is valid and decodes back to that string |
| Utf8.ValidIffEncoded | quicr/examples/server.rs:181 | a byte sequence is valid UTF-8 exactly when it is the encoding of some string |
| Utf8.ErrorMessage | quicr/examples/server.rs:181 | the Display text of a `Utf8Error` that becomes the cause under "path is malformed UTF-8": `invalid utf-8 sequence of N bytes from index I` when an error length is known, `incomplete utf-8 byte sequence from index I` otherwise, numbers in decimal (a definition; the decimal text is `Utf8.NatToString` and `Utf8.ParseNatToString`) |
| Utf8.DigitChar | quicr/examples/server.rs:181 | a digit below ten is a decimal character |
| Utf8.NatToString | quicr/examples/server.rs:181 | the decimal text of a number in the decoder's error message is non-empty, all digits, and has no leading zero |
| Utf8.ParseNatToString | quicr/examples/server.rs:181 | reading the decimal text back gives the number |
| Scenarios.TextOfMessage | quicr/examples/server.rs:166 | a single-message failure responds with `failed to process request: ` + the message + newline |
| Scenarios.PostIsMissingGet | quicr/examples/server.rs:179 | a `POST` request fails with "missing GET", responding `failed to process request: missing GET` and a newline |
| Scenarios.ShortRequestIsMissingTerminator | quicr/examples/server.rs:180 | `GET \r`, the prefix and then a single CR, fails with "missing \r\n" |
| Scenarios.UnrootedIsNotAbsolute | quicr/examples/server.rs:181-187 | any valid UTF-8 path that does not start with `/` fails with "path must be absolute", whatever the root and the file tree |
| Scenarios.EmptyPathIsNotAbsolute | quicr/examples/server.rs:184-187 | `GET ` + CR LF fails with "path must be absolute" |
| Scenarios.RelativePathIsNotAbsolute | quicr/examples/server.rs:184-187 | a relative path fails with "path must be absolute" |
| Scenarios.ParentFirstIsIllegal | quicr/examples/server.rs:189-193 | any path beginning `/../` fails with "illegal component in path: ParentDir" whatever follows |
| Scenarios.DotDotPiece | quicr/examples/server.rs:184 | a path beginning `/../` has a `..` piece |
| Scenarios.TraversalIsIllegal | quicr/examples/server.rs:189-193 | `GET /../secret` fails with "illegal component in path: ParentDir" |
| Scenarios.ServeSingle | quicr/examples/server.rs:183-195 | a request for `/` + one plain name under a root not ending in `/` reads exactly root + `/` + name |
| Scenarios.ServesIndex | quicr/examples/server.rs:178-197 | `GET /index.html` reads the root's `index.html` and responds with its contents |
| Scenarios.UnreadableFile | quicr/examples/server.rs:195 | an I/O error on the file gives "failed reading file" with the I/O error as its cause |
| Scenarios.TextOfContext | quicr/examples/server.rs:33-41 | a failure with one causeless cause responds with `failed to process request: ` + message + `: ` + cause + newline |
| Scenarios.ReadFailureText | quicr/examples/server.rs:164-195 | that failure responds with `failed to process request: failed reading file: ` + the I/O message + newline |
| Scenarios.MarkersAreSkipped | quicr/examples/server.rs:184-191 | for any plain name n, `/./n` and `//n` are accepted and resolve to exactly what `/n` resolves to: a `.` component or a repeated `/` after the root is skipped, not refused |

## Left out

- `main`, `run` and `Opt` (option parsing, certificate and key loading, QUIC endpoint setup and the accept loop) are configuration and networking, outside the request logic.
- The connection driver and the `current_thread::spawn` futures are about concurrency, so they are left out. So are `read_to_end`, `write_all` and `shutdown` on the stream, and their error contexts ("failed reading request", "failed to send response", "failed to shutdown stream"). The model starts from the complete request bytes and ends at the response bytes.
- The 64 KiB request limit is enforced by the stream reader before `process_get` runs. The model accepts requests of any length.
- The unidirectional-stream branch is `unreachable!()` in the source, because the endpoint allows no unidirectional streams. It is not modelled.
- Logging, with its `info!`/`error!` calls, is not modelled. The model keeps only the escaped content string that is logged.
- `fs::read` is abstracted as the `FileSystem` parameter. Symbolic links, permissions and races between check and read are not modelled, and I/O error messages are opaque strings.
- The code of `Path::components` and `str::from_utf8` lives in the standard library and is not visible here. Both are modelled from their documented Unix behaviour:
  - Windows prefixes are not modelled.
  - UTF-8 errors keep `valid_up_to` and `error_len`. Their exact display text is given by `Utf8.ErrorMessage`.
- `ErrorExt::pretty` (quicr/examples/server.rs:45-51) only wraps the error's top failure. The model applies `Pretty` to that `Fail` directly.
- Rendering the same error twice gives the same text. In the model this is immediate, because `PrettyText` is a function, so there is no separate lemma.
