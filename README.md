# geminon core in Dafny

A model of the sequential core of geminon, a small Gemini-protocol library in C, with proofs about that model. It covers four pieces.

- **URL parser** (`url.c`). `gemini_parse_url_into` scans a URL one byte per step through a finite-state machine:
  - states 0-8 match the `gemini://` literal and state 9 waits for the first host byte;
  - state 10 is the host, state 11 an optional `:port`, state 12 the mandatory path.

  It copies host and path into the flexible buffer of `struct gemini_url`, accumulates the port, and reports an error code. `gemini_parse_url` allocates `strlen(s) + 1` bytes and calls it. `gemini_new_url` allocates the structure.
- **Path resolver** (`fs.c`).
  - `s_parse_path` scans one path component per call through a second machine: 1 is a component start, 2 saw `.`, 3 saw `..`, 4 is an ordinary component.
  - `gemini_fs_resolve` folds the components into an accumulated path with a depth counter. `..` removes a component and never climbs above the root.
  - `gemini_fs_path` puts the document root in front.
- **Server side** (`request.c`).
  - `gemini_request_respond` formats a status line.
  - `gemini_request_write` loops until the TLS session has taken every byte.
  - `gemini_request_stream` copies a descriptor to the session through a fixed buffer, compacting it with `memmove`.
  - `gemini_request_close` releases the session, the socket and the URL.
- **Client side** (`response.c`).
  - `gemini_response_read` gathers reads until the buffer is full or a read returns 0 or less.
  - `gemini_response_stream` copies the session to a descriptor and keeps what a partial write left over.
  - `gemini_response_close` releases the same three resources.

## Layout

Each loop of the C code is a Dafny `method` with a `while` loop over an `array`. Each method is proved equal to a specification function, and lemmas state what the source promises about that function.

- **`bytes.dfy`** (`Bytes`) holds the byte type, C strings (the bytes before the first NUL) and the C library calls the core uses: `strlen`, `strrchr`, `strncpy`, `memcpy`, `memmove`.
- **`url.dfy`** (`Url`) holds the URL code:
  - the transition table `Next`;
  - one step `Step`, the scan `Run`, and its result `ParseCode` / `Parse`;
  - the grammar `Spells`;
  - the `GeminiUrl` class and its methods;
  - the soundness and completeness lemmas and the `tests.c` vectors.
- **`fs.dfy`** (`Fs`) holds the path code:
  - the scanner `Scan` / `Lex`, the resolver `ResolveFrom` / `Resolution` and the root join `RootPath`;
  - an independent reference: split at `/`, `Normalize` the components, `Join` them with `/`.
- **`fs_scan.dfy`, `fs_resolve.dfy`, `fs_reference.dfy`** prove the resolver facts and its agreement with the reference.
- **`fs_vectors.dfy`** holds the `t/fs.c` vectors and two findings.
- **`fs_code.dfy`** (`FsCode`) holds the imperative scanner class `PathParser` and the imperative `Resolve` and `FsPath` methods.
- **`io.dfy`** (`Io`) models the peers:
  - a `Sink` (`SSL_write_ex`, `write(2)`) answers each write from a script: take at most `limit` bytes, or fail;
  - a `Source` (`read(2)`, `SSL_read`) hands out its script's chunks, fails at a `Broken` chunk, and reports end of input when the script is used up;
  - `Copy` and `Flush` record each copy as a list of steps, and the predicates `Delivered` and `Flushed` state what a stream copy promises.
- **`request.dfy`** (`Request`) and **`response.dfy`** (`Response`) hold the two sides.

## Model

| member | source | states |
|---|---|---|
| Url.GeminiUrl.constructor | url.c:8-18 | a URL object with `len` bytes of fresh storage |
| Url.Advance | url.c:50-90 | one iteration of the scan loop on byte `c` halts with exactly the code of the transition `Step`, or moves to the state, buffer contents, port and host/path offsets that `Step` gives |
| Url.ParseInto | url.c:36-101 | corrected: with the extra room checks of Findings, a null URL gives -91. Otherwise the return code is that of the scan over all of `s` (`ParseCode`). On 0 the buffer holds host and path as C strings at `url.host` and `url.path`, and `url.port` is the parsed port |
| Url.ParseDefined | url.c:94-100 | the scan yields a host, port and path exactly when the return code is 0 |
| Url.ParseCodes | url.c:45-100 | every return code is 0, -92, -93, -95 or -100 minus a state (-100..-111) |
| Url.ParseSound | url.c:55-100 | a return of 0 means `s` is `gemini://` + host + optional `:digits` + path. The host is letters, digits and dots, at least one of them. The path starts with `/`. The port is 1965 without `:`, else the decimal value of the digits, and at most 65535 |
| Url.ParseComplete | url.c:55-100 | conversely, every such spelling with port at most 65535 and room for host, path and two terminators returns 0 with exactly that host, port and path |
| Url.PortOverflow | url.c:82-87 | after a valid host and `:`, digits whose value exceeds 65535 give -95, whatever follows them, a path or not |
| Url.UnendedPortOverflow | url.c:82-87 | `gemini://h:99999`, with no path, gives -95 |
| Url.MissingPath | url.c:98-100 | `gemini://host` with no path ends in state 10 and gives -110 |
| Url.BadHostByte | url.c:50-53 | a byte that is not a host character where the host starts or continues gives -93 |
| Url.BadPortByte | url.c:50-53 | a byte that is neither a digit nor `/` after `:digits` gives -93 |
| Url.WrongScheme | url.c:50-53 | input that does not start with `g` gives -93 |
| Url.RoomSuffices | url.c:45-48 | with more room than input bytes, as `gemini_parse_url` allocates, the buffer never runs out (-92) |
| Url.AsWrittenOverrun | url.c:45-96 | as written, the one-byte room check lets the two-byte write at `/` and the terminator after the loop run past the buffer |
| Url.ParseUrl | url.c:20-34 | as written: the result is null exactly when the parse succeeds; the storage is `strlen(s) + 1` bytes |
| Url.ParseUrlInverted | url.c:28-33 | `gemini://x/` parses (so `ParseUrl` returns null) and the empty string does not (so it returns a URL) |
| Url.ParseUrlChecked | url.c:20-34 | corrected: null exactly when the parse fails, otherwise a URL holding the parsed host, port and path |
| Url.EmptyRejected | tests.c:22-26 | `""` fails with -100 |
| Url.HttpRejected | tests.c:27-31 | `http://huntprod.com` fails with -93 |
| Url.MissingPathRejected | tests.c:32-36 | `gemini://just.a.host` fails with -110 |
| Url.BangRejected | tests.c:37-41 | `gemini://host!/` fails with -93 |
| Url.DashRejected | tests.c:42-46 | `gemini://--the-host--/` fails with -93 |
| Url.WordPortRejected | tests.c:47-51 | `gemini://host:gemini/` fails with -93 |
| Url.MixedPortRejected | tests.c:52-56 | `gemini://host:19sixty5/` fails with -93 |
| Url.BaseAccepted | tests.c:58-65 | `gemini://x/` gives host `x`, port 1965, path `/` |
| Url.DottedAccepted | tests.c:66-73 | `gemini://huntprod.com/` gives host `huntprod.com`, port 1965, path `/` |
| Url.AddressAccepted | tests.c:74-81 | `gemini://192.168.88.100/` gives that host with port 1965 |
| Url.PortAccepted | tests.c:82-89 | `gemini://host:2021/` gives port 2021 |
| Url.LongPathAccepted | tests.c:90-97 | `gemini://host/a/path/for/testing` gives host `host`, port 1965, path `/a/path/for/testing` |
| Url.AllHostCharsAccepted | tests.c:98-105 | the all-host-characters URL gives that host, port 1965, path `/` |
| Url.EmptyPortAccepted | url.c:71-80 | `gemini://host:/` parses with port 0, since `:` sets the port to 0 and `/` may follow at once |
| Fs.FsNext | fs.c:31-35 | the reconstructed path table: no transition (-1) exactly on control bytes and DEL, state 1 exactly on `/` |
| Fs.Scan | fs.c:25-68 | as written (`asWritten`) or corrected: the scan ends within the input; a component has 1 to 1023 bytes, none of them `/` or forbidden; END only at the end of input |
| Fs.Lex | fs.c:25-68 | the corrected scanner: a DIR or UP token consumes input; a component has 1 to 1023 clean bytes without `/` |
| FsCode.PathParser.constructor | fs.c:13-16 | a parser at the start of the file with a fresh 1024-byte component buffer |
| FsCode.PathParser.Parse | fs.c:25-68 | corrected: `s_parse_path` that empties the buffer after a lone `.` returns the code of `Lex`'s token, leaves `src` where `Lex` does, and holds a DIR component as a C string in its buffer |
| FsScan.LexSeg | fs.c:37-67 | on a legal component `seg` ending at `/` or the input's end: `""` and `.` are skipped, `..` gives UP, anything else gives DIR(`seg`) |
| FsScan.LexBadSeg | fs.c:31-54 | a component with a forbidden byte or more than 1023 bytes gives ERR |
| Fs.Take | fs.c:104-106 | the copy loop keeps at most `left` bytes of the component, and all of it when it fits |
| Fs.Append | fs.c:95-108 | a DIR token adds a `/` when the path has a component, then the component, truncated at 1023 path bytes in all |
| Fs.AsWrittenLeft | fs.c:96-102 | the `size_t` copy budget: 1023 minus the path length, one less after a `/`, wrapping modulo 2^64 |
| Fs.Pop | fs.c:110-117 | UP cuts the path at its last `/`, or empties it when it has none |
| FsCode.Resolve | fs.c:70-123 | corrected: `gemini_fs_resolve` with the two fs.c fixes of Findings returns exactly `Resolution(file)`; NULL in gives NULL out |
| FsCode.ApplyDir | fs.c:95-108 | the DIR case keeps the path a C string of at most 1023 bytes whose components match `deep`, and the rest of the resolution unchanged |
| FsCode.ApplyUp | fs.c:110-117 | the UP case keeps the same invariant and resolution |
| FsCode.AppendName | fs.c:96-106 | the path buffer holds the appended path (`Append`) as a C string |
| FsCode.CutLast | fs.c:112-114 | the path buffer holds `Pop` of the path as a C string |
| FsResolve.ResolveIsComponentwise | fs.c:89-122 | resolving is feeding the `/`-separated components one by one to the accumulator |
| FsResolve.ResolveFails | fs.c:91-93 | the result is NULL exactly when some component holds a forbidden byte or is longer than 1023 bytes |
| FsResolve.RefusedByte | fs.c:32-35 | a forbidden byte anywhere gives NULL |
| FsResolve.LongComponent | fs.c:51-54 | 1024 bytes without `/` anywhere give NULL |
| FsResolve.StepShape | fs.c:95-117 | after each token the path is empty exactly when `deep` is 0, does not start with `/`, and has `deep - 1` slashes |
| FsResolve.ResolveNoLeadingSlash | fs.c:95-108 | a resolved path is empty or does not start with `/` |
| FsReference.ResolveMatchesReference | fs.c:70-123 | on a clean path under 1024 bytes, the resolver equals the reference: drop empty and `.` components, `..` pops (at the root it does nothing), join with `/`. The result is no longer than the input |
| FsReference.NormalizeValid | fs.c:95-108 | components that are all ordinary names are kept as they are |
| FsReference.SplitJoin | fs.c:95-108 | splitting a join of ordinary names at `/` gives the names back |
| FsReference.CleanPathFixed | t/fs.c:24-29 | an already clean relative path resolves to itself |
| FsReference.ResolveIdempotent | fs.c:70-123 | resolving a resolved path changes nothing |
| Fs.TrimSlashes | fs.c:180 | the root without its trailing `/`s: a prefix of the root, ending in another byte or empty |
| FsCode.StripSlashes | fs.c:180 | the strip loop stops at the length of the trimmed root |
| FsCode.JoinRoot | fs.c:169-184 | the result is the trimmed root, one `/`, the resolved path |
| FsCode.FsPath | fs.c:160-188 | corrected: `gemini_fs_path` over the corrected resolver returns exactly `RootPath(root, file)` |
| FsReference.RootPathJoin | fs.c:160-188 | the result is NULL exactly when resolving fails. Otherwise it is the trimmed root, one `/` and the resolved path, with no two slashes at the seam |
| FsVectors.KeepsNames | t/fs.c:18-29 | `/foo/bar` gives `foo/bar`; `bar/baz` gives `bar/baz` |
| FsVectors.UpAndDown | t/fs.c:30-35 | `/foo/bar/../baz` gives `foo/baz` |
| FsVectors.StaysInRoot | t/fs.c:36-41 | eight `..` then `etc/shadow` give `etc/shadow` |
| FsVectors.UpToRoot | t/fs.c:42-53 | `/..` and `/../.` give the empty path |
| FsVectors.HiddenFile | t/fs.c:54-59 | `/.hidden/file` gives `.hidden/file` |
| FsVectors.HiddenDotFile | t/fs.c:60-65 | `/.hidden/..file` gives `.hidden/..file` |
| FsVectors.DottedDirectory | t/fs.c:66-71 | `/something.d/test` gives `something.d/test` |
| FsVectors.KeptDot | fs.c:37-60 | as written `/./foo` scans to DIR(`.foo`); corrected it scans to DIR(`foo`) and resolves to `foo` |
| FsVectors.BudgetWraps | fs.c:96-105 | after a 1023-byte component, the next component's budget wraps to 2^64 - 1. The corrected resolver keeps the path |
| FsVectors.TruncatedToUp | fs.c:96-106 | after a 1020-byte name, `/..x` is cut to `..` by the copy budget: the result is the name, `/`, `..`, and resolving that again gives the empty path |
| Bytes.StrLen | fs.c:96 | the length of the C string held |
| Bytes.StrRChr | fs.c:112-113 | the index of the last occurrence, or -1 |
| Bytes.StrNCopy | request.c:15-17 | copies the string's first `n` bytes or all of it, pads with NUL, and leaves the rest |
| Bytes.CopyInto | fs.c:178-183 | `memcpy`: the target range holds the source, everything else is unchanged |
| Bytes.MoveDown | request.c:55 | `memmove(buf, buf + k, n - k)`: the front holds the old tail, everything after is unchanged |
| Request.CQuot | request.c:11-12 | C division truncates toward zero |
| Request.CRem | request.c:11-12 | the C remainder has the dividend's sign and pairs with the quotient |
| Request.Digit | request.c:11-12 | `'0' + d` is the byte whose distance from `'0'` is `d` |
| Request.MetaCut | request.c:15-17 | the meta kept is all of it or exactly 250 bytes, whichever is less |
| Request.StatusLine | request.c:8-18 | the line is `5 + kept meta` bytes, at most 255, with a space third and CRLF last |
| Request.StatusLineReads | request.c:11-18 | reading a status line back gives `status mod 100` and the kept meta, for a non-negative status |
| Request.NegativeStatusUnreadable | request.c:11-12 | a negative status that is not a multiple of 100 writes non-digit bytes |
| Request.FormatStatus | request.c:8-18 | the 256-byte buffer's first `strlen` bytes are the status line |
| Request.WriteHead | request.c:11-17 | digits, space and the kept meta form a C string in the zeroed buffer |
| Request.CrLfAppended | request.c:18 | `strcat` of CRLF makes the line a C string |
| Request.Transfer | request.c:23-39 | the corrected write loop: it returns `n` having sent exactly the data, or -1 having sent a strict prefix |
| Request.TransferStopsAtRefusal | request.c:29-32 | -1 comes exactly after the first refused write; every reply before it took bytes |
| Request.TransferWithoutRefusal | request.c:27-38 | a session that never refuses takes all `n` bytes: the result is `n` |
| Request.TransferAsWritten | request.c:27-38 | the loop as written, advancing `buf` by `n`; a success returns the sum of the accepted counts |
| Request.AsWrittenOneShot | request.c:28-35 | when one call takes everything, the written and corrected loops agree |
| Request.AsWrittenResendsBytes | request.c:33-35 | with replies 6 then 4, the loop as written sends `0123454567` for `0123456789` |
| Request.AsWrittenOverruns | request.c:34 | with a reply of 3, the loop as written reads past the end of the data |
| Request.TransferOnce | request.c:29-35 | one accepted write of `k` bytes, then the rest of the loop on the bytes after them |
| Request.GeminiRequest.constructor | request.c:70-86 | a request holding the given session, descriptor and URL, nothing released |
| Request.GeminiRequest.Respond | request.c:7-21 | corrected: the session is offered exactly the status line, through the corrected write loop (`Transfer`) |
| Request.GeminiRequest.Write | request.c:23-39 | result, session script and bytes received are those of `Transfer` on `buf[..n]` |
| Request.GeminiRequest.WriteTo | request.c:27-38 | the write loop on a given session, as `Transfer` |
| Request.GeminiRequest.WriteOnce | request.c:29-35 | one `SSL_write_ex` of the bytes still to send: on failure the whole loop gives -1 with what was sent so far; otherwise fewer bytes remain and the rest of the loop is `Transfer` of them |
| Request.GeminiRequest.Stream | request.c:41-68 | the result, both scripts and the bytes received are those of the copy `Copy` of the descriptor to the session; by `CopyOutcome` that copy is `Delivered` |
| Request.GeminiRequest.StreamTo | request.c:45-67 | the two loops of the copier on a given source and sink, as `Copy` |
| Request.GeminiRequest.CopyTurn | request.c:51-57 | one turn of the read loop keeps the fill count within the block and the remaining copy equal to `Copy` of the new state |
| Request.GeminiRequest.ReadTurn | request.c:51-56 | a read after the held bytes, then the write loop (`Transfer`) on everything held, and what it did not take moved to the front |
| Request.GeminiRequest.FillFrom | request.c:51-52 | the read fills the buffer after the `n` bytes held |
| Request.GeminiRequest.Drain | request.c:53-56 | the write loop (`Transfer`) on all held bytes, and what it did not take moved to the front |
| Request.GeminiRequest.FlushAll | request.c:59-64 | the flush loop ends the copy as `Flush` does |
| Request.GeminiRequest.FlushTurn | request.c:60-63 | the write loop (`Transfer`) on all held bytes in the flush loop, and what it did not take moved to the front |
| Request.FlushOutcome | request.c:59-64 | flushing stops at its first failure, and returns 0 having sent all held bytes or -1 having sent a prefix of them |
| Request.CopyOutcome | request.c:50-67 | a copy returning 0 sent the held bytes and then exactly what the descriptor held, in order. Otherwise it returned -1 at its first failure, having sent a prefix of what it read. The converse is `CopySucceeds` |
| Request.CopySucceeds | request.c:41-68 | a descriptor that never fails and a session that never refuses make the copy return 0, having sent the held bytes and then everything the descriptor holds |
| Io.Sink.Put | request.c:29 | a write of `data` takes `Accepts` bytes (1 to all, or -1) and the sink keeps them |
| Io.Source.Read | request.c:51 | a read stores what `Pull` hands out at the given offset and changes nothing else |
| Io.Pull | response.c:13 | a read gives -1 and nothing, or a count equal to the bytes given, at most the room |
| Io.PullContent | response.c:13 | a read that got bytes took them from the front of what the source holds; 0 exactly at the end, -1 exactly at a break |
| Io.DeliveredAfterWrite | request.c:51-57 | a read of `b` and a write of the first `k` held bytes, followed by a copy that delivers the rest, delivers everything |
| Io.FlushedAfterWrite | request.c:59-64 | a write of the first `k` bytes followed by a flush of the rest is a flush of all |
| Io.Releases | request.c:70-86 | close releases the session exactly when one is held, the socket exactly when `fd >= 0`, the URL exactly when one is held, none twice |
| Io.ClosedFd | request.c:77-80 | after close the descriptor is negative, and a negative one is left alone |
| Io.CloseIdempotent | request.c:70-86 | a second close releases nothing and leaves the descriptor as it was |
| Io.CloseReleasesOnce | request.c:70-86 | closing keeps every resource released at most once and nothing released still held |
| Request.GeminiRequest.Close | request.c:70-86 | `ssl` and `url` become null, `fd` becomes `ClosedFd(fd)`, the resources `Releases` names are released once |
| Response.Gather | response.c:7-23 | the read loop with `nread` started at 0: at most `n` bytes stored; a count equal to the bytes stored, or -1 |
| Response.CollectBounds | response.c:10-22 | as written, with `nread` entering at any value: at most `n` bytes, the count of them or -1. A garbage negative result is possible only when `n` is 0 |
| Response.GatherReads | response.c:12-22 | a read of `n` bytes returns the first `n` bytes the session holds when it holds that many; otherwise all of them, then -1 if the session fails or their count at the end of input |
| Response.CollectContent | response.c:13-17 | a read that did not fail took its bytes from the front of the session, and a read of 0 with room found the end |
| Response.CollectIgnoresLast | response.c:13 | with room, the starting value of `nread` does not matter |
| Response.UnsetReadResult | response.c:10-20 | as written, a read of 0 bytes returns the uninitialised `nread` when it is negative; corrected it returns 0 |
| Response.GeminiResponse.constructor | response.c:55-71 | a response holding the given session, descriptor and URL, nothing released |
| Response.GeminiResponse.Read | response.c:7-23 | corrected: with `nread` set to 0, the result and the session left are those of `Gather`; the bytes read land at `buf[at..]` and nothing else changes |
| Response.GeminiResponse.ReadFrom | response.c:12-22 | the read loop on a given session, as `Gather` |
| Response.GeminiResponse.ReadOnce | response.c:13-16 | one `SSL_read` appends what it got to the bytes read |
| Response.GeminiResponse.Stream | response.c:25-53 | the result, both scripts and the bytes the descriptor received are those of `Copy` of the session to the descriptor; by `CopyOutcome` that copy is `Delivered` |
| Response.GeminiResponse.StreamFrom | response.c:29-52 | the two loops on a given session and descriptor, as `Copy` |
| Response.GeminiResponse.CopyTurn | response.c:35-41 | one turn of the read loop keeps the fill count within the block and the remaining copy equal to `Copy` of the new state |
| Response.GeminiResponse.ReadTurn | response.c:35-40 | a read after the held bytes, one write of everything held, the tail kept at the front |
| Response.GeminiResponse.FillFrom | response.c:35-36 | the read fills the buffer after the `n` bytes held, as `Gather` |
| Response.GeminiResponse.Drain | response.c:37-40 | one write of everything held, the tail moved to the front |
| Response.GeminiResponse.FlushAll | response.c:43-49 | the flush loop ends the copy as `Flush` does |
| Response.GeminiResponse.FlushTurn | response.c:44-48 | one write of the flush loop, the tail moved to the front |
| Response.FlushOutcome | response.c:43-49 | flushing stops at its first failure, and returns 0 having written all held bytes or -1 having written a prefix |
| Response.CopyOutcome | response.c:34-52 | a copy returning 0 wrote the held bytes and then exactly what the session held, in order, and the session never failed. Otherwise it returned -1 at its first failure, having written a prefix of what it read. The converse is `CopySucceeds` |
| Response.CopySucceeds | response.c:25-53 | a session that never fails and a descriptor that never refuses make the copy return 0, having written the held bytes and then everything the session holds |
| Response.GeminiResponse.Close | response.c:55-71 | `ssl` and `url` become null, `fd` becomes `ClosedFd(fd)`, the resources `Releases` names are released once |

## Left out

- The rest of the repository: `geminon.c`, `main.c`, `gurl.c`, `init.c`, `client.c`, `server.c` and `fuzz-url.c`. They are configuration, entry points, OpenSSL set-up, sockets and a fuzz harness.
- `gemini_fs_open` (fs.c:125-158): it is `open`, `openat` and `fstat` system calls around `gemini_fs_resolve`.
- The two transition tables. Their source files, `fsm.c` and `fsm.fs.c`, are not part of this model, so `Url.Next` and `Fs.FsNext` are reconstructions from the case labels and the tests.
  - URL host characters are letters, digits and `.`: tests.c:42-46 rejects `gemini://--the-host--/`, and the host of tests.c:98-105 has no `-`.
  - The path scanner refuses control bytes and DEL.
- `gemini://host:/` parses with port 0: url.c:71-80 sets the port to 0 on `:` and moves from state 11 to 12 on `/` with no digit (`Url.EmptyPortAccepted`).
- `GEMINI_MAX_PATH` and `GEMINI_MAX_RESPONSE` are defined in no file of this model. They are taken as 1024 and 256.
- `gemini.h` names the default port `DEFAULT_GEMINI_PORT`, while url.c uses `GEMINI_DEFAULT_PORT`. The model uses 1965.
- `t/fs.c` belongs to another revision: it calls a two-argument `gemini_fs_resolve` and expects a leading `/`. The vectors follow fs.c, which emits no leading `/`.
- C strings are the bytes before their NUL. Inputs are modelled as NUL-free byte sequences, and `meta` in `respond` is required to be NUL-free.
- `malloc` failure is not modelled, and neither are `free` or the leaks on the early returns of both stream copiers. `gemini_new_url` and the two copiers' buffers always allocate.
- TLS, sockets and files are scripted peers (module `Io`), not OpenSSL or the kernel:
  - a sink takes at least one byte of a non-empty write, or fails; `SSL_write_ex` returning success with 0 bytes is not modelled;
  - this progress is what makes the flush loops terminate.
- The `fprintf` diagnostic at response.c:45 is left out, since it is output to `stderr`.
- Integer widths are modelled where they matter:
  - the `size_t` budget of fs.c:96-102 (`Fs.AsWrittenLeft`);
  - the 16-bit mask of url.c:93 (`url.port := port % 0x1_0000`);
  - C division in `respond`.

  Elsewhere counts are unbounded.
- Url.ParseInto: does not state the port stored when the scan fails after reaching url.c:93 (a code of -100 minus the state); only the success case is stated.
- Request.CopyOutcome: requires fewer held bytes than `block`, so a copy with `block` 0 is not covered. There, the read of 0 bytes reports end of input and the copy returns 0.
- Response.CopyOutcome: requires fewer held bytes than `block`, for the same reason. With `block` 0 the client read has `n` 0: see the last finding.
- Request.GeminiRequest.Respond, Write and Stream use the corrected write loop (`Transfer`), not the `buf += n` loop of request.c:34. Response.GeminiResponse.Read and Stream use `gemini_response_read` with `nread` set to 0 (`Gather`). For Read this differs from the source only when `n` is 0, and for Stream only when `block` is 0.
- Url.ParseInto: models the corrected scan. `Step` checks room for both bytes that a `/` after the host writes, where url.c:46 checks for one, and `Finish` checks room for the final NUL that url.c:95 writes unchecked. With the room `gemini_parse_url` allocates, neither extra check fires (`Url.RoomSuffices`).
- FsCode.Resolve, FsCode.FsPath, FsCode.PathParser.Parse, Request.GeminiRequest.Respond: these model the corrected code, not the C functions as written. Resolve and FsPath use the corrected scanner (`Lex`), which empties the component buffer after a lone `.` (fs.c:37-57). They also use the corrected DIR case (`Fs.Step`), which appends nothing when no byte is left, where fs.c:101-105 wraps `left`. Parse is that corrected scanner. Respond sends through the corrected write loop. The code as written is modelled beside them: `Fs.Scan` with `asWritten`, `Fs.AsWrittenLeft` and `Request.TransferAsWritten` (see Findings).
- FsReference.ResolveMatchesReference: holds only for paths under 1024 bytes, and FsReference.ResolveIdempotent likewise, because the copy at fs.c:104 truncates silently. A truncated name can read as `..`. After a 1020-byte name, `/..x` keeps only `..`, so the result is the name, `/`, `..`, with `deep` 2. That result is not normalised, and resolving it again gives the empty path (`FsVectors.TruncatedToUp`). The model keeps this truncation as written and does not invent a too-long error.

## Findings

| source | as written | input that shows it | evidently intended | confidence | as-written member | corrected member |
|---|---|---|---|---|---|---|
| url.c:45-96 | the room check guards one byte, but a `/` after the host writes two and the terminator after the loop writes one more | room 2 and `gemini://x/`: one byte used, then two written at `/`; room 3: three bytes used, then the terminator goes past the end | return -92 before any write past the room | not executed | Url.AsWrittenOverrun | Url.ParseInto, with Url.RoomSuffices |
| url.c:28-33 | a non-zero return keeps the URL and a return of 0 frees it and returns NULL | `gemini://x/` gives NULL; `""` gives a URL | return the URL exactly when the parse succeeds | not executed | Url.ParseUrlInverted | Url.ParseUrlChecked |
| fs.c:37-57 | the 2→1 transition, a lone `.` then `/`, does not empty the component buffer, so the `.` starts the next component | `/./foo` scans to DIR(`.foo`) | skip `.` as at the end of input, giving `foo` | not executed | FsVectors.KeptDot | FsCode.PathParser.Parse |
| fs.c:96-105 | with a 1023-byte path and `deep > 0`, the `size_t` budget is 0 and `left--` wraps, so the copy loop runs on past the buffer | 1023 `a`s then `/b` | no room: nothing more is appended | not executed | FsVectors.BudgetWraps | FsCode.ApplyDir |
| request.c:33-35 | after a partial write `buf` advances by the bytes still to send, not by those sent | `0123456789` with replies 6 then 4 sends `0123454567`; with a reply of 3 it reads past the end | advance by `nwrit` | not executed | Request.AsWrittenResendsBytes | Request.GeminiRequest.Write |
| response.c:10-20 | with `n == 0` the loop never assigns `nread`, and `nread < 0` reads it uninitialised | `n` 0 with a negative value left in `nread` returns that value | return 0 | not executed | Response.UnsetReadResult | Response.GeminiResponse.Read |
