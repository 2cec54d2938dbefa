# String-search server: request handler and search strategies

This project models two parts of a small TCP server that answers "does this
string occur in the configured file?". The first is the per-connection
handler `handle_client`. The second is the five line-matching strategies it
can delegate to. Every part is written in Dafny and its properties are proved.

The handler reads one client's byte stream in chunks. It stops at an empty
chunk, at a chunk holding a NUL byte, or when `recv` raises. It then checks
the bytes in a fixed order:

1. nothing received;
2. more than `max_payload` bytes;
3. not UTF-8 once NULs are stripped from both ends;
4. nothing left after stripping whitespace.

Only a query that passes all four checks is handed to the search. The
handler then sends exactly one response literal and attempts a shutdown and
a close of the socket, each once.

The server wires the handler to `search_with_grep` over the configured file
(`ConnectionHandler.GrepSearch`, from server.py:52). `max_payload` defaults
to 1024 (`ConnectionHandler.DefaultMaxPayload`, from server.py:25).

Files:

- `wrappers.dfy`: `Option`.
- `utf8.dfy`: UTF-8 as in sections 3 and 4 of RFC 3629. The decoder is strict, as Python's `bytes.decode("utf-8")` is. Both round trips are proved.
- `strings.dfy`: trimming with an arbitrary "drop" predicate. It gives `bytes.strip(b"\x00")` and `str.strip()`, the latter with Python's `str.isspace` set. Also contiguous occurrence (`in`) and `any`.
- `file_search.dfy`: the five strategies of file_search.py. A file is given as data: its text or its bytes, or `Missing` / `Unreadable`.
- `connection_handler.dfy`: `handle_client`, as follows.
  - `Connection` is a class whose `recv` results are scripted; `sendall`, `shutdown` and `close` may each raise.
  - `SearchCallback` is a class whose outcome per query is fixed: returns true, returns false, or raises.
  - Both classes keep a ghost log of the calls made on them.
  - The pure functions `ReadRequest`, `Classify` and `Reply` state what the imperative `HandleClient` must do.

Details of the code that the model keeps:

- The size limit is checked only after the read loop has ended (connection_handler_clean.py:31). The loop itself never looks at the running total. `ReadStopsAtNul` has no size precondition: a client that goes on sending without a NUL is read until it closes.
- The oversized path sends `PAYLOAD TOO LARGE` "early" only in the sense that it skips the search. It sends, shuts down and closes the socket itself, then returns (lines 31-50).
- `strip(b"\x00")` removes every leading and trailing NUL, not one terminator byte. Interior NULs, and bytes after the NUL in the last chunk, stay in the query.
- `search_with_regex` matches `^query$` with no trimming on either side, so `" apple"` does not match the query `apple` (`FileSearch.RegexDoesNotTrim`).

## Model

| member | source | states |
|---|---|---|
| Utf8.Encode | file_search.py:30 | `str.encode("utf-8")`: between one and four bytes per character |
| Utf8.EncodeCharAscii | file_search.py:30 | an ASCII character encodes as its own code; every byte of any other character's encoding is at least 0x80 |
| Utf8.EncodeLast | file_search.py:30 | the encoding of a string is that of all but its last character, followed by the last character's encoding |
| Utf8.Decode | connection_handler_clean.py:54 | strict `bytes.decode("utf-8")`: a decoded text has at most one character per byte and at least one per four bytes |
| Utf8.DecodeEncode | connection_handler_clean.py:54 | decoding the UTF-8 encoding of any text gives that text back |
| Utf8.EncodeDecode | connection_handler_clean.py:54 | a byte string the strict decoder accepts is exactly the encoding of what it decodes to |
| Utf8.DecodeIffEncode | connection_handler_clean.py:54-58 | `Decode(b) == Some(s)` exactly when `Encode(s) == b`, so the bytes that raise `UnicodeDecodeError` are the ones that encode no text |
| Strings.Trim | connection_handler_clean.py:54 | `strip(chars)`: the result is no longer than the input, and its first and last elements are not stripped ones |
| Strings.IsSpace | file_search.py:16 | `str.isspace()`: no ASCII letter or digit and no NUL is whitespace, and no character above U+3000 is |
| Strings.Strip | connection_handler_clean.py:54 | `str.strip()`: never longer than its input, and a non-empty result neither starts nor ends with whitespace |
| Strings.TrimIsSlice | connection_handler_clean.py:54 | the result is a contiguous slice of the input with only stripped elements before and after it |
| Strings.TrimUnique | connection_handler_clean.py:54 | any slice with kept end elements and only stripped elements around it is the result of `strip` |
| Strings.TrimIdempotent | file_search.py:16-17 | stripping twice gives the same as stripping once |
| Strings.TrimAppendDropped | connection_handler_clean.py:54 | a trailing stripped element (a NUL terminator) does not change the result |
| Strings.Any | file_search.py:17 | `any(...)` is true exactly when some element satisfies the test |
| FileSearch.Lines | file_search.py:53 | iterating over a text file yields no lines exactly for an empty text, and at most one line per character |
| FileSearch.LinesJoin | file_search.py:53 | the lines yielded by iterating over a text file join back to the whole text |
| FileSearch.LinesWellFormed | file_search.py:53 | each yielded line is non-empty with at most a final `\n`, and every line but the last ends in `\n` |
| FileSearch.LineEndUnique | file_search.py:53 | a line running from a line start has exactly one end: the first `\n` after it, or the end of the text |
| FileSearch.SearchInList | file_search.py:14-17 | true exactly when some line equals the query once both are whitespace-stripped |
| FileSearch.SearchInLines | file_search.py:19-22 | the same condition as `search_in_list` |
| FileSearch.InLinesAgreesWithInList | file_search.py:14-22 | `search_in_lines` and `search_in_list` agree on every input |
| FileSearch.ExactIgnoresSurroundingWhitespace | file_search.py:16-17 | stripping the lines and the query beforehand does not change the exact-match result |
| FileSearch.ExactEmptyAndMonotone | file_search.py:17 | false on no lines; a match stays a match when lines are appended |
| FileSearch.SearchWithGrep | file_search.py:46-58 | true exactly when the file is readable and the term occurs in some line of its text, the line keeping its `\n`; false for a missing or unreadable file |
| FileSearch.ExactImpliesGrep | file_search.py:14-58 | for a query with no surrounding whitespace, an exact match over the file's lines implies a grep hit |
| FileSearch.GrepDoesNotImplyExact | file_search.py:17-54 | `apple` is a substring of `applesauce` but not an exact line match |
| FileSearch.TestLinesJoin | test_end_to_end.py:20 | the lines `banana\n`, `apple\n`, `orange\n` join to the end-to-end test's file text |
| FileSearch.GrepFindsBanana | test_end_to_end.py:20-72 | grep finds `banana` in `banana\napple\norange\n` |
| FileSearch.GrepMissesPineapple | test_end_to_end.py:20-75 | grep does not find `pineapple` in that file |
| FileSearch.SearchWithMmap | file_search.py:24-38 | true exactly when the file exists, opens, is non-empty and its bytes contain the UTF-8 bytes of the query; false on any failure |
| FileSearch.GrepImpliesMmap | file_search.py:24-58 | whatever grep finds in a text, the byte scan finds in that text's UTF-8 bytes |
| FileSearch.MmapCrossesLineBreaks | file_search.py:33 | the byte scan finds `b\nc` in `ab\ncd`; grep does not |
| FileSearch.MmapFindsAcrossLines | file_search.py:30-33 | the UTF-8 bytes of `b\nc` occur in those of `ab\ncd` |
| FileSearch.GrepMissesAcrossLines | file_search.py:53-54 | neither line of `ab\ncd` contains `b\nc` |
| FileSearch.MmapEmptyQuery | file_search.py:27-33 | the empty query is found exactly in non-empty files |
| FileSearch.SearchWithRegex | file_search.py:40-44 | raises exactly when the file cannot be opened |
| FileSearch.LineMatchAt | file_search.py:42 | a match of `^q$` under MULTILINE is at a line start and is an occurrence of `q` in the text |
| FileSearch.MatchAtLineStartIsLine | file_search.py:42 | for a non-empty, newline-free query `q`: where `^q$` matches at a line start, the body of the line starting there is `q` |
| FileSearch.LineAtLineStartMatches | file_search.py:42 | for a non-empty query `q`: a line whose body is `q` gives a match of `^q$` at its start |
| FileSearch.MatchIsLineBody | file_search.py:42-44 | for a non-empty, newline-free query `q`: every position where `^q$` matches is the start of a line whose body is `q` |
| FileSearch.LineBodyIsMatch | file_search.py:42-44 | for a non-empty, newline-free query `q`: every line whose body is `q` gives a position where `^q$` matches |
| FileSearch.RegexIsWholeLineEquality | file_search.py:40-44 | for a non-empty, newline-free query: found exactly when some line without its `\n` equals the query |
| FileSearch.RegexImpliesExact | file_search.py:14-44 | for a non-empty, newline-free, stripped query, a regex hit is also an exact match |
| FileSearch.RegexDoesNotTrim | file_search.py:42 | ` apple\n` is an exact match for `apple` but not a regex match |
| FileSearch.LinesOfConcatLines | file_search.py:53 | splitting a concatenation of well-formed lines gives those lines back |
| FileSearch.InfixEncode | file_search.py:30-33 | a substring's UTF-8 bytes occur in the whole string's UTF-8 bytes |
| ConnectionHandler.Ascii | connection_handler_clean.py:29 | a bytes literal has one byte per character, that character's code |
| ConnectionHandler.AsciiIsUtf8 | connection_handler_clean.py:54 | ASCII text encodes to UTF-8 one byte per character |
| ConnectionHandler.StopIndex | connection_handler_clean.py:16-23 | the read loop ends at the first recv that raises, returns nothing, or returns a chunk holding a NUL |
| ConnectionHandler.ReadRequest | connection_handler_clean.py:15-23 | the read loop ends in an exception exactly when some recv raises before any earlier recv returned an empty chunk or a chunk holding a NUL |
| ConnectionHandler.FirstStopFails | connection_handler_clean.py:16-23 | the first recv that ends the loop raised exactly when some recv raises with no earlier recv ending the loop |
| ConnectionHandler.GatheredIsPayload | connection_handler_clean.py:21 | the accumulated `data` is the chunks received, joined in order |
| ConnectionHandler.ReadStopsAtNul | connection_handler_clean.py:16-23 | a chunk holding a NUL ends the read: `data` is the earlier chunks plus all of that chunk, and later chunks are never read, whatever the size |
| ConnectionHandler.ReadStopsAtEmptyChunk | connection_handler_clean.py:19-20 | an empty chunk ends the read with the earlier chunks |
| ConnectionHandler.ReadStopsAtEnd | connection_handler_clean.py:16-20 | a peer that closes after chunks none of which ends the loop has everything it sent received, joined in order |
| ConnectionHandler.ReadStopsAtFailure | connection_handler_clean.py:74-77 | a recv that raises ends the read as an internal error |
| ConnectionHandler.Connection.Recv | connection_handler_clean.py:17 | returns the next scripted chunk or failure and logs one recv |
| ConnectionHandler.Connection.SendAll | connection_handler_clean.py:85 | logs one send of the given bytes; reports whether it raised |
| ConnectionHandler.Connection.Shutdown | connection_handler_clean.py:92 | logs one shutdown; reports whether it raised |
| ConnectionHandler.Connection.Close | connection_handler_clean.py:96 | logs one close; reports whether it raised |
| ConnectionHandler.SearchCallback.Call | connection_handler_clean.py:66 | returns the search's outcome for the query and logs the query |
| ConnectionHandler.ReadRequestFrom | connection_handler_clean.py:15-23 | the imperative read loop yields `ReadRequest` of the script after exactly as many recvs as `StopIndex` says |
| ConnectionHandler.Classify | connection_handler_clean.py:27-64 | no data exactly when nothing was received; too large exactly when non-empty and longer than the limit; invalid UTF-8 exactly when it passes both and the NUL-stripped bytes do not decode; empty query exactly when they decode to text that is all whitespace; otherwise the query is the whitespace-stripped decoding of the NUL-stripped data, non-empty with no surrounding whitespace |
| ConnectionHandler.QueriesSearched | connection_handler_clean.py:27-66 | the search gets at most one query, only when `0 < len(data) <= max_payload`, and only a non-empty one without surrounding whitespace |
| ConnectionHandler.Reply | connection_handler_clean.py:27-82 | the response is one of the seven fixed literals and never the fallback. `STRING EXISTS` exactly when the search ran and returned true, `STRING NOT FOUND` exactly when it ran and returned false or raised. The internal error is sent exactly when recv raised; no data exactly for zero bytes; too large exactly for oversized non-empty data; `ERROR: Invalid UTF-8` and `ERROR: Empty query` exactly for the verdicts of those names |
| ConnectionHandler.AnswerQuery | connection_handler_clean.py:53-72 | for data neither empty nor too large, the response is `Reply` and the search is called with exactly `QueriesSearched` |
| ConnectionHandler.SendAndClose | connection_handler_clean.py:79-98 | the socket sees one send of the response, one shutdown and one close, in that order, whichever of them raise |
| ConnectionHandler.HandleClient | connection_handler_clean.py:9-99 | on every path and whichever socket calls raise: the socket sees the read loop's recvs, then one send of `Reply`, one shutdown and one close, in that order; exactly the loop's recvs are made; the search is called with exactly `QueriesSearched` |
| ConnectionHandler.QueryOccursInData | connection_handler_clean.py:54 | the UTF-8 bytes of the searched query occur contiguously in the received data |
| ConnectionHandler.TerminatorKeepsVerdict | connection_handler_clean.py:31-54 | appending a NUL to non-empty data below the limit does not change the verdict |
| ConnectionHandler.TerminatorCountsTowardsLimit | connection_handler_clean.py:31-33 | exactly `max_payload` bytes pass the limit; the same bytes plus the NUL terminator are too large |
| ConnectionHandler.InteriorNulKept | connection_handler_clean.py:54 | `\0a\0b\0` gives the query `a\0b`: the outer NULs go, the inner one stays |
| ConnectionHandler.WhitespaceOnlyIsEmptyQuery | connection_handler_clean.py:59-62 | a space, a tab and the NUL terminator get `ERROR: Empty query` |
| ConnectionHandler.InvalidUtf8Example | connection_handler_clean.py:53-58 | the single byte 0xFF is classified as invalid UTF-8 |
| ConnectionHandler.TerminatedChunkIsRead | connection_handler_clean.py:16-23 | a single chunk ending in a NUL is received whole |
| ConnectionHandler.EncodeEndsNotNul | connection_handler_clean.py:54 | text that neither starts nor ends with NUL encodes to bytes that `strip(b"\x00")` leaves alone at both ends |
| ConnectionHandler.TerminatedQueryClassifies | connection_handler_clean.py:31-64 | the UTF-8 bytes of a trimmed query with no NUL at either end, followed by a NUL and together within the limit, classify as that very query |
| ConnectionHandler.TerminatedQueryIsSearched | connection_handler_clean.py:15-66 | such a query sent as one chunk is received whole and is the one query searched |
| ConnectionHandler.ReplyToSearchedQuery | connection_handler_clean.py:66-72 | once a query is searched, the reply is `STRING EXISTS` when the search returned true and `STRING NOT FOUND` otherwise |
| ConnectionHandler.GrepSearch | server.py:52 | the server's search is `search_with_grep` over the configured file: it never raises, and it finds nothing in a file that is not readable |
| ConnectionHandler.ServerFindsBanana | test_end_to_end.py:68-72 | with grep over `banana\napple\norange\n` and the default limit, a client sending `banana` and a NUL in one chunk gets `STRING EXISTS` (the test client's framing is not part of this model; one chunk is assumed) |
| ConnectionHandler.ServerMissesPineapple | test_end_to_end.py:74-75 | with the same wiring and the same one-chunk framing, `pineapple` gets `STRING NOT FOUND` |

## Left out

- The listener in server.py is not part of this model: accept loop, timeouts, `stop_event`, one thread per connection, TLS wrapping. Only the grep wiring and the default limit of 1024 are carried over.
- Logging, `traceback.format_exc` and the `time.sleep` flush delays are side effects with no logical content.
- Real file access becomes data: `open`, `os.path.exists`, `os.path.getsize` and `mmap`. A file is its text or its bytes, or one of the failure cases `Missing` and `Unreadable`.
- `load_file`'s `errors="ignore"` decoding and the newline translation of text-mode reads are not modelled. Text files are taken as already decoded, with `\n` line ends.
- `REREAD_ON_QUERY` is read by nothing in the modelled code.
- `recv(1024)` bounds each chunk at 1024 bytes; the script does not impose this, and no property depends on chunk sizes.
- A peer that neither sends nor closes blocks `recv` forever. A script always ends, and past its end `recv` returns `b""`.
- Python `str` can hold lone surrogates; Dafny's `char` cannot. Text here is sequences of Unicode scalar values.
- `search_with_regex` is modelled by the meaning of `^query$` under `re.MULTILINE`: the query at a line start, followed by a line end. The `re` engine itself is not modelled.
- FileSearch.SearchWithGrep: a file is given already decoded, or as `Unreadable`. The source decodes while it iterates, so a line found before an undecodable byte later in the file returns true; the model can only give such a file as `Unreadable`, which returns false.
- ConnectionHandler.HandleClient requires a fresh connection, with no recv made yet; the source is only ever handed a freshly accepted socket.
