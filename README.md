# A verified model of MyTinyWebserver's connection and thread pool

MyTinyWebserver is a small epoll-based HTTP/1.1 server that serves static files with GET. Each client socket has one `HttpConn` object. The object does four things:

- it reads the request into a 2048-byte buffer;
- it parses the request with a two-level state machine: a line tokenizer, then a request-line, header or body state;
- it resolves the target to a file under a fixed document root;
- it builds the response in a 1024-byte write buffer and sends it with `writev` over a two-segment iovec (the header, then the memory-mapped file).

Worker threads of a `Threadpool` take connections from a bounded queue and call `Process` on them.

This project models that core in Dafny and proves what it does.

**Where each part lives**

- `HttpConnection.HttpConn` (`http_conn.dfy`) is a class with the connection's fields. Its methods change those fields in place, as the C++ methods do. The buffers are `seq<byte>` fields.
- Each method is proved against a pure function in one of these modules:
  - `LineScanner`: the CRLF tokenizer.
  - `RequestLine`: `ParseRequestLine`, read as method, target and version.
  - `HeaderLine`: `ParseHeader`, read as key and value.
  - `RequestParser`: the parser state, the body check, and ProcessRead's loop. `ParserProps` holds the lemmas about it.
  - `Resource`: the path DoRequest builds and its ladder of `stat`, permission, kind and `open` checks.
  - `Response`: `AddResponse` over `vsnprintf`, the header block and the error pages.
  - `VectoredWrite`: the iovec bookkeeping of `Write`.
- Those functions are in turn proved to mean what the server promises. A request line is accepted exactly when it is `GET <path> HTTP/1.1`. `url_` and `version_` then read as the path and the version. A header line changes exactly the member its key names. An error page fits the write buffer whole. DoRequest maps a file exactly when it exists, is world-readable, is not a directory and opens.

**System calls and the outside world**

- `recv` and `writev` answer from lists of outcomes given as arguments.
- `stat` and `open` answer from a `FileSystem` value.
- The epoll registrations a connection asks for are recorded in a ghost list of events.
- The number of live connections is a shared `ConnCounter`.

**The thread pool (`ThreadPool`)**

- The queue is a `seq` of possibly-null requests, and the semaphore is its count.
- `AppendTask` refuses exactly when the queue is full.
- Run's loop hands requests out first in, first out, skipping null ones.

**Code as written and corrected versions**

The class follows the C++ code as written, including its flaws. Where verifying a natural contract showed that the code does not do what it evidently intends, the as-written behaviour is exhibited by a lemma. A corrected function, with the intended property proved, stands beside it: see "## Findings".

## Model

| member | source | states |
|---|---|---|
| LineScanner.ScanLineSpec | http_conn.cpp:286-312 | The tokenizer waits exactly when the unread bytes hold no CR or LF, except possibly a CR as the last byte. It accepts a CRLF and leaves the cursor just past it. It rejects a CR followed by another byte, and an LF with no CR before it. |
| LineScanner.ScanLineResume | http_conn.cpp:288-292 | Resuming a scan where LINE_OPEN left the cursor, after more bytes arrived, gives the same result as scanning from the start. A terminator split across two reads is therefore still found. |
| RequestLine.ParseRequestLineSpec | http_conn.cpp:210-241 | The request line is accepted exactly when it splits at spaces into a method equal to GET ignoring case, a target that has a `/` path once `http://` and its authority are removed, and the version HTTP/1.1 ignoring case. `url_` then reads as that path and `version_` as the version text. |
| RequestLine.MethodAtSpec | http_conn.cpp:212-219 | The same property once the first space is found and cut: the accepted lines and the strings left behind are those of the text reading. |
| RequestLine.AfterMethodSpec | http_conn.cpp:221-241 | After the method, the line is accepted exactly when the rest splits at a space into an acceptable target and version. `url_` and `version_` then read as the path and the version. |
| RequestLine.SkipAuthoritySpec | http_conn.cpp:230-237 | Skipping a case-insensitive `http://` and its authority leaves `url_` on a `/` exactly when the target has a path, and `url_` then reads as that path. |
| RequestLine.NoSpaceDereferencesNull | http_conn.cpp:212-213 | As written, a request line with no space writes through the null pointer `strchr` returned. |
| RequestLine.BareMethodLine | http_conn.cpp:212-213 | The line "GET" alone makes the code as written write through a null pointer. The corrected parser answers BAD_REQUEST for it. |
| RequestLine.ParseRequestLineRefines | http_conn.cpp:210-213 | The corrected parser gives the same result as the code as written wherever that code does not crash. The code crashes exactly when the line holds no space. |
| HeaderLine.ParseHeaderLineSpec | http_conn.cpp:243-274 | The empty line ends the headers. A line with no colon is malformed and the buffer is left alone. Otherwise only the first colon becomes NUL: the key is the text before it, and the value is the text from two bytes after it. |
| HeaderLine.EmptyHeaderLine | http_conn.cpp:244-250 | A header line is the empty line exactly when it is read as the end of the headers. |
| HeaderLine.MalformedHeaderLine | http_conn.cpp:253-256 | A line is rejected as malformed exactly when it is not empty and holds no colon. |
| HeaderLine.FieldLineSpec | http_conn.cpp:253-272 | A line whose first colon is at `i` leaves the buffer with that colon cut, and has the effect its key and value call for. |
| HeaderLine.ContentLengthField | http_conn.cpp:269-271 | `Content-Length: <n>` sets the content length to `n`, and no other key shadows it. |
| HeaderLine.KeepAliveField | http_conn.cpp:264-267 | `Connection` with the value keep-alive, in any case, sets `linger_`. |
| HeaderLine.HostField | http_conn.cpp:261-262 | `Host` records where its value starts. |
| ParserProps.HeaderStepSpec | http_conn.cpp:243-274 | In the header state the empty line completes the request, unless a non-zero Content-Length asks for a body. In that case only the state changes, to the body. A line with no colon is a bad request and changes nothing. A field line changes the buffer at its colon and only the member its key names. The cursors, the state, the method, `url_` and `version_` stay. |
| ParserProps.HeaderFieldSpec | http_conn.cpp:257-273 | A field line cuts the buffer at its colon. It changes only the member (`host_`, `linger_` or `content_len_`) its key names. Everything else in the parser stays, including the method, `url_` and `version_`. |
| ParserProps.ContentStepSpec | http_conn.cpp:277-284 | The corrected body check rejects a negative or oversized length. It completes exactly when the whole body has arrived. It then writes a terminator right after the body's last byte. No other byte of the buffer and no other member changes, so the header bytes that `url_`, `version_` and `host_` point into stay. A rejected or waiting check changes nothing. |
| ParserProps.ContentStepAgreesAtBodyStart | http_conn.cpp:277-284 | While the check cursor still stands at the start of the body, the body check as written and the corrected one agree on every length that fits. |
| ParserProps.SplitBodyStalls | http_conn.cpp:161-199 | As written, a body split over two reads never completes. The corrected loop completes the same request. |
| ParserProps.SplitBodyCompletes | http_conn.cpp:277-284 | The corrected loop waits for the rest of a split body, then reports the request complete. |
| ParserProps.FirstReadWaits | http_conn.cpp:161-199 | As written, an incomplete body is tokenized as if it were lines, and the check cursor moves over it. |
| ParserProps.SecondReadWaits | http_conn.cpp:278-281 | As written, once the cursor is past the body's start, the check asks for the whole length again past the cursor. |
| ParserProps.NegativeLengthAsWritten | http_conn.cpp:278-281 | As written, a negative Content-Length completes the request at once. Its NUL lands before the body, or before the buffer. |
| ParserProps.NegativeLengthRejected | http_conn.cpp:277-284 | The corrected loop answers BAD_REQUEST to a negative Content-Length and changes nothing. |
| ParserProps.FullBufferBodyAsWritten | http_conn.cpp:278-281 | As written, a body that ends exactly at the end of the read buffer counts as complete. Its NUL is then written one byte past the buffer. |
| ParserProps.FullBufferBodyRejected | http_conn.cpp:277-284 | The corrected loop answers BAD_REQUEST to a body that leaves no room for its terminator, and changes nothing. |
| RequestParser.ReceiveAppend | http_conn.cpp:99-110 | Two `recv` deliveries store the same bytes as one delivery of both. |
| RequestParser.Cleared | http_conn.cpp:52-68 | After `Init()`, the read buffer is all NUL, the cursors are at 0 and the request line is expected. |
| Resource.TargetPathSpec | http_conn.cpp:314-324 | The intended path is the 46-byte root, then "/index.html" for "/" or else the target cut to 153 bytes. With a terminator in its 200th byte, it always fits the 200-byte buffer. |
| Resource.LongTargetUnterminated | http_conn.cpp:319-324 | As written, `strncpy` leaves the path without a terminator exactly when the target has 153 bytes or more. Every shorter target gives the intended path. |
| Resource.ResolveSpec | http_conn.cpp:326-347 | FILE_REQUEST with a mapping exactly when the path exists, is readable by others, is not a directory and opens. FORBIDDEN exactly when others cannot read it. BAD_REQUEST exactly for a readable directory. NO_RESOURCE otherwise. `file_stat_` holds what `stat` answered when the path exists. |
| Response.EmitSpec | http_conn.cpp:356-369 | AddResponse succeeds exactly when the text fits before the buffer's last two bytes. It then appends exactly the text. On failure `write_idx_` is unchanged and the bytes before it stay. |
| Response.HeadersFit | http_conn.cpp:375-388 | When the header block fits, AddHeaders appends exactly Content-Length, Content-Type, Connection and the blank line. |
| Response.ErrorResponseFits | http_conn.cpp:410-443 | On an empty write buffer, each error code leaves exactly its complete response: status line, headers and page. |
| Response.FileHeadFits | http_conn.cpp:444-446 | On an empty write buffer, a file response's status line and headers always fit, whatever the size of the file. |
| VectoredWrite.WriteFixedSpec | http_conn.cpp:115-153 | With the iovec advanced after each count sent, Write's loop sends the next bytes of the response in order, none twice and none skipped. It reports all sent exactly when the response is complete. |
| VectoredWrite.TwoCallsResume | http_conn.cpp:115-153 | With the corrected loop, two Write calls in a row on a prepared file response send a prefix of the response, in order. |
| VectoredWrite.ErrorResponseSent | http_conn.cpp:410-443 | With the corrected set-up, an error response is sent whole and in order. |
| VectoredWrite.WholeSendAsWritten | http_conn.cpp:118-149 | As written, a response the socket takes in one `writev` goes out whole and in order. |
| VectoredWrite.AdjustCovers | http_conn.cpp:122-132 | In either case the would-block adjustment leaves the iovec describing exactly the unsent bytes: the count sent has passed the header, or segment 0 still covered the whole header. |
| VectoredWrite.PartialSendResends | http_conn.cpp:118-140 | As written, a partial `writev` followed by a retry resends from the start of the iovec. It reports all sent while the end of the file was never sent. |
| VectoredWrite.WouldBlockSkips | http_conn.cpp:122-132 | As written, a second would-block moves segment 0 on from where the first left it, so header bytes are never sent. |
| VectoredWrite.ErrorNeverSent | http_conn.cpp:410-443 | As written, an error response leaves `iv_count_` and `bytes_left_` at 0. Write then sends nothing and reports all sent. |
| HttpConnection.RecvRunFits | http_conn.cpp:93-110 | A Read never stores more than the room that was free when it started. |
| HttpConnection.ConnCounter.constructor | http_conn.cpp:4 | The shared count of live connections starts at 0. |
| HttpConnection.HttpConn.constructor | http_conn.h:60 | A connection object before its socket is attached. The members `Init(sock_fd, addr)` never overwrites are as given. The rest start at values the model picks: descriptor -1, no mapping, nothing to send. |
| HttpConnection.HttpConn.Init | http_conn.cpp:52-68 | The parser is reset to its start over an all-zero buffer. The mapping is dropped and the write buffer and `bytes_left_` are emptied. `host_` keeps its value. |
| HttpConnection.HttpConn.InitConn | http_conn.cpp:70-82 | The socket is attached and registered with epoll, the count goes up by one, and the state is reset as `Init()` does. |
| HttpConnection.HttpConn.CloseConn | http_conn.cpp:84-90 | An open socket is removed from epoll, closed and uncounted. On a closed one nothing changes, so a second call is harmless. |
| HttpConnection.HttpConn.Unmap | http_conn.cpp:349-354 | No mapping is left afterwards. |
| HttpConnection.HttpConn.Read | http_conn.cpp:92-113 | The arriving bytes are stored at `read_idx_`, which never passes the buffer's end. The result is true exactly when the socket would block before the peer closed or an error occurred. |
| HttpConnection.HttpConn.ParseLine | http_conn.cpp:286-312 | The new status and cursors are those the tokenizer function gives. A completed line has its CRLF turned into two NULs. |
| HttpConnection.HttpConn.ParseRequestLine | http_conn.cpp:210-241 | On a line with a space, the code, the buffer, `url_`, `method_`, `version_` and the state are those of the request-line function. |
| HttpConnection.HttpConn.ParseMethod | http_conn.cpp:212-220 | The method cut at the first space must be GET. Then the target is parsed. |
| HttpConnection.HttpConn.ParseTarget | http_conn.cpp:221-241 | The target and version checks, as the after-method function gives them. |
| HttpConnection.HttpConn.ParseVersion | http_conn.cpp:225-240 | The version and target checks once the target is cut. |
| HttpConnection.HttpConn.ParseHeader | http_conn.cpp:243-274 | The code and new state are those of the header step. |
| HttpConnection.HttpConn.ParseContent | http_conn.cpp:277-284 | The code and new state are those of the body check as written. |
| HttpConnection.HttpConn.ParseRequest | http_conn.cpp:161-199 | The loop ends in the state and with the code the as-written loop function gives. |
| HttpConnection.HttpConn.ProcessRead | http_conn.cpp:155-208 | The parser ends where the loop function says. A complete GET request is resolved: the path is built, `file_stat_` is updated and the file mapped as DoRequest decides. Otherwise none of those change. |
| HttpConnection.HttpConn.DoRequest | http_conn.cpp:314-347 | `target_path_` is the built path. The code is the ladder's verdict, `file_stat_` is what `stat` answered, and the file is mapped only when every check passes. |
| HttpConnection.HttpConn.AddResponse | http_conn.cpp:356-369 | It succeeds exactly when the text fits before the buffer's last two bytes, and then appends exactly the text. On failure `write_idx_` and the bytes before it are unchanged. |
| HttpConnection.HttpConn.AddStatusLine | http_conn.cpp:371-373 | Appends "HTTP/1.1 status title" and CRLF as AddResponse does. |
| HttpConnection.HttpConn.AddHeaders | http_conn.cpp:375-388 | Appends the header lines up to the first that does not fit, and returns false if one did not. |
| HttpConnection.HttpConn.AddContentLength | http_conn.cpp:390-392 | Appends "Content-Length: n" and CRLF. |
| HttpConnection.HttpConn.AddContentType | http_conn.cpp:394-396 | Appends "Content-Type: text/html" and CRLF. |
| HttpConnection.HttpConn.AddLinger | http_conn.cpp:398-400 | Appends "Connection: keep-alive" if the request asked to linger, "Connection: close" otherwise. |
| HttpConnection.HttpConn.AddBlankLine | http_conn.cpp:402-404 | Appends the blank line. |
| HttpConnection.HttpConn.AddContent | http_conn.cpp:406-408 | Appends the page text. |
| HttpConnection.HttpConn.ProcessWrite | http_conn.cpp:410-461 | An error code appends its complete page and leaves the iovec alone. FILE_REQUEST appends the status line and headers, returns true, and sets the iovec over the header and the file when nothing was left to send. Any other code returns false and changes nothing. |
| HttpConnection.HttpConn.FileHead | http_conn.cpp:444-456 | A file response's status line and headers, then the iovec over them and the whole file when `bytes_left_` was 0. |
| HttpConnection.HttpConn.PointIovec | http_conn.cpp:447-454 | With nothing left to send, segment 0 covers `write_idx_` bytes of the header, segment 1 the whole file, and `bytes_left_` is their sum. |
| HttpConnection.HttpConn.Write | http_conn.cpp:115-153 | The bytes sent and the new iovec are those of the send-loop function. Would-block re-arms for output and returns true. An error releases the mapping and returns false. When all is sent the mapping is released, and a lingering connection is reset, re-armed for input and returns true; otherwise it returns false. |
| HttpConnection.HttpConn.Finish | http_conn.cpp:120-149 | After the last `writev`, each of the four endings leaves the state Write's contract states. |
| HttpConnection.HttpConn.Release | http_conn.cpp:136-148 | The mapping is released. The result is true exactly when there was no error and the connection lingers; then the parser is reset and the socket re-armed for input. |
| HttpConnection.HttpConn.SendAll | http_conn.cpp:118-150 | The loop sends what the send-loop function says and stops at the call that ends it, with `bytes_left_` at 0 after a count. |
| HttpConnection.HttpConn.AdjustIovec | http_conn.cpp:122-132 | The iovec after would-block is the adjustment function's result. |
| HttpConnection.HttpConn.Process | http_conn.cpp:464-478 | An incomplete request re-arms the socket for input and changes no response state. Otherwise the response is prepared as ProcessWrite says. The connection is closed when that fails, and the socket is re-armed for output. |
| HttpConnection.HttpConn.React | http_conn.cpp:467-477 | The same, once ProcessRead has answered. |
| HttpConnection.HttpConn.Respond | http_conn.cpp:473-477 | ProcessWrite, a close on failure, then the output re-arm. |
| HttpConnection.HttpConn.ArmOutput | http_conn.cpp:474-477 | A failed ProcessWrite closes the connection first. The socket is then re-armed for output, on descriptor -1 after a close. |
| ThreadPool.NewPool | threadpool.h:42-66 | The pool is refused exactly when there are no threads or no room for a request. Otherwise it starts with an empty queue and the given sizes. |
| ThreadPool.Threadpool.constructor | threadpool.h:43-45 | The sizes as given, an empty queue, a zero count. |
| ThreadPool.Threadpool.AppendTask | threadpool.h:74-90 | A queue holding `max_requests_` or more is left alone and the result is false. Otherwise the request goes to the back, the semaphore is posted and the result is true. The bound is kept. |
| ThreadPool.Threadpool.RunStep | threadpool.h:105-116 | After a `Wait()`, the front request is removed and handed out, or nothing is handed out from an empty queue. |
| ThreadPool.Threadpool.Run | threadpool.h:100-120 | The first `n` passes hand out the non-null requests at the front of the queue, in order, and leave the rest. |
| ThreadPool.PushAllBounded | threadpool.h:79-84 | However many requests are appended, the queue never holds more than `max_requests_`. |
| ThreadPool.PushAllFull | threadpool.h:79-82 | A full queue drops every request appended to it. |
| ThreadPool.PushAllFits | threadpool.h:84 | When there is room for them all, every request appended is queued, in order. |
| ThreadPool.PushAllKeeps | threadpool.h:84 | Appends never drop or reorder what is already queued. |
| ThreadPool.ServedAll | threadpool.h:110-116 | Draining a queue hands out its non-null requests in order. |
| ThreadPool.FifoOrder | threadpool.h:84-116 | Requests appended to a queue with room for them all reach `Process` after those already queued, in the order appended, with null ones skipped. |

## Left out

- Buffers are `seq<byte>` fields, not C arrays. Pointers into them (`url_`, `version_`, `host_`, the iovec bases) are indices, and a null pointer is `None`.
- The system calls `recv`, `writev`, `stat`, `open`, `mmap`, `munmap`, `close` and `epoll_ctl` are not executed. Their answers are arguments, as outcome lists and a `FileSystem` value. Their effects are recorded as epoll events, and the mapping as a flag.
- `SetNonBlocking`, `AddEpollFd`, `DelEpollFd` and `ModEpollFd` are reduced to the event they request.
- The client address that `Init(sock_fd, addr)` stores is not modelled.
- `main.cpp` and `locker.h` are not part of this model, and neither are the pool's threads, `Worker`, `stop_` and the destructor. The queue lock is abstracted away: each pool method is seen as one atomic step.
- ThreadPool.Threadpool.RunStep: requires that the semaphore count is positive, because the blocking `Wait()` is not modelled. `Run(n)` covers the first `n` passes of the endless loop, and calls `Process` on nobody: it returns the requests that would get it.
- ThreadPool.NewPool: the failures of `new` and `pthread_create` and `pthread_detach`, which also throw, are not modelled.
- HttpConnection.HttpConn.constructor: `HttpConn() {}` initialises no member. The model takes as parameters those that `Init(sock_fd, addr)` never overwrites: `host_`, `file_stat_`, `iv_`, `iv_count_` and the buffers' bytes. It starts the rest at values of its own choosing: `sock_fd_` -1, the cursors 0, the request-line state, GET, null `url_` and `version_`, no linger, length 0, no mapping, `write_idx_` and `bytes_left_` 0, and an empty `target_path_`. This is harmless because `Init(sock_fd, addr)` overwrites every one of them except `target_path_` before the server uses the object, and DoRequest overwrites `target_path_`.
- HttpConnection.HttpConn.DoRequest: `target_path_` is declared as a `char*` that nothing allocates. The `strcpy` and `strncpy` into it are modelled as writes into a buffer of `KFileNameLen` (200) bytes.
- Resource.TargetPath: it carries the terminator the code evidently intends in the 200th byte, and `DoRequest` uses it. As written, a target of 153 bytes or more leaves the path unterminated, so `stat` and `open` read past the buffer; `LongTargetUnterminated` shows this (see "## Findings").
- HeaderLine.ContentLengthField: holds only for lengths that fit a 32-bit `int`.
- Bytes.Atoi: the value is an unbounded integer. `content_len_` is an `int`, and `atoi` of a number outside its range is undefined in C (glibc truncates it), so a length beyond 32 bits is not modelled as the running program would see it.
- HttpConnection.HttpConn.ProcessRead: requires that the loop as written neither writes through a null pointer nor outside the buffer. Those inputs are undefined behaviour; `NoSpaceDereferencesNull`, `NegativeLengthAsWritten` and `FullBufferBodyAsWritten` exhibit them.
- HttpConnection.HttpConn.Process: requires the same as ProcessRead, and its result is a ghost copy of ProcessRead's code.
- HttpConnection.HttpConn.ParseRequestLine: requires a space in the line, for the same reason.
- HttpConnection.HttpConn.ParseContent: requires that the terminator lands inside the buffer, for the same reason.
- HttpConnection.HttpConn.Read: requires that the list of `recv` answers ends the call. A list that runs out describes no complete call.
- HttpConnection.HttpConn.Write: requires that the list of `writev` answers ends the call, as for Read.
- HttpConnection.HttpConn.AddHeaders: states only that a failing header line gives false. When all fit, the C++ function ends without a return statement, so its result is unspecified.
- HttpConnection.HttpConn.AddBlankLine: states nothing about the result, for the same reason.
- HttpConnection.HttpConn.AddContent: states nothing about the result, for the same reason. ProcessWrite's result for an error code is therefore unspecified too.
- The file size printed by `%d` is the low 32 bits of `off_t`. The `int total_send` of the would-block adjustment is not wrapped: it would overflow only for files over 2 GiB.
- `vsnprintf` is modelled by the text a format renders, not by the format language.
- The `http_conn.h` in the repository declares neither `write_idx_`, `bytes_left_`, `iv_` nor `iv_count_`, though `http_conn.cpp` uses them. The model follows `http_conn.cpp`.

## Findings

| source | as written | input that shows it | evidently intended | confidence | as-written member | corrected member |
|---|---|---|---|---|---|---|
| http_conn.cpp:118-140 | After a partial `writev`, the loop retries with the iovec unchanged, so it resends from the first byte. | A 10-byte header and a 10-byte file taken as 5 bytes then 15 bytes: bytes 0-4 go out twice, the last 5 are never sent, and Write reports all sent. | Advance the iovec past what was sent before retrying. | high, not executed | VectoredWrite.PartialSendResends | VectoredWrite.WriteFixedSpec |
| http_conn.cpp:122-126 | The would-block adjustment moves segment 0 on by the total sent since the start, from where it now stands. | A 10-byte header: 4 bytes then would-block, then in the next call 2 bytes then would-block. Segment 0 ends empty, and header bytes 6-9 are never sent. | Set segment 0 from the start of the buffer. | high, not executed | VectoredWrite.WouldBlockSkips | VectoredWrite.TwoCallsResume |
| http_conn.cpp:412-443 | Error responses never set the iovec or `bytes_left_`. | A 404 on a connection whose `iv_count_` and `bytes_left_` are 0: Write sends nothing and reports all sent, so the page is never sent. | Point segment 0 at the page and set `bytes_left_`. | high, not executed | VectoredWrite.ErrorNeverSent | VectoredWrite.ErrorResponseSent |
| http_conn.cpp:192-199 | An incomplete body makes the loop tokenize it, which moves `check_idx_`, and the check compares against `check_idx_`. | `Content-Length: 10` with 4 body bytes in one read and 6 in the next: the request never completes. | Count the body from `line_start_idx_` and do not tokenize it. | high, not executed | ParserProps.SplitBodyStalls | ParserProps.SplitBodyCompletes |
| http_conn.cpp:269-281 | A negative Content-Length is accepted. | `Content-Length: -5`: the request completes at once and a NUL is written 5 bytes before the body, or before the buffer. | Reject a negative length. | high, not executed | ParserProps.NegativeLengthAsWritten | ParserProps.NegativeLengthRejected |
| http_conn.cpp:212-213 | The result of `strchr` for the first space is dereferenced unchecked. | The request line `GET` with no space. | Answer BAD_REQUEST when there is no space. | high, not executed | RequestLine.BareMethodLine | RequestLine.ParseRequestLineSpec |
| http_conn.cpp:278-281 | A body that ends exactly at the end of the read buffer passes the check, and its NUL is written at `read_buf_[2048]`. | Headers and a body that together fill all 2048 bytes of the read buffer, with the body's length as Content-Length. | Reject a body that leaves no room for its terminator. | high, not executed | ParserProps.FullBufferBodyAsWritten | ParserProps.FullBufferBodyRejected |
| http_conn.cpp:319-324 | `strncpy` with a count of 153 writes no NUL when the target has 153 bytes or more. | A request for a 153-byte path: `stat` reads `target_path_` past its 200th byte. | Write a NUL in the last byte of `target_path_`. | high, not executed | Resource.LongTargetUnterminated | Resource.TargetPathSpec |

The `HttpConn` class follows the code as written. The corrected definitions stand beside it: `RequestLine.ParseRequestLine`, `RequestParser.ContentStep` and `RequestParser.ParseLoop`, and `VectoredWrite.WriteFixed` and `VectoredWrite.PrepareError`. The one exception is `DoRequest`: it builds the terminated path `Resource.TargetPath`, and the unterminated case is stated only by `Resource.LongTargetUnterminated`.
