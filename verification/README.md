# ESP_One_Album HTTP file server: string, path and upload rules

This project models, in Dafny, the pure decision logic inside the HTTP file
server of the ESP_One_Album firmware (`main/hello_world_main.c`):

- the `IS_FILE_EXT` case-insensitive suffix test and the content type (and
  `Content-Encoding: gzip` flag) that `set_content_type_from_file` picks from
  a file name;
- `get_path_from_uri`, which cuts a URI at its query or fragment and joins it
  to a base path if the result fits the destination buffer;
- the file paths the delete, GET and image-GET handlers build from
  `req->uri` with `snprintf`;
- the file name `handle_header_value` pulls out of a multipart part header,
  and the boundary `upload_post_handler` pulls out of `Content-Type`;
- the body receive loop of `upload_post_handler`, which pulls the body
  through a 1024-byte scratch buffer.

C strings are modelled by their contents before the terminating NUL
(`string` = `seq<char>`). Each `char` stands for one byte of the C string,
so every length and buffer bound below (255, 511, 1087) counts bytes, as
`snprintf` does for a multi-byte UTF-8 name. `snprintf` into a buffer of `n` bytes is
`CString.Trunc(s, n)`, which keeps the first `n - 1` characters. `%.*s` over
a raw buffer stops at the first NUL (`CString.UpToNul`). `strchr`, `strstr`
and `strcasecmp` are `IndexOf`, `FindSub` and `StrCaseCmp`.

Modules: `Wrappers` (Option), `CString` (C library string primitives),
`ContentType`, `UriPath`, `Multipart`, `Upload`.

Behaviour worth knowing, as the code is written:

- `get_path_from_uri` is never called. None of the handlers strips a query
  string, so `GET /index.html?v=2` opens `/spiffs/index.html?v=2`.
  `UriPath.GetPath` models this.
- `.jpg` is not in the extension table (only `.jpeg` is), so such files are
  sent as `text/plain`.
- For names of at least 7 characters, the order of the `if`/`else if` chain
  in `set_content_type_from_file` never matters. No name ends with two of the
  listed extensions, so the first match is the only match. On shorter names
  the order decides which comparisons index before the start of the name.
- The parsed upload path is never truncated. The header value is cut to 255
  characters, so `/sdcard/` plus the quoted name is at most 252 characters,
  and `file_path` has 256 bytes.
- Deleting and serving the same file name agree only for names under 504
  characters. `delete_post_handler` cuts its path to 511 bytes, but the image
  handler's 1088-byte buffer keeps names up to 1079 characters, so for names
  of 504 to 1079 characters a delete targets a different (cut) path.
- The `%.*s` copy in `handle_header_value` stops at a NUL byte in the raw
  header bytes, and the model includes this.

## Model

| member | source | states |
|---|---|---|
| CString.StrCaseCmpZero | main/hello_world_main.c:60-61 | `strcasecmp` returns 0 exactly when the two C strings are equal after ASCII case folding |
| CString.Trunc | main/hello_world_main.c:119 | `snprintf` into an `n`-byte buffer leaves a prefix of the output shorter than `n`; the output is kept whole iff it is shorter than `n`, otherwise exactly `n - 1` characters survive |
| CString.IndexOf | main/hello_world_main.c:356-362 | `strchr` finds the first occurrence of the character, and reports none iff the character does not occur |
| CString.UpToNul | main/hello_world_main.c:112 | `%.*s` copies the raw bytes up to (not including) the first NUL, and copies a NUL-free buffer whole |
| CString.FindSub | main/hello_world_main.c:391 | `strstr` returns the first position where the pattern occurs, and none iff it occurs nowhere |
| CString.FindSubAfterPrefix | main/hello_world_main.c:115-116 | the pattern is found right after a prefix in which it does not start |
| ContentType.IsFileExt | main/hello_world_main.c:60-61 | `IS_FILE_EXT` holds iff the last `|ext|` characters of the name equal `ext` up to case; it requires the name to be at least as long as the extension (the macro's index underflows otherwise) |
| CString.StrCaseCmpEqualLength | main/hello_world_main.c:61 | for equal-length strings `strcasecmp` is 0 iff they are equal up to case, whatever the characters |
| ContentType.MatchIndex | main/hello_world_main.c:326-346 | returns the first table entry whose extension ends the name, with no earlier entry matching; none iff no entry matches |
| ContentType.ContentTypeFor | main/hello_world_main.c:324-349 | the first matching extension of `.pdf, .html, .jpeg, .ico, .js.gz, .css.gz, .js, .css, .png` decides the MIME type and gzip flag; with no match the type is `text/plain` without gzip |
| ContentType.ClassifiableWhenLong | main/hello_world_main.c:60-61 | a name of at least 7 characters (the longest extension) never makes the macro index before the start of the name |
| ContentType.ExtensionsDisagree | main/hello_world_main.c:326-344 | no two extensions of the table agree on their common tail, so none is a case-insensitive suffix of another |
| ContentType.AtMostOneExtension | main/hello_world_main.c:326-344 | a name ends with at most one extension of the table |
| ContentType.MatchingExtensionDecides | main/hello_world_main.c:326-346 | whichever extension a name ends with decides its type, so the order of the chain is irrelevant |
| ContentType.GzipExactlyForCompressed | main/hello_world_main.c:334-339 | `Content-Encoding: gzip` is set iff the name ends with `.js.gz` or `.css.gz` (up to case) |
| ContentType.UnlistedExtensionIsPlain | main/hello_world_main.c:326-348 | a name ending in an extension that shares no tail with any table entry gets `text/plain` |
| ContentType.JpgIsPlain | main/hello_world_main.c:330-348 | `.jpg` names get `text/plain`, because only `.jpeg` is listed |
| ContentType.TypeDependsOnTail | main/hello_world_main.c:326-348 | prepending a directory to a name of at least 7 characters does not change its content type |
| UriPath.PathLen | main/hello_world_main.c:354-363 | the path length stops at the first `?` or `#`: the kept part contains neither, and the character after it (if any) is one of them |
| UriPath.GetPathFromUri | main/hello_world_main.c:351-376 | NULL iff base plus path plus terminator exceed `destsize`; otherwise `dest` starts with the base, continues with a prefix of the URI free of `?` and `#` cut exactly at the first of them, fits the buffer, and the returned offset is the base length |
| UriPath.PathCutIdempotent | main/hello_world_main.c:354-375 | feeding a returned path back in returns the same buffer and offset |
| UriPath.PathThenQuery | main/hello_world_main.c:356-372 | for a path without `?` or `#` with `|base| + |path| + 1 <= destsize`, the URI `path?query` yields `base + path` |
| UriPath.DeletePath | main/hello_world_main.c:437 | the delete path starts with `/sdcard/`, fits 511 characters, is a prefix of `/sdcard/` plus the URI after its 8th character, and is all of it iff the URI is shorter than 512; otherwise exactly 511 characters remain |
| UriPath.ImagePath | main/hello_world_main.c:482 | the image path starts with `/sdcard`, fits 1087 characters, and is `/sdcard` plus the URI after its 6th character iff that fits; otherwise exactly 1087 characters remain |
| UriPath.GetPath | main/hello_world_main.c:454 | the GET path starts with `/spiffs`, fits 1087 characters, and is `/spiffs` plus the whole URI, query string included, iff that fits; otherwise exactly 1087 characters remain |
| UriPath.DeleteRouteMapsToSdCard | main/hello_world_main.c:437 | for a URI `/delete/<name>` with a name under 504 characters the handler targets `/sdcard/<name>` |
| UriPath.ImageRouteMapsToSdCard | main/hello_world_main.c:482 | for a URI `/image/<name>` with a name under 1080 characters the handler opens `/sdcard/<name>` |
| UriPath.DeleteRemovesServedImage | main/hello_world_main.c:437-482 | for names under 504 characters, deleting `/delete/<name>` removes the very file `/image/<name>` serves |
| UriPath.DeleteAndImageDiverge | main/hello_world_main.c:437-482 | for names of 504 to 1079 characters the delete path is cut to 511 characters and differs from the path the image handler opens |
| UriPath.HandlerPathsClassifiable | main/hello_world_main.c:466-494 | every path the GET handlers pass to `set_content_type_from_file` is long enough for `IS_FILE_EXT` to stay in bounds; the delete path is covered too, although `delete_post_handler` never classifies it, because it shares the mount-point prefix |
| UriPath.GetTypeFollowsUri | main/hello_world_main.c:454-466 | for a URI of at least 7 characters whose GET path fits, the path's content type is the one the URI's own suffix gives (query string included) |
| Multipart.HeaderValueText | main/hello_world_main.c:111-112 | the `value` buffer holds a NUL-free prefix of the raw header bytes of at most 255 characters, cut exactly at the first NUL or at 255 characters, whichever comes first, and all of them when they are NUL-free and shorter than 256 |
| Multipart.BeforeQuote | main/hello_world_main.c:117 | the text before the first `"`, none iff there is no `"` |
| Multipart.QuotedFileName | main/hello_world_main.c:115-118 | a name is found iff `filename="` occurs and a `"` follows its first occurrence; the name is the text strictly between them and holds no `"` |
| Multipart.ParseFileName | main/hello_world_main.c:109-121 | a new `file_path` is produced iff the value names a file; it is `/sdcard/` followed by the quoted name, never truncated (under 253 characters) |
| Multipart.NextFilePath | main/hello_world_main.c:109-121 | in terms of the 255-character header value: `file_path` keeps its contents when `filename="` is absent or no `"` follows its first occurrence; otherwise it becomes `/sdcard/` followed by exactly the text between that occurrence and the next `"` |
| Multipart.FileNameRoundTrip | main/hello_world_main.c:109-121 | a header value carrying `filename="<name>"` first, with the closing quote within 255 characters, yields `/sdcard/<name>` |
| Multipart.BrowserFileNameRoundTrip | main/hello_world_main.c:109-121 | `form-data; name="file"; filename="<name>"` yields `/sdcard/<name>` for any NUL- and quote-free name under 220 characters |
| Multipart.ContentTypeValue | main/hello_world_main.c:381-389 | the header lookup succeeds iff the header exists and fits the 256-byte buffer, and then yields the header unchanged; a missing header and a too-long one are told apart |
| Multipart.BoundaryOf | main/hello_world_main.c:391-396 | no boundary iff `boundary=` occurs nowhere; otherwise the boundary is the entire suffix after its first occurrence |
| Multipart.UploadBoundary | main/hello_world_main.c:386-396 | the upload proceeds iff the `Content-Type` is present, fits and contains `boundary=`, and then uses the suffix after it; a failed header lookup is passed on unchanged |
| Multipart.BoundaryRoundTrip | main/hello_world_main.c:391-396 | a `Content-Type` of `<prefix>boundary=<b>` under 256 characters with no earlier `boundary=` yields exactly `<b>` |
| Multipart.BrowserBoundaryRoundTrip | main/hello_world_main.c:386-396 | `multipart/form-data; boundary=<b>` yields exactly `<b>` for boundaries under 200 characters |
| Upload.ScheduleExtends | main/hello_world_main.c:409-419 | a call that asks for `min(remaining, 1024)` bytes keeps the request schedule, and the total received grows by what it returned |
| Upload.ReceiveBody | main/hello_world_main.c:407-421 | each call asks for `min(remaining, 1024) > 0` bytes; the loop succeeds iff every read was positive, and then the reads add up to `content_len`; on failure the loop stopped at the first non-positive read, every earlier read was positive, and they left part of the body unread; with a peer that always fills the request the reads are the full-buffer schedule |
| Upload.ScheduleIsFullChunks | main/hello_world_main.c:407-421 | reads that each deliver all of `min(remaining, 1024)` and add up to `n` are exactly the full-buffer schedule |
| Upload.ScheduleTail | main/hello_world_main.c:407-421 | after the first full read, the rest of the schedule is that of the remaining bytes |
| Upload.FullChunksShape | main/hello_world_main.c:65 | a body of `n` bytes read through the 1024-byte scratch buffer takes `ceil(n / 1024)` reads; all are full except the last, which holds the remainder; they add up to `n` |
| Upload.UploadPost | main/hello_world_main.c:379-429 | a missing, over-long or boundary-less `Content-Type`, or a failed parser allocation, fails before any call to `recv` (no request, no read); with a boundary and a parser the body is read: every call goes to `recv` asking for `min(remaining, 1024)`, the outcome is `Uploaded` or a receive failure, success means the reads add up to `content_len`, and a receive failure stops at the first non-positive read; with a cooperative peer the upload succeeds |

## Left out

- Wi-Fi, SNTP, event groups, NVS, deep sleep and the battery ADC readings: vendor SDK calls and floating-point thresholds with no local string or path logic.
- SD-card/SPI and SPIFFS mounting and directory listing: hardware and filesystem I/O.
- The effects of `fopen`, `fwrite`, `fclose`, `unlink` and `httpd_resp_*`: only the strings and flags computed before those calls are modelled. The file-sending loops of the GET handlers are not modelled.
- The multipart parser library (`multipart_parser.h`) is not part of this model. It is external code. Its allocation in `multipart_parser_init` is the `parserAllocated` parameter of `Upload.UploadPost`.
- The bytes received in the upload loop are not modelled: only their counts are. `httpd_req_recv` is the oracle `recv(call, want)`, which returns at most `want`. The other multipart callbacks (`handle_header_field`, `handle_part_data`, ...) only log or write files, and the global `current_file` lifecycle is mutable I/O state.
- Upload.UploadPost: the outcomes of `httpd_req_get_hdr_value_str` follow the SDK's documented return codes (not found, truncated when the value needs more than 256 bytes). The SDK's code is not part of this model.
- ContentType.IsFileExt and ContentType.ContentTypeFor: they require that no extension the chain reaches is longer than the name (`ChainDefined`). Where the source reads before the start of the string, no behaviour is modelled.
- UriPath.GetPathFromUri: `size_t` wrap-around of `base_pathlen + pathlen + 1` is not modelled, because the integers are unbounded. It would need strings near 2^32 characters.
- Multipart.HeaderValueText: the `(int)length` cast of a length above `INT_MAX` is not modelled. Such a length would be a negative `printf` precision.
- Route registration in `start_web_server` is not modelled: the route patterns `/delete/*` and `/image/*` only appear as the URI shapes in the route lemmas. The handlers themselves need only `|uri| >= 8` and `|uri| >= 6` to stay inside the string.
- The repository also describes an e-paper rendering pipeline (palette quantisation, nibble packing, chunked SPI transfer). None of that code is in `main/hello_world_main.c`, so none of it is modelled. Task creation and the heap-logging main loop (RTOS concurrency) are left out as well.
