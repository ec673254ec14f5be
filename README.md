# A verified model of the request pipeline of `http_file_server.py`

`http_file_server.py` is a small HTTP file server. For each connection it
does the following:

- reads the raw request and splits it into a request line and header fields;
- for a GET, resolves the path against the working directory and answers
  with one of: a file (whole, or a byte range given by a `Range` header), a
  directory page, or a 404 page;
- for a POST, completes the body up to its declared `Content-Length`,
  enforces the upload caps, splits a `multipart/form-data` body at its
  boundary, and writes uploaded files;
- sends the response in chunks of `CHUNK_SIZE` bytes.

This project models that byte and string logic in Dafny and proves what the
code does with it. One module stands for each component:

| module | file | models |
|---|---|---|
| `Basics` | basics.dfy | Python's slices `s[i:j]`, `bytes.find`, `b"".join`, and the loop that stops at the first exception |
| `Utf8` | utf8.dfy | `str.encode()` and `bytes.decode()` (UTF-8), with the round trip |
| `PyStr` | pystr.dfy | `str.strip`, `str.split`, `split(sep, 1)`, `str.lower`, `int()` and `%d` |
| `LastWins` | lastwins.dfy | a dict filled by assignments in order: the last assignment of a key wins |
| `Config` | config.dfy | the size constants and the status lines |
| `Files` | files.dfy | the file system as a map from path to file or directory, and `os.path.join` |
| `Chunking` | chunking.dfy | `_slice_helper`, `_read_file_helper` and the chunk order of `send_response` |
| `Headers` | headers.dfy | `bytes.splitlines` and `get_request_info` |
| `Attributes` | attrs.dfy | `parse_line` |
| `Multipart` | multipart.dfy | `split_formdata` and the part-body cut in `handle_post` |
| `Paths` | paths.dfy | `parse_head` and its path post-processing |
| `Ranges` | ranges.dfy | the `Range` parsing of `handle_get`, and `get_file` |
| `Listing` | listing.dfy | the entry partition and the sorts of `get_dir_content` |
| `Content` | content.dfy | `getcontent` (the `..` test, the index choice, the `.htm`/`.html` fallback) and `handle_get` |
| `Post` | post.dfy | `handle_post`: the caps, the receive loop, truncation, the part loop and the form |

Where the source works by updating variables in a loop, the model is a
`method` with that loop. The method is proved equal to a pure function, and
the lemmas state what the source promises about that function. Examples:

- `Headers.GetRequestInfo`, `Attributes.ParseItems`;
- `Multipart.SplitParts`, `Chunking.ReadFileHelper`;
- `Content.FindIndex`, `Listing.Partition`;
- `Post.Receive`, `Post.CollectParts`.

Known differences between the code and how the server is usually described.
The model follows the code in each case:

- **206 status.** A range is answered with 206 only when its start is above 0. `bytes=0-99` is answered with 200.
- **Range end.** An end of 0 means the end of the file. The end of a range is exclusive: `bytes=5-10` sends bytes 5 to 9, although `Content-Range` prints `5-10`.
- **100 Continue.** It is sent only when a declared length is not reached by the end of the receive loop. Without a `Content-Length` the declared length is -1, and then it is never sent.
- **Bare 413.** The receive loop has its own 413 check, but no request can reach it, because a declared length above the cap is refused first (`Post.NoBare413`).
- **Oversized upload.** When an upload part is larger than `MAX_FILE_SIZE`, the server answers 413 without writing that part. The files of earlier parts are already written by then (`Post.FirstRejected`).
- **Empty file name.** A browser sends `filename=""` for a file input left empty. The joined path then names the upload directory, `open` raises `IsADirectoryError`, and `handle_post` ends with that exception instead of a reply (`Post.BlankFilenameFails`).
- **Missing line end.** A multipart body that has no line end after its closing boundary makes `split_formdata` loop for ever (`Multipart.TruncatedHangs`).

## Model

| member | source | states |
|---|---|---|
| Basics.SliceIndex | http_file_server.py:359 | a Python slice bound means a position clamped to [0, n]; a negative bound counts from the end |
| Basics.PySlice | http_file_server.py:359 | `s[i:j]` is the slice between the clamped bounds, and empty when they cross |
| Basics.FindSpec | http_file_server.py:138 | `find` gives the first occurrence at or after the start, and -1 only when there is none |
| Basics.FindInSuffix | http_file_server.py:138 | a search that starts inside the second part of a concatenation finds what a search of that part alone finds, shifted |
| Basics.FindInPrefix | http_file_server.py:138 | an occurrence that lies wholly in the first part is still found in the concatenation |
| Basics.FlattenAppend | http_file_server.py:357 | `b"".join` of two lists of chunks is the join of the first followed by the join of the second |
| Basics.MapResultsSpec | http_file_server.py:149-157 | a loop that stops at the first exception succeeds iff every step does, and then holds each step's result in order |
| Basics.MapResultsErr | http_file_server.py:149-157 | once such a loop has failed, later elements do not change its result |
| Utf8.DecodeEncode | http_file_server.py:133 | decoding the UTF-8 encoding of any string gives the string back |
| Utf8.DecodeAscii | http_file_server.py:413 | bytes below 0x80 decode one for one into the characters with the same codes |
| Utf8.DecodeFirstOfEncoded | http_file_server.py:413 | the first character of an encoded string decodes from its own encoding, whatever follows |
| PyStr.StripSpec | http_file_server.py:150 | `strip` removes only whitespace, keeps a text that neither starts nor ends with whitespace, and keeps a text without whitespace whole |
| PyStr.SplitPieces | http_file_server.py:149 | no piece holds the separator, and a text without it is one piece |
| PyStr.SplitCount | http_file_server.py:149 | a text splits into two or more pieces iff it holds the separator |
| PyStr.SplitHead | http_file_server.py:149 | the text before the first separator is the first piece, and the rest splits on its own |
| PyStr.JoinSplit | http_file_server.py:149 | joining the pieces with the separator gives back the text |
| PyStr.SplitFirstSpec | http_file_server.py:151 | `split(sep, 1)` splits iff the separator occurs, and its two parts surround the first separator |
| PyStr.SplitFirstAt | http_file_server.py:414 | the two-way split is taken at the first separator, wherever that is |
| PyStr.CharFromFirst | http_file_server.py:414 | a character occurs iff the search for it succeeds, and none occurs before the position found |
| PyStr.Lower | http_file_server.py:218 | lower-casing keeps the length and lower-cases each ASCII capital |
| PyStr.PyInt | http_file_server.py:339 | `int()` never gives a negative value for a text without `-` |
| PyStr.PyIntDecimal | http_file_server.py:240-245 | `int()` reads back the decimal text `%d` prints for every natural number |
| LastWins.ToMapSpec | http_file_server.py:417 | a dict filled in order holds exactly the keys assigned, each with the value of its last assignment |
| LastWins.ToMapLastEntry | http_file_server.py:384-388 | the last assignment decides a key's value, whatever came before it |
| Files.PathJoin | http_file_server.py:253 | `os.path.join`: an absolute name replaces the path; otherwise the result begins with the path |
| Chunking.SliceChunks | http_file_server.py:118-121 | every chunk is non-empty and at most `size` long, and only the last may be shorter |
| Chunking.SliceChunksCount | http_file_server.py:118-121 | there are ceil(len(data) / size) chunks, and none for empty data |
| Chunking.SliceChunksFlatten | http_file_server.py:118-121 | the chunks joined give back the data |
| Chunking.SliceChunksAt | http_file_server.py:120-121 | chunk k is `data[k*size : k*size+size]`, as the `range` loop takes it |
| Chunking.ReadAtConcat | http_file_server.py:114 | two reads in a row return what one larger read returns |
| Chunking.ReadFileHelper | http_file_server.py:108-117 | the generator yields the head first, then the reads `file.read(min(chunk_size, end-start-total))` from `start` |
| Chunking.ReadStep | http_file_server.py:110-115 | each read continues from where the previous reads left the file position |
| Chunking.RequestsSizes | http_file_server.py:112-113 | each size asked is between 1 and `chunk_size`, and all but the last are exactly `chunk_size` |
| Chunking.RequestsSum | http_file_server.py:112-115 | the sizes asked add up to `end - start`, and none is asked for when `end <= start` |
| Chunking.RequestsCount | http_file_server.py:112-115 | there are ceil((end - start) / chunk_size) reads |
| Chunking.ReadsFromSizes | http_file_server.py:113-116 | one chunk per size asked, none longer than the size asked |
| Chunking.ReadsFromFlatten | http_file_server.py:110-116 | the chunks joined are what a single read of `end - start` bytes from `start` returns |
| Chunking.ReadsFromSlices | http_file_server.py:108-121 | on a file that holds every byte asked for, the reads are the chunks `_slice_helper` cuts the same bytes into |
| Chunking.ReadFileHelperSpec | http_file_server.py:108-117 | after the head, chunks of at most `chunk_size` bytes that join to `file[start:end]`, and nothing when `end <= start` |
| Chunking.SendResponse | http_file_server.py:301-322 | the bytes sent are the chunks in order; a byte buffer is sent whole; the total counted is the number of bytes sent |
| Headers.SplitLines | http_file_server.py:404 | no line holds a line break, and only empty data has no lines |
| Headers.SplitTerminated | http_file_server.py:404 | `splitlines` recovers lines written with `\n`, `\r` or `\r\n` after each |
| Headers.SplitLinesStep | http_file_server.py:404 | a line and its line end come off the front as the first line |
| Headers.UntilBlank | http_file_server.py:411-412 | the lines used are the lines before the first empty line |
| Headers.ParseHeaderLineSkips | http_file_server.py:414-419 | a header line is skipped iff it has no colon |
| Headers.ParseHeaderLineAt | http_file_server.py:414-416 | the key is the text before the first colon and the value the text after it, both stripped; a later colon stays in the value |
| Headers.DecodeAllSpec | http_file_server.py:413 | decoding the lines succeeds iff every line decodes, and then holds each line's text |
| Headers.EntriesAt | http_file_server.py:414-419 | entry k is the parse of line k |
| Headers.GetRequestInfo | http_file_server.py:402-420 | `get_request_info`: the request line (when `has_head`), then the loop that fills `req_info` |
| Headers.ReadFields | http_file_server.py:410-419 | the loop over the header lines gives the header dict of the lines before the first empty line |
| Headers.FieldsOfSpec | http_file_server.py:410-419 | the header dict holds exactly the keys of the colon lines before the first empty line, each with the value of the last such line |
| Headers.FieldsOfUndecodable | http_file_server.py:411-413 | the request fails iff a line before the first empty line does not decode |
| Headers.FieldsOfStopsAtBlank | http_file_server.py:412 | nothing after the first empty line changes the header dict |
| Headers.DecodeFailsAt | http_file_server.py:413 | an undecodable line before the first empty line raises `UnicodeDecodeError` |
| Attributes.ParseItem | http_file_server.py:150-156 | one item is stripped and split at its first `=`, and its value is passed to `literal_eval` when asked |
| Attributes.ParseItems | http_file_server.py:148-158 | the `enumerate` loop builds the type and the dict of the items |
| Attributes.ParseLine | http_file_server.py:146-158 | `parse_line` on the pieces of the line between semicolons |
| Attributes.EntryAssigns | http_file_server.py:151-157 | an item stores a key iff its text before the first `=` is that key |
| Attributes.AttrsOfSpec | http_file_server.py:148-158 | the loop fails iff `literal_eval` fails on some value; the dict holds exactly the keys assigned, each with the value of its last item |
| Attributes.ParseLineSpec | http_file_server.py:146-158 | the type is the first item iff it has no `=`, and a later item without `=` is ignored; the dict holds the keys of the items with `=`, last value winning; the call fails only when `literal_eval` fails |
| Attributes.ParseLinePlain | http_file_server.py:146-158 | without `literal_eval`, `parse_line` never fails and a value is the raw text after the first `=` |
| Multipart.SplitParts | http_file_server.py:134-144 | the `idx`/`result` loop is run until it ends or returns to a state it was in, and then the spans are sliced; the result is what the source's loop does |
| Multipart.SplitFormdata | http_file_server.py:131-144 | `split_formdata` is the loop on the UTF-8 encoding of the boundary |
| Multipart.ReturnsAt | http_file_server.py:138-139 | a failed boundary search ends the generator with nothing yielded, whatever was collected |
| Multipart.ExitsAt | http_file_server.py:137 | when `idx` reaches the end of the body, the collected spans are sliced out |
| Multipart.Repeats | http_file_server.py:137-142 | a loop that reaches `idx == 1` twice never ends |
| Multipart.SplitOutcomeParts | http_file_server.py:137-144 | each part yielded runs from just after the line end that follows a boundary to 4 bytes before the next boundary |
| Multipart.NoBoundary | http_file_server.py:138-139 | a body without the boundary yields nothing |
| Multipart.HangsWithoutLineEnd | http_file_server.py:137-142 | a body with no line end anywhere, holding the boundary at a position other than 0, makes the loop run for ever |
| Multipart.SplitEncoded | http_file_server.py:131-144 | a body encoded from parts, whose boundary occurs nowhere else, splits back into exactly those parts |
| Multipart.TruncatedHangs | http_file_server.py:142 | a well-formed body that lacks the line end after its closing boundary makes the loop run for ever |
| Multipart.WalkEnds | http_file_server.py:137-144 | a body laid out part after part, with a line end after the last boundary, yields the parts' spans |
| Multipart.WalkHangs | http_file_server.py:142 | the same layout without that line end sends the loop back to position 1, for ever |
| Multipart.RestParts | http_file_server.py:143-144 | the spans of a laid-out body cut out exactly its parts |
| Multipart.PartBodySpec | http_file_server.py:367-369 | a part's content is everything after its first blank line, or empty when it has none |
| Multipart.PartBodyOf | http_file_server.py:367-369 | headers, a blank line and content give back the whole content, blank lines inside it included |
| Paths.Slashed | http_file_server.py:195 | every backslash becomes a slash and nothing else changes |
| Paths.NormalPathSpec | http_file_server.py:193-197 | an empty path becomes `.`; the result holds no backslash; one trailing slash or backslash is dropped, and only then |
| Paths.NormalPathOnce | http_file_server.py:193-197 | only one slash is dropped (`a//` gives `a/`), and the path `/` becomes empty |
| Paths.ParseHeadSpec | http_file_server.py:186-198 | `parse_head` fails iff the request line has no space; it drops the first character of the decoded target and normalises the path |
| Ranges.Bound | http_file_server.py:428-429 | an empty bound is None; an `int()` failure is `ValueError` |
| Ranges.ParseRangeText | http_file_server.py:426-429 | `unit=start-end` is read back as that range, whatever the unit; `bytes=-` gives no bound |
| Ranges.ParseRangeIndexError | http_file_server.py:426 | a header value raises `IndexError` iff it has no `=` |
| Ranges.ParseRangeTwoDashes | http_file_server.py:427 | more than one `-` after the `=` raises `ValueError` |
| Ranges.GetFile | http_file_server.py:234-246 | the head first, then chunks of at most `CHUNK_SIZE` bytes that join to `file[start:end]` |
| Ranges.FileStatusSpec | http_file_server.py:239 | 206 exactly when the range has a start above 0, and 200 otherwise |
| Ranges.FileBodyWhole | http_file_server.py:242 | without a range the whole file is sent |
| Ranges.FileLengthLine | http_file_server.py:245 | without a range, `Content-Length` prints the number of bytes sent after the head |
| Ranges.FileBodyRange | http_file_server.py:237-240 | with a range inside the file, the bytes from `start` up to `end` (exclusive) are sent, the offsets `Content-Range` prints |
| Ranges.FileBodyEmpty | http_file_server.py:112 | a range that ends at or before its start sends the head alone |
| Ranges.EndZeroIsEnd | http_file_server.py:238 | an end of 0 is served as a missing end |
| Listing.SortByLowerSpec | http_file_server.py:218-219 | the sort orders the names by lower-cased key and keeps exactly the names it was given |
| Listing.SortStable | http_file_server.py:218-219 | the sort is stable: names with the same key keep their order |
| Listing.SortedPairs | http_file_server.py:218-219 | in the sorted list each name's key is at most every later name's key |
| Listing.PickSpec | http_file_server.py:212-217 | every entry goes to exactly one list: files to `subfiles`, everything else to `subdirs` |
| Listing.Partition | http_file_server.py:210-217 | the `os.listdir` loop appends the files and the other entries, in their order |
| Listing.Sized | http_file_server.py:226-227 | each file entry carries the size of that file |
| Listing.GetDirContent | http_file_server.py:200-232 | `get_dir_content`: the partition, the sorts, the parent link and the files with their sizes |
| Listing.ListingSpec | http_file_server.py:210-227 | a parent link iff the path is not `.`; both groups sorted by key; every entry once; each file entry is a file and shows its size; no subdirectory entry is a file |
| Listing.ListingStable | http_file_server.py:212-219 | entries whose lower-cased names tie are shown in the order `os.listdir` gave them |
| Content.FindIndex | http_file_server.py:259-264 | the index loop gives the index choice of the directory's entries |
| Content.IndexChoiceSpec | http_file_server.py:259-264 | nothing is chosen iff no entry is an index; otherwise the first index page, or the last index entry when there is no page |
| Content.ChosenUnique | http_file_server.py:259-264 | at most one entry fits the description of the chosen one |
| Content.Resolve | http_file_server.py:253-284 | a file served is a file of the tree, and a directory page is sent only for a directory |
| Content.GetContent | http_file_server.py:248-299 | `getcontent` with its `.htm`/`.html` loop: its response is the resolution's file, page or 404 |
| Content.ServedBelow | http_file_server.py:255-284 | a path with a `..` component is 404; a file served is spelled with the requested path as a prefix |
| Content.ResolveOrder | http_file_server.py:255-284 | the order of the candidates: the path, its index, its directory page, then `.htm`, then `.html`, otherwise 404 |
| Content.IndexPageServed | http_file_server.py:257-270 | a directory with an index page serves its first one when that is a file, whatever other index entries it holds |
| Content.StatusSpec | http_file_server.py:234-299 | 404 exactly when nothing resolves; 206 exactly for a file with a range that starts above 0; otherwise 200 |
| Content.HandleGet | http_file_server.py:422-436 | `handle_get`: the path from `parse_head`, and the ends of a `Range` header when there is one |
| Content.HandleGetSpec | http_file_server.py:422-436 | a `Range: unit=start-end` header gives exactly that range of the resolved path; no header gives all of it; a value without `=` is an `IndexError` |
| Post.Receive | http_file_server.py:348-357 | the receive loop and the join after it |
| Post.RecvSpec | http_file_server.py:351-357 | the loop receives the next chunks up to the first point where it holds the declared length or a `recv` returns `b""` |
| Post.RecvNoRefusal | http_file_server.py:340-356 | with a declared length within the cap the loop never refuses |
| Post.RecvStep | http_file_server.py:352-356 | one `recv`: stop on an empty read or on reaching the length, refuse above the cap, otherwise go on |
| Post.ReadPartInfo | http_file_server.py:364-369 | a part's headers, its `Content-Disposition` attributes and its content |
| Post.UploadJoin | http_file_server.py:380 | the path joined to the upload directory ends with `/` exactly when the file name given is empty or ends with `/` |
| Post.StorePart | http_file_server.py:371-388 | an upload is refused with 413 above `MAX_FILE_SIZE` before it is written; an upload whose file name holds a NUL character raises `ValueError`, and one whose file cannot be opened or written raises `OSError`, with nothing of it recorded; otherwise it is written, and then `name` is looked up |
| Post.PartTurn | http_file_server.py:362-388 | one turn of the part loop: the part is read, then stored |
| Post.CollectParts | http_file_server.py:362-388 | the loop over the parts gives the stage after all of them |
| Post.StoppedStays | http_file_server.py:362-388 | once the loop has stopped, later parts change nothing |
| Post.CollectGoing | http_file_server.py:362-388 | the loop gets past the first n parts iff it accepts each; it has then written their files in order and holds their fields in order |
| Post.StepGoing | http_file_server.py:371-388 | one turn goes on iff the part is accepted, and adds its file and its field |
| Post.FirstRejected | http_file_server.py:362-388 | the loop stops at the first part it does not accept: 413, `ValueError` for a NUL in the file name, or `OSError`, each with the earlier files written, `KeyError` for a missing `name` after the part's own file is written, or the reading's exception |
| Post.BlankFilenameFails | http_file_server.py:380-382 | an upload with an empty file name raises `OSError` whatever the file system, leaving the earlier files written |
| Post.NulFilenameFails | http_file_server.py:380-382 | an upload whose file name holds a NUL character raises `ValueError` whatever the file system, leaving the earlier files written |
| Post.FormLastWins | http_file_server.py:384-388 | each field holds the value of the last part that names it |
| Post.CollectNoHeadOnly | http_file_server.py:373-378 | the part loop never answers with a bare status line |
| Post.HandleForm | http_file_server.py:361-400 | what `handle_post` does with the complete, truncated body |
| Post.HandlePost | http_file_server.py:327-400 | `handle_post` itself |
| Post.TruncatedSpec | http_file_server.py:359 | `content[:length]` is the first `length` bytes for a declared length, everything without one, and Python's slice from the back for another negative length |
| Post.PostBadLength | http_file_server.py:339 | a `Content-Length` that `int()` rejects raises `ValueError` before anything else |
| Post.PostTooLarge | http_file_server.py:340-344 | a declared length above `MAX_UPLOAD_SIZE` is answered with the 413 page before anything is received, parsed or written |
| Post.PostNoType | http_file_server.py:345 | without a `Content-Type` header the request raises `KeyError` before anything is received |
| Post.PostBody | http_file_server.py:348-359 | the body handed on is the body on hand, or that body plus what the receive loop took, cut to the declared length |
| Post.FormHeadOnly | http_file_server.py:390-392 | after the body is complete, the only bare status line is `100 Continue`, for a short body that is not multipart |
| Post.NoBare413 | http_file_server.py:340-356 | the bare 413 of the receive loop is never sent |
| Post.ContinueOnlyWhenShort | http_file_server.py:348-392 | `100 Continue` is sent only when the body on hand was short and the receive loop stopped at an empty `recv` before the declared length |
| Post.MultipartUpload | http_file_server.py:339-388 | with `b""` on hand, as `handle_client` passes it when the head ends with a blank line, and a first `recv` holding a complete multipart body encoded from parts with its length declared, the part loop sees exactly those parts |

## Left out

- Sockets, threads, logging and the log streams are left out: `AutoFlushWrapper`, `RedirectedOutput`, `log_addr`, `handle_client`, `handle_client_thread` and `main` (lines 32-105 and 438-502). None of them computes anything the pipeline returns.
- Chunking.SendResponse: ignores the throttling (`time.perf_counter`, `time.sleep`, float MB/s), the "large response" log line and the file close at the end of `_read_file_helper`. It states only the order of the chunks and the total.
- `convert_size`, `get_mimetype` and `check_filetype` are left out: they need float formatting, the `mimetypes` library and `chardet`. A file's `Content-Type` line is a field of the file in the tree (`Files.Node`).
- The HTML of the directory page, the 404 page and the result pages is left out. The model keeps what they list: the parent link, the entries and their order, the sizes, and the path of a 404.
- `urllib.parse.unquote` and `urlparse` are function parameters of `Paths.ParseHead`. `parse_qs` is left out: for a body that is not multipart, the form is recorded as not built (`None`).
- Attributes.ParseLine: `ast.literal_eval` is a function parameter from text to text or error, and the class of its error (`SyntaxError` or `ValueError` in Python) is the one the parameter gives. Values of other Python types are not modelled.
- Headers.GetRequestInfo: the UTF-8 decode of a header line is a `Decoder` parameter. `Utf8.Decode` is a definition of it for which the round trip is proved.
- PyStr.Lower: lower-cases ASCII capitals only. The index test and the `htm`/`html` test use it, and so does `Listing.SortByLower`. For names outside ASCII, Python's `lower()` can order them differently: the source lists `äa` before `Äb`, and the model lists `Äb` first.
- PyStr.PyInt: accepts ASCII digits only. Python's `int()` also reads other Unicode decimal digits, so a `Content-Length` or a `Range` bound written in such digits is a `ValueError` in the model.
- Files.Tree: paths are map keys compared as strings. The model knows no equivalences between spellings such as `a/` and `a`, `a//b` and `a/b`, or `./a` and `a`.
- Files.Listed: the model assumes that `os.listdir` gives entry names that are non-empty and hold no `/`. `Content.ServedBelow` relies on this.
- Content.ServedBelow: it is about the spelling of paths only. The `..` test of `getcontent` is lexical. A request for `//etc/passwd` gives the path `/etc/passwd`, and `os.path.join(os.getcwd(), "/etc/passwd")` leaves the served directory. The lemma does not rule this out, and the model does not claim that files stay inside the served directory.
- Content.Resolve: the only `OSError`s modelled are the `..` test and a path that is neither a file nor a directory. Other `OSError`s in `getcontent`, such as a permission error, also become a 404 in the source; the model does not represent them.
- Post.StorePart: `os.makedirs(UPLOAD_PATH)` is assumed to succeed. Whether `open` and `write` go through for a file name is the `Opener` parameter, except that an empty name or one ending with `/` always fails with `OSError`, and a name holding a NUL character fails with `ValueError` before the file system is asked; nothing of a failing part is recorded, so a `write` that fails after `open` has created the file leaves an empty or partial file the model does not record. A write is recorded as the name given in the part plus the bytes written, and the form holds that name (`Saved`), not the joined path the source stores.
- Post.Receive: the results of `sock.recv` are a parameter. Any `recv` after the given ones returns `b""`, like a peer that has closed.
- Post.HandlePost: the body `handle_client` passes in (`raw.splitlines()[-1]`) is a parameter. `split_formdata` runs its whole `while` loop before it yields the first part, so when that loop never ends no part is written; the model gives `Hung` with no writes, as the source does.
- Post.CollectParts: takes the reading of a part as a function value, and the file system as an `Opener`. `Post.PartReader` is the reader `handle_post` uses.
