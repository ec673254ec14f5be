/** `handle_post`: the declared length is checked against `MAX_UPLOAD_SIZE`;
    the rest of a short body is received; the body is cut to the declared
    length; a `multipart/form-data` body is split at its boundary and each
    part is stored, uploads as files, other fields as text; any other body
    is acknowledged, or answered with `100 Continue` while it is short. */
module Post {
  import opened Basics
  import opened PyStr
  import opened Config
  import opened LastWins
  import opened Headers
  import opened Attributes
  import opened Multipart
  import Files
  import Utf8

  // ---------------------------------------------------------------------
  // Outcomes

  /** The value stored in `form` for a field: the name given for an upload
      (the server stores it joined to `UPLOAD_PATH`), the text of a field
      that decodes as UTF-8, or its raw bytes. */
  datatype FormValue = Saved(filename: string) | Text(text: string) | Bytes(bytes: seq<byte>)

  /** A file written by `f.write(data)`: the name given in the part and the
      bytes written. */
  type Write = (string, seq<byte>)

  /** A reply: a status line and the result page, or a status line alone
      (`HEAD_100`, and `HEAD_413 + b"\n"` inside the receive loop). */
  datatype Reply = Page(status: Status) | HeadOnly(status: Status)

  /** How a POST ends: a reply, with the files written and the form built
      (None where the server builds none, or parses it with `parse_qs`); an
      exception, with the files written before it; or a loop that never
      ends. */
  datatype PostOutcome =
    | Answered(reply: Reply, writes: seq<Write>, form: Option<map<string, FormValue>>)
    | Raised(error: Error, writes: seq<Write>)
    | Hung

  // ---------------------------------------------------------------------
  // The receive loop

  /** What the receive loop gives: the bytes received, or the bare 413 it
      would send once more than `MAX_UPLOAD_SIZE` bytes have arrived. */
  datatype Received = Received(data: seq<byte>) | Refused

  /** `chunk` received in front of what follows. */
  function Prepend(chunk: seq<byte>, r: Received): Received
  {
    match r
    case Refused => Refused
    case Received(d) => Received(chunk + d)
  }

  /** The receive loop from the `i`th `sock.recv()` on, with `received`
      bytes so far; `incoming` are the successive results of `recv`, and
      every `recv` after them returns `b""`. */
  function RecvFrom(incoming: seq<seq<byte>>, i: nat, received: int, length: int): Received
    decreases |incoming| - i
  {
    var chunk := if i < |incoming| then incoming[i] else [];
    var total := received + |chunk|;
    if chunk == [] || total >= length then Received(chunk)
    else if total > MAX_UPLOAD_SIZE then Refused
    else Prepend(chunk, RecvFrom(incoming, i + 1, total, length))
  }

  /** The chunks already joined in front of what the loop still receives. */
  function Glue(chunks: seq<seq<byte>>, r: Received): Received
  {
    match r
    case Refused => Refused
    case Received(d) => Received(Flatten(chunks) + d)
  }

  lemma GlueStep(chunks: seq<seq<byte>>, chunk: seq<byte>, r: Received)
    ensures Glue(chunks, Prepend(chunk, r)) == Glue(chunks + [chunk], r)
  {
    if r.Received? {
      GlueLast(chunks, chunk);
      assert Flatten(chunks) + (chunk + r.data) == (Flatten(chunks) + chunk) + r.data;
    }
  }

  lemma GlueLast(chunks: seq<seq<byte>>, chunk: seq<byte>)
    ensures Flatten(chunks + [chunk]) == Flatten(chunks) + chunk
  {
    assert (chunks + [chunk])[..|chunks|] == chunks;
  }

  /** One `recv` of the loop, with `chunks` received before it. */
  lemma RecvStep(incoming: seq<seq<byte>>, i: nat, total: int, length: int, chunks: seq<seq<byte>>)
    ensures var chunk := if i < |incoming| then incoming[i] else [];
      Glue(chunks, RecvFrom(incoming, i, total, length))
      == if chunk == [] || total + |chunk| >= length then Received(Flatten(chunks + [chunk]))
         else if total + |chunk| > MAX_UPLOAD_SIZE then Refused
         else Glue(chunks + [chunk], RecvFrom(incoming, i + 1, total + |chunk|, length))
  {
    var chunk := if i < |incoming| then incoming[i] else [];
    if chunk == [] || total + |chunk| >= length {
      GlueLast(chunks, chunk);
    } else if total + |chunk| <= MAX_UPLOAD_SIZE {
      GlueStep(chunks, chunk, RecvFrom(incoming, i + 1, total + |chunk|, length));
    }
  }

  /** What the loop returns from the `i`th `recv` on, in the state it keeps:
      the `chunks` received so far and their total `total`. */
  function RecvLoop(incoming: seq<seq<byte>>, i: nat, total: int, length: int, chunks: seq<seq<byte>>): Received
    decreases |incoming| - i
  {
    var chunk := if i < |incoming| then incoming[i] else [];
    if chunk == [] || total + |chunk| >= length then Received(Flatten(chunks + [chunk]))
    else if total + |chunk| > MAX_UPLOAD_SIZE then Refused
    else RecvLoop(incoming, i + 1, total + |chunk|, length, chunks + [chunk])
  }

  /** The loop's state after some `recv`s, followed by the rest of the
      loop, is the chunks received joined in front of what the rest receives. */
  lemma {:induction false} RecvLoopGlue(incoming: seq<seq<byte>>, i: nat, total: int, length: int, chunks: seq<seq<byte>>)
    ensures RecvLoop(incoming, i, total, length, chunks) == Glue(chunks, RecvFrom(incoming, i, total, length))
    decreases |incoming| - i
  {
    RecvStep(incoming, i, total, length, chunks);
    var chunk := if i < |incoming| then incoming[i] else [];
    if !(chunk == [] || total + |chunk| >= length) && total + |chunk| <= MAX_UPLOAD_SIZE {
      RecvLoopGlue(incoming, i + 1, total + |chunk|, length, chunks + [chunk]);
    }
  }

  /** The `while True` loop of `handle_post` and the join after it. */
  method Receive(incoming: seq<seq<byte>>, received: int, length: int) returns (r: Received)
    ensures r == RecvFrom(incoming, 0, received, length)
  {
    RecvLoopGlue(incoming, 0, received, length, []);
    assert Glue([], RecvFrom(incoming, 0, received, length)) == RecvFrom(incoming, 0, received, length);
    var chunks: seq<seq<byte>> := [];
    var total := received;
    var i := 0;
    while true
      invariant 0 <= i <= |incoming|
      invariant RecvLoop(incoming, 0, received, length, []) == RecvLoop(incoming, i, total, length, chunks)
      decreases |incoming| - i
    {
      var newData := if i < |incoming| then incoming[i] else [];
      chunks := chunks + [newData];
      total := total + |newData|;
      if newData == [] || total >= length {
        break;
      }
      if total > MAX_UPLOAD_SIZE {
        return Refused;
      }
      i := i + 1;
    }
    return Received(Flatten(chunks));
  }

  /** The loop stops early only after more than `MAX_UPLOAD_SIZE` bytes,
      which needs a declared length above the cap; the server has already
      refused those, so the bare 413 is never sent. */
  lemma {:induction false} RecvNoRefusal(incoming: seq<seq<byte>>, i: nat, received: int, length: int)
    requires length <= MAX_UPLOAD_SIZE
    ensures RecvFrom(incoming, i, received, length) != Refused
    decreases |incoming| - i
  {
    if i < |incoming| && incoming[i] != [] && received + |incoming[i]| < length {
      RecvNoRefusal(incoming, i + 1, received + |incoming[i]|, length);
    }
  }

  /** The loop took the chunks `i` to `j`, which join to `d`, and stopped
      there, at the first point it could: every chunk it took was
      non-empty, every shorter run of them stayed below the declared
      length, and then either the last one reached it or the `recv` after
      them returned `b""`. */
  predicate TookUpTo(incoming: seq<seq<byte>>, i: nat, j: nat, d: seq<byte>, received: int, length: int)
  {
    i <= j <= |incoming| && d == Flatten(incoming[i..j])
    && (forall k :: i <= k < j ==> incoming[k] != [])
    && (forall k :: i < k < j ==> received + |Flatten(incoming[i..k])| < length)
    && ((j > i && received + |d| >= length) || j == |incoming| || incoming[j] == [])
  }

  /** What the loop receives is the join of the next chunks up to the
      first point where it holds the declared length or a `recv` returns
      `b""`. */
  lemma {:induction false} RecvSpec(incoming: seq<seq<byte>>, i: nat, received: int, length: int)
    requires i <= |incoming|
    requires RecvFrom(incoming, i, received, length).Received?
    ensures exists j :: TookUpTo(incoming, i, j, RecvFrom(incoming, i, received, length).data, received, length)
    decreases |incoming| - i
  {
    var d := RecvFrom(incoming, i, received, length).data;
    if i == |incoming| || incoming[i] == [] {
      TookNothing(incoming, i, received, length);
    } else if received + |incoming[i]| >= length {
      TookOne(incoming, i, received, length);
    } else {
      var total := received + |incoming[i]|;
      RecvSpec(incoming, i + 1, total, length);
      var rest := RecvFrom(incoming, i + 1, total, length).data;
      assert d == incoming[i] + rest;
      var j: nat :| TookUpTo(incoming, i + 1, j, rest, total, length);
      TookMore(incoming, i, j, rest, received, length);
    }
  }

  lemma TookNothing(incoming: seq<seq<byte>>, i: nat, received: int, length: int)
    requires i <= |incoming| && (i == |incoming| || incoming[i] == [])
    ensures TookUpTo(incoming, i, i, [], received, length)
  {
    assert incoming[i..i] == [];
  }

  lemma TookOne(incoming: seq<seq<byte>>, i: nat, received: int, length: int)
    requires i < |incoming| && incoming[i] != [] && received + |incoming[i]| >= length
    ensures TookUpTo(incoming, i, i + 1, incoming[i], received, length)
  {
    assert incoming[i..i + 1] == [incoming[i]];
    FlattenCons(incoming[i], []);
  }

  /** There is only one place where the loop can have stopped. */
  lemma TookUnique(incoming: seq<seq<byte>>, i: nat, j1: nat, j2: nat, d1: seq<byte>, d2: seq<byte>,
                   received: int, length: int)
    requires TookUpTo(incoming, i, j1, d1, received, length)
    requires TookUpTo(incoming, i, j2, d2, received, length)
    ensures j1 == j2 && d1 == d2
  {
  }

  /** A non-empty chunk `i` that leaves the total short, in front of what
      the loop took from `i + 1` on. */
  lemma TookMore(incoming: seq<seq<byte>>, i: nat, j: nat, rest: seq<byte>, received: int, length: int)
    requires i < |incoming| && incoming[i] != [] && received + |incoming[i]| < length
    requires TookUpTo(incoming, i + 1, j, rest, received + |incoming[i]|, length)
    ensures TookUpTo(incoming, i, j, incoming[i] + rest, received, length)
  {
    forall k | i < k <= j
      ensures Flatten(incoming[i..k]) == incoming[i] + Flatten(incoming[i + 1..k])
    {
      assert incoming[i..k] == [incoming[i]] + incoming[i + 1..k];
      FlattenCons(incoming[i], incoming[i + 1..k]);
    }
  }

  // ---------------------------------------------------------------------
  // The parts of a form

  /** What the loop reads from a part: the `Content-Disposition` attributes,
      the content, and the content decoded as UTF-8 (None where `decode`
      raises). */
  datatype PartInfo = PartInfo(disposition: map<string, string>, body: seq<byte>, text: Option<string>)

  /** The reading of one part, as a value the loop is parameterised by. */
  type Reader = seq<byte> -> Result<PartInfo>

  /** `get_request_info(data, has_head=False)`, then
      `parse_line(info["Content-Disposition"], use_eval=True)` and the
      content after the first blank line. */
  function ReadPart(part: seq<byte>, eval: Evaluator): Result<PartInfo>
  {
    match RequestInfoOf(part, false, Utf8.Decode)
    case Err(e) => Err(e)
    case Ok(ri) =>
      if "Content-Disposition" !in ri.info then Err(KeyError)
      else
        match ParseLineOf(ri.info["Content-Disposition"], true, eval)
        case Err(e) => Err(e)
        case Ok(a) => Ok(PartInfo(a.params, PartBody(part), Utf8.Decode(PartBody(part))))
  }

  function PartReader(eval: Evaluator): Reader
  {
    part => ReadPart(part, eval)
  }

  /** The first lines of the loop body: the calls that read a part. */
  method ReadPartInfo(data: seq<byte>, eval: Evaluator) returns (r: Result<PartInfo>)
    ensures r == ReadPart(data, eval)
  {
    var ri := GetRequestInfo(data, false, Utf8.Decode);
    if ri.Err? {
      return Err(ri.error);
    }
    if "Content-Disposition" !in ri.value.info {
      return Err(KeyError);
    }
    var line := ParseLine(ri.value.info["Content-Disposition"], true, eval);
    if line.Err? {
      return Err(line.error);
    }
    var body := PartBody(data);
    return Ok(PartInfo(line.value.params, body, Utf8.Decode(body)));
  }

  /** `opens(name)`: whether the file system lets `open(path, "wb")` and
      `f.write(data)` go through for `path = os.path.join(UPLOAD_PATH, name)`,
      `name` being the file name given in a part (one without a NUL
      character); a failure raises an `OSError` (a missing subdirectory
      gives `FileNotFoundError`, a full disk another one). */
  type Opener = string -> bool

  /** Whether the upload of a file named `name` is written. A name that is
      empty or ends with `/` never is: the joined path then names a
      directory, and `open` raises `IsADirectoryError` (see `UploadJoin`). */
  predicate Writable(opens: Opener, name: string)
  {
    name != [] && name[|name| - 1] != '/' && opens(name)
  }

  /** The exception that `open(os.path.join(UPLOAD_PATH, name), "wb")` or
      the `write` raises, if any: `ValueError` for a name holding a NUL
      character, which `open` rejects before the file system is asked
      (`os.path.join` accepts it); otherwise `OSError` when the upload is
      not `Writable`. */
  function OpenFailure(opens: Opener, name: string): Option<Error>
  {
    if '\0' in name then Some(ValueError)
    else if !Writable(opens, name) then Some(OSError)
    else None
  }

  /** `UPLOAD_PATH` is a directory path that does not end with `/`, so the
      path joined to it ends with `/` exactly when the name given is empty
      or ends with one. */
  lemma UploadJoin(dir: string, name: string)
    requires dir != [] && dir[|dir| - 1] != '/'
    ensures var path := Files.PathJoin(dir, name);
      (path != [] && path[|path| - 1] == '/') <==> (name == [] || name[|name| - 1] == '/')
  {
  }

  /** `"filename" in disposition`. */
  predicate IsUpload(p: PartInfo)
  {
    "filename" in p.disposition
  }

  /** What `form[disposition["name"]]` is set to for a part. */
  function FieldValue(p: PartInfo): FormValue
  {
    if IsUpload(p) then Saved(p.disposition["filename"])
    else
      match p.text
      case Some(t) => Text(t)
      case None => Bytes(p.body)
  }

  /** The loop over the parts: still going with the files written and the
      form so far, or stopped with the outcome of the request. */
  datatype Stage = Going(writes: seq<Write>, form: map<string, FormValue>) | Stopped(outcome: PostOutcome)

  /** One turn of the loop: an upload larger than `MAX_FILE_SIZE` stops it
      with 413 before anything of it is written; an upload is written before
      its `name` is looked up. */
  function PartStep(st: Stage, part: seq<byte>, read: Reader, opens: Opener): Stage
  {
    match st
    case Stopped(_) => st
    case Going(writes, form) =>
      match read(part)
      case Err(e) => Stopped(Raised(e, writes))
      case Ok(p) => Store(writes, form, p, opens)
  }

  /** What the loop does with a part it has read. */
  function Store(writes: seq<Write>, form: map<string, FormValue>, p: PartInfo, opens: Opener): Stage
  {
    if IsUpload(p) && |p.body| > MAX_FILE_SIZE then Stopped(Answered(Page(TooLarge413), writes, None))
    else if IsUpload(p) && OpenFailure(opens, p.disposition["filename"]).Some? then
      Stopped(Raised(OpenFailure(opens, p.disposition["filename"]).value, writes))
    else
      var writes' := if IsUpload(p) then writes + [(p.disposition["filename"], p.body)] else writes;
      if "name" !in p.disposition then Stopped(Raised(KeyError, writes'))
      else Going(writes', form[p.disposition["name"] := FieldValue(p)])
  }

  /** The rest of the loop body: the size check and the write of an upload,
      then the assignment to `form`. */
  method StorePart(writes: seq<Write>, form: map<string, FormValue>, p: PartInfo, opens: Opener) returns (st: Stage)
    ensures st == Store(writes, form, p, opens)
  {
    var disposition, data := p.disposition, p.body;
    if "filename" in disposition {
      if |data| > MAX_FILE_SIZE {
        return Stopped(Answered(Page(TooLarge413), writes, None));
      }
      var failure := OpenFailure(opens, disposition["filename"]);
      if failure.Some? {
        return Stopped(Raised(failure.value, writes));
      }
      var writes' := writes + [(disposition["filename"], data)];
      if "name" !in disposition {
        return Stopped(Raised(KeyError, writes'));
      }
      return Going(writes', form[disposition["name"] := Saved(disposition["filename"])]);
    }
    var text := p.text;
    var value := if text.Some? then Text(text.value) else Bytes(data);
    if "name" !in disposition {
      return Stopped(Raised(KeyError, writes));
    }
    return Going(writes, form[disposition["name"] := value]);
  }

  /** The loop after the first `n` parts. */
  function Collect(parts: seq<seq<byte>>, n: nat, read: Reader, opens: Opener): Stage
    requires n <= |parts|
  {
    if n == 0 then Going([], map[]) else PartStep(Collect(parts, n - 1, read, opens), parts[n - 1], read, opens)
  }

  /** Once stopped, the loop stays stopped. */
  lemma {:induction false} StoppedStays(parts: seq<seq<byte>>, n: nat, read: Reader, opens: Opener)
    requires n <= |parts| && Collect(parts, n, read, opens).Stopped?
    ensures Collect(parts, |parts|, read, opens) == Collect(parts, n, read, opens)
    decreases |parts| - n
  {
    if n < |parts| {
      StoppedStays(parts, n + 1, read, opens);
    }
  }

  lemma CollectNext(parts: seq<seq<byte>>, i: nat, read: Reader, opens: Opener)
    requires i < |parts|
    ensures Collect(parts, i + 1, read, opens) == PartStep(Collect(parts, i, read, opens), parts[i], read, opens)
  {
  }

  /** One turn of the loop body: read the part, then store it. */
  method PartTurn(writes: seq<Write>, form: map<string, FormValue>, part: seq<byte>, read: Reader, opens: Opener)
    returns (st: Stage)
    ensures st == PartStep(Going(writes, form), part, read, opens)
  {
    var info := read(part);
    if info.Err? {
      return Stopped(Raised(info.error, writes));
    }
    st := StorePart(writes, form, info.value, opens);
  }

  /** The `for data in split_formdata(...)` loop of `handle_post`, with
      `read` for the calls that read each part (`ReadPartInfo`) and `opens`
      for the file system the uploads are written to. */
  method CollectParts(parts: seq<seq<byte>>, read: Reader, opens: Opener) returns (st: Stage)
    ensures st == Collect(parts, |parts|, read, opens)
  {
    var writes: seq<Write> := [];
    var form: map<string, FormValue> := map[];
    var i := 0;
    while i < |parts|
      invariant 0 <= i <= |parts|
      invariant Collect(parts, i, read, opens) == Going(writes, form)
    {
      st := PartTurn(writes, form, parts[i], read, opens);
      CollectNext(parts, i, read, opens);
      if st.Stopped? {
        StoppedStays(parts, i + 1, read, opens);
        return;
      }
      writes, form := st.writes, st.form;
      i := i + 1;
    }
    st := Going(writes, form);
  }

  /** A part the loop gets past: it reads, names its field, and is not an
      oversized upload or one whose file cannot be written. */
  predicate Accepted(part: seq<byte>, read: Reader, opens: Opener)
  {
    read(part).Ok? && "name" in read(part).value.disposition
    && !(IsUpload(read(part).value) && |read(part).value.body| > MAX_FILE_SIZE)
    && !(IsUpload(read(part).value) && OpenFailure(opens, read(part).value.disposition["filename"]).Some?)
  }

  /** The file a part writes, if any. */
  function UploadOf(part: seq<byte>, read: Reader): seq<Write>
  {
    match read(part)
    case Ok(p) => if IsUpload(p) then [(p.disposition["filename"], p.body)] else []
    case Err(_) => []
  }

  /** The files the parts write, in order. */
  function Uploads(parts: seq<seq<byte>>, read: Reader): seq<Write>
    decreases |parts|
  {
    if parts == [] then [] else Uploads(parts[..|parts| - 1], read) + UploadOf(parts[|parts| - 1], read)
  }

  /** The assignment a part makes to `form`, if any. */
  function FieldOf(part: seq<byte>, read: Reader): Option<(string, FormValue)>
  {
    match read(part)
    case Ok(p) => if "name" in p.disposition then Some((p.disposition["name"], FieldValue(p))) else None
    case Err(_) => None
  }

  /** The assignments of the parts, in order. */
  function Fields(parts: seq<seq<byte>>, read: Reader): (r: seq<Option<(string, FormValue)>>)
    ensures |r| == |parts|
    decreases |parts|
  {
    if parts == [] then [] else Fields(parts[..|parts| - 1], read) + [FieldOf(parts[|parts| - 1], read)]
  }

  lemma {:induction false} FieldsAt(parts: seq<seq<byte>>, read: Reader)
    ensures forall k :: 0 <= k < |parts| ==> Fields(parts, read)[k] == FieldOf(parts[k], read)
    decreases |parts|
  {
    if parts != [] {
      FieldsAt(parts[..|parts| - 1], read);
    }
  }

  /** The loop gets past the first `n` parts exactly when it accepts each
      of them; it has then written the files of those parts in order, and
      its form is what assigning their fields in order gives. */
  lemma {:induction false} CollectGoing(parts: seq<seq<byte>>, n: nat, read: Reader, opens: Opener)
    requires n <= |parts|
    ensures Collect(parts, n, read, opens).Going? <==> forall i :: 0 <= i < n ==> Accepted(parts[i], read, opens)
    ensures Collect(parts, n, read, opens).Going? ==>
      Collect(parts, n, read, opens).writes == Uploads(parts[..n], read)
      && Collect(parts, n, read, opens).form == ToMap(Fields(parts[..n], read))
  {
    CollectAccepted(parts, n, read, opens);
    if Collect(parts, n, read, opens).Going? {
      CollectState(parts, n, read, opens);
    }
  }

  /** One turn keeps the loop going exactly when it was going and accepts
      the part; it then adds the part's file and its field. */
  lemma StepGoing(st: Stage, part: seq<byte>, read: Reader, opens: Opener)
    ensures PartStep(st, part, read, opens).Going? <==> st.Going? && Accepted(part, read, opens)
    ensures PartStep(st, part, read, opens).Going? ==>
      FieldOf(part, read).Some?
      && PartStep(st, part, read, opens).writes == st.writes + UploadOf(part, read)
      && PartStep(st, part, read, opens).form == st.form[FieldOf(part, read).value.0 := FieldOf(part, read).value.1]
  {
  }

  lemma {:induction false} CollectAccepted(parts: seq<seq<byte>>, n: nat, read: Reader, opens: Opener)
    requires n <= |parts|
    ensures Collect(parts, n, read, opens).Going? <==> forall i :: 0 <= i < n ==> Accepted(parts[i], read, opens)
    decreases n
  {
    if n > 0 {
      CollectAccepted(parts, n - 1, read, opens);
      CollectNext(parts, n - 1, read, opens);
      StepGoing(Collect(parts, n - 1, read, opens), parts[n - 1], read, opens);
      AcceptedUpTo(parts, n, read, opens);
    }
  }

  lemma AcceptedUpTo(parts: seq<seq<byte>>, n: nat, read: Reader, opens: Opener)
    requires 0 < n <= |parts|
    ensures (forall i :: 0 <= i < n ==> Accepted(parts[i], read, opens))
      <==> (forall i :: 0 <= i < n - 1 ==> Accepted(parts[i], read, opens)) && Accepted(parts[n - 1], read, opens)
  {
  }

  lemma {:induction false} CollectState(parts: seq<seq<byte>>, n: nat, read: Reader, opens: Opener)
    requires n <= |parts| && Collect(parts, n, read, opens).Going?
    ensures Collect(parts, n, read, opens).writes == Uploads(parts[..n], read)
    ensures Collect(parts, n, read, opens).form == ToMap(Fields(parts[..n], read))
  {
    CollectWrites(parts, n, read, opens);
    CollectForm(parts, n, read, opens);
  }

  lemma PrefixStep(parts: seq<seq<byte>>, n: nat, read: Reader)
    requires 0 < n <= |parts|
    ensures Uploads(parts[..n], read) == Uploads(parts[..n - 1], read) + UploadOf(parts[n - 1], read)
    ensures Fields(parts[..n], read) == Fields(parts[..n - 1], read) + [FieldOf(parts[n - 1], read)]
  {
    var ps := parts[..n];
    assert ps[..n - 1] == parts[..n - 1];
    assert ps[n - 1] == parts[n - 1];
  }

  lemma {:induction false} CollectWrites(parts: seq<seq<byte>>, n: nat, read: Reader, opens: Opener)
    requires n <= |parts| && Collect(parts, n, read, opens).Going?
    ensures Collect(parts, n, read, opens).writes == Uploads(parts[..n], read)
    decreases n
  {
    if n > 0 {
      StepGoing(Collect(parts, n - 1, read, opens), parts[n - 1], read, opens);
      CollectWrites(parts, n - 1, read, opens);
      PrefixStep(parts, n, read);
    }
  }

  lemma {:induction false} CollectForm(parts: seq<seq<byte>>, n: nat, read: Reader, opens: Opener)
    requires n <= |parts| && Collect(parts, n, read, opens).Going?
    ensures Collect(parts, n, read, opens).form == ToMap(Fields(parts[..n], read))
    decreases n
  {
    if n > 0 {
      var st, p := Collect(parts, n - 1, read, opens), parts[n - 1];
      assert Collect(parts, n, read, opens) == PartStep(st, p, read, opens);
      StepGoing(st, p, read, opens);
      CollectForm(parts, n - 1, read, opens);
      PrefixStep(parts, n, read);
      FormPush(st.form, Fields(parts[..n - 1], read), FieldOf(p, read));
    }
  }

  lemma FormPush(form: map<string, FormValue>, es: seq<Option<(string, FormValue)>>, e: Option<(string, FormValue)>)
    requires form == ToMap(es) && e.Some?
    ensures form[e.value.0 := e.value.1] == ToMap(es + [e])
  {
    ToMapPush(es, e);
  }

  /** The loop stops at the first part it does not accept: an oversized
      upload answers 413, and an upload whose file cannot be written raises
      its `OpenFailure`, each leaving the files of the earlier parts written; an
      upload without a `name` is written before the `KeyError`. */
  lemma FirstRejected(parts: seq<seq<byte>>, k: nat, read: Reader, opens: Opener)
    requires k < |parts| && !Accepted(parts[k], read, opens)
    requires forall i :: 0 <= i < k ==> Accepted(parts[i], read, opens)
    ensures Collect(parts, |parts|, read, opens).Stopped?
    ensures read(parts[k]).Ok? && IsUpload(read(parts[k]).value) && |read(parts[k]).value.body| > MAX_FILE_SIZE ==>
      Collect(parts, |parts|, read, opens).outcome == Answered(Page(TooLarge413), Uploads(parts[..k], read), None)
    ensures read(parts[k]).Ok? && IsUpload(read(parts[k]).value) && |read(parts[k]).value.body| <= MAX_FILE_SIZE
            && OpenFailure(opens, read(parts[k]).value.disposition["filename"]).Some? ==>
      Collect(parts, |parts|, read, opens).outcome
      == Raised(OpenFailure(opens, read(parts[k]).value.disposition["filename"]).value, Uploads(parts[..k], read))
    ensures read(parts[k]).Ok? && IsUpload(read(parts[k]).value) && |read(parts[k]).value.body| <= MAX_FILE_SIZE
            && OpenFailure(opens, read(parts[k]).value.disposition["filename"]).None? ==>
      Collect(parts, |parts|, read, opens).outcome == Raised(KeyError, Uploads(parts[..k + 1], read))
    ensures read(parts[k]).Ok? && !IsUpload(read(parts[k]).value) ==>
      Collect(parts, |parts|, read, opens).outcome == Raised(KeyError, Uploads(parts[..k], read))
    ensures read(parts[k]).Err? ==>
      Collect(parts, |parts|, read, opens).outcome == Raised(read(parts[k]).error, Uploads(parts[..k], read))
  {
    CollectGoing(parts, k, read, opens);
    assert parts[..k + 1][..k] == parts[..k];
    StoppedStays(parts, k + 1, read, opens);
  }

  /** An upload with an empty file name, which a browser sends for a file
      input left empty, raises an `OSError` whatever the file system, and
      no reply is sent: the files of the earlier parts stay written. */
  lemma BlankFilenameFails(parts: seq<seq<byte>>, k: nat, read: Reader, opens: Opener)
    requires k < |parts| && forall i :: 0 <= i < k ==> Accepted(parts[i], read, opens)
    requires read(parts[k]).Ok? && IsUpload(read(parts[k]).value)
    requires read(parts[k]).value.disposition["filename"] == "" && |read(parts[k]).value.body| <= MAX_FILE_SIZE
    ensures Collect(parts, |parts|, read, opens) == Stopped(Raised(OSError, Uploads(parts[..k], read)))
  {
    FirstRejected(parts, k, read, opens);
  }

  /** An upload whose file name holds a NUL character raises `ValueError`
      whatever the file system, leaving the earlier files written. */
  lemma NulFilenameFails(parts: seq<seq<byte>>, k: nat, read: Reader, opens: Opener)
    requires k < |parts| && forall i :: 0 <= i < k ==> Accepted(parts[i], read, opens)
    requires read(parts[k]).Ok? && IsUpload(read(parts[k]).value)
    requires '\0' in read(parts[k]).value.disposition["filename"] && |read(parts[k]).value.body| <= MAX_FILE_SIZE
    ensures Collect(parts, |parts|, read, opens) == Stopped(Raised(ValueError, Uploads(parts[..k], read)))
  {
    FirstRejected(parts, k, read, opens);
  }

  /** After the whole loop, each field holds the value from the last part
      naming it: a later field of the same name replaces an earlier one. */
  lemma FormLastWins(parts: seq<seq<byte>>, read: Reader, opens: Opener, name: string, i: nat)
    requires Collect(parts, |parts|, read, opens).Going?
    requires i < |parts| && Accepted(parts[i], read, opens)
    requires read(parts[i]).value.disposition["name"] == name
    requires forall j :: i < j < |parts| ==> FieldOf(parts[j], read).None? || FieldOf(parts[j], read).value.0 != name
    ensures name in Collect(parts, |parts|, read, opens).form
    ensures Collect(parts, |parts|, read, opens).form[name] == FieldValue(read(parts[i]).value)
  {
    CollectState(parts, |parts|, read, opens);
    assert parts[..|parts|] == parts;
    var es := Fields(parts, read);
    FieldsAt(parts, read);
    assert es[i] == FieldOf(parts[i], read);
    LastField(parts, read, opens, name, i);
    ToMapLast(es, name, i);
  }

  lemma LastField(parts: seq<seq<byte>>, read: Reader, opens: Opener, name: string, i: nat)
    requires i < |parts| && Accepted(parts[i], read, opens)
    requires read(parts[i]).value.disposition["name"] == name
    requires forall j :: i < j < |parts| ==> FieldOf(parts[j], read).None? || FieldOf(parts[j], read).value.0 != name
    ensures LastWith(Fields(parts, read), name, i)
  {
    var es := Fields(parts, read);
    FieldsAt(parts, read);
    assert es[i] == FieldOf(parts[i], read);
    forall j | i < j < |es|
      ensures !HasKey(es[j], name)
    {
      assert es[j] == FieldOf(parts[j], read);
    }
  }

  /** The loop never answers with a bare status line. */
  lemma {:induction false} CollectNoHeadOnly(parts: seq<seq<byte>>, n: nat, read: Reader, opens: Opener)
    requires n <= |parts|
    ensures Collect(parts, n, read, opens).Stopped? && Collect(parts, n, read, opens).outcome.Answered? ==>
      Collect(parts, n, read, opens).outcome.reply.Page?
    decreases n
  {
    if n > 0 {
      CollectNoHeadOnly(parts, n - 1, read, opens);
    }
  }

  // ---------------------------------------------------------------------
  // handle_post

  /** `int(req_info.get('Content-Length', -1))`. */
  function ContentLength(info: map<string, string>): Result<int>
  {
    if "Content-Length" in info then
      match PyInt(info["Content-Length"])
      case None => Err(ValueError)
      case Some(n) => Ok(n)
    else Ok(-1)
  }

  /** The body once the receive loop has run, when the body on hand is
      shorter than declared. */
  function Fill(content: seq<byte>, incoming: seq<seq<byte>>, length: int): Received
  {
    if |content| < length then Prepend(content, RecvFrom(incoming, 0, |content|, length))
    else Received(content)
  }

  /** `content[:length]` unless no length was declared. */
  function Truncated(data: seq<byte>, length: int): seq<byte>
  {
    if length != -1 then PySlice(data, 0, length) else data
  }

  /** The outcome of the loop over the parts. */
  function Finish(st: Stage): PostOutcome
  {
    match st
    case Going(writes, form) => Answered(Page(Ok200), writes, Some(form))
    case Stopped(o) => o
  }

  /** What `handle_post` does with the received, truncated body `data`. */
  ghost function FormOutcome(ctype: Attrs, data: seq<byte>, length: int, eval: Evaluator, opens: Opener): PostOutcome
  {
    if ctype.kind == Some("multipart/form-data") then
      if "boundary" !in ctype.params then Raised(KeyError, [])
      else
        match SplitOutcome(data, Utf8.Encode(ctype.params["boundary"]))
        case Hangs => Hung
        case Yields(parts) => Finish(Collect(parts, |parts|, PartReader(eval), opens))
    else if |data| < length then Answered(HeadOnly(Continue100), [], None)
    else if Utf8.Decode(data).None? then Raised(UnicodeDecodeError, [])
    else Answered(Page(Ok200), [], None)
  }

  /** `parse_line(req_info["Content-Type"])`. */
  function ContentTypeOf(info: map<string, string>, eval: Evaluator): Result<Attrs>
  {
    if "Content-Type" !in info then Err(KeyError) else ParseLineOf(info["Content-Type"], false, eval)
  }

  /** `handle_post` once `length` and `content_type` are evaluated (in that
      order: a bad `Content-Length` is reported first). */
  ghost function PostWith(length: Result<int>, ctype: Result<Attrs>, content: seq<byte>, incoming: seq<seq<byte>>,
                          eval: Evaluator, opens: Opener): PostOutcome
  {
    match length
    case Err(e) => Raised(e, [])
    case Ok(n) =>
      if n > MAX_UPLOAD_SIZE then Answered(Page(TooLarge413), [], None)
      else
        match ctype
        case Err(e) => Raised(e, [])
        case Ok(ct) =>
          match Fill(content, incoming, n)
          case Refused => Answered(HeadOnly(TooLarge413), [], None)
          case Received(all) => FormOutcome(ct, Truncated(all, n), n, eval, opens)
  }

  /** `handle_post(sock, req_head, req_info, content)`: `incoming` are the
      results of the `recv` calls it makes, and `eval` is `literal_eval`. */
  ghost function PostOf(info: map<string, string>, content: seq<byte>, incoming: seq<seq<byte>>,
                        eval: Evaluator, opens: Opener): PostOutcome
  {
    PostWith(ContentLength(info), ContentTypeOf(info, eval), content, incoming, eval, opens)
  }

  /** The part of `handle_post` after the body is complete. */
  method HandleForm(ctype: Attrs, data: seq<byte>, length: int, eval: Evaluator, opens: Opener) returns (o: PostOutcome)
    ensures o == FormOutcome(ctype, data, length, eval, opens)
  {
    if ctype.kind == Some("multipart/form-data") {
      if "boundary" !in ctype.params {
        return Raised(KeyError, []);
      }
      var split := SplitFormdata(data, ctype.params["boundary"]);
      if split.Hangs? {
        return Hung;
      }
      var st := CollectParts(split.parts, PartReader(eval), opens);
      return Finish(st);
    }
    if |data| < length {
      return Answered(HeadOnly(Continue100), [], None);
    }
    if Utf8.Decode(data).None? {
      return Raised(UnicodeDecodeError, []);
    }
    return Answered(Page(Ok200), [], None);
  }

  /** `handle_post` itself. */
  method HandlePost(info: map<string, string>, content: seq<byte>, incoming: seq<seq<byte>>,
                    eval: Evaluator, opens: Opener) returns (o: PostOutcome)
    ensures o == PostOf(info, content, incoming, eval, opens)
  {
    var length := ContentLength(info);
    if length.Err? {
      return Raised(length.error, []);
    }
    if length.value > MAX_UPLOAD_SIZE {
      return Answered(Page(TooLarge413), [], None);
    }
    if "Content-Type" !in info {
      return Raised(KeyError, []);
    }
    var ctype := ParseLine(info["Content-Type"], false, eval);
    if ctype.Err? {
      return Raised(ctype.error, []);
    }
    var data := content;
    if |data| < length.value {
      var more := Receive(incoming, |data|, length.value);
      if more.Refused? {
        return Answered(HeadOnly(TooLarge413), [], None);
      }
      data := data + more.data;
    }
    if length.value != -1 {
      data := PySlice(data, 0, length.value);
    }
    o := HandleForm(ctype.value, data, length.value, eval, opens);
  }

  // ---------------------------------------------------------------------
  // Properties of handle_post

  /** `content[:length]`: the first `length` bytes for a declared length,
      everything without one, and for a negative length other than -1,
      Python's slice from the back. */
  lemma TruncatedSpec(data: seq<byte>, length: int)
    ensures length >= 0 ==> Truncated(data, length) == data[..Min(length, |data|)]
    ensures length == -1 ==> Truncated(data, length) == data
    ensures length < -1 ==> Truncated(data, length) == data[..Max(|data| + length, 0)]
  {
  }

  /** A `Content-Length` that `int()` rejects raises `ValueError` before
      anything else is looked at. */
  lemma PostBadLength(info: map<string, string>, content: seq<byte>, incoming: seq<seq<byte>>, eval: Evaluator, opens: Opener)
    requires "Content-Length" in info && PyInt(info["Content-Length"]).None?
    ensures PostOf(info, content, incoming, eval, opens) == Raised(ValueError, [])
  {
  }

  /** A declared length above `MAX_UPLOAD_SIZE` is answered with the 413
      page before anything is received, parsed or written, whatever the
      body on hand, the `Content-Type` and what the connection would
      deliver. */
  lemma PostTooLarge(info: map<string, string>, content: seq<byte>, incoming: seq<seq<byte>>, eval: Evaluator, opens: Opener, n: int)
    requires ContentLength(info) == Ok(n) && n > MAX_UPLOAD_SIZE
    ensures PostOf(info, content, incoming, eval, opens) == Answered(Page(TooLarge413), [], None)
  {
  }

  /** A request within the cap without a `Content-Type` header raises
      `KeyError` before anything is received. */
  lemma PostNoType(info: map<string, string>, content: seq<byte>, incoming: seq<seq<byte>>, eval: Evaluator, opens: Opener)
    requires ContentLength(info).Ok? && ContentLength(info).value <= MAX_UPLOAD_SIZE
    requires "Content-Type" !in info
    ensures PostOf(info, content, incoming, eval, opens) == Raised(KeyError, [])
  {
  }

  /** With a declared length `n` within the cap and a `Content-Type` that
      parses, the body handed on is the first `n` bytes of the body on hand
      followed by what the receive loop took, and nothing is received when
      the body on hand is already long enough. */
  lemma PostBody(info: map<string, string>, content: seq<byte>, incoming: seq<seq<byte>>, eval: Evaluator, opens: Opener,
                 n: nat, ct: Attrs)
    requires ContentLength(info) == Ok(n) && n <= MAX_UPLOAD_SIZE && ContentTypeOf(info, eval) == Ok(ct)
    ensures |content| >= n ==> PostOf(info, content, incoming, eval, opens) == FormOutcome(ct, content[..n], n, eval, opens)
    ensures |content| < n ==> exists j :: (0 <= j <= |incoming|
      && TookUpTo(incoming, 0, j, Flatten(incoming[0..j]), |content|, n)
      && PostOf(info, content, incoming, eval, opens)
         == FormOutcome(ct, Truncated(content + Flatten(incoming[0..j]), n), n, eval, opens))
  {
    if |content| < n {
      RecvNoRefusal(incoming, 0, |content|, n);
      RecvSpec(incoming, 0, |content|, n);
      var more := RecvFrom(incoming, 0, |content|, n).data;
      var j: nat :| TookUpTo(incoming, 0, j, more, |content|, n);
      assert Fill(content, incoming, n) == Received(content + more);
    } else {
      TruncatedSpec(content, n);
    }
  }

  /** After the body is complete, no reply is a bare status line other
      than `100 Continue`, which is sent only for a body that is not
      multipart and shorter than declared. */
  lemma FormHeadOnly(ctype: Attrs, data: seq<byte>, length: int, eval: Evaluator, opens: Opener)
    requires FormOutcome(ctype, data, length, eval, opens).Answered?
    requires FormOutcome(ctype, data, length, eval, opens).reply.HeadOnly?
    ensures FormOutcome(ctype, data, length, eval, opens).reply.status == Continue100
    ensures ctype.kind != Some("multipart/form-data") && |data| < length
  {
    if ctype.kind == Some("multipart/form-data") {
      var split := SplitOutcome(data, Utf8.Encode(ctype.params["boundary"]));
      CollectNoHeadOnly(split.parts, |split.parts|, PartReader(eval), opens);
    }
  }

  lemma NoBare413With(length: Result<int>, ctype: Result<Attrs>, content: seq<byte>, incoming: seq<seq<byte>>,
                      eval: Evaluator, opens: Opener)
    ensures !(PostWith(length, ctype, content, incoming, eval, opens).Answered?
              && PostWith(length, ctype, content, incoming, eval, opens).reply == HeadOnly(TooLarge413))
  {
    if length.Ok? && length.value <= MAX_UPLOAD_SIZE && ctype.Ok? {
      RecvNoRefusal(incoming, 0, |content|, length.value);
      var all := Fill(content, incoming, length.value);
      var o := FormOutcome(ctype.value, Truncated(all.data, length.value), length.value, eval, opens);
      if o.Answered? && o.reply.HeadOnly? {
        FormHeadOnly(ctype.value, Truncated(all.data, length.value), length.value, eval, opens);
      }
    }
  }

  /** The bare 413 of the receive loop is never sent. */
  lemma NoBare413(info: map<string, string>, content: seq<byte>, incoming: seq<seq<byte>>, eval: Evaluator, opens: Opener)
    ensures !(PostOf(info, content, incoming, eval, opens).Answered? && PostOf(info, content, incoming, eval, opens).reply == HeadOnly(TooLarge413))
  {
    NoBare413With(ContentLength(info), ContentTypeOf(info, eval), content, incoming, eval, opens);
  }

  lemma ContinueWith(length: Result<int>, ctype: Result<Attrs>, content: seq<byte>, incoming: seq<seq<byte>>,
                     eval: Evaluator, opens: Opener)
    requires PostWith(length, ctype, content, incoming, eval, opens).Answered?
    requires PostWith(length, ctype, content, incoming, eval, opens).reply == HeadOnly(Continue100)
    ensures length.Ok? && |content| < length.value
    ensures exists j :: (0 <= j <= |incoming| && |content| + |Flatten(incoming[..j])| < length.value
                         && (j == |incoming| || incoming[j] == []))
  {
    var n := length.value;
    var all := Fill(content, incoming, n).data;
    FormHeadOnly(ctype.value, Truncated(all, n), n, eval, opens);
    assert |all| < n;
    assert |content| < n;
    RecvSpec(incoming, 0, |content|, n);
    var more := RecvFrom(incoming, 0, |content|, n).data;
    assert all == content + more;
    var j: nat :| TookUpTo(incoming, 0, j, more, |content|, n);
    assert incoming[0..j] == incoming[..j];
  }

  /** `100 Continue` is sent only for a body that is not multipart and
      stays shorter than declared: the body on hand was short, and the
      receive loop stopped at a `recv` that returned `b""`. */
  lemma ContinueOnlyWhenShort(info: map<string, string>, content: seq<byte>, incoming: seq<seq<byte>>,
                              eval: Evaluator, opens: Opener)
    requires PostOf(info, content, incoming, eval, opens).Answered?
    requires PostOf(info, content, incoming, eval, opens).reply == HeadOnly(Continue100)
    ensures ContentLength(info).Ok? && |content| < ContentLength(info).value
    ensures exists j :: (0 <= j <= |incoming| && |content| + |Flatten(incoming[..j])| < ContentLength(info).value
                         && (j == |incoming| || incoming[j] == []))
  {
    ContinueWith(ContentLength(info), ContentTypeOf(info, eval), content, incoming, eval, opens);
  }

  /** A complete multipart upload as `handle_client` passes it on: the
      head's last line is empty, so the body on hand is `b""`, and the
      first `recv` delivers the whole body. With the declared length equal
      to the body, a `Content-Type` naming the boundary, and a body encoded
      from its parts, the parts the loop sees are exactly those parts. */
  lemma MultipartUpload(info: map<string, string>, boundary: string, parts: seq<seq<byte>>,
                        incoming: seq<seq<byte>>, eval: Evaluator, opens: Opener)
    requires Separable(Utf8.Encode(boundary), parts)
    requires "Content-Length" in info && info["Content-Length"] == Decimal(|Encoded(Utf8.Encode(boundary), parts)|)
    requires |Encoded(Utf8.Encode(boundary), parts)| <= MAX_UPLOAD_SIZE
    requires "Content-Type" in info && ParseLineOf(info["Content-Type"], false, eval).Ok?
    requires ParseLineOf(info["Content-Type"], false, eval).value.kind == Some("multipart/form-data")
    requires ParseLineOf(info["Content-Type"], false, eval).value.params == map["boundary" := boundary]
    requires incoming != [] && incoming[0] == Encoded(Utf8.Encode(boundary), parts)
    ensures PostOf(info, [], incoming, eval, opens) == Finish(Collect(parts, |parts|, PartReader(eval), opens))
  {
    var body := Encoded(Utf8.Encode(boundary), parts);
    PyIntDecimal(|body|);
    assert ContentLength(info) == Ok(|body|);
    var ct := ParseLineOf(info["Content-Type"], false, eval).value;
    assert ContentTypeOf(info, eval) == Ok(ct);
    MultipartUploadWith(ct, boundary, parts, incoming, eval, opens);
  }

  lemma MultipartUploadWith(ct: Attrs, boundary: string, parts: seq<seq<byte>>,
                            incoming: seq<seq<byte>>, eval: Evaluator, opens: Opener)
    requires Separable(Utf8.Encode(boundary), parts)
    requires |Encoded(Utf8.Encode(boundary), parts)| <= MAX_UPLOAD_SIZE
    requires ct.kind == Some("multipart/form-data") && ct.params == map["boundary" := boundary]
    requires incoming != [] && incoming[0] == Encoded(Utf8.Encode(boundary), parts)
    ensures var body := Encoded(Utf8.Encode(boundary), parts);
      PostWith(Ok(|body|), Ok(ct), [], incoming, eval, opens) == Finish(Collect(parts, |parts|, PartReader(eval), opens))
  {
    var b := Utf8.Encode(boundary);
    var body := Encoded(b, parts);
    assert RecvFrom(incoming, 0, 0, |body|) == Received(body);
    assert [] + body == body;
    assert Fill([], incoming, |body|) == Received(body);
    PySliceIn(body, 0, |body|);
    assert Truncated(body, |body|) == body;
    SplitEncoded(b, parts);
    assert FormOutcome(ct, body, |body|, eval, opens) == Finish(Collect(parts, |parts|, PartReader(eval), opens));
  }
}
