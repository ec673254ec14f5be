/** How a GET is answered (`handle_get` and `getcontent`): a path with a
    `..` component is refused; a directory is replaced by its index file
    when it has one; a file is sent with `get_file`, a directory as its
    listing; otherwise `.htm`, then `.html` is tried, and the rest is 404. */
module Content {
  import opened Basics
  import opened PyStr
  import opened Config
  import opened Files
  import opened Listing
  import opened Ranges
  import opened Paths

  // ---------------------------------------------------------------------
  // The index file of a directory

  /** `f.split(".")[0].lower() == "index"`. */
  predicate IsIndex(f: string)
  {
    Lower(Split(f, '.')[0]) == "index"
  }

  /** `f.split(".")[-1].lower() in ("htm", "html")`. */
  predicate IsPage(f: string)
  {
    var pieces := Split(f, '.');
    var ext := Lower(pieces[|pieces| - 1]);
    ext == "htm" || ext == "html"
  }

  predicate IndexPage(f: string)
  {
    IsIndex(f) && IsPage(f)
  }

  /** The loop over `os.listdir(path)` from entry `i` on, with `file` the
      index entry seen last: a page stops it, another index entry is
      remembered. */
  function IndexFrom(names: seq<string>, i: nat, file: Option<string>): Option<string>
    requires i <= |names|
    decreases |names| - i
  {
    if i == |names| then file
    else if IsIndex(names[i]) then
      if IsPage(names[i]) then Some(names[i]) else IndexFrom(names, i + 1, Some(names[i]))
    else IndexFrom(names, i + 1, file)
  }

  /** The index file the loop picks for a directory with entries `names`. */
  function IndexChoice(names: seq<string>): Option<string>
  {
    IndexFrom(names, 0, None)
  }

  /** Entry `i` is the one the loop picks: an index entry with no index
      page before it, and, unless it is a page itself, no index entry
      after it. */
  predicate Chosen(names: seq<string>, i: int)
  {
    0 <= i < |names| && IsIndex(names[i])
    && (forall j :: 0 <= j < i ==> !IndexPage(names[j]))
    && (!IsPage(names[i]) ==> forall j :: i < j < |names| ==> !IsIndex(names[j]))
  }

  /** The loop of `getcontent` (lines 259-266) that looks for the index. */
  method FindIndex(names: seq<string>) returns (file: Option<string>)
    ensures file == IndexChoice(names)
  {
    file := None;
    var i := 0;
    while i < |names|
      invariant 0 <= i <= |names|
      invariant IndexFrom(names, i, file) == IndexChoice(names)
    {
      var f := names[i];
      if IsIndex(f) {
        file := Some(f);
        if IsPage(f) {
          return;
        }
      }
      i := i + 1;
    }
  }

  /** The loop ends with nothing exactly when no entry is an index, given
      that nothing was remembered before `i` only when no index came before. */
  lemma {:induction false} IndexFromNone(names: seq<string>, i: nat, file: Option<string>)
    requires i <= |names|
    requires file.None? <==> forall j :: 0 <= j < i ==> !IsIndex(names[j])
    ensures IndexFrom(names, i, file).None? <==> forall j :: 0 <= j < |names| ==> !IsIndex(names[j])
    decreases |names| - i
  {
    if i < |names| {
      if IsIndex(names[i]) {
        if !IsPage(names[i]) {
          IndexFromNone(names, i + 1, Some(names[i]));
        }
      } else {
        IndexFromNone(names, i + 1, file);
      }
    }
  }

  /** What the loop ends with from `i` is the chosen entry, given that no
      page came before `i` and `file` is entry `k`, the last index entry
      before `i`. */
  lemma {:induction false} IndexFromChosen(names: seq<string>, i: nat, file: Option<string>, k: int)
    requires i <= |names|
    requires forall j :: 0 <= j < i ==> !IndexPage(names[j])
    requires file.Some? ==> (0 <= k < i && names[k] == file.value && IsIndex(names[k])
      && forall j :: k < j < i ==> !IsIndex(names[j]))
    ensures IndexFrom(names, i, file).Some? ==>
      exists c :: Chosen(names, c) && names[c] == IndexFrom(names, i, file).value
    decreases |names| - i
  {
    if i == |names| {
      if file.Some? {
        assert Chosen(names, k);
      }
    } else if IsIndex(names[i]) {
      if IsPage(names[i]) {
        assert Chosen(names, i);
      } else {
        IndexFromChosen(names, i + 1, Some(names[i]), i);
      }
    } else {
      IndexFromChosen(names, i + 1, file, k);
    }
  }

  /** The loop picks nothing exactly when no entry is an index; otherwise
      it picks the first index page (`index.html`, `INDEX.htm`, ...) or,
      when there is none, the last index entry. */
  lemma IndexChoiceSpec(names: seq<string>)
    ensures IndexChoice(names).None? <==> forall j :: 0 <= j < |names| ==> !IsIndex(names[j])
    ensures IndexChoice(names).Some? ==> exists c :: Chosen(names, c) && names[c] == IndexChoice(names).value
  {
    IndexFromNone(names, 0, None);
    IndexFromChosen(names, 0, None, -1);
  }

  /** At most one entry is the chosen one. */
  lemma ChosenUnique(names: seq<string>, c: int, d: int)
    requires Chosen(names, c) && Chosen(names, d)
    ensures c == d
  {
  }

  // ---------------------------------------------------------------------
  // getcontent

  /** What `getcontent` sends. */
  datatype Target = ServeFile(path: string) | ServeListing | Missing

  /** The path after the index lookup: a directory's chosen index entry,
      else the requested path. */
  function Candidate(fs: Tree, direc: string): string
  {
    if IsDir(fs, direc) then
      match IndexChoice(fs[direc].names)
      case Some(f) => PathJoin(direc, f)
      case None => direc
    else direc
  }

  /** The decision of `getcontent(direc)`: every branch that raises
      `OSError` is `Missing`. */
  function Resolve(fs: Tree, direc: string): (t: Target)
    ensures t.ServeFile? ==> IsFile(fs, t.path)
    ensures t.ServeListing? ==> IsDir(fs, direc)
  {
    if ".." in Split(direc, '/') then Missing
    else
      var path := Candidate(fs, direc);
      if IsFile(fs, path) then ServeFile(path)
      else if IsDir(fs, path) then ServeListing
      else if IsFile(fs, path + ".htm") then ServeFile(path + ".htm")
      else if IsFile(fs, path + ".html") then ServeFile(path + ".html")
      else Missing
  }

  /** A response: `get_file`'s chunks, a directory page, or the 404 page
      for `direc`. */
  datatype Response =
    | FileResponse(status: Status, chunks: seq<seq<byte>>)
    | ListingResponse(listing: Listing)
    | NotFound(direc: string)

  function StatusOf(resp: Response): Status
  {
    match resp
    case FileResponse(s, _) => s
    case ListingResponse(_) => Ok200
    case NotFound(_) => NotFound404
  }

  /** `getcontent(direc, start=..., end=...)`. */
  function ResponseOf(fs: Tree, direc: string, r: ByteRange): Response
  {
    match Resolve(fs, direc)
    case ServeFile(p) => FileResponse(FileStatus(r), FileChunks(fs[p].bytes, fs[p].ctype, r))
    case ServeListing => ListingResponse(ListingOf(fs, direc))
    case Missing => NotFound(direc)
  }

  /** `getcontent` itself, with the `for ext in (".htm", ".html")` loop. */
  method GetContent(fs: Tree, direc: string, r: ByteRange) returns (resp: Response)
    ensures resp == ResponseOf(fs, direc, r)
  {
    if ".." in Split(direc, '/') {
      return NotFound(direc);
    }
    var path := direc;
    if IsDir(fs, path) {
      var file := FindIndex(fs[path].names);
      if file.Some? {
        path := PathJoin(path, file.value);
      }
    }
    assert path == Candidate(fs, direc);
    if IsFile(fs, path) {
      assert Resolve(fs, direc) == ServeFile(path);
      var chunks := GetFile(fs[path].bytes, fs[path].ctype, r);
      return FileResponse(FileStatus(r), chunks);
    } else if IsDir(fs, path) {
      assert Resolve(fs, direc) == ServeListing;
      var l := GetDirContent(fs, direc);
      return ListingResponse(l);
    }
    var exts := [".htm", ".html"];
    assert exts[0] == ".htm" && exts[1] == ".html";
    var i := 0;
    while i < |exts|
      invariant 0 <= i <= |exts|
      invariant forall j :: 0 <= j < i ==> !IsFile(fs, path + exts[j])
    {
      var file := path + exts[i];
      if IsFile(fs, file) {
        assert Resolve(fs, direc) == ServeFile(file);
        var chunks := GetFile(fs[file].bytes, fs[file].ctype, r);
        return FileResponse(FileStatus(r), chunks);
      }
      i := i + 1;
    }
    assert Resolve(fs, direc) == Missing;
    return NotFound(direc);
  }

  /** Nothing is served for a path with a `..` component, and the path of
      a file served begins with the path requested: the requested path
      itself, an entry of it, or the path with `.htm` or `.html` added.
      This is a statement about the spelling of paths only; it does not
      keep an absolute path such as `/etc/passwd`, which the request
      `//etc/passwd` gives, inside the served directory. */
  lemma ServedBelow(fs: Tree, direc: string)
    requires Listed(fs)
    ensures ".." in Split(direc, '/') ==> Resolve(fs, direc) == Missing
    ensures Resolve(fs, direc).ServeFile? ==>
      var p := Resolve(fs, direc).path;
      ".." !in Split(direc, '/') && IsFile(fs, p) && |direc| <= |p| && p[..|direc|] == direc
  {
    if IsDir(fs, direc) && IndexChoice(fs[direc].names).Some? {
      ChoiceListed(fs, direc);
    }
    var c := Candidate(fs, direc);
    assert |direc| <= |c| && c[..|direc|] == direc;
    assert (c + ".htm")[..|direc|] == direc;
    assert (c + ".html")[..|direc|] == direc;
  }

  /** The index entry chosen is one of the directory's names. */
  lemma ChoiceListed(fs: Tree, direc: string)
    requires Listed(fs) && IsDir(fs, direc) && IndexChoice(fs[direc].names).Some?
    ensures EntryName(IndexChoice(fs[direc].names).value)
  {
    var names := fs[direc].names;
    IndexChoiceSpec(names);
    var c :| Chosen(names, c) && names[c] == IndexChoice(names).value;
    assert names[c] in names;
  }

  /** The order of the candidates: the path itself when it is a file; the
      directory's first index page, or its last index entry; the directory
      page when the index is not a file or there is none; then the path with
      `.htm`, then with `.html`; otherwise 404. */
  lemma ResolveOrder(fs: Tree, direc: string)
    requires ".." !in Split(direc, '/')
    ensures IsFile(fs, direc) ==> Resolve(fs, direc) == ServeFile(direc)
    ensures (IsDir(fs, direc) && IndexChoice(fs[direc].names).Some? &&
      IsFile(fs, PathJoin(direc, IndexChoice(fs[direc].names).value))) ==>
      Resolve(fs, direc) == ServeFile(PathJoin(direc, IndexChoice(fs[direc].names).value))
    ensures IsDir(fs, direc) && IndexChoice(fs[direc].names).None? ==> Resolve(fs, direc) == ServeListing
    ensures direc !in fs ==>
      Resolve(fs, direc) == (if IsFile(fs, direc + ".htm") then ServeFile(direc + ".htm")
        else if IsFile(fs, direc + ".html") then ServeFile(direc + ".html") else Missing)
  {
  }

  /** A directory with an index page serves the first one when it is a
      file, whatever other index entries it holds. */
  lemma IndexPageServed(fs: Tree, direc: string, i: nat)
    requires ".." !in Split(direc, '/') && IsDir(fs, direc)
    requires i < |fs[direc].names| && IndexPage(fs[direc].names[i])
    requires forall j :: 0 <= j < i ==> !IndexPage(fs[direc].names[j])
    requires IsFile(fs, PathJoin(direc, fs[direc].names[i]))
    ensures Resolve(fs, direc) == ServeFile(PathJoin(direc, fs[direc].names[i]))
  {
    var names := fs[direc].names;
    IndexChoiceSpec(names);
    assert IsIndex(names[i]);
    var c :| Chosen(names, c) && names[c] == IndexChoice(names).value;
    assert Chosen(names, i);
    ChosenUnique(names, c, i);
  }

  /** The status is 404 exactly for `Missing`; a file is 206 exactly for a
      range starting above 0, and every other answer is 200. */
  lemma StatusSpec(fs: Tree, direc: string, r: ByteRange)
    ensures StatusOf(ResponseOf(fs, direc, r)) == NotFound404 <==> Resolve(fs, direc).Missing?
    ensures StatusOf(ResponseOf(fs, direc, r)) == Partial206 <==>
      Resolve(fs, direc).ServeFile? && r.start.Some? && r.start.value > 0
    ensures StatusOf(ResponseOf(fs, direc, r)) in {Ok200, Partial206, NotFound404}
  {
    FileStatusSpec(r);
  }

  // ---------------------------------------------------------------------
  // handle_get

  /** `handle_get(req_head, req_info)`: the path from `parse_head`, the
      ends from a `Range` header when there is one. */
  function HandleGetOf(fs: Tree, reqHead: string, info: map<string, string>,
                       unquote: Unquoter, urlsplit: UrlSplitter): Result<Response>
  {
    match ParseHead(reqHead, unquote, urlsplit)
    case Err(e) => Err(e)
    case Ok(t) =>
      if "Range" in info then
        match ParseRange(info["Range"])
        case Err(e) => Err(e)
        case Ok(r) => Ok(ResponseOf(fs, t.direc, r))
      else Ok(ResponseOf(fs, t.direc, NoRange))
  }

  method HandleGet(fs: Tree, reqHead: string, info: map<string, string>,
                   unquote: Unquoter, urlsplit: UrlSplitter) returns (r: Result<Response>)
    ensures r == HandleGetOf(fs, reqHead, info, unquote, urlsplit)
  {
    var t := ParseHead(reqHead, unquote, urlsplit);
    if t.Err? {
      return Err(t.error);
    }
    var range := NoRange;
    if "Range" in info {
      var parsed := ParseRange(info["Range"]);
      if parsed.Err? {
        return Err(parsed.error);
      }
      range := parsed.value;
    }
    var resp := GetContent(fs, t.value.direc, range);
    return Ok(resp);
  }

  /** A request line with a target and a `Range: unit=start-end` header is
      answered with exactly that range of the resolved path; without the
      header, with the whole of it; a header without `=` is an
      `IndexError`. */
  lemma HandleGetSpec(fs: Tree, reqHead: string, info: map<string, string>,
                      unquote: Unquoter, urlsplit: UrlSplitter, unit: string, r: ByteRange)
    requires ' ' in reqHead
    ensures ParseHead(reqHead, unquote, urlsplit).Ok?
    ensures "Range" in info && '=' !in unit && info["Range"] == RangeText(unit, r) ==>
      HandleGetOf(fs, reqHead, info, unquote, urlsplit)
      == Ok(ResponseOf(fs, ParseHead(reqHead, unquote, urlsplit).value.direc, r))
    ensures "Range" !in info ==>
      HandleGetOf(fs, reqHead, info, unquote, urlsplit)
      == Ok(ResponseOf(fs, ParseHead(reqHead, unquote, urlsplit).value.direc, NoRange))
    ensures "Range" in info && '=' !in info["Range"] ==>
      HandleGetOf(fs, reqHead, info, unquote, urlsplit) == Err(IndexError)
  {
    ParseHeadSpec(reqHead, unquote, urlsplit);
    if "Range" in info {
      ParseRangeIndexError(info["Range"]);
      if '=' !in unit && info["Range"] == RangeText(unit, r) {
        ParseRangeText(unit, r);
      }
    }
  }
}
