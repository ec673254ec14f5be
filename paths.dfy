/** The request target of a GET: `parse_head` takes the second word of the
    request line, percent-decodes it, drops its leading `/`, splits off the
    query and fragment, and normalises the path. Percent-decoding and URL
    splitting are parameters of the model. */
module Paths {
  import opened Basics
  import opened PyStr

  /** `s.replace("\\", "/")`. */
  function Slashed(s: string): (r: string)
    ensures |r| == |s|
    ensures '\\' !in r
    ensures forall i :: 0 <= i < |s| && s[i] != '\\' ==> r[i] == s[i]
    ensures forall i :: 0 <= i < |s| && s[i] == '\\' ==> r[i] == '/'
  {
    seq(|s|, i requires 0 <= i < |s| => if s[i] == '\\' then '/' else s[i])
  }

  /** The post-processing of `parse_head` (lines 193-197): an empty path is
      `.`, backslashes become slashes, and one trailing slash is dropped. */
  function NormalPath(path: string): string
  {
    var d := Slashed(if path == [] then "." else path);
    if d[|d| - 1] == '/' then d[..|d| - 1] else d
  }

  /** The normalised path never holds a backslash; it is the slashed path
      itself or that path without its one trailing slash, which it drops
      exactly when the input ends in a slash or a backslash. */
  lemma NormalPathSpec(path: string)
    ensures '\\' !in NormalPath(path)
    ensures path == [] ==> NormalPath(path) == "."
    ensures path != [] && path[|path| - 1] != '/' && path[|path| - 1] != '\\' ==>
      NormalPath(path) == Slashed(path)
    ensures path != [] && (path[|path| - 1] == '/' || path[|path| - 1] == '\\') ==>
      NormalPath(path) + "/" == Slashed(path)
  {
    if path != [] {
      var d := Slashed(path);
      if d[|d| - 1] == '/' {
        assert d[..|d| - 1] + "/" == d;
      }
    }
  }

  /** Only one slash is dropped: `a//` becomes `a/`, so normalising is not
      idempotent; a backslash counts as a trailing slash, and the path `/`
      (a request for `//`) becomes the empty path. */
  lemma NormalPathOnce()
    ensures NormalPath("a//") == "a/"
    ensures NormalPath("a/") == "a"
    ensures NormalPath("/") == ""
    ensures NormalPath("a\\") == "a"
  {
    assert Slashed("a//") == "a//";
    assert Slashed("a/") == "a/";
    assert Slashed("/") == "/";
    assert Slashed("a\\") == "a/";
  }

  /** `unquote` from `urllib.parse`, a parameter of the model. */
  type Unquoter = string -> string

  /** `urlparse(url)` reduced to its path, query and fragment, a parameter
      of the model. */
  type UrlSplitter = string -> (string, string, string)

  /** What `parse_head` returns: the normalised path, the raw query string
      (`parse_qs` is not modelled: `getcontent` never reads its result) and
      the fragment, None when empty. */
  datatype Target = Target(direc: string, query: string, fragment: Option<string>)

  /** `parse_head(req_head)`: `req_head.split(' ')[1]` fails with
      `IndexError` on a line without a space. */
  function ParseHead(reqHead: string, unquote: Unquoter, urlsplit: UrlSplitter): Result<Target>
  {
    var words := Split(reqHead, ' ');
    if |words| < 2 then Err(IndexError)
    else
      var u := unquote(words[1]);
      var parts := urlsplit(PySlice(u, 1, |u|));
      Ok(Target(NormalPath(parts.0), parts.1, if parts.2 == [] then None else Some(parts.2)))
  }

  /** `parse_head` fails exactly on a request line without a space; it
      drops the first character of the decoded target before splitting it,
      and normalises the path it gets back. */
  lemma ParseHeadSpec(reqHead: string, unquote: Unquoter, urlsplit: UrlSplitter)
    ensures ParseHead(reqHead, unquote, urlsplit).Err? <==> ' ' !in reqHead
    ensures ParseHead(reqHead, unquote, urlsplit).Ok? ==>
      var u := unquote(Split(reqHead, ' ')[1]);
      var parts := urlsplit(if u == [] then [] else u[1..]);
      var t := ParseHead(reqHead, unquote, urlsplit).value;
      t.direc == NormalPath(parts.0) && t.query == parts.1
      && (t.fragment.None? <==> parts.2 == [])
  {
    SplitCount(reqHead, ' ');
    if ' ' in reqHead {
      var u := unquote(Split(reqHead, ' ')[1]);
      assert PySlice(u, 1, |u|) == if u == [] then [] else u[1..];
    }
  }
}
