/** The request parser `get_request_info`: raw bytes are split into lines,
    the first line is the request line (unless `has_head` is false), and the
    lines up to the first empty one are `key: value` header fields. */
module Headers {
  import opened Basics
  import opened PyStr
  import opened LastWins

  /** `bytes.decode("utf-8")`: None when it raises `UnicodeDecodeError`.
      The parser is stated for any such decoder; the server passes
      `Utf8.Decode`. */
  type Decoder = seq<byte> -> Option<string>

  const CR: byte := 13
  const LF: byte := 10

  predicate IsBreak(b: byte) { b == CR || b == LF }

  /** The position of the first line break at or after `i`, or `|b|`. */
  function NextBreak(b: seq<byte>, i: nat): (j: nat)
    requires i <= |b|
    ensures i <= j <= |b|
    ensures forall k :: i <= k < j ==> !IsBreak(b[k])
    ensures j < |b| ==> IsBreak(b[j])
    decreases |b| - i
  {
    if i == |b| || IsBreak(b[i]) then i else NextBreak(b, i + 1)
  }

  /** `bytes.splitlines()`: lines end at `\n`, `\r` or `\r\n`; the line ends
      are dropped, and a final line end does not start an empty last line. */
  function SplitLines(b: seq<byte>): (lines: seq<seq<byte>>)
    ensures forall k, j :: 0 <= k < |lines| && 0 <= j < |lines[k]| ==> !IsBreak(lines[k][j])
    ensures b == [] <==> lines == []
    decreases |b|
  {
    if b == [] then []
    else
      var i := NextBreak(b, 0);
      if i == |b| then [b]
      else
        var w := if b[i] == CR && i + 1 < |b| && b[i + 1] == LF then 2 else 1;
        [b[..i]] + SplitLines(b[i + w..])
  }

  /** Lines, each followed by the line end `t`. */
  function Terminated(lines: seq<seq<byte>>, t: seq<byte>): seq<byte>
  {
    if lines == [] then [] else lines[0] + t + Terminated(lines[1..], t)
  }

  predicate NoBreaks(line: seq<byte>) { forall j :: 0 <= j < |line| ==> !IsBreak(line[j]) }

  /** `splitlines` recovers lines written with any of the three line ends. */
  lemma {:induction false} SplitTerminated(lines: seq<seq<byte>>, t: seq<byte>)
    requires t == [LF] || t == [CR] || t == [CR, LF]
    requires forall k :: 0 <= k < |lines| ==> NoBreaks(lines[k])
    ensures SplitLines(Terminated(lines, t)) == lines
    decreases |lines|
  {
    if lines != [] {
      var rest := Terminated(lines[1..], t);
      assert Terminated(lines, t) == lines[0] + t + rest;
      if rest != [] {
        TerminatedStart(lines[1..], t);
      }
      SplitLinesStep(lines[0], t, rest);
      SplitTerminated(lines[1..], t);
    }
  }

  /** A terminated text starts with the first byte of its first line, or with
      the line end when that line is empty. */
  lemma TerminatedStart(lines: seq<seq<byte>>, t: seq<byte>)
    requires t != [] && Terminated(lines, t) != []
    ensures lines != []
    ensures Terminated(lines, t)[0] == if lines[0] == [] then t[0] else lines[0][0]
  {
  }

  /** One line and its line end come off the front as the first line. */
  lemma SplitLinesStep(line: seq<byte>, t: seq<byte>, rest: seq<byte>)
    requires t == [LF] || t == [CR] || t == [CR, LF]
    requires NoBreaks(line)
    requires t == [CR] && rest != [] ==> rest[0] != LF
    ensures SplitLines(line + t + rest) == [line] + SplitLines(rest)
  {
    var b := line + t + rest;
    NextBreakSkips(b, line);
    assert b[..|line|] == line;
    assert b[|line| + |t|..] == rest;
  }

  lemma NextBreakSkips(b: seq<byte>, line: seq<byte>)
    requires |line| < |b| && b[..|line|] == line && NoBreaks(line) && IsBreak(b[|line|])
    ensures NextBreak(b, 0) == |line|
  {
  }

  /** The lines before the first empty line. */
  function UntilBlank(lines: seq<seq<byte>>): (r: seq<seq<byte>>)
    ensures |r| <= |lines| && r == lines[..|r|]
    ensures forall k :: 0 <= k < |r| ==> r[k] != []
    ensures |r| < |lines| ==> lines[|r|] == []
  {
    if lines == [] || lines[0] == [] then [] else [lines[0]] + UntilBlank(lines[1..])
  }

  /** One header line: `key, value = line.split(':', 1)`, both stripped;
      None for a line without a colon (the loop skips it). */
  function ParseHeaderLine(line: string): Option<(string, string)>
  {
    match SplitFirst(line, ':')
    case None => None
    case Some(kv) => Some((Strip(kv.0), Strip(kv.1)))
  }

  /** A line is skipped iff it has no colon. */
  lemma ParseHeaderLineSkips(line: string)
    ensures ParseHeaderLine(line).None? <==> ':' !in line
  {
    SplitFirstSpec(line, ':');
  }

  /** The key is the text before the first colon, the value the text after
      it, both stripped; a colon in the value is kept. */
  lemma ParseHeaderLineAt(line: string, i: nat)
    requires i < |line| && line[i] == ':' && ':' !in line[..i]
    ensures ParseHeaderLine(line) == Some((Strip(line[..i]), Strip(line[i + 1..])))
  {
    SplitFirstAt(line, ':', i);
  }

  /** Every line decoded as UTF-8, or None if one of them cannot be. */
  function DecodeAll(lines: seq<seq<byte>>, decode: Decoder): (r: Option<seq<string>>)
    ensures r.Some? ==> |r.value| == |lines|
    decreases |lines|
  {
    if lines == [] then Some([])
    else
      match decode(lines[|lines| - 1])
      case None => None
      case Some(s) =>
        match DecodeAll(lines[..|lines| - 1], decode)
        case None => None
        case Some(init) => Some(init + [s])
  }

  /** `DecodeAll` succeeds iff every line decodes, and then holds each
      line's text. */
  lemma {:induction false} DecodeAllSpec(lines: seq<seq<byte>>, decode: Decoder)
    ensures DecodeAll(lines, decode).Some? <==> forall k :: 0 <= k < |lines| ==> decode(lines[k]).Some?
    ensures DecodeAll(lines, decode).Some? ==>
      forall k :: 0 <= k < |lines| ==> DecodeAll(lines, decode).value[k] == decode(lines[k]).value
    decreases |lines|
  {
    if lines != [] {
      var n := |lines| - 1;
      var init := lines[..n];
      DecodeAllSpec(init, decode);
      assert forall k :: 0 <= k < n ==> init[k] == lines[k];
      if DecodeAll(lines, decode).None? && DecodeAll(init, decode).Some? {
        assert decode(lines[n]).None?;
      } else if DecodeAll(lines, decode).None? {
        var k :| 0 <= k < n && decode(init[k]).None?;
        assert decode(lines[k]).None?;
      }
    }
  }

  /** The header entries of decoded lines, in order. */
  function Entries(strs: seq<string>): (r: seq<Option<(string, string)>>)
    ensures |r| == |strs|
    decreases |strs|
  {
    if strs == [] then [] else Entries(strs[..|strs| - 1]) + [ParseHeaderLine(strs[|strs| - 1])]
  }

  /** Entry `k` is the parse of line `k`. */
  lemma {:induction false} EntriesAt(strs: seq<string>)
    ensures forall k :: 0 <= k < |strs| ==> Entries(strs)[k] == ParseHeaderLine(strs[k])
    decreases |strs|
  {
    if strs != [] {
      var n := |strs| - 1;
      EntriesAt(strs[..n]);
      assert forall k :: 0 <= k < n ==> strs[..n][k] == strs[k];
    }
  }

  /** The result of `get_request_info`: the request line (None when
      `has_head` is false) and the header dict. */
  datatype RequestInfo = RequestInfo(head: Option<string>, info: map<string, string>)

  /** The header dict of the lines after the request line. */
  function FieldsOf(lines: seq<seq<byte>>, decode: Decoder): Result<map<string, string>>
  {
    match DecodeAll(UntilBlank(lines), decode)
    case None => Err(UnicodeDecodeError)
    case Some(strs) => Ok(ToMap(Entries(strs)))
  }

  /** `get_request_info(data, has_head)` on the lines of `data`. */
  function RequestInfoOf(data: seq<byte>, hasHead: bool, decode: Decoder): Result<RequestInfo>
  {
    var lines := SplitLines(data);
    if !hasHead then
      match FieldsOf(lines, decode)
      case Err(e) => Err(e)
      case Ok(m) => Ok(RequestInfo(None, m))
    else if lines == [] then Err(IndexError)
    else
      match decode(lines[0])
      case None => Err(UnicodeDecodeError)
      case Some(head) =>
        match FieldsOf(lines[1..], decode)
        case Err(e) => Err(e)
        case Ok(m) => Ok(RequestInfo(Some(head), m))
  }

  /** `get_request_info` itself: the request line, then the loop over the
      remaining lines filling `req_info`. */
  method GetRequestInfo(data: seq<byte>, hasHead: bool, decode: Decoder) returns (r: Result<RequestInfo>)
    ensures r == RequestInfoOf(data, hasHead, decode)
  {
    var lines := SplitLines(data);
    var head: Option<string> := None;
    if hasHead {
      if lines == [] {
        return Err(IndexError);
      }
      var first := decode(lines[0]);
      if first.None? {
        return Err(UnicodeDecodeError);
      }
      head := Some(first.value);
      lines := lines[1..];
    }
    var fields := ReadFields(lines, decode);
    match fields
    case Err(e) => return Err(e);
    case Ok(m) => return Ok(RequestInfo(head, m));
  }

  /** The loop of `get_request_info`: each line is decoded and, when it has a
      colon, stored in `req_info`; it stops at the first empty line. */
  method ReadFields(lines: seq<seq<byte>>, decode: Decoder) returns (r: Result<map<string, string>>)
    ensures r == FieldsOf(lines, decode)
  {
    var reqInfo: map<string, string> := map[];
    ghost var strs: seq<string> := [];
    ghost var entries: seq<Option<(string, string)>> := [];
    var i := 0;
    while i < |lines|
      invariant 0 <= i <= |lines| && |strs| == i
      invariant forall k :: 0 <= k < i ==> lines[k] != []
      invariant DecodeAll(lines[..i], decode) == Some(strs)
      invariant entries == Entries(strs) && reqInfo == ToMap(entries)
    {
      if lines[i] == [] {
        break;
      }
      var line := decode(lines[i]);
      if line.None? {
        DecodeFailsAt(lines, i, decode);
        return Err(UnicodeDecodeError);
      }
      var kv := ParseHeaderLine(line.value);
      EntriesPush(strs, line.value);
      ToMapPush(entries, kv);
      DecodeAllPush(lines, i, strs, line.value, decode);
      if kv.Some? {
        reqInfo := reqInfo[kv.value.0 := kv.value.1];
      }
      strs, entries := strs + [line.value], entries + [kv];
      i := i + 1;
    }
    DecodedPrefix(lines, i, strs, decode);
    return Ok(reqInfo);
  }

  lemma EntriesPush(strs: seq<string>, s: string)
    ensures Entries(strs + [s]) == Entries(strs) + [ParseHeaderLine(s)]
  {
    assert (strs + [s])[..|strs|] == strs;
  }

  lemma {:induction false} UntilBlankPrefix(lines: seq<seq<byte>>, i: nat)
    requires i <= |lines| && forall k :: 0 <= k < i ==> lines[k] != []
    requires i == |lines| || lines[i] == []
    ensures UntilBlank(lines) == lines[..i]
    decreases i
  {
    if i > 0 {
      var tail := lines[1..];
      assert forall k :: 0 <= k < i - 1 ==> tail[k] == lines[k + 1];
      UntilBlankPrefix(tail, i - 1);
      assert lines[..i] == [lines[0]] + tail[..i - 1];
    }
  }

  lemma DecodeAllPush(lines: seq<seq<byte>>, i: nat, strs: seq<string>, s: string, decode: Decoder)
    requires i < |lines| && DecodeAll(lines[..i], decode) == Some(strs) && decode(lines[i]) == Some(s)
    ensures DecodeAll(lines[..i + 1], decode) == Some(strs + [s])
  {
    assert lines[..i + 1][..i] == lines[..i];
  }

  lemma DecodedPrefix(lines: seq<seq<byte>>, i: nat, strs: seq<string>, decode: Decoder)
    requires i <= |lines| && forall k :: 0 <= k < i ==> lines[k] != []
    requires DecodeAll(lines[..i], decode) == Some(strs)
    requires i == |lines| || lines[i] == []
    ensures FieldsOf(lines, decode) == Ok(ToMap(Entries(strs)))
  {
    UntilBlankPrefix(lines, i);
  }

  lemma DecodeFailsAt(lines: seq<seq<byte>>, i: nat, decode: Decoder)
    requires i < |lines| && forall k :: 0 <= k <= i ==> lines[k] != []
    requires decode(lines[i]).None?
    ensures FieldsOf(lines, decode) == Err(UnicodeDecodeError)
  {
    var u := UntilBlank(lines);
    DecodeAllSpec(u, decode);
    assert u[i] == lines[i];
  }

  /** The header dict has exactly the keys of the header lines with a colon
      before the first empty line, each with the value of the last such line. */
  lemma FieldsOfSpec(lines: seq<seq<byte>>, decode: Decoder)
    requires FieldsOf(lines, decode).Ok?
    ensures var fields := UntilBlank(lines);
      forall k :: 0 <= k < |fields| ==> decode(fields[k]).Some?
    ensures var fields := UntilBlank(lines);
      var es := Entries(DecodeAll(fields, decode).value);
      var m := FieldsOf(lines, decode).value;
      && |es| == |fields|
      && (forall k :: 0 <= k < |fields| ==> es[k] == ParseHeaderLine(decode(fields[k]).value))
      && (forall key :: key in m <==> exists i :: 0 <= i < |es| && HasKey(es[i], key))
      && (forall key, i :: LastWith(es, key, i) ==> key in m && m[key] == es[i].value.1)
  {
    var fields := UntilBlank(lines);
    DecodeAllSpec(fields, decode);
    var strs := DecodeAll(fields, decode).value;
    var es := Entries(strs);
    assert FieldsOf(lines, decode).value == ToMap(es);
    EntriesAt(strs);
    ToMapSpec(es);
  }

  /** Decoding is all or nothing: one undecodable line before the first empty
      line fails the whole request; undecodable lines after it are never read. */
  lemma FieldsOfUndecodable(lines: seq<seq<byte>>, decode: Decoder)
    ensures FieldsOf(lines, decode).Err? <==>
      exists i :: 0 <= i < |UntilBlank(lines)| && decode(UntilBlank(lines)[i]).None?
  {
    var u := UntilBlank(lines);
    DecodeAllSpec(u, decode);
    if FieldsOf(lines, decode).Err? {
      assert DecodeAll(u, decode).None?;
      var i :| 0 <= i < |u| && !decode(u[i]).Some?;
    }
  }

  /** Nothing after the first empty line matters. */
  lemma {:induction false} FieldsOfStopsAtBlank(lines: seq<seq<byte>>, more: seq<seq<byte>>, decode: Decoder)
    requires forall k :: 0 <= k < |lines| ==> lines[k] != []
    ensures FieldsOf(lines + [[]] + more, decode) == FieldsOf(lines, decode)
  {
    var big := lines + [[]] + more;
    forall k | 0 <= k < |lines| ensures big[k] != [] {
      assert big[k] == lines[k];
    }
    UntilBlankPrefix(big, |lines|);
    UntilBlankPrefix(lines, |lines|);
    assert big[..|lines|] == lines;
    assert UntilBlank(big) == UntilBlank(lines);
  }
}
