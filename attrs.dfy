/** The attribute-line parser `parse_line`, for header values such as
    `multipart/form-data; boundary=xyz` or `form-data; name="f"; filename="a.txt"`:
    the items between semicolons are stripped; the first one, when it has no
    `=`, is the type; every item with an `=` is a `key=value` attribute. */
module Attributes {
  import opened Basics
  import opened PyStr
  import opened LastWins

  /** The result of `parse_line`: the type (None when the first item has an
      `=`) and the attribute dict. */
  datatype Attrs = Attrs(kind: Option<string>, params: map<string, string>)

  /** `literal_eval` applied to attribute values when `use_eval` is set; it
      is a parameter of the model, and the error of a failure is the one the
      parameter gives: Python raises `SyntaxError` for a malformed value such
      as `"abc` and `ValueError` for one that is not a literal. */
  type Evaluator = string -> Result<string>

  /** One item, stripped and split at its first `=` (`item.split("=", 1)`):
      None when it has no `=`. */
  function Cut(piece: string): Option<(string, string)>
  {
    SplitFirst(Strip(piece), '=')
  }

  /** The type: the first item (stripped), when it has no `=`. */
  function KindOf(pieces: seq<string>): Option<string>
    requires |pieces| >= 1
  {
    if Cut(pieces[0]).None? then Some(Strip(pieces[0])) else None
  }

  /** The value stored for one item's text after the `=`. */
  function ValueOf(v: string, useEval: bool, eval: Evaluator): Result<string>
  {
    if useEval then eval(v) else Ok(v)
  }

  /** What the loop stores for one piece: None for an item without an
      `=` (skipped), else the key before the first `=` and the value after
      it; a `literal_eval` failure is the loop's error. */
  function Entry(piece: string, useEval: bool, eval: Evaluator): Result<Option<(string, string)>>
  {
    match Cut(piece)
    case None => Ok(None)
    case Some(kv) =>
      match ValueOf(kv.1, useEval, eval)
      case Err(e) => Err(e)
      case Ok(v) => Ok(Some((kv.0, v)))
  }

  function EntryFn(useEval: bool, eval: Evaluator): string -> Result<Option<(string, string)>>
  {
    piece => Entry(piece, useEval, eval)
  }

  /** The type and the dict of the pieces of a line. */
  function AttrsOf(items: seq<string>, useEval: bool, eval: Evaluator): Result<Attrs>
    requires |items| >= 1
  {
    match MapResults(items, |items|, EntryFn(useEval, eval))
    case Err(e) => Err(e)
    case Ok(es) => Ok(Attrs(KindOf(items), ToMap(es)))
  }

  /** The pieces of a line between semicolons. */
  function Pieces(line: string): seq<string>
  {
    Split(line, ';')
  }

  /** `parse_line(line, use_eval)`. */
  function ParseLineOf(line: string, useEval: bool, eval: Evaluator): Result<Attrs>
  {
    AttrsOf(Pieces(line), useEval, eval)
  }

  /** `parse_line` itself. */
  method ParseLine(line: string, useEval: bool, eval: Evaluator) returns (r: Result<Attrs>)
    ensures r == ParseLineOf(line, useEval, eval)
  {
    r := ParseItems(Pieces(line), useEval, eval);
  }

  /** One item of `parse_line`'s loop: `item.strip()`, `item.split("=", 1)`
      and, with `use_eval`, `literal_eval` of the value. */
  method ParseItem(piece: string, useEval: bool, eval: Evaluator) returns (item: string, e: Result<Option<(string, string)>>)
    ensures item == Strip(piece)
    ensures e == Entry(piece, useEval, eval)
  {
    item := Strip(piece);
    var lst := SplitFirst(item, '=');
    if lst.None? {
      return item, Ok(None);
    }
    var value := lst.value.1;
    if useEval {
      var v := eval(value);
      if v.Err? {
        return item, Err(v.error);
      }
      value := v.value;
    }
    e := Ok(Some((lst.value.0, value)));
  }

  /** The `enumerate` loop of `parse_line` over the pieces of the line,
      filling `result`. */
  method ParseItems(items: seq<string>, useEval: bool, eval: Evaluator) returns (r: Result<Attrs>)
    requires |items| >= 1
    ensures r == AttrsOf(items, useEval, eval)
  {
    var result: map<string, string> := map[];
    var kind: Option<string> := None;
    var i := 0;
    while i < |items|
      invariant 0 <= i <= |items|
      invariant MapResults(items, i, EntryFn(useEval, eval)).Ok?
      invariant result == ToMap(MapResults(items, i, EntryFn(useEval, eval)).value)
      invariant kind == if i == 0 then None else KindOf(items)
    {
      var item, e := ParseItem(items[i], useEval, eval);
      assert EntryFn(useEval, eval)(items[i]) == e;
      if e.Err? {
        MapResultsErr(items, i + 1, EntryFn(useEval, eval));
        return Err(e.error);
      }
      var kv := e.value;
      ToMapPush(MapResults(items, i, EntryFn(useEval, eval)).value, kv);
      if kv.None? {
        if i == 0 {
          kind := Some(item);
        }
      } else {
        result := result[kv.value.0 := kv.value.1];
      }
      i := i + 1;
    }
    return Ok(Attrs(kind, result));
  }

  /** Piece `piece`, stripped, has an `=` and its text before the first
      `=` is `key`. */
  predicate Assigns(piece: string, key: string)
  {
    Cut(piece).Some? && Cut(piece).value.0 == key
  }

  /** Item `i` is the last item assigning `key`. */
  predicate LastAssigns(items: seq<string>, key: string, i: int)
  {
    0 <= i < |items| && Assigns(items[i], key)
    && forall j :: i < j < |items| ==> !Assigns(items[j], key)
  }

  /** A piece whose value can be computed assigns exactly the key of its entry. */
  lemma EntryAssigns(piece: string, key: string, useEval: bool, eval: Evaluator)
    requires Entry(piece, useEval, eval).Ok?
    ensures HasKey(Entry(piece, useEval, eval).value, key) <==> Assigns(piece, key)
  {
  }

  /** The dict of a list of items: the keys the items assign, each with the
      value of the last item assigning it. */
  lemma {:induction false} AttrsOfSpec(items: seq<string>, useEval: bool, eval: Evaluator)
    requires |items| >= 1
    ensures AttrsOf(items, useEval, eval).Ok? <==>
      forall i :: 0 <= i < |items| ==> Entry(items[i], useEval, eval).Ok?
    ensures AttrsOf(items, useEval, eval).Ok? ==> forall key ::
      key in AttrsOf(items, useEval, eval).value.params <==>
      exists i :: 0 <= i < |items| && Assigns(items[i], key)
    ensures AttrsOf(items, useEval, eval).Ok? ==> forall key, i :: LastAssigns(items, key, i) ==>
      key in AttrsOf(items, useEval, eval).value.params &&
      AttrsOf(items, useEval, eval).value.params[key] == Entry(items[i], useEval, eval).value.value.1
  {
    var f := EntryFn(useEval, eval);
    MapResultsSpec(items, |items|, f);
    var r := AttrsOf(items, useEval, eval);
    if r.Ok? {
      var es := MapResults(items, |items|, f).value;
      assert r.value.params == ToMap(es);
      ToMapSpec(es);
      forall i, key | 0 <= i < |items|
        ensures HasKey(es[i], key) <==> Assigns(items[i], key)
      {
        assert es[i] == Entry(items[i], useEval, eval).value;
        EntryAssigns(items[i], key, useEval, eval);
      }
      forall key, i | LastAssigns(items, key, i)
        ensures key in r.value.params && r.value.params[key] == Entry(items[i], useEval, eval).value.value.1
      {
        assert LastWith(es, key, i);
      }
    }
  }

  /** `parse_line`: it fails only when `literal_eval` fails on a value; the
      type is the first item when that has no `=`, and None otherwise (a later
      item without `=` never becomes the type); the dict holds the text
      before the first `=` of each item that has one, with the value of the
      last such item. Items are the pieces between semicolons, stripped. */
  lemma ParseLineSpec(line: string, useEval: bool, eval: Evaluator)
    ensures ParseLineOf(line, useEval, eval).Ok? <==>
      forall i :: 0 <= i < |Pieces(line)| ==> Entry(Pieces(line)[i], useEval, eval).Ok?
    ensures ParseLineOf(line, useEval, eval).Ok? ==>
      (ParseLineOf(line, useEval, eval).value.kind.Some? <==> '=' !in Strip(Pieces(line)[0]))
    ensures ParseLineOf(line, useEval, eval).Ok? && ParseLineOf(line, useEval, eval).value.kind.Some? ==>
      ParseLineOf(line, useEval, eval).value.kind.value == Strip(Pieces(line)[0])
    ensures ParseLineOf(line, useEval, eval).Ok? ==> forall key ::
      key in ParseLineOf(line, useEval, eval).value.params <==>
      exists i :: 0 <= i < |Pieces(line)| && Assigns(Pieces(line)[i], key)
    ensures ParseLineOf(line, useEval, eval).Ok? ==> forall key, i :: LastAssigns(Pieces(line), key, i) ==>
      key in ParseLineOf(line, useEval, eval).value.params &&
      ParseLineOf(line, useEval, eval).value.params[key] == Entry(Pieces(line)[i], useEval, eval).value.value.1
  {
    AttrsOfSpec(Pieces(line), useEval, eval);
    SplitFirstSpec(Strip(Pieces(line)[0]), '=');
  }

  /** Without `literal_eval`, `parse_line` never fails and a value is the
      raw text after the first `=` of the stripped item. */
  lemma ParseLinePlain(line: string, eval: Evaluator, key: string, i: nat)
    requires LastAssigns(Pieces(line), key, i)
    ensures ParseLineOf(line, false, eval).Ok? && key in ParseLineOf(line, false, eval).value.params
    ensures ParseLineOf(line, false, eval).value.params[key] == Cut(Pieces(line)[i]).value.1
  {
    ParseLineSpec(line, false, eval);
  }
}
