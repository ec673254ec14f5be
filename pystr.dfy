/** The Python `str` operations the server applies to header text:
    `strip`, `split(sep)`, `split(sep, 1)`, `lower`, `int` and `%d`. */
module PyStr {
  import opened Basics

  /** `c.isspace()` in Python 3: the characters `str.strip()` removes. */
  predicate IsSpace(c: char)
  {
    var n := c as int;
    (0x09 <= n <= 0x0D) || (0x1C <= n <= 0x20) || n == 0x85 || n == 0xA0 || n == 0x1680
    || (0x2000 <= n <= 0x200A) || n == 0x2028 || n == 0x2029 || n == 0x202F || n == 0x205F
    || n == 0x3000
  }

  /** The end of the run of whitespace that starts at `i`. */
  function SpaceEnd(s: string, i: nat): (n: nat)
    requires i <= |s|
    ensures i <= n <= |s|
    decreases |s| - i
  {
    if i < |s| && IsSpace(s[i]) then SpaceEnd(s, i + 1) else i
  }

  lemma {:induction false} SpaceEndSpec(s: string, i: nat)
    requires i <= |s|
    ensures forall k :: i <= k < SpaceEnd(s, i) ==> IsSpace(s[k])
    ensures SpaceEnd(s, i) < |s| ==> !IsSpace(s[SpaceEnd(s, i)])
    decreases |s| - i
  {
    if i < |s| && IsSpace(s[i]) {
      SpaceEndSpec(s, i + 1);
    }
  }

  /** The start of the run of whitespace that ends at `j`. */
  function SpaceStart(s: string, j: nat): (n: nat)
    requires j <= |s|
    ensures n <= j
    decreases j
  {
    if j > 0 && IsSpace(s[j - 1]) then SpaceStart(s, j - 1) else j
  }

  lemma {:induction false} SpaceStartSpec(s: string, j: nat)
    requires j <= |s|
    ensures forall k :: SpaceStart(s, j) <= k < j ==> IsSpace(s[k])
    ensures SpaceStart(s, j) > 0 ==> !IsSpace(s[SpaceStart(s, j) - 1])
    decreases j
  {
    if j > 0 && IsSpace(s[j - 1]) {
      SpaceStartSpec(s, j - 1);
    }
  }

  /** `s.strip()`: `s` without its leading and trailing whitespace. */
  function Strip(s: string): (r: string)
    ensures |r| <= |s|
  {
    var i, j := SpaceEnd(s, 0), SpaceStart(s, |s|);
    if j <= i then [] else s[i..j]
  }

  /** What `strip` removes is whitespace, and what it keeps neither starts
      nor ends with whitespace; a string without whitespace is kept whole. */
  lemma StripSpec(s: string)
    ensures exists i, j :: (0 <= i <= j <= |s| && Strip(s) == s[i..j]
      && (forall k :: 0 <= k < i ==> IsSpace(s[k]))
      && (forall k :: j <= k < |s| ==> IsSpace(s[k])))
    ensures Strip(s) != [] ==> !IsSpace(Strip(s)[0]) && !IsSpace(Strip(s)[|Strip(s)| - 1])
    ensures (forall k :: 0 <= k < |s| ==> !IsSpace(s[k])) ==> Strip(s) == s
  {
    var i, j := SpaceEnd(s, 0), SpaceStart(s, |s|);
    SpaceEndSpec(s, 0);
    SpaceStartSpec(s, |s|);
    if j <= i {
      assert Strip(s) == s[|s|..|s|];
    } else {
      assert Strip(s) == s[i..j];
    }
  }

  /** The position of the first `c` at or after `i`, or `|s|`. */
  function CharFrom(s: string, c: char, i: nat): (r: nat)
    requires i <= |s|
    ensures i <= r <= |s|
    ensures r < |s| ==> s[r] == c
    decreases |s| - i
  {
    if i == |s| || s[i] == c then i else CharFrom(s, c, i + 1)
  }

  lemma {:induction false} CharFromSpec(s: string, c: char, i: nat)
    requires i <= |s|
    ensures forall k :: i <= k < CharFrom(s, c, i) ==> s[k] != c
    decreases |s| - i
  {
    if i < |s| && s[i] != c {
      CharFromSpec(s, c, i + 1);
    }
  }

  /** `c` occurs in `s` iff a search from the start finds it, and then
      no `c` comes before the position found. */
  lemma CharFromFirst(s: string, c: char)
    ensures c in s <==> CharFrom(s, c, 0) < |s|
    ensures c !in s[..CharFrom(s, c, 0)]
  {
    CharFromSpec(s, c, 0);
  }

  /** `s.split(sep)` for a one-character separator. */
  function Split(s: string, sep: char): (r: seq<string>)
    ensures |r| >= 1
    decreases |s|
  {
    var i := CharFrom(s, sep, 0);
    if i == |s| then [s] else [s[..i]] + Split(s[i + 1..], sep)
  }

  /** No piece contains the separator, and a string without it is one piece. */
  lemma {:induction false} SplitPieces(s: string, sep: char)
    ensures forall k :: 0 <= k < |Split(s, sep)| ==> sep !in Split(s, sep)[k]
    ensures sep !in s ==> Split(s, sep) == [s]
    decreases |s|
  {
    var i := CharFrom(s, sep, 0);
    CharFromFirst(s, sep);
    if i < |s| {
      SplitPieces(s[i + 1..], sep);
      var r := Split(s, sep);
      assert forall k :: 1 <= k < |r| ==> r[k] == Split(s[i + 1..], sep)[k - 1];
    }
  }

  /** A string holding the separator splits into at least two pieces. */
  lemma SplitCount(s: string, sep: char)
    ensures sep in s <==> |Split(s, sep)| >= 2
  {
    CharFromFirst(s, sep);
  }

  /** Splitting where the first separator is: the text before it, then
      the pieces of the rest. */
  lemma SplitHead(a: string, rest: string, sep: char)
    requires sep !in a
    ensures Split(a + [sep] + rest, sep) == [a] + Split(rest, sep)
  {
    var s := a + [sep] + rest;
    CharFromSpec(s, sep, 0);
    var i := CharFrom(s, sep, 0);
    assert s[|a|] == sep;
    assert i == |a|;
    assert s[..i] == a;
    assert s[i + 1..] == rest;
  }

  /** Splitting at the only separator gives the two sides. */
  lemma SplitPair(a: string, b: string, sep: char)
    requires sep !in a && sep !in b
    ensures Split(a + [sep] + b, sep) == [a, b]
  {
    SplitHead(a, b, sep);
    SplitPieces(b, sep);
  }

  /** `sep.join(pieces)`, the inverse of `Split`. */
  function Join(pieces: seq<string>, sep: char): string
  {
    if pieces == [] then [] else if |pieces| == 1 then pieces[0]
    else pieces[0] + [sep] + Join(pieces[1..], sep)
  }

  /** Splitting loses nothing: joining the pieces gives back the string. */
  lemma {:induction false} JoinSplit(s: string, sep: char)
    ensures Join(Split(s, sep), sep) == s
    decreases |s|
  {
    var i := CharFrom(s, sep, 0);
    if i < |s| {
      var rest := Split(s[i + 1..], sep);
      var pieces := Split(s, sep);
      assert pieces == [s[..i]] + rest;
      assert |pieces| >= 2 && pieces[0] == s[..i] && pieces[1..] == rest;
      assert Join(pieces, sep) == s[..i] + [sep] + Join(rest, sep);
      JoinSplit(s[i + 1..], sep);
      assert s == s[..i] + [sep] + s[i + 1..];
    }
  }

  /** `s.split(sep, 1)` viewed as a pair: None when `sep` does not occur
      (the one-element list), else the text before and after the first `sep`. */
  function SplitFirst(s: string, sep: char): Option<(string, string)>
  {
    var i := CharFrom(s, sep, 0);
    if i == |s| then None else Some((s[..i], s[i + 1..]))
  }

  /** `split(sep, 1)` splits iff `sep` occurs, and its two parts surround
      the first `sep`. */
  lemma SplitFirstSpec(s: string, sep: char)
    ensures SplitFirst(s, sep).None? <==> sep !in s
    ensures SplitFirst(s, sep).Some? ==>
      s == SplitFirst(s, sep).value.0 + [sep] + SplitFirst(s, sep).value.1 && sep !in SplitFirst(s, sep).value.0
  {
    var i := CharFrom(s, sep, 0);
    CharFromFirst(s, sep);
    if i < |s| {
      assert s == s[..i] + [sep] + s[i + 1..];
    }
  }

  /** The split happens at the first `sep`, wherever that is. */
  lemma SplitFirstAt(s: string, sep: char, i: nat)
    requires i < |s| && s[i] == sep && sep !in s[..i]
    ensures SplitFirst(s, sep) == Some((s[..i], s[i + 1..]))
  {
    CharFromSpec(s, sep, 0);
  }

  /** ASCII case folding of one character. */
  function LowerChar(c: char): (r: char)
    ensures 'A' <= c <= 'Z' ==> r as int == c as int + 32
    ensures !('A' <= c <= 'Z') ==> r == c
  {
    if 'A' <= c <= 'Z' then (c as int + 32) as char else c
  }

  /** `s.lower()`, restricted to ASCII letters. */
  function Lower(s: string): (r: string)
    ensures |r| == |s|
    ensures forall i :: 0 <= i < |s| ==> r[i] == LowerChar(s[i])
  {
    seq(|s|, i requires 0 <= i < |s| => LowerChar(s[i]))
  }

  predicate IsDigit(c: char) { '0' <= c <= '9' }

  /** A run of ASCII digits where single underscores may separate digits,
      as Python's `int()` accepts them. */
  predicate IsDigitRun(t: string)
  {
    && t != [] && IsDigit(t[0]) && IsDigit(t[|t| - 1])
    && (forall k :: 0 <= k < |t| ==> IsDigit(t[k]) || t[k] == '_')
    && (forall k :: 0 <= k < |t| - 1 ==> !(t[k] == '_' && t[k + 1] == '_'))
  }

  /** The value of the digits of `t`, underscores skipped. */
  function DigitsValue(t: string): nat
    decreases |t|
  {
    if t == [] then 0
    else if IsDigit(t[|t| - 1]) then DigitsValue(t[..|t| - 1]) * 10 + (t[|t| - 1] as int - '0' as int)
    else DigitsValue(t[..|t| - 1])
  }

  /** Python's `int(s)` on a string, ASCII digits only: surrounding whitespace
      is ignored, a sign is optional; None when Python raises `ValueError`. */
  function PyInt(s: string): (r: Option<int>)
    ensures r.Some? && '-' !in s ==> r.value >= 0
  {
    var t := Strip(s);
    if t != [] && (t[0] == '+' || t[0] == '-') then
      if IsDigitRun(t[1..]) then
        var v: int := DigitsValue(t[1..]);
        Some(if t[0] == '-' then -v else v)
      else None
    else if IsDigitRun(t) then Some(DigitsValue(t))
    else None
  }

  /** The decimal digits of `n`, as Python's `%d` and `str()` print it. */
  function Decimal(n: nat): (r: string)
    ensures r != [] && forall k :: 0 <= k < |r| ==> IsDigit(r[k])
    decreases n
  {
    if n < 10 then [('0' as int + n) as char]
    else Decimal(n / 10) + [('0' as int + n % 10) as char]
  }

  lemma {:induction false} DigitsValueDecimal(n: nat)
    ensures DigitsValue(Decimal(n)) == n
    decreases n
  {
    var d := Decimal(n);
    if n < 10 {
      assert d[..0] == [];
    } else {
      DigitsValueDecimal(n / 10);
      assert d[..|d| - 1] == Decimal(n / 10);
    }
  }

  /** `int()` reads back what `%d` prints. */
  lemma PyIntDecimal(n: nat)
    ensures PyInt(Decimal(n)) == Some(n)
  {
    var d := Decimal(n);
    assert forall k :: 0 <= k < |d| ==> !IsSpace(d[k]);
    StripSpec(d);
    assert Strip(d) == d;
    DigitsValueDecimal(n);
  }
}
