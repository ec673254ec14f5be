/** Values shared by every part of the model: bytes, optional values and
    the few Python sequence operations (slicing, `bytes.find`, joining)
    whose exact semantics the server relies on. */
module Basics {

  /** One byte of a Python `bytes` object. */
  newtype byte = x: int | 0 <= x < 256

  datatype Option<T> = None | Some(value: T)

  /** The Python exceptions the modelled code can raise; `OSError` stands
      for its subclasses too (`IsADirectoryError`, `FileNotFoundError`). */
  datatype Error = IndexError | KeyError | ValueError | UnicodeDecodeError | OSError | SyntaxError

  /** A value, or the exception that ended the computation. */
  datatype Result<T> = Ok(value: T) | Err(error: Error)

  /** Python's `min` and `max` on integers. */
  function Min(a: int, b: int): int { if a <= b then a else b }
  function Max(a: int, b: int): int { if a <= b then b else a }

  /** The index a Python slice bound `i` denotes in a sequence of length `n`:
      negative bounds count from the end, and the result is clamped to [0, n]. */
  function SliceIndex(i: int, n: nat): (r: nat)
    ensures r <= n
    ensures 0 <= i <= n ==> r == i
    ensures i > n ==> r == n
    ensures i < 0 ==> r == Max(i + n, 0)
  {
    if i < 0 then Max(i + n, 0) else Min(i, n)
  }

  /** Python's `s[i:j]`, for arbitrary integer bounds. */
  function PySlice<T>(s: seq<T>, i: int, j: int): (r: seq<T>)
    ensures |r| <= |s|
    ensures SliceIndex(i, |s|) <= SliceIndex(j, |s|) ==> r == s[SliceIndex(i, |s|)..SliceIndex(j, |s|)]
    ensures SliceIndex(i, |s|) > SliceIndex(j, |s|) ==> r == []
  {
    var a, b := SliceIndex(i, |s|), SliceIndex(j, |s|);
    if a <= b then s[a..b] else []
  }

  /** A slice with bounds inside the sequence. */
  lemma PySliceIn<T>(s: seq<T>, i: nat, j: nat)
    requires i <= j <= |s|
    ensures PySlice(s, i, j) == s[i..j]
  {
  }

  /** Adjacent slices with non-negative bounds join into one slice. */
  lemma PySliceConcat<T>(s: seq<T>, i: nat, j: nat, k: nat)
    requires i <= j <= k
    ensures PySlice(s, i, j) + PySlice(s, j, k) == PySlice(s, i, k)
  {
  }

  /** `sub` occurs in `s` at position `i`. */
  predicate OccursAt<T(==)>(s: seq<T>, sub: seq<T>, i: int)
  {
    0 <= i && i + |sub| <= |s| && s[i..i + |sub|] == sub
  }

  /** `sub[j..]` matches `s` from position `i + j` on, compared element by element. */
  predicate MatchesFrom<T(==)>(s: seq<T>, sub: seq<T>, i: nat, j: nat)
    requires i + |sub| <= |s| && j <= |sub|
    decreases |sub| - j
  {
    j == |sub| || (s[i + j] == sub[j] && MatchesFrom(s, sub, i, j + 1))
  }

  lemma {:induction false} MatchesFromSpec<T>(s: seq<T>, sub: seq<T>, i: nat, j: nat)
    requires i + |sub| <= |s| && j <= |sub|
    ensures MatchesFrom(s, sub, i, j) <==> forall k :: j <= k < |sub| ==> s[i + k] == sub[k]
    decreases |sub| - j
  {
    if j < |sub| {
      MatchesFromSpec(s, sub, i, j + 1);
    }
  }

  /** The element-wise comparison decides the occurrence. */
  lemma MatchesOccurs<T>(s: seq<T>, sub: seq<T>, i: nat)
    requires i + |sub| <= |s|
    ensures MatchesFrom(s, sub, i, 0) <==> OccursAt(s, sub, i)
  {
    MatchesFromSpec(s, sub, i, 0);
    if forall k :: 0 <= k < |sub| ==> s[i + k] == sub[k] {
      assert s[i..i + |sub|] == sub;
    }
  }

  /** Python's `s.find(sub, start)` for a non-negative `start`: the least
      position at or after `start` where `sub` occurs, or -1. */
  function Find<T(==)>(s: seq<T>, sub: seq<T>, start: nat): (r: int)
    ensures r == -1 || (start <= r && r + |sub| <= |s|)
    decreases |s| - start
  {
    if start + |sub| > |s| then -1
    else if MatchesFrom(s, sub, start, 0) then start
    else Find(s, sub, start + 1)
  }

  /** `find` gives the first occurrence at or after `start`, and -1 only
      when there is none. */
  lemma {:induction false} FindSpec<T>(s: seq<T>, sub: seq<T>, start: nat)
    ensures Find(s, sub, start) != -1 ==> OccursAt(s, sub, Find(s, sub, start))
    ensures forall i :: start <= i && (Find(s, sub, start) == -1 || i < Find(s, sub, start)) ==> !OccursAt(s, sub, i)
    decreases |s| - start
  {
    if start + |sub| <= |s| {
      MatchesOccurs(s, sub, start);
      if !MatchesFrom(s, sub, start, 0) {
        FindSpec(s, sub, start + 1);
      }
    }
  }

  /** An occurrence at `start` is what `find` from `start` gives. */
  lemma FindHere<T>(s: seq<T>, sub: seq<T>, start: nat)
    requires OccursAt(s, sub, start)
    ensures Find(s, sub, start) == start
  {
    MatchesOccurs(s, sub, start);
  }

  /** Searching a concatenation from inside its second half searches the
      second half alone. */
  lemma FindInSuffix<T>(x: seq<T>, s: seq<T>, sub: seq<T>, k: nat)
    ensures Find(x + s, sub, |x| + k) == (if Find(s, sub, k) == -1 then -1 else |x| + Find(s, sub, k))
  {
    var r, q := Find(x + s, sub, |x| + k), Find(s, sub, k);
    FindSpec(x + s, sub, |x| + k);
    FindSpec(s, sub, k);
    forall i | 0 <= i
      ensures OccursAt(x + s, sub, |x| + i) <==> OccursAt(s, sub, i)
    {
      if i + |sub| <= |s| {
        assert (x + s)[|x| + i..|x| + i + |sub|] == s[i..i + |sub|];
      }
    }
    if q != -1 {
      assert OccursAt(x + s, sub, |x| + q);
    }
    if r != -1 {
      assert OccursAt(x + s, sub, |x| + (r - |x|));
      assert OccursAt(s, sub, r - |x|);
    }
  }

  /** Searching a concatenation finds an occurrence inside the first part
      when there is one that lies wholly inside it. */
  lemma FindInPrefix<T>(s: seq<T>, y: seq<T>, sub: seq<T>, k: nat)
    requires Find(s, sub, k) != -1
    ensures Find(s + y, sub, k) == Find(s, sub, k)
  {
    var q := Find(s, sub, k);
    FindSpec(s, sub, k);
    FindSpec(s + y, sub, k);
    forall i | 0 <= i
      ensures i + |sub| <= |s| ==> (OccursAt(s + y, sub, i) <==> OccursAt(s, sub, i))
    {
      if i + |sub| <= |s| {
        assert (s + y)[i..i + |sub|] == s[i..i + |sub|];
      }
    }
    assert OccursAt(s + y, sub, q);
  }

  /** Python's `b"".join(chunks)`. */
  function Flatten<T>(chunks: seq<seq<T>>): (r: seq<T>)
    decreases |chunks|
  {
    if chunks == [] then [] else Flatten(chunks[..|chunks| - 1]) + chunks[|chunks| - 1]
  }

  lemma {:induction false} FlattenAppend<T>(a: seq<seq<T>>, b: seq<seq<T>>)
    ensures Flatten(a + b) == Flatten(a) + Flatten(b)
    decreases |b|
  {
    if b == [] {
      assert a + b == a;
    } else {
      var init, last := b[..|b| - 1], b[|b| - 1];
      assert (a + b)[..|a + b| - 1] == a + init;
      assert Flatten(a + b) == Flatten(a + init) + last;
      FlattenAppend(a, init);
    }
  }

  lemma ConsTail<T>(h: T, rest: seq<T>)
    ensures ([h] + rest)[0] == h && ([h] + rest)[1..] == rest
  {
  }

  lemma ConsSplit<T>(s: seq<T>)
    requires s != []
    ensures s == [s[0]] + s[1..]
  {
  }

  lemma FlattenCons<T>(c: seq<T>, rest: seq<seq<T>>)
    ensures Flatten([c] + rest) == c + Flatten(rest)
  {
    FlattenAppend([c], rest);
    assert Flatten([c]) == Flatten([]) + c;
  }

  /** The sum of a list of natural numbers (Python's `sum`). */
  function Sum(xs: seq<nat>): nat
    decreases |xs|
  {
    if xs == [] then 0 else Sum(xs[..|xs| - 1]) + xs[|xs| - 1]
  }

  /** Applying `f` to each of the first `n` elements in order, as a loop
      that stops at the first error does: the first error, or every result. */
  function MapResults<T, U>(xs: seq<T>, n: nat, f: T -> Result<U>): (r: Result<seq<U>>)
    requires n <= |xs|
    ensures r.Ok? ==> |r.value| == n
  {
    if n == 0 then Ok([])
    else
      match MapResults(xs, n - 1, f)
      case Err(e) => Err(e)
      case Ok(init) =>
        match f(xs[n - 1])
        case Err(e) => Err(e)
        case Ok(v) => Ok(init + [v])
  }

  /** The loop succeeds iff `f` succeeds on every element, and then gives
      each element's result in order. */
  lemma {:induction false} MapResultsSpec<T, U>(xs: seq<T>, n: nat, f: T -> Result<U>)
    requires n <= |xs|
    ensures MapResults(xs, n, f).Ok? <==> forall i :: 0 <= i < n ==> f(xs[i]).Ok?
    ensures MapResults(xs, n, f).Ok? ==> forall i :: 0 <= i < n ==> MapResults(xs, n, f).value[i] == f(xs[i]).value
  {
    if n > 0 {
      MapResultsSpec(xs, n - 1, f);
    }
  }

  /** Once the loop has failed, the later elements do not change its result. */
  lemma {:induction false} MapResultsErr<T, U>(xs: seq<T>, n: nat, f: T -> Result<U>)
    requires n <= |xs| && MapResults(xs, n, f).Err?
    ensures MapResults(xs, |xs|, f) == MapResults(xs, n, f)
    decreases |xs| - n
  {
    if n < |xs| {
      MapResultsErr(xs, n + 1, f);
    }
  }
}
