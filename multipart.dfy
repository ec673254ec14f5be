/** `split_formdata`, which cuts a `multipart/form-data` body into its parts,
    and the extraction of a part's content after its header block.

    The loop keeps `idx`, the position after the line end that follows the
    last boundary found (None before the first search). Each iteration finds
    the next boundary from `idx`; when `idx` is set, the bytes from `idx` to 4
    before that boundary (its `\r\n--` prefix) are one part. When no line end
    follows a boundary, `find` gives -1 and `idx` becomes 1; if the same
    happens again the loop is back in the state it had and never ends. */
module Multipart {
  import opened Basics
  import Utf8

  const CRLF: seq<byte> := [13, 10]
  const DASHES: seq<byte> := [45, 45]
  /** The blank line that ends a part's header block. */
  const CRLF2: seq<byte> := [13, 10, 13, 10]

  /** How the `while` loop ends: by the early `return` (the generator then
      yields nothing), or normally with the collected `(start, end)` spans. */
  datatype Ending = Returned | Finished(spans: seq<(int, int)>)

  /** What iterating over `split_formdata(...)` gives: the parts, or a loop
      that never ends. */
  datatype Outcome = Yields(parts: seq<seq<byte>>) | Hangs

  /** The position the loop searches from. */
  function From(idx: Option<nat>): nat
  {
    if idx.None? then 0 else idx.value
  }

  /** What one iteration of the loop does in state `idx`: leave the loop,
      take the early `return`, or append a span (not in the first iteration)
      and move to a new `idx`. */
  datatype Step = Exit | Return | Go(span: Option<(int, int)>, next: nat)

  /** The span an iteration in state `idx` appends when the boundary is at `result`. */
  function SpanAt(idx: Option<nat>, result: int): Option<(int, int)>
  {
    if idx.Some? then Some((idx.value, result - 4)) else None
  }

  /** One iteration of the `while` loop of `split_formdata`. */
  function Next(data: seq<byte>, b: seq<byte>, idx: Option<nat>): Step
  {
    if idx.Some? && idx.value >= |data| then Exit
    else
      var result := Find(data, b, From(idx));
      if result == -1 then Return
      else Hop(data, b, idx, result)
  }

  /** The iteration that found the boundary at `result`: the span, and the
      position after the line end that follows the boundary (1 when there
      is none, as `find` then gives -1). */
  function Hop(data: seq<byte>, b: seq<byte>, idx: Option<nat>, result: nat): Step
    requires result + |b| <= |data|
  {
    Go(SpanAt(idx, result), Find(data, CRLF, result + |b|) + 2)
  }

  /** The loop's iteration function for a body and a boundary. */
  function Machine(data: seq<byte>, b: seq<byte>): Option<nat> -> Step
  {
    idx => Next(data, b, idx)
  }

  function Append(slices: seq<(int, int)>, span: Option<(int, int)>): seq<(int, int)>
  {
    if span.Some? then slices + [span.value] else slices
  }

  /** A loop with iteration function `m` run for at most `fuel` iterations
      from state `idx` with the spans `slices` collected so far: None when
      the fuel runs out first. */
  function Run(m: Option<nat> -> Step, idx: Option<nat>, slices: seq<(int, int)>, fuel: nat): Option<Ending>
    decreases fuel
  {
    if fuel == 0 then None
    else
      match m(idx)
      case Exit => Some(Finished(slices))
      case Return => Some(Returned)
      case Go(span, next) => Run(m, Some(next), Append(slices, span), fuel - 1)
  }

  /** The final `for` loop: `data[start:end]` for each span, with Python's
      slice semantics (an end below zero counts from the back). */
  function PartsOf(data: seq<byte>, spans: seq<(int, int)>): (r: seq<seq<byte>>)
    ensures |r| == |spans|
    decreases |spans|
  {
    if spans == [] then []
    else [PySlice(data, spans[0].0, spans[0].1)] + PartsOf(data, spans[1..])
  }

  /** The parts the generator yields for a loop that ended. */
  function Yielded(data: seq<byte>, e: Ending): seq<seq<byte>>
  {
    match e
    case Returned => []
    case Finished(spans) => PartsOf(data, spans)
  }

  /** Some number of iterations ends the loop. */
  ghost predicate Halts(data: seq<byte>, b: seq<byte>)
  {
    exists fuel :: Run(Machine(data, b), None, [], fuel).Some?
  }

  /** A number of iterations after which the loop has ended. */
  ghost function HaltingFuel(data: seq<byte>, b: seq<byte>): (fuel: nat)
    requires Halts(data, b)
    ensures Run(Machine(data, b), None, [], fuel).Some?
  {
    var f: nat :| Run(Machine(data, b), None, [], f).Some?; f
  }

  /** What `split_formdata` does, with the boundary already encoded. */
  ghost function SplitOutcome(data: seq<byte>, b: seq<byte>): Outcome
  {
    if Halts(data, b) then Yields(Yielded(data, Run(Machine(data, b), None, [], HaltingFuel(data, b)).value))
    else Hangs
  }

  lemma RunGo(m: Option<nat> -> Step, idx: Option<nat>, slices: seq<(int, int)>, f: nat)
    requires m(idx).Go?
    ensures Run(m, idx, slices, f + 1) == Run(m, Some(m(idx).next), Append(slices, m(idx).span), f)
  {
  }

  /** The state after `n` iterations from the start, when each of them
      went on to a next state: its `idx` and the spans collected. */
  function StateAfter(m: Option<nat> -> Step, n: nat): Option<(Option<nat>, seq<(int, int)>)>
    decreases n
  {
    if n == 0 then Some((None, []))
    else
      match StateAfter(m, n - 1)
      case None => None
      case Some(st) => if m(st.0).Go? then Some((Some(m(st.0).next), Append(st.1, m(st.0).span))) else None
  }

  /** A run from the start is, after `n` iterations, a run from the state
      that `StateAfter` gives. */
  lemma {:induction false} RunAfter(m: Option<nat> -> Step, n: nat, idx: Option<nat>, slices: seq<(int, int)>, f: nat)
    requires StateAfter(m, n) == Some((idx, slices))
    ensures Run(m, None, [], n + f) == Run(m, idx, slices, f)
    decreases n
  {
    if n > 0 {
      var st := StateAfter(m, n - 1).value;
      RunAfter(m, n - 1, st.0, st.1, f + 1);
      RunGo(m, st.0, st.1, f);
    }
  }

  /** Two visits to state 1: the run never ends. */
  lemma ReachedTwice(m: Option<nat> -> Step, s1: nat, t1: seq<(int, int)>, s2: nat, t2: seq<(int, int)>)
    requires s1 < s2
    requires StateAfter(m, s1) == Some((Some(1), t1)) && StateAfter(m, s2) == Some((Some(1), t2))
    ensures forall f: nat :: Run(m, None, [], f).None?
  {
    var n := s2 - s1;
    forall g: nat
      ensures Run(m, Some(1), t1, g + n).None? == Run(m, Some(1), t1, g).None?
    {
      RunAfter(m, s1, Some(1), t1, g + n);
      RunAfter(m, s2, Some(1), t2, g);
      RunSlicesNone(m, Some(1), t1, t2, g);
    }
    forall f: nat
      ensures Run(m, None, [], f).None?
    {
      CycleNone(m, 1, t1, n, if f >= s1 then f - s1 else 0);
      if f >= s1 {
        RunAfter(m, s1, Some(1), t1, f - s1);
      } else {
        RunAfter(m, s1, Some(1), t1, 0);
        if Run(m, None, [], f).Some? {
          RunMore(m, None, [], f, s1 - f);
        }
      }
    }
  }

  /** An iteration that finds the boundary at `result`. */
  lemma NextGo(data: seq<byte>, b: seq<byte>, idx: Option<nat>, result: int)
    requires idx.None? || idx.value < |data|
    requires result == Find(data, b, From(idx)) && result != -1
    ensures Machine(data, b)(idx) == Next(data, b, idx) == Hop(data, b, idx, result)
  {
  }

  /** The iteration that finds the boundary at `result`, field by field. */
  lemma NextGoAt(data: seq<byte>, b: seq<byte>, idx: Option<nat>, result: int)
    requires idx.None? || idx.value < |data|
    requires result == Find(data, b, From(idx)) && result != -1
    ensures var st := Machine(data, b)(idx);
      st.Go? && st.span == SpanAt(idx, result) && st.next == Find(data, CRLF, result + |b|) + 2
  {
    NextGo(data, b, idx, result);
  }

  /** More fuel does not change a run that has ended. */
  lemma {:induction false} RunMore(m: Option<nat> -> Step, idx: Option<nat>, slices: seq<(int, int)>, fuel: nat, more: nat)
    requires Run(m, idx, slices, fuel).Some?
    ensures Run(m, idx, slices, fuel + more) == Run(m, idx, slices, fuel)
    decreases fuel
  {
    if m(idx).Go? {
      RunMore(m, Some(m(idx).next), Append(slices, m(idx).span), fuel - 1, more);
    }
  }

  /** Whether the loop ends within `fuel` iterations does not depend on the
      spans collected so far. */
  lemma {:induction false} RunSlicesNone(m: Option<nat> -> Step, idx: Option<nat>, s: seq<(int, int)>, t: seq<(int, int)>, fuel: nat)
    ensures Run(m, idx, s, fuel).None? == Run(m, idx, t, fuel).None?
    decreases fuel
  {
    if fuel > 0 && m(idx).Go? {
      RunSlicesNone(m, Some(m(idx).next), Append(s, m(idx).span), Append(t, m(idx).span), fuel - 1);
    }
  }

  /** A run that ends with some fuel gives `split_formdata`'s result. */
  lemma OutcomeOf(data: seq<byte>, b: seq<byte>, fuel: nat)
    requires Run(Machine(data, b), None, [], fuel).Some?
    ensures SplitOutcome(data, b) == Yields(Yielded(data, Run(Machine(data, b), None, [], fuel).value))
  {
    var m := Machine(data, b);
    var f := HaltingFuel(data, b);
    if f <= fuel {
      RunMore(m, None, [], f, fuel - f);
    } else {
      RunMore(m, None, [], fuel, f - fuel);
    }
  }

  /** A state the loop returns to after `n` iterations, whatever it had
      collected, is never left. */
  lemma {:induction false} CycleNone(m: Option<nat> -> Step, i: nat, t: seq<(int, int)>, n: nat, f: nat)
    requires n >= 1
    requires forall g: nat :: Run(m, Some(i), t, g + n).None? == Run(m, Some(i), t, g).None?
    ensures Run(m, Some(i), t, f).None?
    decreases f
  {
    assert Run(m, Some(i), t, 0 + n).None? == Run(m, Some(i), t, 0).None?;
    if f <= n {
      if Run(m, Some(i), t, f).Some? {
        RunMore(m, Some(i), t, f, n - f);
      }
    } else {
      assert Run(m, Some(i), t, (f - n) + n).None? == Run(m, Some(i), t, f - n).None?;
      CycleNone(m, i, t, n, f - n);
    }
  }

  /** An iteration of `split_formdata`'s loop that finds the boundary. */
  lemma StateStep(data: seq<byte>, b: seq<byte>, steps: nat, idx: Option<nat>, slices: seq<(int, int)>,
                  result: int, next: nat, slices': seq<(int, int)>)
    requires StateAfter(Machine(data, b), steps) == Some((idx, slices))
    requires (idx.None? || idx.value < |data|) && result == Find(data, b, From(idx)) && result != -1
    requires next == Find(data, CRLF, result + |b|) + 2
    requires slices' == if idx.Some? then slices + [(idx.value, result - 4)] else slices
    ensures StateAfter(Machine(data, b), steps + 1) == Some((Some(next), slices'))
    ensures next == 1 || (idx.Some? ==> next > idx.value)
  {
    NextGo(data, b, idx, result);
  }

  /** The loop has ended after `steps` iterations in state `idx`. */
  lemma HaltsAt(data: seq<byte>, b: seq<byte>, steps: nat, idx: Option<nat>, slices: seq<(int, int)>)
    requires StateAfter(Machine(data, b), steps) == Some((idx, slices))
    requires !Next(data, b, idx).Go?
    ensures SplitOutcome(data, b) ==
      Yields(Yielded(data, if Next(data, b, idx).Exit? then Finished(slices) else Returned))
  {
    MachineAt(data, b, idx);
    RunHalt(Machine(data, b), steps, idx, slices, Next(data, b, idx));
    OutcomeEnds(data, b, steps + 1, if Next(data, b, idx).Exit? then Finished(slices) else Returned);
  }

  /** A run that ends with `e` gives the outcome `e` yields. */
  lemma OutcomeEnds(data: seq<byte>, b: seq<byte>, fuel: nat, e: Ending)
    requires Run(Machine(data, b), None, [], fuel) == Some(e)
    ensures SplitOutcome(data, b) == Yields(Yielded(data, e))
  {
    OutcomeOf(data, b, fuel);
  }

  lemma MachineAt(data: seq<byte>, b: seq<byte>, idx: Option<nat>)
    ensures Machine(data, b)(idx) == Next(data, b, idx)
  {
  }

  /** A loop whose iteration function stops in the state reached after
      `n` iterations ends after `n + 1`. */
  lemma RunHalt(m: Option<nat> -> Step, n: nat, idx: Option<nat>, slices: seq<(int, int)>, step: Step)
    requires StateAfter(m, n) == Some((idx, slices))
    requires m(idx) == step && !step.Go?
    ensures Run(m, None, [], n + 1) == Some(if step.Exit? then Finished(slices) else Returned)
  {
    RunAfter(m, n, idx, slices, 1);
  }

  /** The early `return`: the boundary is not found from `idx`. */
  lemma ReturnsAt(data: seq<byte>, b: seq<byte>, steps: nat, idx: Option<nat>, slices: seq<(int, int)>)
    requires StateAfter(Machine(data, b), steps) == Some((idx, slices))
    requires (idx.None? || idx.value < |data|) && Find(data, b, From(idx)) == -1
    ensures SplitOutcome(data, b) == Yields([])
  {
    HaltsAt(data, b, steps, idx, slices);
  }

  /** The loop condition fails: the spans collected are sliced out. */
  lemma ExitsAt(data: seq<byte>, b: seq<byte>, steps: nat, idx: Option<nat>, slices: seq<(int, int)>)
    requires StateAfter(Machine(data, b), steps) == Some((idx, slices))
    requires idx.Some? && idx.value >= |data|
    ensures SplitOutcome(data, b) == Yields(PartsOf(data, slices))
  {
    HaltsAt(data, b, steps, idx, slices);
  }

  /** `split_formdata`'s loop, run until it ends or until it is seen to be
      back in a state it had, and then the `for` loop over the spans. */
  method SplitParts(data: seq<byte>, b: seq<byte>) returns (r: Outcome)
    ensures r == SplitOutcome(data, b)
  {
    var idx: Option<nat> := None;
    var slices: seq<(int, int)> := [];
    var resetSeen := false;
    ghost var steps: nat := 0;
    ghost var firstSteps: nat := 0;
    ghost var firstSlices: seq<(int, int)> := [];
    while idx.None? || idx.value < |data|
      invariant StateAfter(Machine(data, b), steps) == Some((idx, slices))
      invariant resetSeen ==> firstSteps <= steps && StateAfter(Machine(data, b), firstSteps) == Some((Some(1), firstSlices))
      decreases !resetSeen, |data| - (if idx.None? then -1 else idx.value)
    {
      var result := Find(data, b, From(idx));
      if result == -1 {
        ReturnsAt(data, b, steps, idx, slices);
        return Yields([]);
      }
      var next := Find(data, CRLF, result + |b|) + 2;
      ghost var before := slices;
      if idx.Some? {
        slices := slices + [(idx.value, result - 4)];
      }
      StateStep(data, b, steps, idx, before, result, next, slices);
      if next == 1 {
        if resetSeen {
          Repeats(data, b, firstSteps, firstSlices, steps + 1, slices);
          return Hangs;
        }
        resetSeen, firstSteps, firstSlices := true, steps + 1, slices;
      }
      idx := Some(next);
      steps := steps + 1;
    }
    ExitsAt(data, b, steps, idx, slices);
    r := Yields(PartsOf(data, slices));
  }

  /** Two visits to state `idx == 1`, after `s1` and after `s2` iterations:
      the loop never ends. */
  lemma Repeats(data: seq<byte>, b: seq<byte>, s1: nat, t1: seq<(int, int)>, s2: nat, t2: seq<(int, int)>)
    requires s1 < s2
    requires StateAfter(Machine(data, b), s1) == Some((Some(1), t1))
    requires StateAfter(Machine(data, b), s2) == Some((Some(1), t2))
    ensures SplitOutcome(data, b) == Hangs
  {
    ReachedTwice(Machine(data, b), s1, t1, s2, t2);
  }

  /** `split_formdata(data, boundary)`: the boundary is encoded as UTF-8. */
  method SplitFormdata(data: seq<byte>, boundary: string) returns (r: Outcome)
    ensures r == SplitOutcome(data, Utf8.Encode(boundary))
  {
    r := SplitParts(data, Utf8.Encode(boundary));
  }

  /** Span `sp` runs from just after the line end that follows an occurrence
      of the boundary to 4 bytes before the next occurrence. */
  ghost predicate PartSpan(data: seq<byte>, b: seq<byte>, sp: (int, int))
  {
    exists q :: OccursAt(data, b, q) && sp.0 == Find(data, CRLF, q + |b|) + 2
      && Find(data, b, sp.0) == sp.1 + 4
  }

  /** The loop state after a boundary occurrence. */
  ghost predicate AfterBoundary(data: seq<byte>, b: seq<byte>, idx: Option<nat>)
  {
    idx.Some? ==> exists q :: OccursAt(data, b, q) && idx.value == Find(data, CRLF, q + |b|) + 2
  }

  /** A run keeps a property of the states and a property of the spans
      when every iteration does. */
  lemma {:induction false} RunKeeps(m: Option<nat> -> Step, inv: Option<nat> -> bool, good: ((int, int)) -> bool,
                                    idx: Option<nat>, slices: seq<(int, int)>, fuel: nat)
    requires inv(idx) && forall k :: 0 <= k < |slices| ==> good(slices[k])
    requires forall i :: inv(i) && m(i).Go? ==> inv(Some(m(i).next)) && (m(i).span.Some? ==> good(m(i).span.value))
    ensures Run(m, idx, slices, fuel).Some? && Run(m, idx, slices, fuel).value.Finished? ==>
      forall k :: 0 <= k < |Run(m, idx, slices, fuel).value.spans| ==> good(Run(m, idx, slices, fuel).value.spans[k])
    decreases fuel
  {
    if fuel > 0 && m(idx).Go? {
      var more := Append(slices, m(idx).span);
      assert forall k :: 0 <= k < |more| ==> good(more[k]);
      RunKeeps(m, inv, good, Some(m(idx).next), more, fuel - 1);
    }
  }

  /** One iteration from a state after a boundary moves to a state after a
      boundary, and the span it appends is a `PartSpan`. */
  lemma StepKeeps(data: seq<byte>, b: seq<byte>, i: Option<nat>)
    requires AfterBoundary(data, b, i) && Next(data, b, i).Go?
    ensures AfterBoundary(data, b, Some(Next(data, b, i).next))
    ensures Next(data, b, i).span.Some? ==> PartSpan(data, b, Next(data, b, i).span.value)
  {
    var result := Find(data, b, From(i));
    FindSpec(data, b, From(i));
    NextGo(data, b, i, result);
    assert OccursAt(data, b, result);
    if i.Some? {
      var q :| OccursAt(data, b, q) && i.value == Find(data, CRLF, q + |b|) + 2;
      assert PartSpan(data, b, (i.value, result - 4));
    }
  }

  /** Each part yielded is the bytes from just after the line end that
      follows an occurrence of the boundary up to 4 bytes before the next
      occurrence (the `\r\n--` that precedes it), with Python's slicing. */
  lemma SplitOutcomeParts(data: seq<byte>, b: seq<byte>, fuel: nat)
    requires Run(Machine(data, b), None, [], fuel).Some? && Run(Machine(data, b), None, [], fuel).value.Finished?
    ensures var spans := Run(Machine(data, b), None, [], fuel).value.spans;
      SplitOutcome(data, b) == Yields(PartsOf(data, spans))
      && forall k :: 0 <= k < |spans| ==> PartSpan(data, b, spans[k])
  {
    OutcomeOf(data, b, fuel);
    var m := Machine(data, b);
    var inv := i => AfterBoundary(data, b, i);
    var good := sp => PartSpan(data, b, sp);
    forall i | inv(i) && m(i).Go?
      ensures inv(Some(m(i).next)) && (m(i).span.Some? ==> good(m(i).span.value))
    {
      StepKeeps(data, b, i);
    }
    RunKeeps(m, inv, good, None, [], fuel);
  }

  /** A body without the boundary yields nothing. */
  lemma NoBoundary(data: seq<byte>, b: seq<byte>)
    requires Find(data, b, 0) == -1
    ensures SplitOutcome(data, b) == Yields([])
  {
    HaltsAt(data, b, 0, None, []);
  }

  /** A body with no line end anywhere in which the boundary occurs at a
      position other than 0 hangs the loop: the first search moves `idx` to
      1 (`find` gives -1, plus 2), and from 1 the boundary is found again
      and `idx` is set back to 1. */
  lemma HangsWithoutLineEnd(data: seq<byte>, b: seq<byte>, p: nat)
    requires b != [] && p >= 1 && OccursAt(data, b, p)
    requires forall i :: !OccursAt(data, CRLF, i)
    ensures SplitOutcome(data, b) == Hangs
  {
    var m := Machine(data, b);
    FindSpec(data, b, 0);
    var r0 := Find(data, b, 0);
    assert r0 != -1;
    FindSpec(data, CRLF, r0 + |b|);
    assert m(None) == Go(None, 1);
    FindSpec(data, b, 1);
    var r1 := Find(data, b, 1);
    assert r1 != -1;
    FindSpec(data, CRLF, r1 + |b|);
    assert m(Some(1)) == Go(Some((1, r1 - 4)), 1);
    assert StateAfter(m, 1) == Some((Some(1), []));
    assert Append([], Some((1, r1 - 4))) == [(1, r1 - 4)];
    assert StateAfter(m, 2) == Some((Some(1), [(1, r1 - 4)]));
    Repeats(data, b, 1, [], 2, [(1, r1 - 4)]);
  }

  // ---------------------------------------------------------------------
  // Bodies as a browser writes them

  /** A part, the line end and dashes before the next boundary, and that boundary. */
  function Sep(p: seq<byte>, b: seq<byte>): seq<byte>
  {
    p + CRLF + DASHES + b
  }

  /** The rest of a body after a boundary: each part after a line end and
      followed by `\r\n--` and the boundary, then `close` after the last. */
  function Rest(b: seq<byte>, parts: seq<seq<byte>>, close: seq<byte>): seq<byte>
    decreases |parts|
  {
    if parts == [] then close
    else CRLF + (Sep(parts[0], b) + Rest(b, parts[1..], close))
  }

  /** `y`, a boundary, and the rest. */
  function Body(y: seq<byte>, b: seq<byte>, parts: seq<seq<byte>>, close: seq<byte>): seq<byte>
  {
    (y + b) + Rest(b, parts, close)
  }

  /** `--b\r\n p1 \r\n--b\r\n p2 ... \r\n--b--\r\n`. */
  function Encoded(b: seq<byte>, parts: seq<seq<byte>>): seq<byte>
  {
    Body(DASHES, b, parts, DASHES + CRLF)
  }

  /** The boundary occurs only where the body puts it: not overlapping the
      leading dashes, and in no part or across a part's end. */
  predicate Separable(b: seq<byte>, parts: seq<seq<byte>>)
  {
    && Find(DASHES + b, b, 0) == 2
    && Apart(b, parts)
  }

  /** No part holds the boundary, nor does it start across a part's end. */
  predicate Apart(b: seq<byte>, parts: seq<seq<byte>>)
  {
    forall k :: 0 <= k < |parts| ==> Find(Sep(parts[k], b), b, 0) == |parts[k]| + 4
  }

  /** The spans of the parts of a `Rest` whose first part starts at `start`. */
  function SpansOf(start: int, blen: nat, parts: seq<seq<byte>>): seq<(int, int)>
    decreases |parts|
  {
    if parts == [] then []
    else [(start, start + |parts[0]|)] + SpansOf(start + |parts[0]| + 4 + blen + 2, blen, parts[1..])
  }

  /** Everything up to the end of the boundary after the first part. */
  function Advance(y: seq<byte>, b: seq<byte>, p: seq<byte>): seq<byte>
  {
    ((y + b) + CRLF) + ((p + CRLF) + DASHES)
  }

  lemma Assoc<T>(a: seq<T>, b: seq<T>, c: seq<T>)
    ensures a + (b + c) == (a + b) + c
  {
  }

  lemma BodyStep(y: seq<byte>, b: seq<byte>, parts: seq<seq<byte>>, close: seq<byte>)
    requires parts != []
    ensures Body(y, b, parts, close) == Body(Advance(y, b, parts[0]), b, parts[1..], close)
    ensures Body(y, b, parts, close) == ((y + b) + CRLF) + (Sep(parts[0], b) + Rest(b, parts[1..], close))
  {
    var x, p, r := y + b, parts[0], Rest(b, parts[1..], close);
    Assoc(x, CRLF, Sep(p, b) + r);
    Assoc(x + CRLF, Sep(p, b), r);
    Assoc(x + CRLF, (p + CRLF) + DASHES, b);
  }

  /** A line end follows a boundary that starts a part. */
  lemma LineEndAfter(y: seq<byte>, b: seq<byte>, parts: seq<seq<byte>>, close: seq<byte>)
    requires parts != []
    ensures Find(Body(y, b, parts, close), CRLF, |y| + |b|) == |y| + |b|
  {
    var rest := Rest(b, parts, close);
    assert rest[0..2] == CRLF;
    FindHere(rest, CRLF, 0);
    FindInSuffix(y + b, rest, CRLF, 0);
  }

  /** From the start of a part, the next boundary is the one after it. */
  lemma BoundaryAfter(y: seq<byte>, b: seq<byte>, parts: seq<seq<byte>>, close: seq<byte>)
    requires parts != [] && Find(Sep(parts[0], b), b, 0) == |parts[0]| + 4
    ensures Find(Body(y, b, parts, close), b, |y| + |b| + 2) == |Advance(y, b, parts[0])|
  {
    var x, p, r := y + b, parts[0], Rest(b, parts[1..], close);
    BodyStep(y, b, parts, close);
    FindInSuffix(x + CRLF, Sep(p, b) + r, b, 0);
    FindInPrefix(Sep(p, b), r, b, 0);
  }

  lemma {:induction false} RestClose(b: seq<byte>, parts: seq<seq<byte>>, close: seq<byte>)
    ensures Rest(b, parts, close) == Rest(b, parts, []) + close
    decreases |parts|
  {
    if parts != [] {
      RestClose(b, parts[1..], close);
      var s := Sep(parts[0], b);
      Assoc(s, Rest(b, parts[1..], []), close);
      Assoc(CRLF, s + Rest(b, parts[1..], []), close);
    }
  }

  /** A body is the body without its closing bytes, followed by them. */
  lemma BodyClose(y: seq<byte>, b: seq<byte>, parts: seq<seq<byte>>, close: seq<byte>)
    ensures Body(y, b, parts, close) == Body(y, b, parts, []) + close
  {
    RestClose(b, parts, close);
    Assoc(y + b, Rest(b, parts, []), close);
  }

  /** The search for a line end after the last boundary searches `close`. */
  lemma FinalIndex(y: seq<byte>, b: seq<byte>, parts: seq<seq<byte>>, close: seq<byte>)
    ensures Body(y, b, parts, close) == Body(y, b, parts, []) + close
    ensures Find(Body(y, b, parts, close), CRLF, |Body(y, b, parts, [])|) ==
      if Find(close, CRLF, 0) == -1 then -1 else |Body(y, b, parts, [])| + Find(close, CRLF, 0)
  {
    BodyClose(y, b, parts, close);
    FindInSuffix(Body(y, b, parts, []), close, CRLF, 0);
  }

  /** The position of the last boundary, when the one before the first part is at `q`. */
  function LastBoundary(q: nat, blen: nat, parts: seq<seq<byte>>): nat
    decreases |parts|
  {
    if parts == [] then q else LastBoundary(q + blen + |parts[0]| + 6, blen, parts[1..])
  }

  /** From the boundary at `q` on, a line end follows each boundary before
      a part, and the search for the boundary from the start of each part
      finds the one after that part's `\r\n--`. */
  predicate Walks(data: seq<byte>, b: seq<byte>, q: nat, parts: seq<seq<byte>>)
    decreases |parts|
  {
    parts == [] ||
      (&& Find(data, CRLF, q + |b|) == q + |b|
       && Find(data, b, q + |b| + 2) == q + |b| + |parts[0]| + 6
       && Walks(data, b, q + |b| + |parts[0]| + 6, parts[1..]))
  }

  /** The iterations from state `idx`, whose search finds a boundary at
      `q`: each moves to the start of the next part, and the one after the
      last part moves to state `last`. */
  predicate Chain(m: Option<nat> -> Step, idx: Option<nat>, q: nat, blen: nat, parts: seq<seq<byte>>, last: nat)
    decreases |parts|
  {
    && m(idx).Go? && m(idx).span == SpanAt(idx, q)
    && (if parts == [] then m(idx).next == last
        else (m(idx).next == q + blen + 2
              && Chain(m, Some(q + blen + 2), q + blen + |parts[0]| + 6, blen, parts[1..], last)))
  }

  /** Along a chain the loop collects one span per part in `|parts| + 1`
      iterations and is then in state `last`. */
  lemma {:induction false} RunChain(m: Option<nat> -> Step, idx: Option<nat>, q: nat, blen: nat, parts: seq<seq<byte>>,
                                    last: nat, slices: seq<(int, int)>, fuel: nat)
    requires Chain(m, idx, q, blen, parts, last)
    ensures Run(m, idx, slices, fuel + |parts| + 1) ==
      Run(m, Some(last), Append(slices, SpanAt(idx, q)) + SpansOf(q + blen + 2, blen, parts), fuel)
    decreases |parts|
  {
    var span := SpanAt(idx, q);
    if parts == [] {
      RunGo(m, idx, slices, fuel);
      assert Append(slices, span) + [] == Append(slices, span);
    } else {
      var next := q + blen + 2;
      var q' := q + blen + |parts[0]| + 6;
      RunGo(m, idx, slices, fuel + |parts|);
      RunChain(m, Some(next), q', blen, parts[1..], last, Append(slices, span), fuel);
      Assoc(Append(slices, span), [(next, next + |parts[0]|)], SpansOf(q' + blen + 2, blen, parts[1..]));
    }
  }

  /** A chain from the start that ends in a state that leaves the loop. */
  lemma ChainEnds(m: Option<nat> -> Step, q: nat, blen: nat, parts: seq<seq<byte>>, last: nat)
    requires Chain(m, None, q, blen, parts, last) && m(Some(last)).Exit?
    ensures Run(m, None, [], |parts| + 2) == Some(Finished(SpansOf(q + blen + 2, blen, parts)))
  {
    var spans := SpansOf(q + blen + 2, blen, parts);
    RunChain(m, None, q, blen, parts, last, [], 1);
    assert Append([], SpanAt(None, q)) + spans == spans;
  }

  /** A chain from the start that ends in state 1, and the same chain from
      state 1: the loop never ends. */
  lemma ChainCycle(m: Option<nat> -> Step, q: nat, blen: nat, parts: seq<seq<byte>>)
    requires Chain(m, None, q, blen, parts, 1) && Chain(m, Some(1), q, blen, parts, 1)
    ensures forall f: nat :: Run(m, None, [], f).None?
  {
    var n := |parts| + 1;
    var spans := SpansOf(q + blen + 2, blen, parts);
    assert Append([], SpanAt(None, q)) + spans == spans;
    forall f: nat
      ensures Run(m, None, [], f + n) == Run(m, Some(1), spans, f)
    {
      RunChain(m, None, q, blen, parts, 1, [], f);
    }
    forall g: nat
      ensures Run(m, Some(1), spans, g + n).None? == Run(m, Some(1), spans, g).None?
    {
      RunChain(m, Some(1), q, blen, parts, 1, spans, g);
      RunSlicesNone(m, Some(1), spans, Append(spans, SpanAt(Some(1), q)) + spans, g);
    }
    forall f: nat
      ensures Run(m, None, [], f).None?
    {
      if f >= n {
        assert Run(m, None, [], (f - n) + n) == Run(m, Some(1), spans, f - n);
        CycleNone(m, 1, spans, n, f - n);
      } else {
        assert Run(m, None, [], 0 + n) == Run(m, Some(1), spans, 0);
        if Run(m, None, [], f).Some? {
          RunMore(m, None, [], f, n - f);
        }
      }
    }
  }

  lemma ChainStep(m: Option<nat> -> Step, idx: Option<nat>, q: nat, blen: nat, parts: seq<seq<byte>>,
                  last: nat, next: nat, q': nat)
    requires parts != [] && next == q + blen + 2 && q' == q + blen + |parts[0]| + 6
    requires m(idx).Go? && m(idx).span == SpanAt(idx, q) && m(idx).next == next
    requires Chain(m, Some(next), q', blen, parts[1..], last)
    ensures Chain(m, idx, q, blen, parts, last)
  {
  }

  /** A body laid out as `Walks` says is a chain of the loop. */
  lemma {:induction false} WalksChain(data: seq<byte>, b: seq<byte>, q: nat, parts: seq<seq<byte>>,
                                      idx: Option<nat>, last: nat)
    requires Walks(data, b, q, parts)
    requires (idx.None? || idx.value < |data|) && Find(data, b, From(idx)) == q
    requires last == Find(data, CRLF, LastBoundary(q, |b|, parts) + |b|) + 2
    ensures Chain(Machine(data, b), idx, q, |b|, parts, last)
    decreases |parts|, 1
  {
    if parts == [] {
      WalksLast(data, b, q, parts, idx, last);
    } else {
      WalksMore(data, b, q, parts, idx, last);
    }
  }

  /** The last step of a chain: the boundary after the last part. */
  lemma WalksLast(data: seq<byte>, b: seq<byte>, q: nat, parts: seq<seq<byte>>, idx: Option<nat>, last: nat)
    requires parts == []
    requires (idx.None? || idx.value < |data|) && Find(data, b, From(idx)) == q
    requires last == Find(data, CRLF, LastBoundary(q, |b|, parts) + |b|) + 2
    ensures Chain(Machine(data, b), idx, q, |b|, parts, last)
  {
    NextGoAt(data, b, idx, q);
  }

  /** A step of a chain before a part, then the chain of the rest. */
  lemma {:induction false} WalksMore(data: seq<byte>, b: seq<byte>, q: nat, parts: seq<seq<byte>>,
                                     idx: Option<nat>, last: nat)
    requires parts != [] && Walks(data, b, q, parts)
    requires (idx.None? || idx.value < |data|) && Find(data, b, From(idx)) == q
    requires last == Find(data, CRLF, LastBoundary(q, |b|, parts) + |b|) + 2
    ensures Chain(Machine(data, b), idx, q, |b|, parts, last)
    decreases |parts|, 0
  {
    NextGoAt(data, b, idx, q);
    var next: nat, q': nat := q + |b| + 2, q + |b| + |parts[0]| + 6;
    WalksNext(data, b, q, parts, last, next, q');
    WalksChain(data, b, q', parts[1..], Some(next), last);
    ChainStep(Machine(data, b), idx, q, |b|, parts, last, next, q');
  }

  /** What the step after the first boundary of a `Walks` layout needs:
      the line end, the search from the next state, and the rest of the
      layout with the same last boundary. */
  lemma WalksNext(data: seq<byte>, b: seq<byte>, q: nat, parts: seq<seq<byte>>, last: nat, next: nat, q': nat)
    requires parts != [] && Walks(data, b, q, parts)
    requires next == q + |b| + 2 && q' == q + |b| + |parts[0]| + 6
    requires last == Find(data, CRLF, LastBoundary(q, |b|, parts) + |b|) + 2
    ensures Find(data, CRLF, q + |b|) + 2 == next
    ensures next < |data| && Find(data, b, From(Some(next))) == q' && Walks(data, b, q', parts[1..])
    ensures last == Find(data, CRLF, LastBoundary(q', |b|, parts[1..]) + |b|) + 2
  {
    WalksHead(data, b, q, parts);
    assert From(Some(next)) == next;
  }

  /** The first step of a `Walks` layout, and where its last boundary is. */
  lemma WalksHead(data: seq<byte>, b: seq<byte>, q: nat, parts: seq<seq<byte>>)
    requires parts != [] && Walks(data, b, q, parts)
    ensures var q' := q + |b| + |parts[0]| + 6;
      && Find(data, CRLF, q + |b|) == q + |b| && q + |b| + 2 < |data|
      && Find(data, b, q + |b| + 2) == q' && Walks(data, b, q', parts[1..])
      && LastBoundary(q, |b|, parts) == LastBoundary(q', |b|, parts[1..])
  {
  }

  /** The boundary condition of `Separable` for the parts after the first. */
  lemma SepTail(b: seq<byte>, parts: seq<seq<byte>>)
    requires parts != [] && Apart(b, parts)
    ensures Find(Sep(parts[0], b), b, 0) == |parts[0]| + 4
    ensures Apart(b, parts[1..])
  {
    forall k | 0 <= k < |parts[1..]|
      ensures Find(Sep(parts[1..][k], b), b, 0) == |parts[1..][k]| + 4
    {
      assert parts[1..][k] == parts[k + 1];
    }
  }

  /** A body built by `Body` is laid out as `Walks` says. */
  lemma {:induction false} BodyWalks(y: seq<byte>, b: seq<byte>, parts: seq<seq<byte>>, close: seq<byte>)
    requires Apart(b, parts)
    ensures Walks(Body(y, b, parts, close), b, |y|, parts)
    decreases |parts|
  {
    if parts != [] {
      var y' := Advance(y, b, parts[0]);
      SepTail(b, parts);
      BodyWalks(y', b, parts[1..], close);
      BodyWalksStep(y, b, parts, close);
    }
  }

  lemma BodyWalksStep(y: seq<byte>, b: seq<byte>, parts: seq<seq<byte>>, close: seq<byte>)
    requires parts != [] && Find(Sep(parts[0], b), b, 0) == |parts[0]| + 4
    requires Walks(Body(Advance(y, b, parts[0]), b, parts[1..], close), b, |Advance(y, b, parts[0])|, parts[1..])
    ensures Walks(Body(y, b, parts, close), b, |y|, parts)
  {
    BodyTurn(y, b, parts, close);
  }

  /** The facts `Walks` asks of the first part of a body. */
  lemma BodyTurn(y: seq<byte>, b: seq<byte>, parts: seq<seq<byte>>, close: seq<byte>)
    requires parts != [] && Find(Sep(parts[0], b), b, 0) == |parts[0]| + 4
    ensures Find(Body(y, b, parts, close), CRLF, |y| + |b|) == |y| + |b|
    ensures Find(Body(y, b, parts, close), b, |y| + |b| + 2) == |Advance(y, b, parts[0])|
    ensures Body(y, b, parts, close) == Body(Advance(y, b, parts[0]), b, parts[1..], close)
    ensures |Advance(y, b, parts[0])| == |y| + |b| + |parts[0]| + 6
  {
    LineEndAfter(y, b, parts, close);
    BoundaryAfter(y, b, parts, close);
    BodyStep(y, b, parts, close);
  }

  /** The last boundary of a body ends where its closing bytes begin. */
  lemma {:induction false} BodyLast(y: seq<byte>, b: seq<byte>, parts: seq<seq<byte>>)
    ensures LastBoundary(|y|, |b|, parts) + |b| == |Body(y, b, parts, [])|
    decreases |parts|
  {
    if parts != [] {
      BodyStep(y, b, parts, []);
      BodyLast(Advance(y, b, parts[0]), b, parts[1..]);
    }
  }

  /** A body laid out as `Walks` says from a first boundary at 2, with a line
      end right after the last boundary that ends the body: the loop ends
      after `|parts| + 2` iterations and yields the parts' spans. */
  lemma WalkEnds(data: seq<byte>, b: seq<byte>, parts: seq<seq<byte>>)
    requires Find(data, b, 0) == 2 && Walks(data, b, 2, parts)
    requires Find(data, CRLF, LastBoundary(2, |b|, parts) + |b|) + 2 == |data|
    ensures SplitOutcome(data, b) == Yields(PartsOf(data, SpansOf(|b| + 4, |b|, parts)))
  {
    assert From(None) == 0;
    WalksChain(data, b, 2, parts, None, |data|);
    ChainOutcome(data, b, 2, |b| + 4, parts);
  }

  /** A chain from the start that reaches the end of the body. */
  lemma ChainOutcome(data: seq<byte>, b: seq<byte>, q: nat, start: int, parts: seq<seq<byte>>)
    requires Chain(Machine(data, b), None, q, |b|, parts, |data|) && start == q + |b| + 2
    ensures SplitOutcome(data, b) == Yields(PartsOf(data, SpansOf(start, |b|, parts)))
  {
    MachineExit(data, b);
    ChainEnds(Machine(data, b), q, |b|, parts, |data|);
    OutcomeFinished(data, b, |parts| + 2, SpansOf(start, |b|, parts));
  }

  /** At the end of the body the loop condition fails. */
  lemma MachineExit(data: seq<byte>, b: seq<byte>)
    ensures Machine(data, b)(Some(|data|)).Exit?
  {
  }

  /** A run that finishes with `spans` yields their slices. */
  lemma OutcomeFinished(data: seq<byte>, b: seq<byte>, fuel: nat, spans: seq<(int, int)>)
    requires Run(Machine(data, b), None, [], fuel) == Some(Finished(spans))
    ensures SplitOutcome(data, b) == Yields(PartsOf(data, spans))
  {
    OutcomeOf(data, b, fuel);
  }

  /** The same layout without a line end after the last boundary, and no
      occurrence of the boundary at 1: the loop goes back to position 1 and
      from there through every part again, for ever. */
  lemma WalkHangs(data: seq<byte>, b: seq<byte>, parts: seq<seq<byte>>)
    requires Find(data, b, 0) == 2 && Find(data, b, 1) == 2 && Walks(data, b, 2, parts)
    requires Find(data, CRLF, LastBoundary(2, |b|, parts) + |b|) == -1
    ensures SplitOutcome(data, b) == Hangs
  {
    assert From(None) == 0 && From(Some(1)) == 1;
    WalksChain(data, b, 2, parts, None, 1);
    WalksChain(data, b, 2, parts, Some(1), 1);
    ChainCycle(Machine(data, b), 2, |b|, parts);
  }

  lemma SliceShift<T>(a: seq<T>, s: seq<T>, i: nat, j: nat)
    requires i <= j <= |s|
    ensures (a + s)[|a| + i..|a| + j] == s[i..j]
  {
  }

  /** The spans of `RunRest` cut out exactly the parts. */
  lemma RestParts(y: seq<byte>, b: seq<byte>, parts: seq<seq<byte>>, close: seq<byte>)
    ensures PartsOf(Body(y, b, parts, close), SpansOf(|y| + |b| + 2, |b|, parts)) == parts
  {
    BodyLaid(y, b, parts, close);
    LaidParts(Body(y, b, parts, close), |y| + |b| + 2, |b|, parts);
  }

  /** The parts lie in `data` one after the other from `start`, each
      followed by a line end, a boundary of `blen` bytes and its line end. */
  predicate Laid(data: seq<byte>, start: int, blen: nat, parts: seq<seq<byte>>)
    decreases |parts|
  {
    parts == [] ||
    (PySlice(data, start, start + |parts[0]|) == parts[0] &&
     Laid(data, start + |parts[0]| + 4 + blen + 2, blen, parts[1..]))
  }

  lemma {:induction false} BodyLaid(y: seq<byte>, b: seq<byte>, parts: seq<seq<byte>>, close: seq<byte>)
    ensures Laid(Body(y, b, parts, close), |y| + |b| + 2, |b|, parts)
    decreases |parts|
  {
    if parts != [] {
      var y' := Advance(y, b, parts[0]);
      var start := |y| + |b| + 2;
      BodyLaid(y', b, parts[1..], close);
      FirstPart(y, b, parts, close);
      LaidCons(Body(y, b, parts, close), Body(y', b, parts[1..], close), start,
        |y'| + |b| + 2, |b|, parts);
    }
  }

  /** Parts laid out from `next` in `data'`, which is `data`, and a first
      part at `start` before them. */
  lemma LaidCons(data: seq<byte>, data': seq<byte>, start: int, next: int, blen: nat, parts: seq<seq<byte>>)
    requires parts != [] && data == data' && next == start + |parts[0]| + 4 + blen + 2
    requires PySlice(data, start, start + |parts[0]|) == parts[0]
    requires Laid(data', next, blen, parts[1..])
    ensures Laid(data, start, blen, parts)
  {
  }

  lemma {:induction false} LaidParts(data: seq<byte>, start: int, blen: nat, parts: seq<seq<byte>>)
    requires Laid(data, start, blen, parts)
    ensures PartsOf(data, SpansOf(start, blen, parts)) == parts
    decreases |parts|
  {
    if parts != [] {
      var next := start + |parts[0]| + 4 + blen + 2;
      LaidParts(data, next, blen, parts[1..]);
      SpansCut(data, start, next, blen, parts);
    }
  }

  /** Spans that cut out the first part, then the rest, cut out all parts. */
  lemma SpansCut(data: seq<byte>, start: int, next: int, blen: nat, parts: seq<seq<byte>>)
    requires parts != [] && next == start + |parts[0]| + 4 + blen + 2
    requires PySlice(data, start, start + |parts[0]|) == parts[0]
    requires PartsOf(data, SpansOf(next, blen, parts[1..])) == parts[1..]
    ensures PartsOf(data, SpansOf(start, blen, parts)) == parts
  {
    var p, spans := parts[0], SpansOf(start, blen, parts);
    var rest := SpansOf(next, blen, parts[1..]);
    SpansStep(start, blen, parts);
    ConsTail((start, start + |p|), rest);
    assert spans[0] == (start, start + |p|) && spans[1..] == rest;
    PartsStep(data, spans);
    ConsSplit(parts);
  }

  /** The first part of a body sits right after the first boundary's line
      end, and the body is also the body that starts after that part. */
  lemma FirstPart(y: seq<byte>, b: seq<byte>, parts: seq<seq<byte>>, close: seq<byte>)
    requires parts != []
    ensures var start := |y| + |b| + 2;
      PySlice(Body(y, b, parts, close), start, start + |parts[0]|) == parts[0]
    ensures Body(y, b, parts, close) == Body(Advance(y, b, parts[0]), b, parts[1..], close)
    ensures |Advance(y, b, parts[0])| == |y| + |b| + 2 + |parts[0]| + 4
  {
    var p, start := parts[0], |y| + |b| + 2;
    var data := Body(y, b, parts, close);
    var tail := Sep(p, b) + Rest(b, parts[1..], close);
    BodyStep(y, b, parts, close);
    SliceShift((y + b) + CRLF, tail, 0, |p|);
    assert tail[0..|p|] == p;
    PySliceIn(data, start, start + |p|);
  }

  lemma SpansStep(start: int, blen: nat, parts: seq<seq<byte>>)
    requires parts != []
    ensures SpansOf(start, blen, parts)
      == [(start, start + |parts[0]|)] + SpansOf(start + |parts[0]| + 4 + blen + 2, blen, parts[1..])
  {
  }

  lemma PartsStep(data: seq<byte>, spans: seq<(int, int)>)
    requires spans != []
    ensures PartsOf(data, spans) == [PySlice(data, spans[0].0, spans[0].1)] + PartsOf(data, spans[1..])
  {
  }

  /** The body a browser sends for a list of parts is split back into exactly
      those parts, when the boundary occurs nowhere else. */
  lemma SplitEncoded(b: seq<byte>, parts: seq<seq<byte>>)
    requires Separable(b, parts)
    ensures SplitOutcome(Encoded(b, parts), b) == Yields(parts)
  {
    EncodedWalks(b, parts);
    EncodedEnds(b, parts);
    RestParts(DASHES, b, parts, DASHES + CRLF);
    WalkEnds(Encoded(b, parts), b, parts);
  }

  /** An encoded body is laid out as `Walks` says from its first boundary. */
  lemma EncodedWalks(b: seq<byte>, parts: seq<seq<byte>>)
    requires Separable(b, parts)
    ensures Find(Encoded(b, parts), b, 0) == 2 && Walks(Encoded(b, parts), b, 2, parts)
  {
    var close := DASHES + CRLF;
    FindInPrefix(DASHES + b, Rest(b, parts, close), b, 0);
    BodyWalks(DASHES, b, parts, close);
  }

  /** The line end after the last boundary of an encoded body ends it. */
  lemma EncodedEnds(b: seq<byte>, parts: seq<seq<byte>>)
    ensures Find(Encoded(b, parts), CRLF, LastBoundary(2, |b|, parts) + |b|) + 2 == |Encoded(b, parts)|
  {
    var close := DASHES + CRLF;
    BodyLast(DASHES, b, parts);
    FinalIndex(DASHES, b, parts, close);
    assert close[2..4] == CRLF;
    FindHere(close, CRLF, 2);
    assert !MatchesFrom(close, CRLF, 0, 0) && !MatchesFrom(close, CRLF, 1, 0);
  }

  /** A body that lacks the line end after its closing `--b--` hangs the
      loop: the failed search sends it back to position 1. */
  lemma TruncatedHangs(b: seq<byte>, parts: seq<seq<byte>>)
    requires Separable(b, parts)
    ensures SplitOutcome(Body(DASHES, b, parts, DASHES), b) == Hangs
  {
    var data := Body(DASHES, b, parts, DASHES);
    FindInPrefix(DASHES + b, Rest(b, parts, DASHES), b, 0);
    assert Find(data, b, 1) == 2;
    BodyWalks(DASHES, b, parts, DASHES);
    BodyLast(DASHES, b, parts);
    FinalIndex(DASHES, b, parts, DASHES);
    assert Find(DASHES, CRLF, 0) == -1;
    WalkHangs(data, b, parts);
  }

  // ---------------------------------------------------------------------
  // A part's content (handle_post)

  /** `idx = data.find(b"\r\n\r\n"); if idx == -1: data = b""; data = data[idx + 4:]`. */
  function PartBody(part: seq<byte>): seq<byte>
  {
    var idx := Find(part, CRLF2, 0);
    var d := if idx == -1 then [] else part;
    PySlice(d, idx + 4, |d|)
  }

  /** The content is everything after the first blank line, or empty. */
  lemma PartBodySpec(part: seq<byte>)
    ensures Find(part, CRLF2, 0) == -1 ==> PartBody(part) == []
    ensures Find(part, CRLF2, 0) != -1 ==> PartBody(part) == part[Find(part, CRLF2, 0) + 4..]
  {
  }

  /** A header block without a blank line, the blank line, then the content:
      the content comes back whole, blank lines inside it included. */
  lemma PartBodyOf(headers: seq<byte>, content: seq<byte>)
    requires Find(headers + CRLF2, CRLF2, 0) == |headers|
    ensures PartBody(headers + CRLF2 + content) == content
  {
    var part := headers + CRLF2 + content;
    FindInPrefix(headers + CRLF2, content, CRLF2, 0);
    assert Find(part, CRLF2, 0) == |headers|;
    PySliceIn(part, |headers| + 4, |part|);
    assert part[|headers| + 4..|part|] == content;
  }
}
