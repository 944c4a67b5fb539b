/** Greedy matching of an expected sequence of trace events, with a cursor between phases. */
module TraceMatcher {
  import opened Wrappers

  /** Sources and event discriminants are enumerations; only their equality matters. */
  datatype TraceEvent = TraceEvent(source: nat, discriminant: nat)

  datatype TraceSequenceStep = TraceSequenceStep(source: Option<nat>, event: nat)

  predicate Matches(step: TraceSequenceStep, event: TraceEvent) {
    (step.source.Some? ==> step.source.value == event.source) && event.discriminant == step.event
  }

  /** The first index at or after `from` whose event the step matches. */
  function FirstMatch(events: seq<TraceEvent>, step: TraceSequenceStep, from: nat): Option<nat>
    decreases |events| - from
  {
    if from >= |events| then None
    else if Matches(step, events[from]) then Some(from)
    else FirstMatch(events, step, from + 1)
  }

  /** The indices the greedy scan settles on. */
  function Greedy(events: seq<TraceEvent>, steps: seq<TraceSequenceStep>, from: nat): Option<seq<nat>>
    decreases |steps|
  {
    if steps == [] then Some([])
    else
      match FirstMatch(events, steps[0], from)
      case None => None
      case Some(i) =>
        match Greedy(events, steps[1..], i + 1)
        case None => None
        case Some(rest) => Some([i] + rest)
  }

  /** Past the last matched event. */
  function CursorAfter(indices: seq<nat>, from: nat): nat {
    if indices == [] then from else indices[|indices| - 1] + 1
  }

  function At(events: seq<TraceEvent>, indices: seq<nat>): seq<TraceEvent>
    requires forall k :: 0 <= k < |indices| ==> indices[k] < |events|
  {
    seq(|indices|, k requires 0 <= k < |indices| => events[indices[k]])
  }

  /** A strictly increasing placement of the steps at or after `from`. */
  ghost predicate Embedding(
      events: seq<TraceEvent>, steps: seq<TraceSequenceStep>, from: nat, indices: seq<nat>)
  {
    |indices| == |steps| &&
    (forall k :: 0 <= k < |indices| ==> from <= indices[k] < |events| && Matches(steps[k], events[indices[k]])) &&
    (forall k :: 0 < k < |indices| ==> indices[k - 1] < indices[k])
  }

  /** The result of a match is a genuine placement, and there is one whenever any placement exists. */
  ghost predicate IsLeastMatch(
      events: seq<TraceEvent>, steps: seq<TraceSequenceStep>, from: nat,
      result: Option<(seq<TraceEvent>, nat)>)
  {
    match result
    case None => forall indices :: !Embedding(events, steps, from, indices)
    case Some((matched, cursor)) =>
      (exists indices :: Embedding(events, steps, from, indices) &&
                         matched == At(events, indices) && cursor == CursorAfter(indices, from)) &&
      (forall indices :: Embedding(events, steps, from, indices) ==> cursor <= CursorAfter(indices, from))
  }

  /** `match_sequence_from`: succeeds exactly when some placement exists, with the least possible cursor. */
  method MatchSequenceFrom(events: seq<TraceEvent>, steps: seq<TraceSequenceStep>, startFrom: nat)
    returns (result: Option<(seq<TraceEvent>, nat)>)
    ensures IsLeastMatch(events, steps, startFrom, result)
    ensures result.Some? <==> Greedy(events, steps, startFrom).Some?
    ensures result.Some? ==> result.value.1 == CursorAfter(Greedy(events, steps, startFrom).value, startFrom)
    ensures result.Some? ==>
              |result.value.0| == |steps| &&
              forall k :: 0 <= k < |steps| ==>
                result.value.0[k].discriminant == steps[k].event &&
                (steps[k].source == None || steps[k].source == Some(result.value.0[k].source))
  {
    var matched: seq<TraceEvent> := [];
    var cursor := startFrom;
    ghost var indices: seq<nat> := [];
    for s := 0 to |steps|
      invariant Greedy(events, steps[..s], startFrom) == Some(indices) && cursor == CursorAfter(indices, startFrom)
      invariant |matched| == |indices| &&
                forall k :: 0 <= k < |matched| ==> indices[k] < |events| && matched[k] == events[indices[k]]
    {
      var found: Option<nat> := None;
      var idx := cursor;
      while idx < |events|
        invariant found.None? && FirstMatch(events, steps[s], cursor) == FirstMatch(events, steps[s], idx)
      {
        if Matches(steps[s], events[idx]) {
          found := Some(idx);
          break;
        }
        idx := idx + 1;
      }
      GreedySnoc(events, steps, s, startFrom);
      if found.None? {
        GreedyIsLeast(events, steps, startFrom);
        return None;
      }
      matched := matched + [events[found.value]];
      cursor := found.value + 1;
      indices := indices + [found.value];
    }
    assert steps[..|steps|] == steps;
    GreedyIsLeast(events, steps, startFrom);
    assert matched == At(events, indices);
    result := Some((matched, cursor));
  }

  lemma GreedySnoc(events: seq<TraceEvent>, steps: seq<TraceSequenceStep>, s: nat, from: nat)
    requires s < |steps| && Greedy(events, steps[..s], from).Some?
    ensures var g := Greedy(events, steps[..s], from).value;
            match FirstMatch(events, steps[s], CursorAfter(g, from))
            case None => Greedy(events, steps, from) == None
            case Some(i) => Greedy(events, steps[..s + 1], from) == Some(g + [i])
  {
    var g := Greedy(events, steps[..s], from).value;
    assert steps[..s + 1] == steps[..s] + [steps[s]];
    assert steps == steps[..s + 1] + steps[s + 1..];
    PhasesCompose(events, steps[..s], [steps[s]], from);
    PhasesCompose(events, steps[..s + 1], steps[s + 1..], from);
    assert [steps[s]][1..] == [];
    match FirstMatch(events, steps[s], CursorAfter(g, from))
    case None =>
    case Some(i) =>
      var none: seq<nat> := [];
      assert Greedy(events, [], i + 1) == Some(none) && [i] + none == [i];
  }

  lemma {:induction false} FirstMatchIsFirst(events: seq<TraceEvent>, step: TraceSequenceStep, from: nat)
    ensures match FirstMatch(events, step, from)
            case None => forall k :: from <= k < |events| ==> !Matches(step, events[k])
            case Some(i) => from <= i < |events| && Matches(step, events[i]) &&
                            forall k :: from <= k < i ==> !Matches(step, events[k])
    decreases |events| - from
  {
    if from < |events| && !Matches(step, events[from]) {
      FirstMatchIsFirst(events, step, from + 1);
    }
  }

  lemma EmbeddingTail(
      events: seq<TraceEvent>, steps: seq<TraceSequenceStep>, from: nat, indices: seq<nat>)
    requires steps != [] && Embedding(events, steps, from, indices)
    ensures Embedding(events, steps[1..], indices[0] + 1, indices[1..])
  {
    var rest := indices[1..];
    forall k | 0 <= k < |rest|
      ensures indices[0] < rest[k]
    {
      Increasing(indices, k + 1);
    }
    assert forall k :: 0 < k < |rest| ==> rest[k - 1] == indices[k] && rest[k] == indices[k + 1];
  }

  lemma EmbeddingCons(
      events: seq<TraceEvent>, steps: seq<TraceSequenceStep>, from: nat, i: nat, rest: seq<nat>)
    requires steps != [] && from <= i < |events| && Matches(steps[0], events[i])
    requires Embedding(events, steps[1..], i + 1, rest)
    ensures Embedding(events, steps, from, [i] + rest)
  {
    var all := [i] + rest;
    assert forall k :: 1 <= k < |all| ==> all[k] == rest[k - 1] && steps[k] == steps[1..][k - 1];
  }

  /** The greedy scan stays at or before every placement, step by step. */
  lemma {:induction false} GreedyStaysAhead(
      events: seq<TraceEvent>, steps: seq<TraceSequenceStep>, from: nat, from': nat, indices: seq<nat>)
    requires from <= from' && Embedding(events, steps, from', indices)
    ensures Greedy(events, steps, from).Some?
    ensures |Greedy(events, steps, from).value| == |indices|
    ensures forall k :: 0 <= k < |indices| ==> Greedy(events, steps, from).value[k] <= indices[k]
    decreases |steps|
  {
    if steps != [] {
      FirstMatchIsFirst(events, steps[0], from);
      EmbeddingTail(events, steps, from', indices);
      GreedyStaysAhead(
        events, steps[1..], FirstMatch(events, steps[0], from).value + 1, indices[0] + 1, indices[1..]);
    }
  }

  lemma {:induction false} Increasing(indices: seq<nat>, k: nat)
    requires 0 < k < |indices|
    requires forall j :: 0 < j < |indices| ==> indices[j - 1] < indices[j]
    ensures indices[0] < indices[k]
  {
    if k > 1 {
      Increasing(indices, k - 1);
    }
  }

  lemma {:induction false} GreedyIsEmbedding(events: seq<TraceEvent>, steps: seq<TraceSequenceStep>, from: nat)
    requires Greedy(events, steps, from).Some?
    ensures Embedding(events, steps, from, Greedy(events, steps, from).value)
    decreases |steps|
  {
    if steps != [] {
      FirstMatchIsFirst(events, steps[0], from);
      var i := FirstMatch(events, steps[0], from).value;
      GreedyIsEmbedding(events, steps[1..], i + 1);
      EmbeddingCons(events, steps, from, i, Greedy(events, steps[1..], i + 1).value);
    }
  }

  lemma GreedyIsLeast(events: seq<TraceEvent>, steps: seq<TraceSequenceStep>, from: nat)
    ensures var g := Greedy(events, steps, from);
            if g.None? then forall indices :: !Embedding(events, steps, from, indices)
            else Embedding(events, steps, from, g.value) &&
                 forall indices :: Embedding(events, steps, from, indices) ==>
                   CursorAfter(g.value, from) <= CursorAfter(indices, from)
  {
    forall indices | Embedding(events, steps, from, indices)
      ensures Greedy(events, steps, from).Some?
      ensures CursorAfter(Greedy(events, steps, from).value, from) <= CursorAfter(indices, from)
    {
      GreedyStaysAhead(events, steps, from, from, indices);
    }
    if Greedy(events, steps, from).Some? {
      GreedyIsEmbedding(events, steps, from);
    }
  }

  /** Matching one phase and then the next from the returned cursor is matching both phases at once. */
  lemma {:induction false} PhasesCompose(
      events: seq<TraceEvent>, first: seq<TraceSequenceStep>, second: seq<TraceSequenceStep>, from: nat)
    ensures Greedy(events, first + second, from) ==
            match Greedy(events, first, from)
            case None => None
            case Some(g) =>
              match Greedy(events, second, CursorAfter(g, from))
              case None => None
              case Some(h) => Some(g + h)
    decreases |first|
  {
    if first == [] {
      assert first + second == second;
      assert forall h: seq<nat> :: [] + h == h;
    } else {
      assert (first + second)[1..] == first[1..] + second;
      match FirstMatch(events, first[0], from)
      case None =>
      case Some(i) =>
        PhasesCompose(events, first[1..], second, i + 1);
        assert forall g: seq<nat>, h: seq<nat> :: [i] + (g + h) == ([i] + g) + h;
    }
  }

  /** Polling: a match found in a snapshot is found unchanged in every later one. */
  lemma {:induction false} MatchesAreStable(
      events: seq<TraceEvent>, later: seq<TraceEvent>, steps: seq<TraceSequenceStep>, from: nat)
    requires Greedy(events, steps, from).Some?
    ensures Greedy(events + later, steps, from) == Greedy(events, steps, from)
    decreases |steps|
  {
    if steps != [] {
      FirstMatchIsStable(events, later, steps[0], from);
      MatchesAreStable(events, later, steps[1..], FirstMatch(events, steps[0], from).value + 1);
    }
  }

  lemma {:induction false} FirstMatchIsStable(
      events: seq<TraceEvent>, later: seq<TraceEvent>, step: TraceSequenceStep, from: nat)
    requires FirstMatch(events, step, from).Some?
    ensures FirstMatch(events + later, step, from) == FirstMatch(events, step, from)
    decreases |events| - from
  {
    if !Matches(step, events[from]) {
      FirstMatchIsStable(events, later, step, from + 1);
    }
  }

  /** A single step is found exactly when an event of its kind follows, from its source if it names one. */
  lemma OneStepIff(events: seq<TraceEvent>, step: TraceSequenceStep, from: nat)
    ensures Greedy(events, [step], from).Some? <==>
            exists i :: from <= i < |events| && events[i].discriminant == step.event &&
                        (step.source == None || step.source == Some(events[i].source))
  {
    GreedyIsLeast(events, [step], from);
    if i :| from <= i < |events| && events[i].discriminant == step.event &&
            (step.source == None || step.source == Some(events[i].source))
    {
      assert Embedding(events, [step], from, [i]);
    }
  }
}
