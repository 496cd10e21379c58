/** Bounded context assembly: candidates in priority order, whole fragments only.  Text is held as its code
    points here, one `char` each, because token estimates count characters. */
module ContextAssembly {
  import opened Sequences

  type MemoryId = string

  const MAX_CONTEXT_CANDIDATES := 500

  datatype Reason =
    | Duplicate | CandidateLimit | Budget
    | Missing | Denied | ExpiredFact | EmptyText | Unsafe | LookupError

  /** What rendering one id gives: a complete wrapper, or the one reason why there is none.  Resolving the
      node, the checks and the wrapper text are decided outside this model. */
  datatype Rendering = Fragment(context: string) | Rejected(reason: Reason)

  type Renderer = MemoryId -> Rendering

  /** Wrappers are never empty, and the assembler's own reasons are not the renderer's. */
  ghost predicate SoundRenderer(render: Renderer) {
    forall id ::
      && (render(id).Fragment? ==> render(id).context != "")
      && (render(id).Rejected? ==> render(id).reason !in {Duplicate, CandidateLimit, Budget})
  }

  function EstimateTokens(text: string): nat {
    if text == "" then 0 else |text| / 4 + 1
  }

  function Append(context: string, fragment: string): string {
    if context == "" then fragment else context + "\n\n" + fragment
  }

  // ----- candidate ids -----

  function Limited(ids: seq<MemoryId>): seq<MemoryId> {
    if |ids| <= MAX_CONTEXT_CANDIDATES then ids else ids[..MAX_CONTEXT_CANDIDATES]
  }

  function CountOutside(candidates: seq<MemoryId>, ids: seq<MemoryId>): nat {
    if candidates == [] then 0
    else
      var n := |candidates| - 1;
      CountOutside(candidates[..n], ids) + if candidates[n] in ids then 0 else 1
  }

  lemma {:induction false} NoneOutside(candidates: seq<MemoryId>, ids: seq<MemoryId>)
    requires forall id | id in candidates :: id in ids
    ensures CountOutside(candidates, ids) == 0
  {
    if candidates != [] {
      assert candidates[|candidates| - 1] in candidates;
      NoneOutside(candidates[..|candidates| - 1], ids);
    }
  }

  /** `_candidate_ids`: an id past the limit is dropped for the limit every time it occurs. */
  method CandidateIds(candidates: seq<MemoryId>) returns (ids: seq<MemoryId>, dropped: multiset<Reason>)
    ensures ids == Limited(FirstOccurrences(candidates))
    ensures |ids| <= 500 && (|ids| < 500 ==> ids == FirstOccurrences(candidates))
    ensures |ids| + |dropped| == |candidates|
    ensures dropped[CandidateLimit] == CountOutside(candidates, ids)
    ensures dropped[Duplicate] == |candidates| - |ids| - CountOutside(candidates, ids)
  {
    ids, dropped := [], multiset{};
    assert Counted(candidates[..0], ids, dropped);
    hide *;
    for i := 0 to |candidates|
      invariant Counted(candidates[..i], ids, dropped)
    {
      var id := candidates[i];
      CountedOneMore(candidates, i, ids, dropped);
      if id in ids {
        dropped := dropped + multiset{Duplicate};
      } else if |ids| >= MAX_CONTEXT_CANDIDATES {
        dropped := dropped + multiset{CandidateLimit};
      } else {
        ids := ids + [id];
      }
    }
    assert candidates[..|candidates|] == candidates;
    WhatIsCounted(candidates, ids, dropped);
  }

  /** The ids and the counters are those of the candidates seen. */
  ghost predicate Counted(candidates: seq<MemoryId>, ids: seq<MemoryId>, dropped: multiset<Reason>) {
    && ids == Limited(FirstOccurrences(candidates))
    && |ids| + |dropped| == |candidates|
    && dropped[CandidateLimit] == CountOutside(candidates, ids)
    && dropped[Duplicate] == |candidates| - |ids| - CountOutside(candidates, ids)
  }

  lemma WhatIsCounted(candidates: seq<MemoryId>, ids: seq<MemoryId>, dropped: multiset<Reason>)
    requires Counted(candidates, ids, dropped)
    ensures ids == Limited(FirstOccurrences(candidates))
    ensures |ids| + |dropped| == |candidates|
    ensures dropped[CandidateLimit] == CountOutside(candidates, ids)
    ensures dropped[Duplicate] == |candidates| - |ids| - CountOutside(candidates, ids)
    ensures |ids| <= 500 && (|ids| < 500 ==> ids == FirstOccurrences(candidates))
  {
  }

  lemma CountedOneMore(candidates: seq<MemoryId>, i: nat, ids: seq<MemoryId>, dropped: multiset<Reason>)
    requires i < |candidates| && Counted(candidates[..i], ids, dropped)
    ensures if candidates[i] in ids then Counted(candidates[..i + 1], ids, dropped + multiset{Duplicate})
            else if |ids| >= MAX_CONTEXT_CANDIDATES then
              Counted(candidates[..i + 1], ids, dropped + multiset{CandidateLimit})
            else Counted(candidates[..i + 1], ids + [candidates[i]], dropped)
  {
    NextCandidate(candidates, i, ids);
    hide FirstOccurrences;
    hide CountOutside;
    hide Limited;
  }

  /** What one more candidate does to the ids, and to the count of those outside them. */
  lemma NextCandidate(candidates: seq<MemoryId>, i: nat, ids: seq<MemoryId>)
    requires i < |candidates| && ids == Limited(FirstOccurrences(candidates[..i]))
    ensures var (id, added) := (candidates[i], candidates[i] !in ids && |ids| < MAX_CONTEXT_CANDIDATES);
            var ids' := if added then ids + [id] else ids;
            && ids' == Limited(FirstOccurrences(candidates[..i + 1]))
            && CountOutside(candidates[..i + 1], ids') ==
               CountOutside(candidates[..i], ids) + (if id in ids' then 0 else 1)
  {
    var id, seen := candidates[i], candidates[..i];
    assert candidates[..i + 1][..i] == seen && candidates[..i + 1][i] == id;
    FirstOccurrencesMembers(seen);
    var all := FirstOccurrences(seen);
    assert FirstOccurrences(candidates[..i + 1]) == if id in all then all else all + [id];
    hide FirstOccurrences;
    if id !in ids && |ids| < MAX_CONTEXT_CANDIDATES {
      NoneOutside(seen, ids);
      NoneOutside(seen, ids + [id]);
    }
  }

  // ----- assembly -----

  /** Greedy admission of the ids in order; an oversized fragment does not keep later ones out. */
  ghost function Admitted(ids: seq<MemoryId>, render: Renderer, maxTokens: nat): seq<MemoryId> {
    if ids == [] then []
    else
      var n := |ids| - 1;
      var before := Admitted(ids[..n], render, maxTokens);
      if Fits(before, ids[n], render, maxTokens) then before + [ids[n]] else before
  }

  /** The fragment of `id` still fits after those of `before`. */
  ghost predicate Fits(before: seq<MemoryId>, id: MemoryId, render: Renderer, maxTokens: nat) {
    && render(id).Fragment?
    && EstimateTokens(Append(Joined(before, render), render(id).context)) <= maxTokens
  }

  /** The fragments of the given ids, blank lines between them. */
  ghost function Joined(ids: seq<MemoryId>, render: Renderer): string {
    if ids == [] then ""
    else
      var n := |ids| - 1;
      var before := Joined(ids[..n], render);
      if render(ids[n]).Fragment? then Append(before, render(ids[n]).context) else before
  }

  /** Why each of the ids that were not admitted was left out. */
  ghost function Refusals(ids: seq<MemoryId>, render: Renderer, maxTokens: nat): multiset<Reason> {
    if ids == [] then multiset{}
    else
      var n := |ids| - 1;
      Refusals(ids[..n], render, maxTokens) +
      if render(ids[n]).Rejected? then multiset{render(ids[n]).reason}
      else if Fits(Admitted(ids[..n], render, maxTokens), ids[n], render, maxTokens) then multiset{}
      else multiset{Budget}
  }

  datatype Assembly =
    | NegativeBudget
    | Assembly(context: string, memoryIds: seq<MemoryId>, tokensUsed: nat, truncated: bool, dropped: multiset<Reason>)

  /** `assemble_context`.  The budget holds, and every candidate is accounted for: accepted, or counted once
      among the dropped ones under the reason for which it was dropped. */
  method AssembleContext(candidates: seq<MemoryId>, render: Renderer, maxTokens: int) returns (result: Assembly)
    requires SoundRenderer(render)
    ensures result.NegativeBudget? <==> maxTokens < 0
    ensures result.Assembly? ==>
              var ids := Limited(FirstOccurrences(candidates));
              && result.memoryIds == Admitted(ids, render, maxTokens)
              && result.context == Joined(result.memoryIds, render)
              && result.tokensUsed == EstimateTokens(result.context) <= maxTokens
              && (result.context == "" <==> result.tokensUsed == 0)
              && (result.context != "" ==> 4 * (result.tokensUsed - 1) <= |result.context| < 4 * result.tokensUsed)
              && |result.memoryIds| + |result.dropped| == |candidates|
              && (forall reason | reason !in {Duplicate, CandidateLimit} ::
                    result.dropped[reason] == Refusals(ids, render, maxTokens)[reason])
              && result.dropped[CandidateLimit] == CountOutside(candidates, ids)
              && result.truncated ==
                 (Budget in result.dropped || |FirstOccurrences(candidates)| > MAX_CONTEXT_CANDIDATES)
  {
    if maxTokens < 0 {
      return NegativeBudget;
    }
    var ids, early := CandidateIds(candidates);
    var context, visible, late := AdmitAll(ids, render, maxTokens);
    OwnReasons(ids, render, maxTokens);
    AllCounted(ids, render, maxTokens);
    LimitHit(candidates);
    EarlyReasons(candidates, ids, early);
    hide *;
    EstimatedByLength(context);
    var dropped := early + late;
    var truncated := Budget in dropped || CandidateLimit in dropped;
    result := Assembly(context, visible, EstimateTokens(context), truncated, dropped);
  }

  /** The loop of `assemble_context` over the resolved ids. */
  method AdmitAll(ids: seq<MemoryId>, render: Renderer, maxTokens: nat)
    returns (context: string, visible: seq<MemoryId>, dropped: multiset<Reason>)
    ensures visible == Admitted(ids, render, maxTokens) && context == Joined(visible, render)
    ensures dropped == Refusals(ids, render, maxTokens)
    ensures EstimateTokens(context) <= maxTokens
  {
    context, visible, dropped := "", [], multiset{};
    for i := 0 to |ids|
      invariant visible == Admitted(ids[..i], render, maxTokens) && context == Joined(visible, render)
      invariant dropped == Refusals(ids[..i], render, maxTokens)
      invariant EstimateTokens(context) <= maxTokens
    {
      var id := ids[i];
      assert ids[..i + 1][..i] == ids[..i];
      assert (visible + [id])[..|visible|] == visible;
      var r := render(id);
      if r.Rejected? {
        dropped := dropped + multiset{r.reason};
      } else {
        var proposed := Append(context, r.context);
        if EstimateTokens(proposed) > maxTokens {
          dropped := dropped + multiset{Budget};
        } else {
          context := proposed;
          visible := visible + [id];
        }
      }
    }
    assert ids[..|ids|] == ids;
  }

  lemma EarlyReasons(candidates: seq<MemoryId>, ids: seq<MemoryId>, early: multiset<Reason>)
    requires |ids| + |early| == |candidates|
    requires early[CandidateLimit] == CountOutside(candidates, ids)
    requires early[Duplicate] == |candidates| - |ids| - CountOutside(candidates, ids)
    ensures forall reason | reason !in {Duplicate, CandidateLimit} :: early[reason] == 0
  {
    hide CountOutside;
    var rest := early[Duplicate := 0][CandidateLimit := 0];
    assert early == rest[Duplicate := early[Duplicate]][CandidateLimit := early[CandidateLimit]];
    assert |rest| == 0;
    assert rest == multiset{};
  }

  lemma {:induction false} OwnReasons(ids: seq<MemoryId>, render: Renderer, maxTokens: nat)
    requires SoundRenderer(render)
    ensures Refusals(ids, render, maxTokens)[Duplicate] == 0
    ensures Refusals(ids, render, maxTokens)[CandidateLimit] == 0
  {
    if ids != [] {
      OwnReasons(ids[..|ids| - 1], render, maxTokens);
    }
  }

  /** Every id is admitted or refused, exactly one of the two. */
  lemma {:induction false} AllCounted(ids: seq<MemoryId>, render: Renderer, maxTokens: nat)
    ensures |Admitted(ids, render, maxTokens)| + |Refusals(ids, render, maxTokens)| == |ids|
  {
    if ids != [] {
      AllCounted(ids[..|ids| - 1], render, maxTokens);
    }
  }

  /** A token for every four characters, and one more. */
  lemma EstimatedByLength(text: string)
    ensures text == "" <==> EstimateTokens(text) == 0
    ensures text != "" ==> 4 * (EstimateTokens(text) - 1) <= |text| < 4 * EstimateTokens(text)
  {
  }

  /** What the context becomes with one more fragment: fragments are separated by a blank line. */
  lemma NextFragment(ids: seq<MemoryId>, id: MemoryId, render: Renderer)
    requires render(id).Fragment?
    ensures var context := Joined(ids, render);
            Joined(ids + [id], render) ==
            if context == "" then render(id).context else context + ['\n', '\n'] + render(id).context
  {
    assert (ids + [id])[..|ids|] == ids;
    assert "\n\n" == ['\n', '\n'];
  }

  /** A fragment that was left out would have made the final context too long: it and the blank line before it
      bring the context to four characters for every token of the budget. */
  lemma LeftOutFragmentIsTooLong(ids: seq<MemoryId>, render: Renderer, maxTokens: nat, id: MemoryId)
    requires SoundRenderer(render)
    requires id in ids && id !in Admitted(ids, render, maxTokens) && render(id).Fragment?
    ensures var context := Joined(Admitted(ids, render, maxTokens), render);
            |context| + (if context == "" then 0 else 2) + |render(id).context| >= 4 * maxTokens
  {
    NothingElseFits(ids, render, maxTokens, id);
    EstimatedByLength(Append(Joined(Admitted(ids, render, maxTokens), render), render(id).context));
  }

  /** Maximality: a fragment that was left out was dropped for the budget, and would not fit the final
      context either. */
  lemma {:induction false} NothingElseFits(ids: seq<MemoryId>, render: Renderer, maxTokens: nat, id: MemoryId)
    requires id in ids && id !in Admitted(ids, render, maxTokens) && render(id).Fragment?
    ensures Budget in Refusals(ids, render, maxTokens)
    ensures !Fits(Admitted(ids, render, maxTokens), id, render, maxTokens)
  {
    var n := |ids| - 1;
    var before, after := Admitted(ids[..n], render, maxTokens), Admitted(ids, render, maxTokens);
    assert ids == ids[..n] + [ids[n]];
    if id in ids[..n] {
      assert id !in before;
      NothingElseFits(ids[..n], render, maxTokens, id);
      if after != before {
        assert after[..|before|] == before;
        assert |Joined(before, render)| <= |Joined(after, render)|;
      }
    }
  }

  lemma {:induction false} SomeOutside(candidates: seq<MemoryId>, ids: seq<MemoryId>)
    ensures CountOutside(candidates, ids) > 0 <==> exists i :: 0 <= i < |candidates| && candidates[i] !in ids
  {
    if candidates != [] {
      var n := |candidates| - 1;
      SomeOutside(candidates[..n], ids);
      if i :| 0 <= i < |candidates| && candidates[i] !in ids {
        assert i < n ==> candidates[..n][i] !in ids;
      }
      if i :| 0 <= i < n && candidates[..n][i] !in ids {
        assert candidates[i] !in ids;
      }
    }
  }

  /** The candidate limit drops something exactly if there are more distinct ids than it allows. */
  lemma LimitHit(candidates: seq<MemoryId>)
    ensures CountOutside(candidates, Limited(FirstOccurrences(candidates))) > 0 <==>
            |FirstOccurrences(candidates)| > MAX_CONTEXT_CANDIDATES
  {
    var all := FirstOccurrences(candidates);
    FirstOccurrencesMembers(candidates);
    SomeOutside(candidates, Limited(all));
    if |all| > MAX_CONTEXT_CANDIDATES {
      var extra := all[MAX_CONTEXT_CANDIDATES];
      assert extra in candidates;
      var i :| 0 <= i < |candidates| && candidates[i] == extra;
    }
  }

  // ----- order -----

  /** Accepted ids are candidates in order of first occurrence. */
  lemma {:induction false} AdmittedInOrder(ids: seq<MemoryId>, render: Renderer, maxTokens: nat)
    ensures IsSubsequence(Admitted(ids, render, maxTokens), ids)
  {
    if ids != [] {
      var n := |ids| - 1;
      AdmittedInOrder(ids[..n], render, maxTokens);
      var before := Admitted(ids[..n], render, maxTokens);
      assert (before + [ids[n]])[..|before|] == before;
    }
  }

  /** The accepted ids are distinct. */
  lemma AdmittedAreDistinct(candidates: seq<MemoryId>, render: Renderer, maxTokens: nat)
    ensures Distinct(Admitted(Limited(FirstOccurrences(candidates)), render, maxTokens))
  {
    var ids := Limited(FirstOccurrences(candidates));
    FirstOccurrencesAreDistinct(candidates);
    AdmittedInOrder(ids, render, maxTokens);
    SubsequenceIsDistinct(Admitted(ids, render, maxTokens), ids);
  }
}
