/** The review bookkeeping of a research session in theorem-graph mode: the
    review each block of a proof path receives, the update of review
    counts, comments and solved flags along the path, the refinement of the
    flawed blocks, and one graph step with its acceptance and solved tests.
    What the language model answers (reviews, refinements, the exploration
    text) is an input. */
module Sessions {
  import opened Strings
  import opened Utils
  import opened Agents
  import LemmaList

  /** `MAX_REVIEWS_PER_NODE`. */
  const MaxReviewsPerNode: u8 := 24

  /** A block of the given context, which is never reviewed. */
  predicate IsContext(b: MemoryBlock)
  {
    b.memtype == "context"
  }

  /** Every id of the path names a block; the session indexes the memory
      with each of them and would panic otherwise. */
  predicate InRange(mem: seq<MemoryBlock>, ids: seq<nat>)
  {
    forall k :: 0 <= k < |ids| ==> ids[k] < |mem|
  }

  lemma IncreasingDistinct(s: seq<nat>)
    requires StrictlyIncreasing(s)
    ensures Distinct(s)
  {
  }

  // ---------------------------------------------------------------------
  // review_mems

  /** The review one block's task yields. `verdict` is what the reviewer
      would report if asked: `None` when it finds no flaw. */
  function ReviewOf(b: MemoryBlock, verdict: Option<string>): (r: Option<string>)
    ensures IsContext(b) || b.reviews >= MaxReviewsPerNode ==> r.None?
    ensures r.Some? && r != verdict ==> r == Some(b.comment) && b.comment != []
    ensures !IsContext(b) && b.reviews < MaxReviewsPerNode ==> r.Some? || verdict.None?
  {
    if IsContext(b) || b.reviews >= MaxReviewsPerNode then None
    else if b.comment != [] then Some(b.comment)
    else verdict
  }

  /** The reviewer is consulted only for a block that is neither context
      nor at the cap and holds no stored comment; a stored comment is
      reported again as the block's review. */
  lemma ReviewerConsulted(b: MemoryBlock, v1: Option<string>, v2: Option<string>)
    ensures ReviewOf(b, v1) != ReviewOf(b, v2) ==>
      !IsContext(b) && b.reviews < MaxReviewsPerNode && b.comment == []
    ensures !IsContext(b) && b.reviews < MaxReviewsPerNode && b.comment != [] ==>
      ReviewOf(b, v1) == Some(b.comment)
  {
  }

  /** A block at the review cap is never reviewed again, and the lemma list
      shows it in the top importance tier whatever its title. */
  lemma CappedBlock(b: MemoryBlock, verdict: Option<string>, title: string)
    requires b.reviews >= MaxReviewsPerNode
    ensures ReviewOf(b, verdict).None?
    ensures LemmaList.Tier(b.reviews as int, title) == LemmaList.Critical
  {
  }

  /** The reviews of the path's blocks, in path order. */
  function ReviewsFor(mem: seq<MemoryBlock>, ids: seq<nat>, verdict: nat -> Option<string>): (r: seq<Option<string>>)
    requires InRange(mem, ids)
    ensures |r| == |ids|
    ensures forall k :: 0 <= k < |ids| ==> r[k] == ReviewOf(mem[ids[k]], verdict(ids[k]))
  {
    if ids == [] then []
    else [ReviewOf(mem[ids[0]], verdict(ids[0]))] + ReviewsFor(mem, ids[1..], verdict)
  }

  // ---------------------------------------------------------------------
  // backtrace_review_from

  /** `(reviews + per_round).min(MAX_REVIEWS_PER_NODE)`. */
  function Grown(reviews: u8, perRound: u8): (r: u8)
    requires reviews as int + perRound as int < 256
    ensures r <= MaxReviewsPerNode && r as int <= reviews as int + perRound as int
    ensures r == MaxReviewsPerNode || r as int == reviews as int + perRound as int
  {
    if reviews + perRound > MaxReviewsPerNode then MaxReviewsPerNode else reviews + perRound
  }

  /** What a review-state update leaves alone. */
  predicate SameIdentity(b: MemoryBlock, r: MemoryBlock)
  {
    && r.memtype == b.memtype && r.content == b.content && r.proof == b.proof
    && r.proofSummary == b.proofSummary && r.deps == b.deps && r.createdAt == b.createdAt
  }

  /** The update of one block of the path, given its review and the path's
      correctness so far; the second component is the correctness after
      it. */
  function ReviewNode(b: MemoryBlock, rev: Option<string>, perRound: u8, correct: bool, now: int): (r: (MemoryBlock, bool))
    requires !IsContext(b) ==> b.reviews as int + perRound as int < 256
    ensures IsContext(b) ==> r == (b, correct)
    ensures !IsContext(b) ==> r.1 == (correct && rev.None?) && r.0.solved == r.1
    ensures !IsContext(b) ==> SameIdentity(b, r.0) && Stamped(b, r.0, now)
    ensures !IsContext(b) && rev.Some? ==> r.0.comment == rev.value && r.0.reviews == 0
    ensures !IsContext(b) && rev.None? ==> r.0.comment == b.comment && r.0.reviews == Grown(b.reviews, perRound)
  {
    if IsContext(b) then (b, correct)
    else
      var grown := WithReviews(b, Grown(b.reviews, perRound), now);
      match rev
      case None => (WithSolved(grown, correct, now), correct)
      case Some(text) => (WithSolved(WithReviews(WithComment(grown, text, now), 0, now), false, now), false)
  }

  /** No review count of a non-context block of the path overflows `u8`
      when the reviews per round are added to it. */
  predicate NoOverflow(mem: seq<MemoryBlock>, ids: seq<nat>, perRound: u8)
  {
    forall k :: 0 <= k < |ids| && ids[k] < |mem| && !IsContext(mem[ids[k]]) ==>
      mem[ids[k]].reviews as int + perRound as int < 256
  }

  /** How far the `zip` of the path with its reviews goes. */
  function Zip(ids: seq<nat>, revs: seq<Option<string>>): nat
  {
    if |ids| <= |revs| then |ids| else |revs|
  }

  /** The update loop from some position of the path on, with `correct` the
      path's correctness so far: each non-context block's count grows,
      capped; a flaw becomes the block's comment, resets its count and makes
      the path incorrect; every non-context block's solved flag is the
      correctness after it. */
  function BacktraceFrom(mem: seq<MemoryBlock>, ids: seq<nat>, revs: seq<Option<string>>, perRound: u8, correct: bool, now: int): (r: (seq<MemoryBlock>, bool))
    requires Distinct(ids) && InRange(mem, ids) && NoOverflow(mem, ids, perRound)
    decreases |ids|
    ensures |r.0| == |mem|
    ensures r.1 ==> correct
  {
    if ids == [] || revs == [] then (mem, correct)
    else
      var (b, c) := ReviewNode(mem[ids[0]], revs[0], perRound, correct, now);
      var next := mem[ids[0] := b];
      assert forall k :: 0 <= k < |ids| - 1 ==> ids[1..][k] != ids[0] && next[ids[1..][k]] == mem[ids[1..][k]];
      BacktraceFrom(next, ids[1..], revs[1..], perRound, c, now)
  }

  /** The update keeps every block's identity, and a count it changes ends
      within the cap. */
  lemma {:induction false} BacktraceKeeps(mem: seq<MemoryBlock>, ids: seq<nat>, revs: seq<Option<string>>, perRound: u8, correct: bool, now: int)
    requires Distinct(ids) && InRange(mem, ids) && NoOverflow(mem, ids, perRound)
    decreases |ids|
    ensures var r := BacktraceFrom(mem, ids, revs, perRound, correct, now).0;
      forall i :: 0 <= i < |mem| ==>
        SameIdentity(mem[i], r[i]) && (r[i].reviews <= mem[i].reviews || r[i].reviews <= MaxReviewsPerNode)
  {
    if ids != [] && revs != [] {
      var (b, c) := ReviewNode(mem[ids[0]], revs[0], perRound, correct, now);
      var next := mem[ids[0] := b];
      assert forall k :: 0 <= k < |ids| - 1 ==> ids[1..][k] != ids[0] && next[ids[1..][k]] == mem[ids[1..][k]];
      BacktraceKeeps(next, ids[1..], revs[1..], perRound, c, now);
    }
  }

  /** Position `k` of the zip reports a flaw of a non-context block. */
  predicate Flaw(mem: seq<MemoryBlock>, ids: seq<nat>, revs: seq<Option<string>>, k: nat)
  {
    k < |ids| && k < |revs| && ids[k] < |mem| && !IsContext(mem[ids[k]]) && revs[k].Some?
  }

  /** No flaw at the zip positions before `m`. */
  predicate CleanBefore(mem: seq<MemoryBlock>, ids: seq<nat>, revs: seq<Option<string>>, m: nat)
  {
    forall k: nat :: k < m ==> !Flaw(mem, ids, revs, k)
  }

  /** Shifting the path by one block: the flaws of the rest, read in the
      updated memory, are the later flaws of the whole. */
  lemma FlawShift(mem: seq<MemoryBlock>, ids: seq<nat>, revs: seq<Option<string>>, b: MemoryBlock, m: nat)
    requires ids != [] && revs != [] && ids[0] < |mem| && b.memtype == mem[ids[0]].memtype
    ensures CleanBefore(mem[ids[0] := b], ids[1..], revs[1..], m) <==>
      forall k: nat :: 1 <= k < m + 1 ==> !Flaw(mem, ids, revs, k)
  {
    var next := mem[ids[0] := b];
    assert forall k: nat :: Flaw(next, ids[1..], revs[1..], k) <==> Flaw(mem, ids, revs, k + 1) by {
      forall k: nat
        ensures Flaw(next, ids[1..], revs[1..], k) <==> Flaw(mem, ids, revs, k + 1)
      {
        if k + 1 < |ids| && ids[k + 1] < |mem| {
          assert IsContext(next[ids[k + 1]]) == IsContext(mem[ids[k + 1]]);
        }
      }
    }
    if CleanBefore(next, ids[1..], revs[1..], m) {
      forall k: nat | 1 <= k < m + 1
        ensures !Flaw(mem, ids, revs, k)
      {
        assert !Flaw(next, ids[1..], revs[1..], k - 1);
      }
    }
  }

  /** The flag returned: the path is correct exactly when no non-context
      block in the zip reported a flaw. */
  lemma {:induction false} BacktraceFlag(mem: seq<MemoryBlock>, ids: seq<nat>, revs: seq<Option<string>>, perRound: u8, correct: bool, now: int)
    requires Distinct(ids) && InRange(mem, ids) && NoOverflow(mem, ids, perRound)
    decreases |ids|
    ensures BacktraceFrom(mem, ids, revs, perRound, correct, now).1 <==>
      correct && CleanBefore(mem, ids, revs, Zip(ids, revs))
  {
    if ids == [] || revs == [] {
    } else {
      var (b, c) := ReviewNode(mem[ids[0]], revs[0], perRound, correct, now);
      var next := mem[ids[0] := b];
      assert forall k :: 0 <= k < |ids| - 1 ==> ids[1..][k] != ids[0] && next[ids[1..][k]] == mem[ids[1..][k]];
      BacktraceFlag(next, ids[1..], revs[1..], perRound, c, now);
      FlawShift(mem, ids, revs, b, Zip(ids[1..], revs[1..]));
      assert c <==> correct && !Flaw(mem, ids, revs, 0);
    }
  }

  /** The blocks the zip does not reach, and those not on the path, are
      left as they were. */
  lemma {:induction false} BacktraceFrame(mem: seq<MemoryBlock>, ids: seq<nat>, revs: seq<Option<string>>, perRound: u8, correct: bool, now: int, i: nat)
    requires Distinct(ids) && InRange(mem, ids) && NoOverflow(mem, ids, perRound)
    requires i < |mem| && i !in ids[..Zip(ids, revs)]
    decreases |ids|
    ensures BacktraceFrom(mem, ids, revs, perRound, correct, now).0[i] == mem[i]
  {
    if ids != [] && revs != [] {
      var (b, c) := ReviewNode(mem[ids[0]], revs[0], perRound, correct, now);
      var next := mem[ids[0] := b];
      assert forall k :: 0 <= k < |ids| - 1 ==> ids[1..][k] != ids[0] && next[ids[1..][k]] == mem[ids[1..][k]];
      assert ids[0] in ids[..Zip(ids, revs)];
      assert forall x :: x in ids[1..][..Zip(ids[1..], revs[1..])] ==> x in ids[..Zip(ids, revs)];
      BacktraceFrame(next, ids[1..], revs[1..], perRound, c, now, i);
    }
  }

  /** The block at zip position `k` ends as one update of its old state
      would leave it, given the correctness of the path before it: with
      the frame lemma, this is the whole new memory. */
  lemma {:induction false} BacktraceNode(mem: seq<MemoryBlock>, ids: seq<nat>, revs: seq<Option<string>>, perRound: u8, correct: bool, now: int, k: nat)
    requires Distinct(ids) && InRange(mem, ids) && NoOverflow(mem, ids, perRound)
    requires k < Zip(ids, revs)
    decreases |ids|
    ensures BacktraceFrom(mem, ids, revs, perRound, correct, now).0[ids[k]] ==
      ReviewNode(mem[ids[k]], revs[k], perRound, correct && CleanBefore(mem, ids, revs, k), now).0
  {
    BacktraceStep(mem, ids, revs, perRound, correct, now);
    var (b, c) := ReviewNode(mem[ids[0]], revs[0], perRound, correct, now);
    var next := mem[ids[0] := b];
    if k == 0 {
      assert ids[0] !in ids[1..][..Zip(ids[1..], revs[1..])];
      BacktraceFrame(next, ids[1..], revs[1..], perRound, c, now, ids[0]);
    } else {
      BacktraceNode(next, ids[1..], revs[1..], perRound, c, now, k - 1);
      FlawShift(mem, ids, revs, b, k - 1);
      assert ids[1..][k - 1] == ids[k] && revs[1..][k - 1] == revs[k] && next[ids[k]] == mem[ids[k]];
      assert c <==> correct && !Flaw(mem, ids, revs, 0);
      assert CleanBefore(mem, ids, revs, k) <==>
        !Flaw(mem, ids, revs, 0) && forall j: nat :: 1 <= j < k ==> !Flaw(mem, ids, revs, j);
    }
  }

  /** Solved flags only switch off along the path: a non-context block
      left solved has every non-context block before it solved too, and the
      path is then correct up to it. */
  lemma SolvedPrefix(mem: seq<MemoryBlock>, ids: seq<nat>, revs: seq<Option<string>>, perRound: u8, now: int, j: nat, k: nat)
    requires Distinct(ids) && InRange(mem, ids) && NoOverflow(mem, ids, perRound)
    requires j < k < Zip(ids, revs) && !IsContext(mem[ids[j]]) && !IsContext(mem[ids[k]])
    requires BacktraceFrom(mem, ids, revs, perRound, true, now).0[ids[k]].solved
    ensures BacktraceFrom(mem, ids, revs, perRound, true, now).0[ids[j]].solved
    ensures CleanBefore(mem, ids, revs, k + 1)
  {
    BacktraceNode(mem, ids, revs, perRound, true, now, k);
    BacktraceNode(mem, ids, revs, perRound, true, now, j);
    assert CleanBefore(mem, ids, revs, k) && revs[k].None?;
    assert !Flaw(mem, ids, revs, j) && CleanBefore(mem, ids, revs, j);
  }

  // ---------------------------------------------------------------------
  // backtrace_refine_from

  /** One refiner answer applied to a block: a solved block, a block
      without a stored comment and an empty answer change nothing;
      otherwise the comment is cleared and, when the answer has a boxed
      judgement, its proof replaces the block's and, if the judgement is
      `false`, its conjecture replaces the statement. Those two fields are
      assigned directly, without a new modification time. */
  function RefineNode(b: MemoryBlock, reproof: string, now: int): (r: MemoryBlock)
    ensures b.solved || b.comment == [] || reproof == [] ==> r == b
    ensures !(b.solved || b.comment == [] || reproof == []) ==> r.comment == [] && r.updatedAt == now
    ensures r.memtype == b.memtype && r.deps == b.deps && r.reviews == b.reviews && r.solved == b.solved
    ensures r.createdAt == b.createdAt && r.proofSummary == b.proofSummary
    ensures r.content != b.content ==>
      FindBoxSpec(reproof) == Some("false") && ExtractComponent(reproof, "conjecture") == Some(r.content)
    ensures r.proof != b.proof ==>
      FindBoxSpec(reproof).Some? && ExtractComponent(reproof, "proof") == Some(r.proof)
    ensures (!(b.solved || b.comment == [] || reproof == []) && FindBoxSpec(reproof).Some?
             && ExtractComponent(reproof, "proof").Some?)
      ==> r.proof == ExtractComponent(reproof, "proof").value
    ensures (!(b.solved || b.comment == [] || reproof == []) && FindBoxSpec(reproof) == Some("false")
             && ExtractComponent(reproof, "conjecture").Some?)
      ==> r.content == ExtractComponent(reproof, "conjecture").value
  {
    if b.solved || b.comment == [] || reproof == [] then b
    else
      var cleared := WithComment(b, "", now);
      match FindBoxSpec(reproof)
      case None => cleared
      case Some(judgement) =>
        var restated :=
          if judgement == "false" then
            match ExtractComponent(reproof, "conjecture")
            case Some(conj) => cleared.(content := conj)
            case None => cleared
          else cleared;
        match ExtractComponent(reproof, "proof")
        case Some(proof) => restated.(proof := proof)
        case None => restated
  }

  /** The refinements of a path applied in turn; `reproof` gives the
      refiner's answer for each block. */
  function RefinePath(mem: seq<MemoryBlock>, ids: seq<nat>, reproof: nat -> string, now: int): (r: seq<MemoryBlock>)
    requires Distinct(ids) && InRange(mem, ids)
    decreases |ids|
    ensures |r| == |mem|
  {
    if ids == [] then mem
    else RefinePath(mem[ids[0] := RefineNode(mem[ids[0]], reproof(ids[0]), now)], ids[1..], reproof, now)
  }

  /** Refinement leaves every block's kind, dependencies, count and solved
      flag as they were. */
  lemma {:induction false} RefineKeeps(mem: seq<MemoryBlock>, ids: seq<nat>, reproof: nat -> string, now: int)
    requires Distinct(ids) && InRange(mem, ids)
    decreases |ids|
    ensures var r := RefinePath(mem, ids, reproof, now);
      forall i :: 0 <= i < |mem| ==>
        r[i].memtype == mem[i].memtype && r[i].deps == mem[i].deps && r[i].reviews == mem[i].reviews
        && r[i].solved == mem[i].solved
  {
    if ids != [] {
      var next := mem[ids[0] := RefineNode(mem[ids[0]], reproof(ids[0]), now)];
      assert forall k :: 0 <= k < |ids| - 1 ==> ids[1..][k] != ids[0];
      RefineKeeps(next, ids[1..], reproof, now);
    }
  }

  /** The blocks off the path are untouched, and each block of the path ends
      as one refinement of its old state leaves it. */
  lemma {:induction false} RefinePathSpec(mem: seq<MemoryBlock>, ids: seq<nat>, reproof: nat -> string, now: int, i: nat)
    requires Distinct(ids) && InRange(mem, ids) && i < |mem|
    decreases |ids|
    ensures i !in ids ==> RefinePath(mem, ids, reproof, now)[i] == mem[i]
    ensures i in ids ==> RefinePath(mem, ids, reproof, now)[i] == RefineNode(mem[i], reproof(i), now)
  {
    if ids != [] {
      var next := mem[ids[0] := RefineNode(mem[ids[0]], reproof(ids[0]), now)];
      assert forall k :: 0 <= k < |ids| - 1 ==> ids[1..][k] != ids[0];
      RefinePathSpec(next, ids[1..], reproof, now, i);
      assert i in ids <==> i == ids[0] || i in ids[1..];
    }
  }

  // ---------------------------------------------------------------------
  // graph_step

  /** The response test: a dependency block and either a final proof or
      both a conjecture and its proof. */
  function Accepts(conj: string, proof: string, finalProof: string, deps: string): (ok: bool)
    ensures ok <==> deps != [] && (finalProof != [] || (conj != [] && proof != []))
  {
    !((conj == [] || proof == [] || deps == []) && (finalProof == [] || deps == []))
  }

  /** `extract_component(…).unwrap_or_default()`. */
  function Component(raw: string, tag: string): string
  {
    match ExtractComponent(raw, tag) case Some(c) => c case None => ""
  }

  /** The dependency list as the JSON parse `parse` reads it, empty when
      the parse fails. */
  function ParsedDeps(deps: string, parse: string -> Option<seq<nat>>): seq<nat>
  {
    match parse(deps) case Some(ids) => ids case None => []
  }

  /** The block an accepted response adds: a theorem whose statement is the
      problem when there is a final proof, a lemma otherwise; unsolved and
      unreviewed. */
  function NewNode(problem: string, conj: string, proof: string, finalProof: string, deps: seq<nat>, now: int): (b: MemoryBlock)
    ensures finalProof != [] ==> b.memtype == "theorem" && b.content == problem && b.proof == finalProof
    ensures finalProof == [] ==> b.memtype == "lemma" && b.content == conj && b.proof == proof
    ensures !b.solved && b.reviews == 0 && b.comment == [] && b.deps == deps
    ensures b.createdAt == now && Chronological(b)
  {
    var blank := NewBlock(now);
    var typed :=
      if finalProof == [] then WithProof(WithContent(WithMemtype(blank, "lemma", now), conj, now), proof, now)
      else WithProof(WithContent(WithMemtype(blank, "theorem", now), problem, now), finalProof, now);
    WithReviews(WithSolved(WithDeps(typed, deps, now), false, now), 0, now)
  }

  /** How a graph step ends: its answer, or a panic (an index past the end
      of the memory, or a `u8` overflow). */
  datatype StepOutcome = Answer(solved: bool) | Panic

  /** The review rounds from `round` on, for the block `id`: review the path;
      stop when it is correct or after the last round; otherwise refine it
      and go on. `verdicts(r)` and `reproofs(r)` are the reviewer's and the
      refiner's answers in round `r`; `None` is a panic. */
  function Rounds(mem: seq<MemoryBlock>, id: nat, round: nat, iterations: nat, perRound: u8,
                  verdicts: nat -> nat -> Option<string>, reproofs: nat -> nat -> string, now: int): (r: Option<seq<MemoryBlock>>)
    requires round <= iterations + 1
    decreases iterations + 1 - round
    ensures r.Some? ==> |r.value| == |mem|
    ensures r.Some? ==> forall i :: 0 <= i < |mem| ==>
      r.value[i].memtype == mem[i].memtype && r.value[i].deps == mem[i].deps
  {
    if round > iterations then Some(mem)
    else
      var ids := ProofPathIds(mem, id, true);
      IncreasingDistinct(ids);
      if !InRange(mem, ids) || !NoOverflow(mem, ids, perRound) then None
      else
        var revs := ReviewsFor(mem, ids, verdicts(round));
        var (reviewed, correct) := BacktraceFrom(mem, ids, revs, perRound, true, now);
        BacktraceKeeps(mem, ids, revs, perRound, true, now);
        if correct || round == iterations then Some(reviewed)
        else
          var again := ProofPathIds(reviewed, id, true);
          IncreasingDistinct(again);
          if !InRange(reviewed, again) then None
          else
            RefineKeeps(reviewed, again, reproofs(round), now);
            Rounds(RefinePath(reviewed, again, reproofs(round), now), id, round + 1, iterations, perRound, verdicts, reproofs, now)
  }

  /** The four parts of the explorer's answer, each empty when missing. */
  datatype Response = Response(conj: string, proof: string, finalProof: string, deps: string)

  function ReadResponse(raw: string): Response
  {
    Response(Component(raw, "conjecture"), Component(raw, "proof"), Component(raw, "final_proof"), Component(raw, "dependency"))
  }

  /** After the new block `memid` is added: the review rounds, then the
      solved test on that block. Where the source's `u8` arithmetic
      overflows, the model stops with `Panic`, as a debug build with
      overflow checks does; a release build would wrap instead. */
  function Settle(added: seq<MemoryBlock>, memid: nat, problem: string, perRound: u8, iterations: u8,
                  verdicts: nat -> nat -> Option<string>, reproofs: nat -> nat -> string, now: int): (r: (StepOutcome, seq<MemoryBlock>))
    requires memid < |added|
    ensures r.0.Answer? ==> |r.1| == |added| && r.1[memid].memtype == added[memid].memtype
    ensures r.0 == Answer(true) ==> r.1[memid].solved && r.1[memid].content == problem
  {
    if iterations == 255 then (Panic, added)
    else
      match Rounds(added, memid, 0, iterations as nat, perRound, verdicts, reproofs, now)
      case None => (Panic, added)
      case Some(after) =>
        var b := after[memid];
        (Answer(b.solved && b.memtype == "theorem" && b.content == problem), after)
  }

  /** The step on a read response. */
  function StepOn(mem: seq<MemoryBlock>, problem: string, perRound: u8, iterations: u8, resp: Response,
                  parse: string -> Option<seq<nat>>, verdicts: nat -> nat -> Option<string>,
                  reproofs: nat -> nat -> string, now: int): (r: (StepOutcome, seq<MemoryBlock>))
    ensures r.0.Answer? ==> |r.1| == |mem| + 1 || r == (Answer(false), mem)
  {
    if !Accepts(resp.conj, resp.proof, resp.finalProof, resp.deps) then (Answer(false), mem)
    else
      var added := mem + [NewNode(problem, resp.conj, resp.proof, resp.finalProof, ParsedDeps(resp.deps, parse), now)];
      Settle(added, |mem|, problem, perRound, iterations, verdicts, reproofs, now)
  }

  /** `graph_step` on a memory: the outcome and the memory after it. */
  function GraphStepSpec(mem: seq<MemoryBlock>, problem: string, perRound: u8, iterations: u8, raw: string,
                         parse: string -> Option<seq<nat>>, verdicts: nat -> nat -> Option<string>,
                         reproofs: nat -> nat -> string, now: int): (r: (StepOutcome, seq<MemoryBlock>))
    ensures r.0.Answer? ==> |r.1| == |mem| + 1 || r == (Answer(false), mem)
  {
    StepOn(mem, problem, perRound, iterations, ReadResponse(raw), parse, verdicts, reproofs, now)
  }

  /** A step only reports the problem solved for a response with a final
      proof and a dependency block, and the new block is then that final
      proof's theorem, solved; a rejected response changes nothing. */
  lemma SolvedNeedsFinalProof(mem: seq<MemoryBlock>, problem: string, perRound: u8, iterations: u8, resp: Response,
                              parse: string -> Option<seq<nat>>, verdicts: nat -> nat -> Option<string>,
                              reproofs: nat -> nat -> string, now: int)
    ensures var r := StepOn(mem, problem, perRound, iterations, resp, parse, verdicts, reproofs, now);
      r.0 == Answer(true) ==>
        resp.finalProof != [] && resp.deps != [] && |r.1| == |mem| + 1
        && r.1[|mem|].solved && r.1[|mem|].memtype == "theorem" && r.1[|mem|].content == problem
    ensures !Accepts(resp.conj, resp.proof, resp.finalProof, resp.deps) ==>
      StepOn(mem, problem, perRound, iterations, resp, parse, verdicts, reproofs, now) == (Answer(false), mem)
  {
    if Accepts(resp.conj, resp.proof, resp.finalProof, resp.deps) {
      var b := NewNode(problem, resp.conj, resp.proof, resp.finalProof, ParsedDeps(resp.deps, parse), now);
      var added := mem + [b];
      assert added[|mem|] == b;
    }
  }

  /** Every block's review count within the cap. */
  predicate AllCapped(mem: seq<MemoryBlock>)
  {
    forall i :: 0 <= i < |mem| ==> mem[i].reviews <= MaxReviewsPerNode
  }

  /** With dependencies naming existing blocks, a path from an existing
      block names existing blocks only. */
  lemma PathInRange(mem: seq<MemoryBlock>, id: nat)
    requires DepsInRange(mem) && id < |mem|
    ensures InRange(mem, ProofPathIds(mem, id, true))
  {
    var walk := Explore(mem, id);
    ExploreClosed(mem, id);
    var ids := ProofPathIds(mem, id, true);
    assert ids == FinishPath(mem, walk, true);
    forall k | 0 <= k < |ids|
      ensures ids[k] < |mem|
    {
      assert ids[k] in ids;
      assert ids[k] in walk || (ids[k] == 0 && ContextAt0(mem));
    }
  }

  /** The rounds never panic while the memory's dependencies name existing
      blocks, every count is within the cap and adding the reviews per round
      to the cap fits in a `u8`. */
  lemma {:induction false} RoundsNoPanic(mem: seq<MemoryBlock>, id: nat, round: nat, iterations: nat, perRound: u8,
                                          verdicts: nat -> nat -> Option<string>, reproofs: nat -> nat -> string, now: int)
    requires round <= iterations + 1
    requires DepsInRange(mem) && id < |mem| && AllCapped(mem) && perRound as int + MaxReviewsPerNode as int < 256
    decreases iterations + 1 - round
    ensures Rounds(mem, id, round, iterations, perRound, verdicts, reproofs, now).Some?
  {
    if round <= iterations {
      var ids := ProofPathIds(mem, id, true);
      IncreasingDistinct(ids);
      PathInRange(mem, id);
      assert NoOverflow(mem, ids, perRound) by {
        assert forall k :: 0 <= k < |ids| ==> mem[ids[k]].reviews <= MaxReviewsPerNode;
      }
      var revs := ReviewsFor(mem, ids, verdicts(round));
      var (reviewed, correct) := BacktraceFrom(mem, ids, revs, perRound, true, now);
      BacktraceKeeps(mem, ids, revs, perRound, true, now);
      if !correct && round < iterations {
        assert DepsInRange(reviewed) by {
          assert forall i :: 0 <= i < |mem| ==> reviewed[i].deps == mem[i].deps;
        }
        PathInRange(reviewed, id);
        var again := ProofPathIds(reviewed, id, true);
        IncreasingDistinct(again);
        var refined := RefinePath(reviewed, again, reproofs(round), now);
        RefineKeeps(reviewed, again, reproofs(round), now);
        assert DepsInRange(refined) by {
          assert forall i :: 0 <= i < |mem| ==> refined[i].deps == mem[i].deps;
        }
        RoundsNoPanic(refined, id, round + 1, iterations, perRound, verdicts, reproofs, now);
      }
    }
  }

  /** On a memory whose dependencies name existing blocks and whose counts
      are within the cap, a step panics only when `iterations + 1`
      overflows, provided the response's dependencies name existing blocks
      and the reviews per round fit. */
  lemma StepNoPanic(mem: seq<MemoryBlock>, problem: string, perRound: u8, iterations: u8, resp: Response,
                    parse: string -> Option<seq<nat>>, verdicts: nat -> nat -> Option<string>,
                    reproofs: nat -> nat -> string, now: int)
    requires DepsInRange(mem) && AllCapped(mem) && perRound as int + MaxReviewsPerNode as int < 256 && iterations < 255
    requires forall d :: d in ParsedDeps(resp.deps, parse) ==> d < |mem|
    ensures StepOn(mem, problem, perRound, iterations, resp, parse, verdicts, reproofs, now).0.Answer?
  {
    if Accepts(resp.conj, resp.proof, resp.finalProof, resp.deps) {
      var b := NewNode(problem, resp.conj, resp.proof, resp.finalProof, ParsedDeps(resp.deps, parse), now);
      var added := mem + [b];
      assert DepsInRange(added) && AllCapped(added) by {
        assert added[|mem|] == b;
        assert forall i :: 0 <= i < |mem| ==> added[i] == mem[i];
      }
      RoundsNoPanic(added, |mem|, 0, iterations as nat, perRound, verdicts, reproofs, now);
    }
  }

  /** One step of the update loop: the first block is updated and the rest
      of the path follows on the updated memory, which still meets the
      loop's demands. */
  lemma BacktraceStep(mem: seq<MemoryBlock>, ids: seq<nat>, revs: seq<Option<string>>, perRound: u8, correct: bool, now: int)
    requires Distinct(ids) && InRange(mem, ids) && NoOverflow(mem, ids, perRound)
    requires ids != [] && revs != []
    ensures !IsContext(mem[ids[0]]) ==> mem[ids[0]].reviews as int + perRound as int < 256
    ensures var (b, c) := ReviewNode(mem[ids[0]], revs[0], perRound, correct, now);
      var next := mem[ids[0] := b];
      && Distinct(ids[1..]) && InRange(next, ids[1..]) && NoOverflow(next, ids[1..], perRound)
      && BacktraceFrom(mem, ids, revs, perRound, correct, now) == BacktraceFrom(next, ids[1..], revs[1..], perRound, c, now)
  {
    var (b, c) := ReviewNode(mem[ids[0]], revs[0], perRound, correct, now);
    var next := mem[ids[0] := b];
    assert forall k :: 0 <= k < |ids| - 1 ==> ids[1..][k] != ids[0] && next[ids[1..][k]] == mem[ids[1..][k]];
  }

  /** The loop body of `backtrace_review_from` on one non-context block. */
  method UpdateBlock(mem: MemoryBlock, review: Option<string>, perRound: u8, correct: bool, now: int)
    returns (updated: MemoryBlock, pathCorrectness: bool)
    requires !IsContext(mem) && mem.reviews as int + perRound as int < 256
    ensures (updated, pathCorrectness) == ReviewNode(mem, review, perRound, correct, now)
  {
    pathCorrectness := correct;
    var grown := mem.reviews + perRound;
    if grown > MaxReviewsPerNode {
      grown := MaxReviewsPerNode;
    }
    updated := WithReviews(mem, grown, now);
    if review.Some? {
      pathCorrectness := false;
      updated := WithComment(updated, review.value, now);
      updated := WithReviews(updated, 0, now);
    }
    updated := WithSolved(updated, pathCorrectness, now);
  }

  /** The join loop of `backtrace_refine_from` on one block. */
  method RefineBlock(memblock: MemoryBlock, reproof: string, now: int) returns (refined: MemoryBlock)
    ensures refined == RefineNode(memblock, reproof, now)
  {
    refined := memblock;
    if !memblock.solved && memblock.comment != [] && reproof != [] {
      refined := WithComment(refined, "", now);
      var judgement := FindBox(reproof);
      if judgement.Some? {
        if judgement.value == "false" {
          var conj := ExtractComponent(reproof, "conjecture");
          if conj.Some? {
            refined := refined.(content := conj.value);
          }
        }
        var proof := ExtractComponent(reproof, "proof");
        if proof.Some? {
          refined := refined.(proof := proof.value);
        }
      }
    }
  }

  // ---------------------------------------------------------------------
  // The session

  /** A research session in theorem-graph mode: its memory and the
      configuration the bookkeeping reads. */
  class Session {
    const memory: Memory
    /** Reviews counted per review round (`config.reviews`). */
    const reviews: u8
    /** Refinement rounds allowed (`config.iterations`). */
    const iterations: u8
    const problem: string

    constructor (memory: Memory, reviews: u8, iterations: u8, problem: string)
      ensures this.memory == memory && this.reviews == reviews
      ensures this.iterations == iterations && this.problem == problem
    {
      this.memory := memory;
      this.reviews := reviews;
      this.iterations := iterations;
      this.problem := problem;
    }

    /** `review_mems`, with the reviews already in path order; `verdict`
        gives the reviewer's answer for each block. */
    method ReviewMems(ids: seq<nat>, verdict: nat -> Option<string>) returns (res: seq<Option<string>>)
      requires InRange(memory.memory, ids)
      ensures res == ReviewsFor(memory.memory, ids, verdict)
    {
      res := [];
      var k := 0;
      while k < |ids|
        invariant 0 <= k <= |ids| && |res| == k
        invariant forall j :: 0 <= j < k ==> res[j] == ReviewOf(memory.memory[ids[j]], verdict(ids[j]))
      {
        var memblock := memory.memory[ids[k]];
        var review: Option<string>;
        if memblock.memtype == "context" || memblock.reviews >= MaxReviewsPerNode {
          review := None;
        } else if memblock.comment != [] {
          review := Some(memblock.comment);
        } else {
          review := verdict(ids[k]);
        }
        res := res + [review];
        k := k + 1;
      }
    }

    /** `backtrace_review_from`: review the proof path of `id` and update
        every non-context block of it in path order. */
    method BacktraceReviewFrom(id: nat, verdict: nat -> Option<string>, now: int) returns (pathCorrectness: bool)
      requires InRange(memory.memory, ProofPathIds(memory.memory, id, true))
      requires NoOverflow(memory.memory, ProofPathIds(memory.memory, id, true), reviews)
      modifies memory
      ensures var ids := ProofPathIds(old(memory.memory), id, true);
        (memory.memory, pathCorrectness)
          == BacktraceFrom(old(memory.memory), ids, ReviewsFor(old(memory.memory), ids, verdict), reviews, true, now)
    {
      var ids := memory.GetProofPathIds(id, true);
      IncreasingDistinct(ids);
      var revs := ReviewMems(ids, verdict);
      ghost var target := BacktraceFrom(memory.memory, ids, revs, reviews, true, now);
      ghost var cur := memory.memory;
      pathCorrectness := true;
      var path, pending := ids, revs;
      while path != [] && pending != []
        invariant memory.memory == cur
        invariant Distinct(path) && InRange(cur, path) && NoOverflow(cur, path, reviews)
        invariant BacktraceFrom(cur, path, pending, reviews, pathCorrectness, now) == target
        decreases |path|
      {
        BacktraceStep(cur, path, pending, reviews, pathCorrectness, now);
        var i := path[0];
        var mem := memory.memory[i];
        if mem.memtype != "context" {
          mem, pathCorrectness := UpdateBlock(mem, pending[0], reviews, pathCorrectness, now);
          memory.memory := memory.memory[i := mem];
        } else {
          assert cur[i := mem] == cur;
        }
        cur := cur[i := mem];
        path, pending := path[1..], pending[1..];
      }
    }

    /** `backtrace_refine_from`: every unsolved block of the path with a
        stored comment takes the refiner's answer. */
    method BacktraceRefineFrom(id: nat, reproof: nat -> string, now: int)
      requires InRange(memory.memory, ProofPathIds(memory.memory, id, true))
      modifies memory
      ensures memory.memory == RefinePath(old(memory.memory), ProofPathIds(old(memory.memory), id, true), reproof, now)
    {
      var ids := memory.GetProofPathIds(id, true);
      IncreasingDistinct(ids);
      ghost var target := RefinePath(memory.memory, ids, reproof, now);
      ghost var cur := memory.memory;
      var path := ids;
      while path != []
        invariant memory.memory == cur
        invariant Distinct(path) && InRange(cur, path)
        invariant RefinePath(cur, path, reproof, now) == target
        decreases |path|
      {
        assert forall k :: 0 <= k < |path| - 1 ==> path[1..][k] != path[0];
        var i := path[0];
        var memblock := RefineBlock(memory.memory[i], reproof(i), now);
        memory.memory := memory.memory[i := memblock];
        cur := cur[i := memblock];
        path := path[1..];
      }
    }

    /** `update_memory_graph`. */
    method UpdateMemoryGraph(b: MemoryBlock)
      modifies memory
      ensures memory.memory == old(memory.memory) + [b]
    {
      memory.Update(b);
    }

    /** The review rounds of `graph_step` for block `memid`: at most
        `iterations + 1` reviews of its path, with a refinement after each
        failed review but the last. `finished` is false where the source
        panics (an index past the end of the memory, a count overflow). The
        ghost outputs count the review and refinement rounds run. */
    method ReviewRounds(memid: nat, verdicts: nat -> nat -> Option<string>, reproofs: nat -> nat -> string, now: int)
      returns (finished: bool, ghost reviewRounds: nat, ghost refinements: nat)
      modifies memory
      ensures var r := Rounds(old(memory.memory), memid, 0, iterations as nat, reviews, verdicts, reproofs, now);
        finished <==> r.Some?
      ensures finished ==>
        Rounds(old(memory.memory), memid, 0, iterations as nat, reviews, verdicts, reproofs, now) == Some(memory.memory)
      ensures finished ==> 1 <= reviewRounds <= iterations as int + 1 && refinements == reviewRounds - 1
    {
      ghost var target := Rounds(memory.memory, memid, 0, iterations as nat, reviews, verdicts, reproofs, now);
      reviewRounds, refinements := 0, 0;
      var round: nat := 0;
      // `for i in 0..iterations + 1`: every round ends the loop or refines
      while true
        invariant round <= iterations as nat
        invariant Rounds(memory.memory, memid, round, iterations as nat, reviews, verdicts, reproofs, now) == target
        invariant reviewRounds == round && refinements == round
        decreases iterations as nat - round
      {
        if !InRange(memory.memory, ProofPathIds(memory.memory, memid, true))
          || !NoOverflow(memory.memory, ProofPathIds(memory.memory, memid, true), reviews) {
          // the review indexes past the end of the memory or overflows a count
          return false, reviewRounds, refinements;
        }
        var correct := BacktraceReviewFrom(memid, verdicts(round), now);
        reviewRounds := reviewRounds + 1;
        if correct || round == iterations as nat {
          return true, reviewRounds, refinements;
        }
        if !InRange(memory.memory, ProofPathIds(memory.memory, memid, true)) {
          return false, reviewRounds, refinements;
        }
        BacktraceRefineFrom(memid, reproofs(round), now);
        refinements := refinements + 1;
        round := round + 1;
      }
    }

    /** `graph_step`, from the explorer's answer `raw` on: the response
        test, the new block, the review rounds and the solved test. */
    method GraphStep(raw: string, parse: string -> Option<seq<nat>>, verdicts: nat -> nat -> Option<string>,
                     reproofs: nat -> nat -> string, now: int) returns (outcome: StepOutcome)
      modifies memory
      ensures var spec := GraphStepSpec(old(memory.memory), problem, reviews, iterations, raw, parse, verdicts, reproofs, now);
        outcome == spec.0 && (outcome.Answer? ==> memory.memory == spec.1)
    {
      ghost var mem0 := memory.memory;
      var conj := Component(raw, "conjecture");
      var proof := Component(raw, "proof");
      var finalProof := Component(raw, "final_proof");
      var deps := Component(raw, "dependency");
      assert ReadResponse(raw) == Response(conj, proof, finalProof, deps);
      if (conj == [] || proof == [] || deps == []) && (finalProof == [] || deps == []) {
        return Answer(false);
      }
      UpdateMemoryGraph(NewNode(problem, conj, proof, finalProof, ParsedDeps(deps, parse), now));
      var memid := |memory.memory| - 1;
      assert GraphStepSpec(mem0, problem, reviews, iterations, raw, parse, verdicts, reproofs, now)
        == Settle(memory.memory, memid, problem, reviews, iterations, verdicts, reproofs, now);
      if iterations == 255 {
        // `iterations + 1` overflows
        return Panic;
      }
      var finished, _, _ := ReviewRounds(memid, verdicts, reproofs, now);
      if !finished {
        return Panic;
      }
      var b := memory.memory[memid];
      outcome := Answer(b.solved && b.memtype == "theorem" && b.content == problem);
    }
  }
}
