/** The memory graph of the prover: memory blocks (lemmas, theorems and the
    given context) with their dependency lists, the dependency closure that
    yields a proof path, the Markdown formatters that feed blocks back to the
    model, and two string routines of the chat client: the request URL and
    the framing of the server-sent event stream. */
module Agents {
  import opened Strings
  import opened Utils

  /** Rust `u8`. */
  newtype u8 = x: int | 0 <= x < 256

  /** A memory block. Timestamps are readings of an abstract clock. */
  datatype MemoryBlock = MemoryBlock(
    memtype: string,
    content: string,
    proof: string,
    proofSummary: string,
    createdAt: int,
    updatedAt: int,
    solved: bool,
    reviews: u8,
    comment: string,
    deps: seq<nat>)

  /** The creation time never lies after the last modification. */
  predicate Chronological(b: MemoryBlock)
  {
    b.createdAt <= b.updatedAt
  }

  /** `MemoryBlock::new()`, with `now` the clock reading. */
  function NewBlock(now: int): (b: MemoryBlock)
    ensures b.memtype == [] && b.content == [] && b.proof == [] && b.proofSummary == []
    ensures !b.solved && b.reviews == 0 && b.comment == [] && b.deps == []
    ensures b.createdAt == now && Chronological(b)
  {
    MemoryBlock("", "", "", "", now, now, false, 0, "", [])
  }

  /** Every builder and setter stores its field and stamps `updated_at`
      with the clock, leaving `created_at` alone. */
  predicate Stamped(b: MemoryBlock, r: MemoryBlock, now: int)
  {
    r.createdAt == b.createdAt && r.updatedAt == now
    && (Chronological(b) && b.updatedAt <= now ==> Chronological(r))
  }

  /** The fields a builder or setter can store. */
  datatype Field = MemtypeField | ContentField | ProofField | SummaryField
    | SolvedField | ReviewsField | CommentField | DepsField

  /** Every field other than `f` (and the timestamps) is as it was. */
  predicate SameExcept(b: MemoryBlock, r: MemoryBlock, f: Field)
  {
    && (f != MemtypeField ==> r.memtype == b.memtype)
    && (f != ContentField ==> r.content == b.content)
    && (f != ProofField ==> r.proof == b.proof)
    && (f != SummaryField ==> r.proofSummary == b.proofSummary)
    && (f != SolvedField ==> r.solved == b.solved)
    && (f != ReviewsField ==> r.reviews == b.reviews)
    && (f != CommentField ==> r.comment == b.comment)
    && (f != DepsField ==> r.deps == b.deps)
  }

  function WithMemtype(b: MemoryBlock, memtype: string, now: int): (r: MemoryBlock)
    ensures r.memtype == memtype && Stamped(b, r, now)
    ensures SameExcept(b, r, MemtypeField)
  {
    b.(memtype := memtype, updatedAt := now)
  }

  function WithContent(b: MemoryBlock, content: string, now: int): (r: MemoryBlock)
    ensures r.content == content && Stamped(b, r, now)
    ensures SameExcept(b, r, ContentField)
  {
    b.(content := content, updatedAt := now)
  }

  function WithProof(b: MemoryBlock, proof: string, now: int): (r: MemoryBlock)
    ensures r.proof == proof && Stamped(b, r, now)
    ensures SameExcept(b, r, ProofField)
  {
    b.(proof := proof, updatedAt := now)
  }

  /** `set_proof_summary`. */
  function WithProofSummary(b: MemoryBlock, summary: string, now: int): (r: MemoryBlock)
    ensures r.proofSummary == summary && Stamped(b, r, now)
    ensures SameExcept(b, r, SummaryField)
  {
    b.(proofSummary := summary, updatedAt := now)
  }

  /** The `solved` builder and `set_solved`. */
  function WithSolved(b: MemoryBlock, solved: bool, now: int): (r: MemoryBlock)
    ensures r.solved == solved && Stamped(b, r, now)
    ensures SameExcept(b, r, SolvedField)
  {
    b.(solved := solved, updatedAt := now)
  }

  /** The `reviews` builder and `set_reviews`. */
  function WithReviews(b: MemoryBlock, reviews: u8, now: int): (r: MemoryBlock)
    ensures r.reviews == reviews && Stamped(b, r, now)
    ensures SameExcept(b, r, ReviewsField)
  {
    b.(reviews := reviews, updatedAt := now)
  }

  /** `set_comment`. */
  function WithComment(b: MemoryBlock, comment: string, now: int): (r: MemoryBlock)
    ensures r.comment == comment && Stamped(b, r, now)
    ensures SameExcept(b, r, CommentField)
  {
    b.(comment := comment, updatedAt := now)
  }

  function WithDeps(b: MemoryBlock, deps: seq<nat>, now: int): (r: MemoryBlock)
    ensures r.deps == deps && Stamped(b, r, now)
    ensures SameExcept(b, r, DepsField)
  {
    b.(deps := deps, updatedAt := now)
  }

  // ---------------------------------------------------------------------
  // Formatting one block

  /** `_format`: the block as a LaTeX-style environment named after its kind,
      with its dependency list in Rust's debug notation. */
  function Format(b: MemoryBlock): (r: string)
    ensures StartsWith(r, BeginTag(b.memtype) + "\n" + b.content + "\n\n**DEPENDENCY**: " + DebugList(b.deps))
    ensures EndsWith(r, "\n" + EndTag(b.memtype))
    ensures |r| == |BeginTag(b.memtype) + "\n" + b.content + "\n\n**DEPENDENCY**: " + DebugList(b.deps)| + |"\n" + EndTag(b.memtype)|
  {
    var head := BeginTag(b.memtype) + "\n" + b.content + "\n\n**DEPENDENCY**: " + DebugList(b.deps);
    var tail := "\n" + EndTag(b.memtype);
    var r := head + tail;
    assert r[..|head|] == head;
    assert r[|r| - |tail|..] == tail;
    r
  }

  /** Two blocks of the same kind and statement format alike only when
      they list the same dependencies. */
  lemma FormatShowsDeps(b1: MemoryBlock, b2: MemoryBlock)
    requires b1.memtype == b2.memtype && b1.content == b2.content
    requires Format(b1) == Format(b2)
    ensures b1.deps == b2.deps
  {
    var pre := BeginTag(b1.memtype) + "\n" + b1.content + "\n\n**DEPENDENCY**: ";
    var r := Format(b1);
    var e := |r| - |"\n" + EndTag(b1.memtype)|;
    assert (pre + DebugList(b1.deps))[|pre|..] == DebugList(b1.deps);
    assert (pre + DebugList(b2.deps))[|pre|..] == DebugList(b2.deps);
    assert r[|pre|..e] == DebugList(b1.deps) == DebugList(b2.deps);
    DebugListInjective(b1.deps, b2.deps);
  }

  /** Appending text keeps the original as a prefix, and changes it
      exactly when the appended text is not empty. */
  lemma Extends(f: string, x: string)
    ensures StartsWith(f + x, f) && (f + x == f <==> x == [])
  {
    assert (f + x)[..|f|] == f;
    assert |f + x| == |f| + |x|;
  }

  lemma EndsWithAppended(a: string, t: string)
    ensures EndsWith(a + t, t)
  {
    assert (a + t)[|a + t| - |t|..] == t;
  }

  /** The proof environment appended by `_format_with_proof`. */
  function ProofSuffix(proof: string): string
  {
    if proof == [] then "" else "\n" + BeginTag("proof") + "\n" + proof + "\n" + EndTag("proof")
  }

  /** `_format_with_proof`: `_format` followed by the proof environment,
      which is there exactly when the proof is non-empty. */
  function FormatWithProof(b: MemoryBlock): (r: string)
    ensures StartsWith(r, Format(b))
    ensures b.proof == [] <==> r == Format(b)
    ensures b.proof != [] ==> EndsWith(r, b.proof + "\n" + EndTag("proof"))
  {
    var f := Format(b);
    var t := b.proof + "\n" + EndTag("proof");
    var x := ProofSuffix(b.proof);
    Extends(f, x);
    assert b.proof != [] ==> x == ("\n" + BeginTag("proof") + "\n") + t;
    assert b.proof != [] ==> f + x == (f + "\n" + BeginTag("proof") + "\n") + t;
    EndsWithAppended(f + "\n" + BeginTag("proof") + "\n", t);
    f + x
  }

  /** The summary tag appended by `_format_with_proof_summary`. */
  function SummarySuffix(summary: string): string
  {
    if summary == [] then "" else "\n<proof_summary>\n" + summary + "\n</proof_summary>"
  }

  /** `_format_with_proof_summary`: `_format`, then always the
      `**Proof Sketch**` header, then the summary tag exactly when the
      summary is non-empty. */
  function FormatWithProofSummary(b: MemoryBlock): (r: string)
    ensures StartsWith(r, Format(b) + "\n\n**Proof Sketch**")
    ensures b.proofSummary == [] <==> r == Format(b) + "\n\n**Proof Sketch**"
    ensures b.proofSummary != [] ==> EndsWith(r, b.proofSummary + "\n</proof_summary>")
  {
    var f := Format(b) + "\n\n**Proof Sketch**";
    var t := b.proofSummary + "\n</proof_summary>";
    var x := SummarySuffix(b.proofSummary);
    Extends(f, x);
    assert b.proofSummary != [] ==> x == "\n<proof_summary>\n" + t;
    assert b.proofSummary != [] ==> f + x == (f + "\n<proof_summary>\n") + t;
    EndsWithAppended(f + "\n<proof_summary>\n", t);
    f + x
  }

  /** Which of the three block formatters a listing uses. */
  datatype Style = Bare | ProofIncluded | SummaryIncluded

  function FormatBlock(b: MemoryBlock, style: Style): string
  {
    match style
    case Bare => Format(b)
    case ProofIncluded => FormatWithProof(b)
    case SummaryIncluded => FormatWithProofSummary(b)
  }

  /** One section of a listing: a level-4 header carrying the block's index
      in memory, then the formatted block. */
  function Section(i: nat, b: MemoryBlock, style: Style): (r: string)
    ensures r != []
  {
    SectionHeader(i) + FormatBlock(b, style) + "\n\n"
  }

  function SectionHeader(i: nat): string
  {
    "#### Memory **ID: " + NatToString(i) + "**\n\n"
  }

  /** The header names the block's index: different indices give different
      headers, so a dependency list can refer to blocks by the IDs shown. */
  lemma SectionHeaderNamesId(i: nat, j: nat)
    requires SectionHeader(i) == SectionHeader(j)
    ensures i == j
  {
    var pre := "#### Memory **ID: ";
    var h := SectionHeader(i);
    assert h[|pre|..|h| - 4] == NatToString(i);
    assert SectionHeader(j)[|pre|..|h| - 4] == NatToString(j);
    NatToStringValue(i);
    NatToStringValue(j);
  }

  /** Each section starts with the header naming the block's index and
      holds the formatted block right after it. */
  lemma SectionShape(i: nat, b: MemoryBlock, style: Style)
    ensures StartsWith(Section(i, b, style), "#### Memory **ID: " + NatToString(i) + "**\n\n")
    ensures StartsWith(Section(i, b, style)[|SectionHeader(i)|..], FormatBlock(b, style))
  {
    var h, f := SectionHeader(i), FormatBlock(b, style);
    var r := Section(i, b, style);
    assert r == h + (f + "\n\n");
    Extends(h, f + "\n\n");
    assert r[|h|..] == f + "\n\n";
    Extends(f, "\n\n");
  }

  // ---------------------------------------------------------------------
  // The dependency closure

  predicate Distinct(s: seq<nat>)
  {
    forall i, j :: 0 <= i < j < |s| ==> s[i] != s[j]
  }

  lemma DistinctSnoc(s: seq<nat>, x: nat)
    requires Distinct(s) && x !in s
    ensures Distinct(s + [x])
  {
    assert forall i :: 0 <= i < |s| ==> (s + [x])[i] == s[i];
  }

  lemma DistinctTail(s: seq<nat>)
    requires Distinct(s) && s != []
    ensures Distinct(s[1..])
  {
    assert forall i :: 0 <= i < |s| - 1 ==> s[1..][i] == s[i + 1];
  }

  predicate StrictlyIncreasing(s: seq<nat>)
  {
    forall i, j :: 0 <= i < j < |s| ==> s[i] < s[j]
  }

  predicate StrictlyDecreasing(s: seq<nat>)
  {
    forall i, j :: 0 <= i < j < |s| ==> s[i] > s[j]
  }

  /** Every id some block depends on. */
  function AllDeps(mem: seq<MemoryBlock>): set<nat>
  {
    set i, d | 0 <= i < |mem| && d in mem[i].deps :: d
  }

  /** The ids a walk from `id` can ever queue. */
  function Universe(mem: seq<MemoryBlock>, id: nat): set<nat>
  {
    {id} + AllDeps(mem)
  }

  /** A queue of the walk: distinct ids, all of them from the universe of
      its first one. */
  predicate Queue(mem: seq<MemoryBlock>, ids: seq<nat>)
  {
    ids != [] && Distinct(ids) && forall x :: x in ids ==> x in Universe(mem, ids[0])
  }

  lemma {:induction false} DistinctBound(s: seq<nat>, u: set<nat>)
    requires Distinct(s) && forall x :: x in s ==> x in u
    ensures |s| <= |u|
  {
    if s != [] {
      assert forall x :: x in s[1..] ==> x in u - {s[0]};
      DistinctBound(s[1..], u - {s[0]});
    }
  }

  /** The inner `for`: each dependency not yet queued is appended, in
      order. */
  function AddNew(ids: seq<nat>, deps: seq<nat>): (r: seq<nat>)
    decreases |deps|
    ensures |ids| <= |r| && r[..|ids|] == ids
    ensures forall x :: x in r <==> x in ids || x in deps
    ensures forall k :: |ids| <= k < |r| ==> r[k] in deps && r[k] !in ids
    ensures Distinct(ids) ==> Distinct(r)
  {
    if deps == [] then ids
    else
      var next := if deps[0] in ids then ids else ids + [deps[0]];
      var r := AddNew(next, deps[1..]);
      assert r[..|ids|] == next[..|ids|] == ids;
      assert forall k :: |ids| <= k < |next| ==> r[k] == next[k] == deps[0];
      assert forall x :: x in deps <==> x == deps[0] || x in deps[1..];
      r
  }

  /** The outer loop from queue position `r`: expand the block there if it
      exists, and stop at the first id that names no block or when the
      queue is used up. */
  function ExploreFrom(mem: seq<MemoryBlock>, ids: seq<nat>, r: nat): (res: seq<nat>)
    requires Queue(mem, ids) && r < |ids|
    decreases |Universe(mem, ids[0])| - r
    ensures Queue(mem, res) && |ids| <= |res| && res[..|ids|] == ids
  {
    if ids[r] >= |mem| then ids
    else
      var next := AddNew(ids, mem[ids[r]].deps);
      QueueNext(mem, ids, r);
      if r + 1 >= |next| then next
      else
        var res := ExploreFrom(mem, next, r + 1);
        PrefixOfPrefix(res, next, ids);
        res
  }

  lemma PrefixOfPrefix(a: seq<nat>, b: seq<nat>, c: seq<nat>)
    requires |c| <= |b| <= |a| && a[..|b|] == b && b[..|c|] == c
    ensures a[..|c|] == c
  {
    assert a[..|c|] == a[..|b|][..|c|];
  }

  /** Expanding position `r` keeps a queue of the same walk, within the
      walk's universe. */
  lemma QueueNext(mem: seq<MemoryBlock>, ids: seq<nat>, r: nat)
    requires Queue(mem, ids) && r < |ids| && ids[r] < |mem|
    ensures var next := AddNew(ids, mem[ids[r]].deps);
      Queue(mem, next) && next[0] == ids[0] && |next| <= |Universe(mem, ids[0])|
  {
    var deps := mem[ids[r]].deps;
    var next := AddNew(ids, deps);
    assert next[0] == ids[0];
    assert forall d :: d in deps ==> d in AllDeps(mem);
    DistinctBound(next, Universe(mem, ids[0]));
  }

  /** The walk from `id`: the queue `dep_ids` when the loop stops. */
  function Explore(mem: seq<MemoryBlock>, id: nat): (res: seq<nat>)
    ensures Queue(mem, res) && res[0] == id
  {
    var q: seq<nat> := [id];
    assert q[..1] == q;
    ExploreFrom(mem, q, 0)
  }

  /** One turn of the outer loop: the block at position `r` expanded, the
      queue still a queue of the same walk, and the walk either finished or
      going on from the next position. */
  lemma ExploreStep(mem: seq<MemoryBlock>, ids: seq<nat>, r: nat)
    requires Queue(mem, ids) && r < |ids| && ids[r] < |mem|
    ensures var next := AddNew(ids, mem[ids[r]].deps);
      && Queue(mem, next) && next[0] == ids[0] && |next| <= |Universe(mem, ids[0])|
      && (r + 1 >= |next| ==> ExploreFrom(mem, ids, r) == next)
      && (r + 1 < |next| ==> ExploreFrom(mem, ids, r) == ExploreFrom(mem, next, r + 1))
  {
    QueueNext(mem, ids, r);
  }

  /** The inner `for` of the walk, appending each dependency not yet
      queued. */
  method QueueDeps(ids: seq<nat>, deps: seq<nat>) returns (r: seq<nat>)
    ensures r == AddNew(ids, deps)
  {
    r := ids;
    var t := 0;
    while t < |deps|
      invariant 0 <= t <= |deps|
      invariant AddNew(r, deps[t..]) == AddNew(ids, deps)
    {
      assert deps[t..][1..] == deps[t + 1..];
      if deps[t] !in r {
        r := r + [deps[t]];
      }
      t := t + 1;
    }
    assert deps[t..] == [];
  }

  /** Position `j` of the queue was expanded: it and every position before
      it name a block. */
  predicate Expanded(mem: seq<MemoryBlock>, ids: seq<nat>, j: nat)
    requires j < |ids|
  {
    forall i :: 0 <= i <= j ==> ids[i] < |mem|
  }

  predicate DepsIn(deps: seq<nat>, ids: seq<nat>)
  {
    forall d :: d in deps ==> d in ids
  }

  /** The id at `k` is a dependency of the block named at `j`, earlier in
      the queue. */
  predicate Parent(mem: seq<MemoryBlock>, ids: seq<nat>, j: nat, k: nat)
  {
    j < k < |ids| && ids[j] < |mem| && ids[k] in mem[ids[j]].deps
  }

  /** Every expanded position has all its dependencies in the queue. */
  predicate ClosedPrefix(mem: seq<MemoryBlock>, ids: seq<nat>)
  {
    forall j :: 0 <= j < |ids| && Expanded(mem, ids, j) ==> DepsIn(mem[ids[j]].deps, ids)
  }

  /** Every queued id after the first is a dependency of an expanded
      position before it. */
  ghost predicate Witnessed(mem: seq<MemoryBlock>, ids: seq<nat>)
  {
    forall k :: 0 < k < |ids| ==> ExpandedParent(mem, ids, k)
  }

  ghost predicate ExpandedParent(mem: seq<MemoryBlock>, ids: seq<nat>, k: nat)
  {
    exists j: nat :: Parent(mem, ids, j, k) && Expanded(mem, ids, j)
  }

  /** The loop's invariant at position `r`: the positions before `r` name
      blocks and have been expanded. */
  predicate ExpandedBefore(mem: seq<MemoryBlock>, ids: seq<nat>, r: nat)
  {
    r <= |ids| && forall j :: 0 <= j < r ==> ids[j] < |mem| && DepsIn(mem[ids[j]].deps, ids)
  }

  /** ... and every queued id came from one of them. */
  ghost predicate ParentsBefore(mem: seq<MemoryBlock>, ids: seq<nat>, r: nat)
  {
    forall k :: 0 < k < |ids| ==> ParentBefore(mem, ids, k, r)
  }

  ghost predicate ParentBefore(mem: seq<MemoryBlock>, ids: seq<nat>, k: nat, r: nat)
  {
    exists j: nat :: j < r && Parent(mem, ids, j, k)
  }

  lemma ExpandedStep(mem: seq<MemoryBlock>, ids: seq<nat>, r: nat)
    requires r < |ids| && ids[r] < |mem| && ExpandedBefore(mem, ids, r)
    ensures ExpandedBefore(mem, AddNew(ids, mem[ids[r]].deps), r + 1)
  {
    var next := AddNew(ids, mem[ids[r]].deps);
    forall j | 0 <= j < r + 1
      ensures next[j] < |mem| && DepsIn(mem[next[j]].deps, next)
    {
      assert next[j] == ids[j];
    }
  }

  lemma ParentsStep(mem: seq<MemoryBlock>, ids: seq<nat>, r: nat)
    requires r < |ids| && ids[r] < |mem| && ParentsBefore(mem, ids, r)
    ensures ParentsBefore(mem, AddNew(ids, mem[ids[r]].deps), r + 1)
  {
    var next := AddNew(ids, mem[ids[r]].deps);
    var r1 := r + 1;
    forall k | 0 < k < |next|
      ensures ParentBefore(mem, next, k, r1)
    {
      if k < |ids| {
        assert ParentBefore(mem, ids, k, r);
        var j: nat :| j < r && Parent(mem, ids, j, k);
        assert next[j] == ids[j] && next[k] == ids[k];
        assert Parent(mem, next, j, k);
      } else {
        assert next[r] == ids[r];
        assert Parent(mem, next, r, k);
      }
    }
  }

  /** Once the loop stops, the invariant gives the final shape. */
  lemma StopShape(mem: seq<MemoryBlock>, ids: seq<nat>, r: nat)
    requires ExpandedBefore(mem, ids, r) && ParentsBefore(mem, ids, r)
    requires r == |ids| || ids[r] >= |mem|
    ensures ClosedPrefix(mem, ids) && Witnessed(mem, ids)
  {
    forall j | 0 <= j < |ids| && Expanded(mem, ids, j)
      ensures DepsIn(mem[ids[j]].deps, ids)
    {
      assert j < r;
    }
    forall k | 0 < k < |ids|
      ensures ExpandedParent(mem, ids, k)
    {
      assert ParentBefore(mem, ids, k, r);
      var j: nat :| j < r && Parent(mem, ids, j, k);
      assert Expanded(mem, ids, j);
    }
  }

  /** The walk ends in a state where every expanded position is closed and
      every queued id is witnessed. */
  lemma {:induction false} ExploreFromSpec(mem: seq<MemoryBlock>, ids: seq<nat>, r: nat)
    requires Queue(mem, ids) && r < |ids| && ExpandedBefore(mem, ids, r) && ParentsBefore(mem, ids, r)
    decreases |Universe(mem, ids[0])| - r
    ensures ClosedPrefix(mem, ExploreFrom(mem, ids, r)) && Witnessed(mem, ExploreFrom(mem, ids, r))
  {
    if ids[r] >= |mem| {
      StopShape(mem, ids, r);
    } else {
      var next := AddNew(ids, mem[ids[r]].deps);
      ExpandedStep(mem, ids, r);
      ParentsStep(mem, ids, r);
      if r + 1 >= |next| {
        StopShape(mem, next, r + 1);
      } else {
        assert next[0] == ids[0];
        DistinctBound(next, Universe(mem, ids[0]));
        ExploreFromSpec(mem, next, r + 1);
      }
    }
  }

  /** The walk from `id` ends closed under expansion and with every queued
      id witnessed. */
  lemma ExploreSpec(mem: seq<MemoryBlock>, id: nat)
    ensures ClosedPrefix(mem, Explore(mem, id)) && Witnessed(mem, Explore(mem, id))
  {
    ExploreFromSpec(mem, [id], 0);
  }

  /** Every dependency of every block names a block. */
  predicate DepsInRange(mem: seq<MemoryBlock>)
  {
    forall i :: 0 <= i < |mem| ==> forall d :: d in mem[i].deps ==> d < |mem|
  }

  lemma AllDepsInRange(mem: seq<MemoryBlock>)
    requires DepsInRange(mem)
    ensures forall x :: x in AllDeps(mem) ==> x < |mem|
  {
    forall x | x in AllDeps(mem)
      ensures x < |mem|
    {
      var i, d :| 0 <= i < |mem| && d in mem[i].deps && x == d;
    }
  }

  /** With every dependency in range, the walk from an existing block is
      closed: the dependencies of every id it returns are returned too. */
  lemma ExploreClosed(mem: seq<MemoryBlock>, id: nat)
    requires DepsInRange(mem) && id < |mem|
    ensures forall x :: x in Explore(mem, id) ==> x < |mem| && forall d :: d in mem[x].deps ==> d in Explore(mem, id)
  {
    var res := Explore(mem, id);
    ExploreSpec(mem, id);
    AllDepsInRange(mem);
    assert forall k :: 0 <= k < |res| ==> res[k] in Universe(mem, id);
    forall x | x in res
      ensures forall d :: d in mem[x].deps ==> d in res
    {
      var k :| 0 <= k < |res| && res[k] == x;
      assert Expanded(mem, res, k);
      assert DepsIn(mem[res[k]].deps, res);
    }
  }

  /** The walk returns nothing beyond what any closed set containing `id`
      holds: with the previous lemma, it is the least such set, the
      transitive dependency closure of `id`. */
  lemma ExploreLeast(mem: seq<MemoryBlock>, id: nat, s: set<nat>)
    requires id in s
    requires forall x :: x in s && x < |mem| ==> forall d :: d in mem[x].deps ==> d in s
    ensures forall x :: x in Explore(mem, id) ==> x in s
  {
    var res := Explore(mem, id);
    ExploreSpec(mem, id);
    var k := 0;
    while k < |res|
      invariant 0 <= k <= |res|
      invariant forall i :: 0 <= i < k ==> res[i] in s
    {
      if k > 0 {
        assert ExpandedParent(mem, res, k);
        var j: nat :| Parent(mem, res, j, k) && Expanded(mem, res, j);
      }
      k := k + 1;
    }
  }

  /** Sorted insertion of a value. */
  function Insert(x: nat, s: seq<nat>): seq<nat>
  {
    if s == [] || x < s[0] then [x] + s else [s[0]] + Insert(x, s[1..])
  }

  lemma IncreasingTail(s: seq<nat>)
    requires StrictlyIncreasing(s) && s != []
    ensures StrictlyIncreasing(s[1..]) && forall y :: y in s[1..] ==> s[0] < y
  {
    assert forall j :: 0 <= j < |s| - 1 ==> s[1..][j] == s[j + 1];
  }

  /** Insertion adds exactly the value inserted. */
  lemma {:induction false} InsertMembers(x: nat, s: seq<nat>)
    ensures |Insert(x, s)| == |s| + 1
    ensures forall y :: y in Insert(x, s) <==> y == x || y in s
  {
    if s != [] && x >= s[0] {
      InsertMembers(x, s[1..]);
      assert s == [s[0]] + s[1..];
    }
  }

  /** Inserting a new value into an ascending sequence keeps it ascending
      and adds exactly that value. */
  lemma {:induction false} InsertSpec(x: nat, s: seq<nat>)
    requires StrictlyIncreasing(s) && x !in s
    ensures var r := Insert(x, s);
      StrictlyIncreasing(r) && |r| == |s| + 1 && forall y :: y in r <==> y == x || y in s
  {
    InsertMembers(x, s);
    if s == [] || x < s[0] {
      var r := [x] + s;
      assert forall j :: 0 < j < |r| ==> r[j] == s[j - 1] && s[0] <= r[j];
    } else {
      IncreasingTail(s);
      InsertSpec(x, s[1..]);
      var t := Insert(x, s[1..]);
      assert forall y :: y in t ==> s[0] < y;
      var r := [s[0]] + t;
      assert forall j :: 0 < j < |r| ==> r[j] == t[j - 1] && r[j] in t;
    }
  }

  /** `sort_unstable` on distinct values: the values in ascending order. */
  function SortDistinct(s: seq<nat>): (r: seq<nat>)
    requires Distinct(s)
    ensures StrictlyIncreasing(r) && |r| == |s|
    ensures forall y :: y in r <==> y in s
  {
    if s == [] then []
    else
      DistinctTail(s);
      var t := SortDistinct(s[1..]);
      assert s[0] !in s[1..];
      InsertSpec(s[0], t);
      assert forall y :: y in s <==> y == s[0] || y in s[1..];
      Insert(s[0], t)
  }

  /** Block 0 holds the given context. */
  predicate ContextAt0(mem: seq<MemoryBlock>)
  {
    |mem| > 0 && mem[0].memtype == "context"
  }

  /** What `get_proof_path_ids` does to the walk: drop the requested id
      unless asked to keep it, add block 0 when it is the context, sort. */
  function FinishPath(mem: seq<MemoryBlock>, walk: seq<nat>, includeEndNode: bool): (r: seq<nat>)
    requires walk != [] && Distinct(walk)
    ensures StrictlyIncreasing(r)
    ensures forall x :: x in r <==>
      (x in walk && (includeEndNode || x != walk[0])) || (x == 0 && ContextAt0(mem))
  {
    var a := if includeEndNode then walk else walk[1..];
    assert forall x :: x in walk[1..] <==> x in walk && x != walk[0];
    var b := if ContextAt0(mem) && 0 !in a then a + [0] else a;
    SortDistinct(b)
  }

  /** `get_proof_path_ids` as a function of the memory. */
  function ProofPathIds(mem: seq<MemoryBlock>, id: nat, includeEndNode: bool): (r: seq<nat>)
    ensures StrictlyIncreasing(r)
  {
    FinishPath(mem, Explore(mem, id), includeEndNode)
  }

  /** The requested id is returned exactly when asked for, except that id 0
      also comes back when block 0 is the context; that block is always
      returned. */
  lemma ProofPathEnds(mem: seq<MemoryBlock>, id: nat, includeEndNode: bool)
    ensures id in ProofPathIds(mem, id, includeEndNode) <==> includeEndNode || (id == 0 && ContextAt0(mem))
    ensures ContextAt0(mem) ==> 0 in ProofPathIds(mem, id, includeEndNode)
  {
  }

  /** Every other returned id is a dependency reached by the walk. */
  lemma ProofPathMembers(mem: seq<MemoryBlock>, id: nat, includeEndNode: bool, x: nat)
    requires x in ProofPathIds(mem, id, includeEndNode) && x != id && !(x == 0 && ContextAt0(mem))
    ensures x in Explore(mem, id)
  {
  }

  // ---------------------------------------------------------------------
  // The dependency listing

  /** The ids a reversed walk over `ids` lists: those naming a block, last
      first. */
  function Listed(mem: seq<MemoryBlock>, ids: seq<nat>): (r: seq<nat>)
    ensures forall x :: x in r <==> x in ids && x < |mem|
    ensures forall i :: 0 <= i < |r| ==> r[i] < |mem|
  {
    if ids == [] then []
    else
      var l := Listed(mem, ids[1..]);
      assert forall x :: x in ids <==> x == ids[0] || x in ids[1..];
      l + (if ids[0] < |mem| then [ids[0]] else [])
  }

  /** The section of the block named by `id`, if there is one. */
  function SectionOf(mem: seq<MemoryBlock>, id: nat, style: Style): (r: string)
    ensures r == [] <==> id >= |mem|
  {
    if id < |mem| then Section(id, mem[id], style) else ""
  }

  function SectionFn(mem: seq<MemoryBlock>, style: Style): nat -> string
  {
    (id: nat) => SectionOf(mem, id, style)
  }

  /** The texts `f` gives for `ids`, in the order given. */
  function Joined(ids: seq<nat>, f: nat -> string): string
  {
    if ids == [] then [] else f(ids[0]) + Joined(ids[1..], f)
  }

  /** The texts `f` gives for `ids`, last first. */
  function RevJoined(ids: seq<nat>, f: nat -> string): string
  {
    if ids == [] then [] else RevJoined(ids[1..], f) + f(ids[0])
  }

  /** Sections for `ids`, in the order given, each headed by its id. */
  function Sections(mem: seq<MemoryBlock>, ids: seq<nat>, style: Style): string
  {
    Joined(ids, SectionFn(mem, style))
  }

  /** The loop of `format_deps`: the sections of `ids`, walked from the
      end. */
  function ReversedSections(mem: seq<MemoryBlock>, ids: seq<nat>, style: Style): string
  {
    RevJoined(ids, SectionFn(mem, style))
  }

  lemma {:induction false} JoinedAppend(a: seq<nat>, b: seq<nat>, f: nat -> string)
    ensures Joined(a + b, f) == Joined(a, f) + Joined(b, f)
  {
    if a == [] {
      assert a + b == b;
    } else {
      assert (a + b)[1..] == a[1..] + b;
      JoinedAppend(a[1..], b, f);
      assert (a + b)[0] == a[0];
    }
  }

  lemma {:induction false} RevJoinedListed(mem: seq<MemoryBlock>, ids: seq<nat>, f: nat -> string)
    requires forall id: nat :: id >= |mem| ==> f(id) == []
    ensures RevJoined(ids, f) == Joined(Listed(mem, ids), f)
  {
    if ids != [] {
      RevJoinedListed(mem, ids[1..], f);
      var l := Listed(mem, ids[1..]);
      var last: seq<nat> := if ids[0] < |mem| then [ids[0]] else [];
      assert Listed(mem, ids) == l + last;
      JoinedAppend(l, last, f);
      if ids[0] < |mem| {
        assert Joined(last, f) == f(ids[0]) + Joined([], f);
      }
    }
  }

  /** The reversed walk lists exactly the ids naming a block, in reverse. */
  lemma ReversedSectionsListed(mem: seq<MemoryBlock>, ids: seq<nat>, style: Style)
    ensures ReversedSections(mem, ids, style) == Sections(mem, Listed(mem, ids), style)
  {
    RevJoinedListed(mem, ids, SectionFn(mem, style));
  }

  /** On ascending ids the listing is descending. */
  lemma {:induction false} ListedDescending(mem: seq<MemoryBlock>, ids: seq<nat>)
    requires StrictlyIncreasing(ids)
    ensures StrictlyDecreasing(Listed(mem, ids))
  {
    if ids != [] {
      ListedDescending(mem, ids[1..]);
      var l := Listed(mem, ids[1..]);
      assert forall x :: x in ids[1..] ==> ids[0] < x;
      assert forall i :: 0 <= i < |l| ==> l[i] in ids[1..];
      var last: seq<nat> := if ids[0] < |mem| then [ids[0]] else [];
      assert Listed(mem, ids) == l + last;
    }
  }

  /** A section is never empty, so the listing is empty exactly when no id
      names a block. */
  lemma SectionsEmpty(mem: seq<MemoryBlock>, ids: seq<nat>, style: Style)
    requires forall i :: 0 <= i < |ids| ==> ids[i] < |mem|
    ensures Sections(mem, ids, style) == [] <==> ids == []
  {
    if ids != [] {
      assert SectionOf(mem, ids[0], style) != [];
      assert SectionFn(mem, style)(ids[0]) != [];
    }
  }

  function DepsStyle(withProof: bool): Style
  {
    if withProof then ProofIncluded else Bare
  }

  /** `format_deps` as a function of the memory. */
  function FormatDepsSpec(mem: seq<MemoryBlock>, id: nat, withProof: bool, includeEndNode: bool): Option<string>
  {
    var ids := ProofPathIds(mem, id, includeEndNode);
    var all := if ContextAt0(mem) && 0 !in ids then ids + [0] else ids;
    var res := ReversedSections(mem, all, DepsStyle(withProof));
    if res == [] then None else Some(res)
  }

  /** `format_deps` lists the path's blocks from the highest id down,
      skipping ids that name no block, formatted with their proofs exactly
      when asked; it is nothing exactly when no block was listed. The
      second context check in `format_deps` never fires. */
  lemma FormatDepsListing(mem: seq<MemoryBlock>, id: nat, withProof: bool, includeEndNode: bool)
    ensures var ids := ProofPathIds(mem, id, includeEndNode);
      var l := Listed(mem, ids);
      && StrictlyDecreasing(l)
      && (forall x :: x in l <==> x in ids && x < |mem|)
      && FormatDepsSpec(mem, id, withProof, includeEndNode)
         == if l == [] then None else Some(Sections(mem, l, DepsStyle(withProof)))
  {
    var ids := ProofPathIds(mem, id, includeEndNode);
    ProofPathEnds(mem, id, includeEndNode);
    ListedDescending(mem, ids);
    ReversedSectionsListed(mem, ids, DepsStyle(withProof));
    SectionsEmpty(mem, Listed(mem, ids), DepsStyle(withProof));
  }

  // ---------------------------------------------------------------------
  // Listing the whole memory

  predicate Kept(b: MemoryBlock, solvedOnly: bool)
  {
    !solvedOnly || b.solved
  }

  /** The section of block `i` when it passes the filter. */
  function Entry(i: nat, b: MemoryBlock, solvedOnly: bool, style: Style): string
  {
    if Kept(b, solvedOnly) then Section(i, b, style) else ""
  }

  function Entries(solvedOnly: bool, style: Style): (nat, MemoryBlock) -> string
  {
    (i: nat, b: MemoryBlock) => Entry(i, b, solvedOnly, style)
  }

  /** The entries of the first `n` blocks, in memory order. */
  function Listing(mem: seq<MemoryBlock>, n: nat, entry: (nat, MemoryBlock) -> string): string
    requires n <= |mem|
  {
    if n == 0 then [] else Listing(mem, n - 1, entry) + entry(n - 1, mem[n - 1])
  }

  /** The sections of the first `n` blocks that pass the filter, each
      headed by its index in memory. */
  function AllSections(mem: seq<MemoryBlock>, n: nat, solvedOnly: bool, style: Style): string
    requires n <= |mem|
  {
    Listing(mem, n, Entries(solvedOnly, style))
  }

  /** `format_all_with_proof` and `format_all_with_proof_summary`. */
  function FormatAll(mem: seq<MemoryBlock>, solvedOnly: bool, style: Style): (r: Option<string>)
    ensures r.None? <==> mem == []
  {
    if mem == [] then None else Some(AllSections(mem, |mem|, solvedOnly, style))
  }

  lemma {:induction false} ListingEmpty(mem: seq<MemoryBlock>, n: nat, entry: (nat, MemoryBlock) -> string)
    requires n <= |mem| && forall i :: 0 <= i < n ==> entry(i, mem[i]) == ""
    ensures Listing(mem, n, entry) == ""
  {
    if n > 0 {
      ListingEmpty(mem, n - 1, entry);
    }
  }

  /** When the filter keeps no block, the listing is `Some("")`, not
      nothing. */
  lemma FormatAllFilteredOut(mem: seq<MemoryBlock>, style: Style)
    requires mem != [] && forall i :: 0 <= i < |mem| ==> !mem[i].solved
    ensures FormatAll(mem, true, style) == Some("")
  {
    ListingEmpty(mem, |mem|, Entries(true, style));
  }

  /** The listing of the first `n` blocks reads only those blocks. */
  lemma {:induction false} ListingPrefix(mem: seq<MemoryBlock>, m: seq<MemoryBlock>, n: nat, entry: (nat, MemoryBlock) -> string)
    requires n <= |mem| && n <= |m| && forall i :: 0 <= i < n ==> m[i] == mem[i]
    ensures Listing(m, n, entry) == Listing(mem, n, entry)
  {
    if n > 0 {
      ListingPrefix(mem, m, n - 1, entry);
    }
  }

  /** Appending a block (`Memory::update`) appends its section, headed by
      its index, when it passes the filter, and leaves the earlier sections
      as they were. */
  lemma FormatAllUpdate(mem: seq<MemoryBlock>, b: MemoryBlock, solvedOnly: bool, style: Style)
    ensures var m := mem + [b];
      FormatAll(m, solvedOnly, style)
      == Some(AllSections(mem, |mem|, solvedOnly, style)
              + (if Kept(b, solvedOnly) then Section(|mem|, b, style) else ""))
  {
    var m := mem + [b];
    var f := Entries(solvedOnly, style);
    ListingPrefix(mem, m, |mem|, f);
    assert Listing(m, |m|, f) == Listing(m, |mem|, f) + f(|mem|, b);
    assert Entry(|mem|, b, solvedOnly, style) == if Kept(b, solvedOnly) then Section(|mem|, b, style) else "";
  }

  // ---------------------------------------------------------------------
  // The chat client's request URL

  const ChatPath: string := "/v1/chat/completions"

  /** The endpoint `comp` posts to: the base URL without its trailing `/`
      characters, then without its trailing `/v1` suffixes, followed by the
      chat-completions path. */
  function ChatUrl(baseUrl: string): (url: string)
    ensures EndsWith(url, ChatPath)
    ensures var stem := url[..|url| - |ChatPath|];
      && !EndsWith(stem, "/v1")
      && exists v: nat, k: nat :: baseUrl == stem + Repeat("/v1", v) + Repeat("/", k)
           && !EndsWith(stem + Repeat("/v1", v), "/")
  {
    var t := TrimEndMatches(baseUrl, "/");
    var stem := TrimEndMatches(t, "/v1");
    TrimEndMatchesSpec(baseUrl, "/");
    TrimEndMatchesSpec(t, "/v1");
    EndsWithAppended(stem, ChatPath);
    assert (stem + ChatPath)[..|stem|] == stem;
    stem + ChatPath
  }

  /** Conversely, the stem is all that survives: any base URL made of a
      stem, `/v1` suffixes and then slashes posts to that stem. */
  lemma {:induction false} ChatUrlOf(stem: string, v: nat, k: nat)
    requires !EndsWith(stem, "/v1") && !EndsWith(stem + Repeat("/v1", v), "/")
    ensures ChatUrl(stem + Repeat("/v1", v) + Repeat("/", k)) == stem + ChatPath
  {
    TrimEndMatchesOf(stem + Repeat("/v1", v), "/", k);
    TrimEndMatchesOf(stem, "/v1", v);
  }

  /** A trailing slash makes no difference. */
  lemma ChatUrlTrailingSlash(baseUrl: string)
    ensures ChatUrl(baseUrl + "/") == ChatUrl(baseUrl)
  {
    var s := baseUrl + "/";
    assert EndsWith(s, "/") by {
      assert s[|s| - 1..] == "/";
    }
    assert s[..|s| - 1] == baseUrl;
  }

  /** Nor does a `/v1` suffix on a base without a trailing slash: the
      version is never doubled. */
  lemma ChatUrlVersionSuffix(stem: string)
    requires !EndsWith(stem, "/")
    ensures ChatUrl(stem + "/v1") == ChatUrl(stem)
  {
    var s := stem + "/v1";
    assert !EndsWith(s, "/") by {
      assert s[|s| - 1] == '1';
    }
    assert EndsWith(s, "/v1") by {
      assert s[|s| - 3..] == "/v1";
    }
    assert s[..|s| - 3] == stem;
  }

  // ---------------------------------------------------------------------
  // Server-sent event framing

  /** What the byte stream delivers: a decoded chunk, or a chunk error. */
  datatype Chunk = Received(text: string) | Failed

  /** How reading the stream ends. */
  datatype StreamOutcome = Completed(content: string) | TooManyChunkErrors

  /** `MAX_CHUNK_DECODE_RETRIES`. */
  const MaxChunkDecodeRetries: nat := 16

  /** `str::find('\n')` from index `i`. */
  function NewlineFrom(s: string, i: nat): (r: Option<nat>)
    requires i <= |s|
    decreases |s| - i
    ensures r.Some? ==> i <= r.value < |s| && s[r.value] == '\n'
  {
    if i == |s| then None else if s[i] == '\n' then Some(i) else NewlineFrom(s, i + 1)
  }

  /** The newline found is the first from `i` on; finding none means there
      is none. */
  lemma {:induction false} NewlineFromSpec(s: string, i: nat)
    requires i <= |s|
    decreases |s| - i
    ensures var r := NewlineFrom(s, i);
      && (r.Some? ==> forall k :: i <= k < r.value ==> s[k] != '\n')
      && (r.None? ==> forall k :: i <= k < |s| ==> s[k] != '\n')
  {
    if i < |s| && s[i] != '\n' {
      NewlineFromSpec(s, i + 1);
    }
  }

  /** A complete line: it ends with its only newline. */
  predicate IsLine(l: string)
  {
    l != [] && l[|l| - 1] == '\n' && forall k :: 0 <= k < |l| - 1 ==> l[k] != '\n'
  }

  /** The buffer drained line by line: the complete lines in order, and the
      text after the last newline, which stays buffered. */
  function Lines(buf: string): (seq<string>, string)
    decreases |buf|
  {
    match NewlineFrom(buf, 0)
    case None => ([], buf)
    case Some(p) =>
      var rest := Lines(buf[p + 1..]);
      ([buf[..p + 1]] + rest.0, rest.1)
  }

  /** One step of the drain: the first line, then the lines of the rest. */
  lemma LinesStep(buf: string, p: nat)
    requires NewlineFrom(buf, 0) == Some(p)
    ensures Lines(buf) == ([buf[..p + 1]] + Lines(buf[p + 1..]).0, Lines(buf[p + 1..]).1)
  {
  }

  lemma {:induction false} LinesJoin(buf: string)
    decreases |buf|
    ensures Concat(Lines(buf).0) + Lines(buf).1 == buf
  {
    var nl := NewlineFrom(buf, 0);
    if nl.None? {
      assert Lines(buf) == ([], buf);
      assert Concat([]) + buf == buf;
    } else {
      var p := nl.value;
      var line, tail := buf[..p + 1], buf[p + 1..];
      LinesJoin(tail);
      LinesStep(buf, p);
      var more, rest := Lines(tail).0, Lines(tail).1;
      ConcatCons(line, more);
      JoinThree(line, Concat(more), rest, tail, buf);
    }
  }

  lemma JoinThree(a: string, b: string, c: string, bc: string, abc: string)
    requires b + c == bc && abc == a + bc
    ensures (a + b) + c == abc
  {
  }

  lemma {:induction false} LinesComplete(buf: string)
    decreases |buf|
    ensures forall i :: 0 <= i < |Lines(buf).0| ==> IsLine(Lines(buf).0[i])
    ensures forall k :: 0 <= k < |Lines(buf).1| ==> Lines(buf).1[k] != '\n'
  {
    var nl := NewlineFrom(buf, 0);
    NewlineFromSpec(buf, 0);
    if nl.None? {
      assert Lines(buf) == ([], buf);
    } else {
      var p := nl.value;
      LinesComplete(buf[p + 1..]);
      LinesStep(buf, p);
      var more := Lines(buf[p + 1..]).0;
      var line := buf[..p + 1];
      assert IsLine(line);
      assert forall i :: 0 < i < |[line] + more| ==> ([line] + more)[i] == more[i - 1];
    }
  }

  /** Draining splits the buffer exactly: the lines and the remainder put
      back together are the buffer, every drained line is complete, and the
      remainder holds no newline. */
  lemma LinesSpec(buf: string)
    ensures var (lines, rest) := Lines(buf);
      && Concat(lines) + rest == buf
      && (forall i :: 0 <= i < |lines| ==> IsLine(lines[i]))
      && (forall k :: 0 <= k < |rest| ==> rest[k] != '\n')
  {
    LinesJoin(buf);
    LinesComplete(buf);
  }

  /** The first newline of `a + t` is the first newline of `a`, when `a`
      has one. */
  lemma {:induction false} NewlinePrefix(a: string, t: string, i: nat)
    requires i <= |a| && NewlineFrom(a, i).Some?
    decreases |a| - i
    ensures NewlineFrom(a + t, i) == NewlineFrom(a, i)
  {
    if a[i] != '\n' {
      NewlinePrefix(a, t, i + 1);
    }
  }

  /** The first line of `a` is the first line of `a + t`. */
  lemma LinesStepAppend(a: string, t: string, p: nat)
    requires NewlineFrom(a, 0) == Some(p)
    ensures Lines(a + t) == ([a[..p + 1]] + Lines(a[p + 1..] + t).0, Lines(a[p + 1..] + t).1)
  {
    NewlinePrefix(a, t, 0);
    LinesStep(a + t, p);
    assert (a + t)[p + 1..] == a[p + 1..] + t;
    assert (a + t)[..p + 1] == a[..p + 1];
  }

  lemma AppendShape(line: string, la: seq<string>, lb: seq<string>, ra: string, rb: string,
                    l: (seq<string>, string), lt: (seq<string>, string), l2t: (seq<string>, string))
    requires l == ([line] + la, ra) && lt == ([line] + l2t.0, l2t.1) && l2t == (la + lb, rb)
    ensures lt == (l.0 + lb, rb)
  {
    assert [line] + (la + lb) == ([line] + la) + lb;
  }

  /** Where the chunk boundaries fall does not matter: draining `a` and then
      the remainder with `t` appended gives the lines of `a + t`. */
  lemma {:induction false} LinesAppend(a: string, t: string)
    decreases |a|
    ensures var (la, ra) := Lines(a); var (lb, rb) := Lines(ra + t);
      Lines(a + t) == (la + lb, rb)
  {
    var nl := NewlineFrom(a, 0);
    if nl.None? {
      assert Lines(a) == ([], a);
      assert [] + Lines(a + t).0 == Lines(a + t).0;
    } else {
      var p := nl.value;
      var line, a2 := a[..p + 1], a[p + 1..];
      LinesStep(a, p);
      LinesStepAppend(a, t, p);
      LinesAppend(a2, t);
      var ra := Lines(a2).1;
      AppendShape(line, Lines(a2).0, Lines(ra + t).0, ra, Lines(ra + t).1, Lines(a), Lines(a + t), Lines(a2 + t));
    }
  }

  /** The payload of a line: the line without its newline and trailing
      carriage returns; a `data:` line's text after every leading `data:`,
      trimmed; nothing for other lines and for `[DONE]`. */
  function Payload(line: string): (r: Option<string>)
    ensures r.Some? ==> StartsWith(TrimEndMatches(TrimEndMatches(line, "\n"), "\r"), "data:")
    ensures r.Some? ==> r.value != "[DONE]"
    ensures r.Some? ==> r.value == [] || (!IsRustSpace(r.value[0]) && !IsRustSpace(r.value[|r.value| - 1]))
  {
    var l := TrimEndMatches(TrimEndMatches(line, "\n"), "\r");
    if StartsWith(l, "data:") then
      var d := TrimRust(TrimStartMatches(l, "data:"));
      TrimSpec(TrimStartMatches(l, "data:"), Rust);
      if d == "[DONE]" then None else Some(d)
    else None
  }

  /** A line made of `data:` prefixes, a payload, carriage returns and
      newlines yields the trimmed payload, unless that is `[DONE]`. */
  lemma PayloadOfDataLine(k: nat, rest: string, cr: nat, lf: nat)
    requires k > 0 && !StartsWith(rest, "data:")
    requires !EndsWith(Repeat("data:", k) + rest, "\r")
    requires !EndsWith(Repeat("data:", k) + rest + Repeat("\r", cr), "\n")
    ensures var line := Repeat("data:", k) + rest + Repeat("\r", cr) + Repeat("\n", lf);
      Payload(line) == if TrimRust(rest) == "[DONE]" then None else Some(TrimRust(rest))
  {
    var l := Repeat("data:", k) + rest;
    TrimEndMatchesOf(l + Repeat("\r", cr), "\n", lf);
    TrimEndMatchesOf(l, "\r", cr);
    TrimStartMatchesOf("data:", k, rest);
    RepeatCons("data:", k);
    assert l[..5] == "data:";
  }

  /** The text a line adds to the answer; `decode` stands for the JSON
      parse and the lookup of `choices[0].delta.content`. */
  function LineContent(line: string, decode: string -> Option<string>): string
  {
    match Payload(line)
    case None => ""
    case Some(d) => match decode(d) case None => "" case Some(c) => c
  }

  function LineReader(decode: string -> Option<string>): string -> string
  {
    (line: string) => LineContent(line, decode)
  }

  /** The texts `read` gives for the lines, in order. */
  function Texts(lines: seq<string>, read: string -> string): string
  {
    if lines == [] then "" else read(lines[0]) + Texts(lines[1..], read)
  }

  /** What the drained lines add to the answer. */
  function LinesContent(lines: seq<string>, decode: string -> Option<string>): string
  {
    Texts(lines, LineReader(decode))
  }

  lemma {:induction false} TextsAppend(a: seq<string>, b: seq<string>, read: string -> string)
    ensures Texts(a + b, read) == Texts(a, read) + Texts(b, read)
  {
    if a == [] {
      assert a + b == b;
    } else {
      assert (a + b)[1..] == a[1..] + b;
      TextsAppend(a[1..], b, read);
    }
  }

  /** The text of the chunks that arrived, in order. */
  function ReceivedText(chunks: seq<Chunk>): string
  {
    if chunks == [] then ""
    else ReceivedText(chunks[..|chunks| - 1])
         + match chunks[|chunks| - 1] case Received(t) => t case Failed => ""
  }

  /** How many chunks failed. */
  function Failures(chunks: seq<Chunk>): nat
  {
    if chunks == [] then 0
    else Failures(chunks[..|chunks| - 1]) + if chunks[|chunks| - 1].Failed? then 1 else 0
  }

  lemma {:induction false} FailuresPrefix(chunks: seq<Chunk>, n: nat)
    requires n <= |chunks|
    decreases |chunks| - n
    ensures Failures(chunks[..n]) <= Failures(chunks)
  {
    if n < |chunks| {
      FailuresPrefix(chunks, n + 1);
      assert chunks[..n + 1][..n] == chunks[..n];
    } else {
      assert chunks[..n] == chunks;
    }
  }

  /** The inner loop of `comp`: while the event buffer holds a newline, the
      line up to it is removed and its payload decoded; the decoded content
      is appended to `content`. What is left is the buffer's remainder. */
  method Drain(buffer: string, content: string, decode: string -> Option<string>) returns (newContent: string, rest: string)
    ensures newContent == content + LinesContent(Lines(buffer).0, decode)
    ensures rest == Lines(buffer).1
  {
    newContent, rest := content, buffer;
    while NewlineFrom(rest, 0).Some?
      invariant newContent + LinesContent(Lines(rest).0, decode) == content + LinesContent(Lines(buffer).0, decode)
      invariant Lines(rest).1 == Lines(buffer).1
      decreases |rest|
    {
      var pos := NewlineFrom(rest, 0).value;
      var line := rest[..pos + 1];
      DrainStep(rest, pos, newContent, LineReader(decode));
      rest := rest[pos + 1..];
      var c := DecodeLine(line, decode);
      newContent := newContent + c;
    }
    assert Lines(rest) == ([], rest);
  }

  /** Draining one line: it is the first of the buffer's lines, and its
      text comes first. */
  lemma DrainStep(buf: string, pos: nat, acc: string, read: string -> string)
    requires NewlineFrom(buf, 0) == Some(pos)
    ensures Lines(buf).1 == Lines(buf[pos + 1..]).1
    ensures (acc + read(buf[..pos + 1])) + Texts(Lines(buf[pos + 1..]).0, read)
      == acc + Texts(Lines(buf).0, read)
  {
    var tail := Lines(buf[pos + 1..]);
    LinesStep(buf, pos);
    var lines := Lines(buf).0;
    assert lines[1..] == tail.0;
    var c, later := read(buf[..pos + 1]), Texts(tail.0, read);
    assert Texts(lines, read) == c + later;
    assert (acc + c) + later == acc + (c + later);
  }

  /** One drained line's handling: the trims, the `data:` test, the `[DONE]`
      test and the decode; a line yielding nothing adds the empty text. */
  method DecodeLine(line: string, decode: string -> Option<string>) returns (c: string)
    ensures c == LineContent(line, decode)
  {
    c := "";
    var l := TrimEndMatches(TrimEndMatches(line, "\n"), "\r");
    if StartsWith(l, "data:") {
      var dataStr := TrimRust(TrimStartMatches(l, "data:"));
      if dataStr != "[DONE]" {
        match decode(dataStr) {
          case Some(text) => c := text;
          case None =>
        }
      }
    }
  }

  /** The streaming loop of `comp`: chunks are appended to the event
      buffer, every complete line is drained from it and its payload's
      content appended to the answer; the seventeenth chunk error ends the
      read with an error. `leftover` is the unprocessed text it warns
      about. */
  method ReadStream(chunks: seq<Chunk>, decode: string -> Option<string>) returns (outcome: StreamOutcome, leftover: string)
    ensures outcome.TooManyChunkErrors? <==> Failures(chunks) > MaxChunkDecodeRetries
    ensures outcome.Completed? ==>
      var (lines, rest) := Lines(ReceivedText(chunks));
      outcome.content == LinesContent(lines, decode) && leftover == rest
  {
    var contentBuffer := "";
    var sseBuffer := "";
    var retries := 0;
    var n := 0;
    while n < |chunks|
      invariant 0 <= n <= |chunks|
      invariant retries == Failures(chunks[..n]) <= MaxChunkDecodeRetries
      invariant sseBuffer == Lines(ReceivedText(chunks[..n])).1
      invariant contentBuffer == LinesContent(Lines(ReceivedText(chunks[..n])).0, decode)
    {
      ghost var all := ReceivedText(chunks[..n]);
      assert chunks[..n + 1][..n] == chunks[..n];
      match chunks[n] {
      case Failed =>
        retries := retries + 1;
        if retries > MaxChunkDecodeRetries {
          FailuresPrefix(chunks, n + 1);
          return TooManyChunkErrors, sseBuffer;
        }
        assert ReceivedText(chunks[..n + 1]) == all;
      case Received(text) =>
        assert ReceivedText(chunks[..n + 1]) == all + text;
        LinesAppend(all, text);
        TextsAppend(Lines(all).0, Lines(sseBuffer + text).0, LineReader(decode));
        contentBuffer, sseBuffer := Drain(sseBuffer + text, contentBuffer, decode);
      }
      n := n + 1;
    }
    assert chunks[..n] == chunks;
    outcome := Completed(contentBuffer);
    leftover := sseBuffer;
  }

  // ---------------------------------------------------------------------
  // The memory

  class Memory {
    var memory: seq<MemoryBlock>

    /** `Memory::new()`. */
    constructor ()
      ensures memory == []
    {
      memory := [];
    }

    /** `update`: the block is appended. */
    method Update(b: MemoryBlock)
      modifies this
      ensures memory == old(memory) + [b]
    {
      memory := memory + [b];
    }

    /** `get_proof_path_ids`: the worklist `dep_ids` walked by
        `retrieve_id`, then the end node, the context and the sort. */
    method GetProofPathIds(id: nat, includeEndNode: bool) returns (ids: seq<nat>)
      ensures ids == ProofPathIds(memory, id, includeEndNode)
    {
      var blocks := memory;
      var depIds: seq<nat> := [id];
      var retrieve := 0;
      assert depIds[..1] == depIds;
      while depIds[retrieve] < |blocks|
        invariant Queue(blocks, depIds) && depIds[0] == id && retrieve < |depIds|
        invariant ExploreFrom(blocks, depIds, retrieve) == Explore(blocks, id)
        decreases |Universe(blocks, id)| - retrieve
      {
        ExploreStep(blocks, depIds, retrieve);
        depIds := QueueDeps(depIds, blocks[depIds[retrieve]].deps);
        retrieve := retrieve + 1;
        if retrieve >= |depIds| {
          assert depIds == Explore(blocks, id);
          break;
        }
      }
      ghost var walk := Explore(blocks, id);
      assert depIds == walk;
      if !includeEndNode {
        DistinctTail(depIds);
        depIds := depIds[1..];
      }
      assert depIds == if includeEndNode then walk else walk[1..];
      if |blocks| > 0 && 0 !in depIds && blocks[0].memtype == "context" {
        DistinctSnoc(depIds, 0);
        depIds := depIds + [0];
      }
      ids := SortDistinct(depIds);
    }

    /** `format_deps`. */
    method FormatDeps(id: nat, withProof: bool, includeEndNode: bool) returns (r: Option<string>)
      ensures r == FormatDepsSpec(memory, id, withProof, includeEndNode)
    {
      var depIds := GetProofPathIds(id, includeEndNode);
      var blocks, style := memory, DepsStyle(withProof);
      var res := "";
      if |blocks| > 0 && 0 !in depIds && blocks[0].memtype == "context" {
        depIds := depIds + [0];
      }
      var k := |depIds|;
      while k > 0
        invariant 0 <= k <= |depIds|
        invariant res == ReversedSections(blocks, depIds[k..], style)
      {
        k := k - 1;
        assert depIds[k..][1..] == depIds[k + 1..];
        if depIds[k] < |blocks| {
          res := res + Section(depIds[k], blocks[depIds[k]], style);
        }
      }
      assert depIds[0..] == depIds;
      r := if res == [] then None else Some(res);
    }

    /** `format_all_with_proof`. */
    function FormatAllWithProof(solvedOnly: bool): (r: Option<string>)
      reads this
      ensures r.None? <==> memory == []
    {
      FormatAll(memory, solvedOnly, ProofIncluded)
    }

    /** `format_all_with_proof_summary`. */
    function FormatAllWithProofSummary(solvedOnly: bool): (r: Option<string>)
      reads this
      ensures r.None? <==> memory == []
    {
      FormatAll(memory, solvedOnly, SummaryIncluded)
    }
  }
}
