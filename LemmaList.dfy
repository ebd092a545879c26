/** The lemma list's small classifiers: the colour and label of a status and
    the importance tier derived from the review count and the title. */
module LemmaList {
  import opened Strings

  /** A lemma as the frontend receives it from the server. */
  datatype Lemma = Lemma(
    id: int,
    title: string,
    statement: string,
    proof: string,
    status: string,
    createdAt: string,
    lastUpdated: string,
    reviews: int,
    comment: string,
    deps: seq<int>)

  /** The four statuses the interface declares; any other string falls into
      the default branch of each classifier. */
  predicate KnownStatus(status: string)
  {
    status == "proved" || status == "in_progress" || status == "invalid"
  }

  /** The status dot's colour class. */
  function StatusColor(status: string): (c: string)
    ensures !KnownStatus(status) ==> c == "text-gray-400"
  {
    if status == "proved" then "text-green-500"
    else if status == "in_progress" then "text-yellow-500"
    else if status == "invalid" then "text-red-500"
    else "text-gray-400"
  }

  /** The status label shown beside the dot. */
  function StatusLabel(status: string): (l: string)
    ensures !KnownStatus(status) ==> l == "待处理"
  {
    if status == "proved" then "已证明"
    else if status == "in_progress" then "证明中"
    else if status == "invalid" then "无效"
    else "待处理"
  }

  /** Colour and label always tell the same story: two statuses share a
      colour exactly when they share a label. */
  lemma StatusColorMatchesLabel(s: string, u: string)
    ensures StatusColor(s) == StatusColor(u) <==> StatusLabel(s) == StatusLabel(u)
  {
  }

  /** The three named statuses have pairwise distinct labels, none of them
      the fallback label. */
  lemma StatusLabelsDistinct()
    ensures StatusLabel("proved") == "已证明" && StatusLabel("in_progress") == "证明中"
    ensures StatusLabel("invalid") == "无效"
    ensures forall s :: KnownStatus(s) ==> StatusLabel(s) != "待处理"
  {
  }

  /** JavaScript `toLowerCase` restricted to what matters for the search
      below: ASCII capitals become lower case. */
  function AsciiLower(c: char): (d: char)
    ensures 'A' <= c <= 'Z' ==> 'a' <= d <= 'z'
    ensures !('A' <= c <= 'Z') ==> d == c
  {
    if 'A' <= c <= 'Z' then (c as int + 32) as char else c
  }

  function LowerCase(s: string): (r: string)
    ensures |r| == |s|
    ensures forall i :: 0 <= i < |s| ==> r[i] == AsciiLower(s[i])
  {
    seq(|s|, i requires 0 <= i < |s| => AsciiLower(s[i]))
  }

  /** `title.toLowerCase().includes('theorem')`. */
  predicate IsTheorem(title: string)
  {
    Contains(LowerCase(title), "theorem")
  }

  /** `theorem` starts at `i` in some mix of upper and lower case. */
  predicate TheoremAt(s: string, i: nat)
  {
    i + 7 <= |s| && forall j :: 0 <= j < 7 ==> AsciiLower(s[i + j]) == "theorem"[j]
  }

  /** The test is a case-insensitive search for the word. */
  lemma IsTheoremCaseInsensitive(title: string)
    ensures IsTheorem(title) <==> exists i: nat :: TheoremAt(title, i)
  {
    var low := LowerCase(title);
    if IsTheorem(title) {
      var i :| 0 <= i <= |low| && OccursAt(low, "theorem", i);
      assert TheoremAt(title, i);
    }
    if i: nat :| TheoremAt(title, i) {
      assert forall j :: 0 <= j < 7 ==> low[i + j] == "theorem"[j];
      assert low[i..i + 7] == "theorem";
      assert OccursAt(low, "theorem", i);
    }
  }

  /** The three importance tiers: 次要, 重要, 关键. */
  datatype Importance = Minor | Major | Critical

  /** Where the review count and the title put a lemma. */
  function Tier(reviews: int, title: string): Importance
  {
    if IsTheorem(title) || reviews >= 24 then Critical
    else if reviews >= 12 then Major
    else Minor
  }

  function Rank(i: Importance): nat
  {
    match i
    case Minor => 0
    case Major => 1
    case Critical => 2
  }

  /** The importance badge's colour classes. */
  function ImportanceColor(reviews: int, title: string): (c: string)
    ensures IsTheorem(title) ==> c == "bg-red-100 text-red-800"
  {
    if IsTheorem(title) || reviews >= 24 then "bg-red-100 text-red-800"
    else if reviews >= 12 then "bg-yellow-100 text-yellow-800"
    else "bg-gray-100 text-gray-800"
  }

  /** The importance badge's text. */
  function ImportanceText(reviews: int, title: string): (t: string)
    ensures IsTheorem(title) ==> t == "关键"
  {
    if IsTheorem(title) || reviews >= 24 then "关键"
    else if reviews >= 12 then "重要"
    else "次要"
  }

  /** The text names the tier, and each tier has its own text. */
  function TierText(i: Importance): string
  {
    match i
    case Minor => "次要"
    case Major => "重要"
    case Critical => "关键"
  }

  function TierColor(i: Importance): string
  {
    match i
    case Minor => "bg-gray-100 text-gray-800"
    case Major => "bg-yellow-100 text-yellow-800"
    case Critical => "bg-red-100 text-red-800"
  }

  /** Text and colour are both read off the same tier. */
  lemma ImportanceByTier(reviews: int, title: string)
    ensures ImportanceText(reviews, title) == TierText(Tier(reviews, title))
    ensures ImportanceColor(reviews, title) == TierColor(Tier(reviews, title))
  {
  }

  /** The colour tier always matches the text tier. */
  lemma ImportanceColorMatchesText(r1: int, t1: string, r2: int, t2: string)
    ensures ImportanceColor(r1, t1) == ImportanceColor(r2, t2) <==> ImportanceText(r1, t1) == ImportanceText(r2, t2)
  {
    ImportanceByTier(r1, t1);
    ImportanceByTier(r2, t2);
  }

  /** The thresholds: 24 or more reviews is 关键, 12 to 23 on a non-theorem
      is 重要, fewer than 12 on a non-theorem is 次要. */
  lemma ImportanceThresholds(reviews: int, title: string)
    ensures reviews >= 24 ==> Tier(reviews, title) == Critical
    ensures !IsTheorem(title) && 12 <= reviews < 24 ==> Tier(reviews, title) == Major
    ensures !IsTheorem(title) && reviews < 12 ==> Tier(reviews, title) == Minor
    ensures Tier(reviews, title) == Critical <==> IsTheorem(title) || reviews >= 24
  {
  }

  /** More reviews never lower the tier. */
  lemma TierMonotone(r1: int, r2: int, title: string)
    requires r1 <= r2
    ensures Rank(Tier(r1, title)) <= Rank(Tier(r2, title))
  {
  }
}
