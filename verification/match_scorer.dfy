/** The match-skills function: substring-overlap scores counted in
    half-points, the filter that drops zero scores, the optional refinement
    of the first matches by an outside compatibility score, and the final
    sort. A score of `h` half-points is presented as `h / 2`. */
module MatchScorer {
  import opened Common
  import opened Text
  import opened Sorting

  /** One skill name contains the other: the test applied to every pair. */
  predicate Related(a: string, b: string) {
    Contains(a, b) || Contains(b, a)
  }

  lemma RelatedSymmetric(a: string, b: string)
    ensures Related(a, b) == Related(b, a)
  {
  }

  /** The number of names of `ys` related to `x`. */
  function RowCount(x: string, ys: seq<string>): (n: nat)
    ensures n <= |ys|
  {
    if ys == [] then 0
    else RowCount(x, ys[..|ys| - 1]) + (if Related(x, ys[|ys| - 1]) then 1 else 0)
  }

  /** The number of related pairs `(xs[i], ys[j])`, counted row by row. */
  function PairCount(xs: seq<string>, ys: seq<string>): nat
  {
    if xs == [] then 0
    else PairCount(xs[..|xs| - 1], ys) + RowCount(xs[|xs| - 1], ys)
  }

  /** Reference definition: the index pairs whose names are related. */
  ghost function MatchingPairs(xs: seq<string>, ys: seq<string>): set<(int, int)> {
    set i, j | 0 <= i < |xs| && 0 <= j < |ys| && Related(xs[i], ys[j]) :: (i, j)
  }

  /** The related pairs of row `i`, whose name is `x`. */
  ghost function RowPairs(x: string, ys: seq<string>, i: int): set<(int, int)> {
    set j | 0 <= j < |ys| && Related(x, ys[j]) :: (i, j)
  }

  lemma {:induction false} RowCountIsCardinality(x: string, ys: seq<string>, i: int)
    ensures RowCount(x, ys) == |RowPairs(x, ys, i)|
  {
    if ys != [] {
      var n := |ys| - 1;
      var init := ys[..n];
      RowCountIsCardinality(x, init, i);
      var extra: set<(int, int)> := if Related(x, ys[n]) then {(i, n)} else {};
      forall p | p in RowPairs(x, ys, i)
        ensures p in RowPairs(x, init, i) + extra
      {
        var j :| 0 <= j < |ys| && Related(x, ys[j]) && p == (i, j);
        if j < n {
          assert init[j] == ys[j];
        }
      }
      forall p | p in RowPairs(x, init, i)
        ensures p in RowPairs(x, ys, i)
      {
        var j :| 0 <= j < |init| && Related(x, init[j]) && p == (i, j);
        assert ys[j] == init[j];
      }
      assert RowPairs(x, ys, i) == RowPairs(x, init, i) + extra;
      assert (i, n) !in RowPairs(x, init, i);
    }
  }

  /** The related pairs split into those of all rows but the last and
      those of the last row. */
  lemma MatchingPairsSplit(xs: seq<string>, ys: seq<string>)
    requires xs != []
    ensures MatchingPairs(xs, ys)
      == MatchingPairs(xs[..|xs| - 1], ys) + RowPairs(xs[|xs| - 1], ys, |xs| - 1)
    ensures MatchingPairs(xs[..|xs| - 1], ys) !! RowPairs(xs[|xs| - 1], ys, |xs| - 1)
  {
    var n := |xs| - 1;
    var init := xs[..n];
    forall p | p in MatchingPairs(xs, ys)
      ensures p in MatchingPairs(init, ys) + RowPairs(xs[n], ys, n)
    {
      var i, j :| 0 <= i < |xs| && 0 <= j < |ys| && Related(xs[i], ys[j]) && p == (i, j);
      if i < n {
        assert init[i] == xs[i];
      }
    }
    forall p | p in MatchingPairs(init, ys)
      ensures p in MatchingPairs(xs, ys)
    {
      var i, j :| 0 <= i < |init| && 0 <= j < |ys| && Related(init[i], ys[j]) && p == (i, j);
      assert xs[i] == init[i];
    }
  }

  /** The row-by-row count is the number of related index pairs. */
  lemma {:induction false} PairCountIsCardinality(xs: seq<string>, ys: seq<string>)
    ensures PairCount(xs, ys) == |MatchingPairs(xs, ys)|
  {
    if xs != [] {
      var n := |xs| - 1;
      PairCountIsCardinality(xs[..n], ys);
      RowCountIsCardinality(xs[n], ys, n);
      MatchingPairsSplit(xs, ys);
    }
  }

  /** The count is zero exactly when no pair of names is related. */
  lemma PairCountZeroIff(xs: seq<string>, ys: seq<string>)
    ensures PairCount(xs, ys) == 0 <==>
      forall i, j :: 0 <= i < |xs| && 0 <= j < |ys| ==> !Related(xs[i], ys[j])
  {
    PairCountIsCardinality(xs, ys);
    if PairCount(xs, ys) > 0 {
      var p :| p in MatchingPairs(xs, ys);
    } else {
      assert MatchingPairs(xs, ys) == {};
      forall i, j | 0 <= i < |xs| && 0 <= j < |ys|
        ensures !Related(xs[i], ys[j])
      {
        assert (i, j) !in MatchingPairs(xs, ys);
      }
    }
  }

  lemma {:induction false} PairCountAppendRight(ys: seq<string>, xs: seq<string>, x: string)
    ensures PairCount(ys, xs + [x]) == PairCount(ys, xs) + RowCount(x, ys)
  {
    assert (xs + [x])[..|xs|] == xs;
    if ys != [] {
      var n := |ys| - 1;
      PairCountAppendRight(ys[..n], xs, x);
      assert ys[..n][..n - 0] == ys[..n];
      RelatedSymmetric(x, ys[n]);
    }
  }

  lemma {:induction false} PairCountEmptyRight(ys: seq<string>)
    ensures PairCount(ys, []) == 0
  {
    if ys != [] {
      PairCountEmptyRight(ys[..|ys| - 1]);
    }
  }

  /** Counting (xs, ys) pairs and (ys, xs) pairs gives the same number,
      because the containment test is symmetric. */
  lemma {:induction false} PairCountSymmetric(xs: seq<string>, ys: seq<string>)
    ensures PairCount(xs, ys) == PairCount(ys, xs)
  {
    if xs == [] {
      PairCountEmptyRight(ys);
    } else {
      var n := |xs| - 1;
      PairCountSymmetric(xs[..n], ys);
      PairCountAppendRight(ys, xs[..n], xs[n]);
      assert xs[..n] + [xs[n]] == xs;
    }
  }

  /** The nested loops of the scorer: for every `x` of `xs` and every `y`
      of `ys`, one more when either name contains the other. */
  method CountPairs(xs: seq<string>, ys: seq<string>) returns (n: nat)
    ensures n == |MatchingPairs(xs, ys)|
    ensures n == PairCount(xs, ys)
  {
    n := 0;
    var i := 0;
    while i < |xs|
      invariant 0 <= i <= |xs|
      invariant n == PairCount(xs[..i], ys)
    {
      var j := 0;
      while j < |ys|
        invariant 0 <= j <= |ys|
        invariant n == PairCount(xs[..i], ys) + RowCount(xs[i], ys[..j])
      {
        if Contains(ys[j], xs[i]) || Contains(xs[i], ys[j]) {
          n := n + 1;
        }
        assert ys[..j + 1][..j] == ys[..j];
        j := j + 1;
      }
      assert ys[..|ys|] == ys;
      assert xs[..i + 1][..i] == xs[..i];
      i := i + 1;
    }
    assert xs[..|xs|] == xs;
    PairCountIsCardinality(xs, ys);
  }

  function LowerName(s: Skill): string {
    Lower(s.name)
  }

  /** The lower-cased names of the skills of type `kind`, in order. */
  function Names(skills: seq<Skill>, kind: SkillType): (r: seq<string>)
    ensures |r| == |OfKind(skills, kind)|
    ensures forall i :: 0 <= i < |r| ==> r[i] == Lower(OfKind(skills, kind)[i].name)
  {
    Project(OfKind(skills, kind), LowerName)
  }

  /** Reference for a positive score: some need of one side and some offer of
      the other are related once lower-cased, in either direction. */
  ghost predicate HasOverlap(mine: seq<Skill>, theirs: seq<Skill>) {
    (exists n, o :: n in mine && n.kind == Needed && o in theirs && o.kind == Offered
                    && Related(Lower(n.name), Lower(o.name)))
    || (exists o, n :: o in mine && o.kind == Offered && n in theirs && n.kind == Needed
                       && Related(Lower(o.name), Lower(n.name)))
  }

  /** The uncapped score in half-points: one per related (my need, their
      offer) pair plus one per related (my offer, their need) pair. */
  function RawHalfPoints(mine: seq<Skill>, theirs: seq<Skill>): nat {
    PairCount(Names(mine, Needed), Names(theirs, Offered))
      + PairCount(Names(mine, Offered), Names(theirs, Needed))
  }

  /** The score capped at 1, that is, at two half-points. */
  function HalfPoints(mine: seq<Skill>, theirs: seq<Skill>): (h: nat)
    ensures h <= 2
    ensures h <= RawHalfPoints(mine, theirs)
    ensures h == 0 <==> RawHalfPoints(mine, theirs) == 0
    ensures RawHalfPoints(mine, theirs) >= 2 ==> h == 2
    ensures RawHalfPoints(mine, theirs) < 2 ==> h == RawHalfPoints(mine, theirs)
  {
    var raw := RawHalfPoints(mine, theirs);
    if raw < 2 then raw else 2
  }

  lemma NamesPairZeroIff(a: seq<Skill>, ka: SkillType, b: seq<Skill>, kb: SkillType)
    ensures PairCount(Names(a, ka), Names(b, kb)) == 0 <==>
      !(exists s, t :: s in a && s.kind == ka && t in b && t.kind == kb
                       && Related(Lower(s.name), Lower(t.name)))
  {
    var xs, ys := Names(a, ka), Names(b, kb);
    PairCountZeroIff(xs, ys);
    if PairCount(xs, ys) == 0 {
      forall s, t | s in a && s.kind == ka && t in b && t.kind == kb
        ensures !Related(Lower(s.name), Lower(t.name))
      {
        var i :| 0 <= i < |OfKind(a, ka)| && OfKind(a, ka)[i] == s;
        var j :| 0 <= j < |OfKind(b, kb)| && OfKind(b, kb)[j] == t;
        assert xs[i] == Lower(s.name) && ys[j] == Lower(t.name);
      }
    } else {
      var i, j :| 0 <= i < |xs| && 0 <= j < |ys| && Related(xs[i], ys[j]);
      var s, t := OfKind(a, ka)[i], OfKind(b, kb)[j];
      assert s in OfKind(a, ka) && t in OfKind(b, kb);
    }
  }

  /** A candidate scores above zero exactly when a need of the requester and
      an offer of the candidate, or an offer of the requester and a need of
      the candidate, are related once lower-cased. */
  lemma HalfPointsPositiveIff(mine: seq<Skill>, theirs: seq<Skill>)
    ensures HalfPoints(mine, theirs) > 0 <==> HasOverlap(mine, theirs)
  {
    NamesPairZeroIff(mine, Needed, theirs, Offered);
    NamesPairZeroIff(mine, Offered, theirs, Needed);
  }

  /** The score of A seen by B equals the score of B seen by A. */
  lemma HalfPointsSymmetric(a: seq<Skill>, b: seq<Skill>)
    ensures HalfPoints(a, b) == HalfPoints(b, a)
  {
    PairCountSymmetric(Names(a, Needed), Names(b, Offered));
    PairCountSymmetric(Names(a, Offered), Names(b, Needed));
  }

  /** Two skill lists that differ only in the case of their names. */
  ghost predicate SameUpToCase(a: seq<Skill>, b: seq<Skill>) {
    |a| == |b| &&
    forall i :: 0 <= i < |a| ==>
      a[i].owner == b[i].owner && a[i].kind == b[i].kind && Lower(a[i].name) == Lower(b[i].name)
  }

  lemma {:induction false} NamesIgnoreCase(a: seq<Skill>, b: seq<Skill>, kind: SkillType)
    requires SameUpToCase(a, b)
    ensures Names(a, kind) == Names(b, kind)
  {
    if a != [] {
      assert SameUpToCase(a[1..], b[1..]);
      NamesIgnoreCase(a[1..], b[1..], kind);
      var ha: seq<Skill> := if a[0].kind == kind then [a[0]] else [];
      var hb: seq<Skill> := if b[0].kind == kind then [b[0]] else [];
      ProjectAppend(ha, OfKind(a[1..], kind), LowerName);
      ProjectAppend(hb, OfKind(b[1..], kind), LowerName);
      assert Project(ha, LowerName) == Project(hb, LowerName);
    }
  }

  /** Matching is case-insensitive: changing the case of any skill name
      leaves the score unchanged. */
  lemma HalfPointsIgnoreCase(mine: seq<Skill>, mine2: seq<Skill>, theirs: seq<Skill>, theirs2: seq<Skill>)
    requires SameUpToCase(mine, mine2) && SameUpToCase(theirs, theirs2)
    ensures HalfPoints(mine, theirs) == HalfPoints(mine2, theirs2)
  {
    NamesIgnoreCase(mine, mine2, Needed);
    NamesIgnoreCase(mine, mine2, Offered);
    NamesIgnoreCase(theirs, theirs2, Needed);
    NamesIgnoreCase(theirs, theirs2, Offered);
  }

  /** A candidate kept by the zero filter, with its score in half-points. */
  datatype Match = Match(userId: UserId, halves: nat)

  function MatchId(m: Match): UserId {
    m.userId
  }

  /** Every other user scored against the requester, zero scores dropped,
      in the order of `others`. `all` holds the skill rows of those users;
      a missing result reads as no rows. */
  function Candidates(mine: seq<Skill>, others: seq<UserId>, all: seq<Skill>): (ms: seq<Match>)
    ensures |ms| <= |others|
    ensures forall m :: m in ms ==>
      m.userId in others && 0 < m.halves <= 2 && m.halves == HalfPoints(mine, OwnedBy(all, m.userId))
  {
    if others == [] then []
    else
      var h := HalfPoints(mine, OwnedBy(all, others[0]));
      (if h > 0 then [Match(others[0], h)] else []) + Candidates(mine, others[1..], all)
  }

  /** The first user's match, if any, comes first. */
  lemma CandidatesCons(mine: seq<Skill>, u: UserId, rest: seq<UserId>, all: seq<Skill>)
    ensures Candidates(mine, [u] + rest, all)
      == (if HalfPoints(mine, OwnedBy(all, u)) > 0 then [Match(u, HalfPoints(mine, OwnedBy(all, u)))] else [])
         + Candidates(mine, rest, all)
  {
    assert ([u] + rest)[0] == u;
    assert ([u] + rest)[1..] == rest;
  }

  /** Scoring is done user by user, so the matches keep the order of
      `others`: candidates of a concatenation are the concatenated
      candidates. */
  lemma {:induction false} CandidatesAppend(mine: seq<Skill>, a: seq<UserId>, b: seq<UserId>, all: seq<Skill>)
    ensures Candidates(mine, a + b, all) == Candidates(mine, a, all) + Candidates(mine, b, all)
  {
    if a == [] {
      assert a + b == b;
    } else {
      var u, rest := a[0], a[1..];
      assert a == [u] + rest;
      assert a + b == [u] + (rest + b);
      CandidatesCons(mine, u, rest, all);
      CandidatesCons(mine, u, rest + b, all);
      CandidatesAppend(mine, rest, b, all);
      // The last step is associativity of `+`. It is done in a lemma that
      // sees only named sequences, because every `Candidates` term in view
      // brings its postcondition about scores along and makes the step costly.
      var h := HalfPoints(mine, OwnedBy(all, u));
      PrependAssoc(if h > 0 then [Match(u, h)] else [], Candidates(mine, rest, all), Candidates(mine, b, all),
                   Candidates(mine, a, all), Candidates(mine, rest + b, all), Candidates(mine, a + b, all));
    }
  }

  /** Associativity of concatenation, stated on named sequences so that the
      step needs nothing about what the sequences hold. */
  lemma PrependAssoc<T>(head: seq<T>, x: seq<T>, y: seq<T>, hx: seq<T>, xy: seq<T>, hxy: seq<T>)
    requires hx == head + x && xy == x + y && hxy == head + xy
    ensures hxy == hx + y
  {
  }

  lemma {:induction false} CandidatesUnfold(mine: seq<Skill>, others: seq<UserId>, all: seq<Skill>)
    requires others != []
    ensures
      var h := HalfPoints(mine, OwnedBy(all, others[0]));
      Project(Candidates(mine, others, all), MatchId)
        == (if h > 0 then [others[0]] else []) + Project(Candidates(mine, others[1..], all), MatchId)
  {
    var h := HalfPoints(mine, OwnedBy(all, others[0]));
    var head := if h > 0 then [Match(others[0], h)] else [];
    var tail := Candidates(mine, others[1..], all);
    assert Candidates(mine, others, all) == head + tail;
    ProjectAppend(head, tail, MatchId);
    assert Project(head, MatchId) == if h > 0 then [others[0]] else [];
  }

  /** A user of `others` is kept exactly when its score is positive, that is,
      exactly when some pair of names overlaps; every other user is dropped. */
  lemma {:induction false} CandidatesListed(mine: seq<Skill>, others: seq<UserId>, all: seq<Skill>, u: UserId)
    requires u in others
    ensures u in Project(Candidates(mine, others, all), MatchId) <==> HasOverlap(mine, OwnedBy(all, u))
  {
    HalfPointsPositiveIff(mine, OwnedBy(all, u));
    CandidatesUnfold(mine, others, all);
    if u != others[0] {
      assert u in others[1..];
      CandidatesListed(mine, others[1..], all, u);
    } else if u in others[1..] {
      CandidatesListed(mine, others[1..], all, u);
    }
  }

  /** Distinct profile ids give distinct match ids. */
  lemma {:induction false} CandidatesDistinct(mine: seq<Skill>, others: seq<UserId>, all: seq<Skill>)
    requires Distinct(others)
    ensures Distinct(Project(Candidates(mine, others, all), MatchId))
  {
    if others != [] {
      var u := others[0];
      assert Distinct(others[1..]);
      CandidatesDistinct(mine, others[1..], all);
      CandidatesUnfold(mine, others, all);
      var tail := Candidates(mine, others[1..], all);
      var rest := Project(tail, MatchId);
      forall i | 0 <= i < |rest|
        ensures rest[i] != u
      {
        assert tail[i] in tail;
        assert rest[i] in others[1..];
      }
    }
  }

  /** An entry of the response: a user id and its score. */
  datatype Scored = Scored(userId: UserId, score: real)

  function ScoredId(s: Scored): UserId {
    s.userId
  }

  function ByScore(s: Scored): real {
    s.score
  }

  function Present(m: Match): Scored {
    Scored(m.userId, m.halves as real / 2.0)
  }

  /** What the outside compatibility service gave: no key configured, a
      thrown error anywhere in the batch, or one reply per asked user
      (`None` when the response was not ok). */
  datatype AiOutcome = NoKey | Threw | Replied(reply: UserId -> Option<real>)

  /** The refinement runs for one to ten matches when the service replied. */
  predicate Refines(ms: seq<Match>, ai: AiOutcome) {
    0 < |ms| <= 10 && ai.Replied?
  }

  function Min(a: int, b: int): int {
    if a < b then a else b
  }

  /** One asked match: the mean of its score and the reply when there is one,
      unchanged otherwise. */
  function Blend(m: Match, reply: Option<real>): (s: Scored)
    ensures s.userId == m.userId
    ensures reply.None? ==> s == Present(m)
    ensures reply.Some? ==> 2.0 * s.score == Present(m).score + reply.value
  {
    match reply
    case None => Present(m)
    case Some(ai) => Scored(m.userId, (m.halves as real / 2.0 + ai) / 2.0)
  }

  /** The first five matches (all of them when fewer), each blended with its reply. */
  function Refined(ms: seq<Match>, reply: UserId -> Option<real>): (r: seq<Scored>)
    ensures |r| == Min(|ms|, 5)
    ensures Project(r, ScoredId) == Project(ms[..Min(|ms|, 5)], MatchId)
    ensures forall i :: 0 <= i < |r| ==> r[i] == Blend(ms[i], reply(ms[i].userId))
  {
    var first := ms[..Min(|ms|, 5)];
    seq(|first|, i requires 0 <= i < |first| => Blend(first[i], reply(first[i].userId)))
  }

  /** The whole response: nothing when the requester has no skill rows or
      there is no other user; otherwise the matches, refined when the
      refinement runs, sorted by non-increasing score. */
  function MatchSkills(mine: seq<Skill>, others: seq<UserId>, all: seq<Skill>, ai: AiOutcome): (r: seq<Scored>)
    ensures |mine| == 0 || |others| == 0 ==> r == []
    ensures SortedDesc(r, ByScore)
  {
    if |mine| == 0 || |others| == 0 then []
    else
      var ms := Candidates(mine, others, all);
      if Refines(ms, ai) then SortDesc(Refined(ms, ai.reply), ByScore)
      else SortDesc(Project(ms, Present), ByScore)
  }

  lemma PresentedInRange(ms: seq<Match>, others: seq<UserId>)
    requires forall m :: m in ms ==> m.userId in others && 0 < m.halves <= 2
    ensures forall s :: s in SortDesc(Project(ms, Present), ByScore) ==> 0.0 < s.score <= 1.0 && s.userId in others
  {
    var p := Project(ms, Present);
    forall s | s in SortDesc(p, ByScore)
      ensures 0.0 < s.score <= 1.0 && s.userId in others
    {
      assert s in multiset(p);
      var i :| 0 <= i < |p| && p[i] == s;
      assert ms[i] in ms;
    }
  }

  lemma PresentedIds(ms: seq<Match>)
    ensures multiset(Project(SortDesc(Project(ms, Present), ByScore), ScoredId)) == multiset(Project(ms, MatchId))
  {
    var p := Project(ms, Present);
    assert Project(p, ScoredId) == Project(ms, MatchId);
    SortProjection(p, ByScore, ScoredId);
  }

  /** Without refinement, the response is exactly the heuristic matches:
      scores in (0, 1], and a user of `others` is listed iff some pair of
      names overlaps. */
  lemma HeuristicResponse(mine: seq<Skill>, others: seq<UserId>, all: seq<Skill>, ai: AiOutcome)
    requires |mine| > 0 && |others| > 0
    requires !Refines(Candidates(mine, others, all), ai)
    ensures multiset(MatchSkills(mine, others, all, ai)) == multiset(Project(Candidates(mine, others, all), Present))
    ensures forall s :: s in MatchSkills(mine, others, all, ai) ==> 0.0 < s.score <= 1.0 && s.userId in others
    ensures forall u :: u in others ==>
      (u in Project(MatchSkills(mine, others, all, ai), ScoredId) <==> HasOverlap(mine, OwnedBy(all, u)))
  {
    var ms := Candidates(mine, others, all);
    var r := MatchSkills(mine, others, all, ai);
    assert r == SortDesc(Project(ms, Present), ByScore);
    PresentedInRange(ms, others);
    PresentedIds(ms);
    forall u | u in others
      ensures u in Project(r, ScoredId) <==> HasOverlap(mine, OwnedBy(all, u))
    {
      CandidatesListed(mine, others, all, u);
      assert u in Project(r, ScoredId) <==> u in multiset(Project(r, ScoredId));
      assert u in Project(ms, MatchId) <==> u in multiset(Project(ms, MatchId));
    }
  }

  /** With refinement, the response holds the first five matches (fewer when
      there are fewer) and no other user. */
  lemma RefinedResponse(mine: seq<Skill>, others: seq<UserId>, all: seq<Skill>, ai: AiOutcome)
    requires |mine| > 0 && |others| > 0
    requires Refines(Candidates(mine, others, all), ai)
    ensures |MatchSkills(mine, others, all, ai)| <= 5
    ensures
      var ms := Candidates(mine, others, all);
      multiset(Project(MatchSkills(mine, others, all, ai), ScoredId)) == multiset(Project(ms[..Min(|ms|, 5)], MatchId))
    ensures multiset(MatchSkills(mine, others, all, ai)) == multiset(Refined(Candidates(mine, others, all), ai.reply))
  {
    var ms := Candidates(mine, others, all);
    SortProjection(Refined(ms, ai.reply), ByScore, ScoredId);
  }

  lemma FirstFiveExclude(ms: seq<Match>, k: int)
    requires Distinct(Project(ms, MatchId))
    requires 5 <= k < |ms|
    ensures ms[k].userId !in multiset(Project(ms[..5], MatchId))
  {
    var ids := Project(ms, MatchId);
    assert forall i :: 0 <= i < 5 ==> Project(ms[..5], MatchId)[i] == ids[i];
  }

  /** When six to ten users match and the service replies, matches six to
      ten are dropped from the response rather than kept with their
      heuristic score. */
  lemma RefinementDropsTail(mine: seq<Skill>, others: seq<UserId>, all: seq<Skill>, ai: AiOutcome, k: int)
    requires |mine| > 0 && Distinct(others)
    requires Refines(Candidates(mine, others, all), ai)
    requires 5 <= k < |Candidates(mine, others, all)|
    ensures Candidates(mine, others, all)[k].userId !in Project(MatchSkills(mine, others, all, ai), ScoredId)
  {
    var ms := Candidates(mine, others, all);
    RefinedResponse(mine, others, all, ai);
    CandidatesDistinct(mine, others, all);
    FirstFiveExclude(ms, k);
  }

  lemma RefinedInRange(ms: seq<Match>, reply: UserId -> Option<real>, others: seq<UserId>)
    requires forall m :: m in ms ==> m.userId in others
    ensures forall s :: s in SortDesc(Refined(ms, reply), ByScore) ==> s.userId in others
  {
    var r := Refined(ms, reply);
    forall s | s in SortDesc(r, ByScore)
      ensures s.userId in others
    {
      assert s in multiset(r);
      var i :| 0 <= i < |r| && r[i] == s;
      assert Project(r, ScoredId)[i] == ms[i].userId;
      assert ms[i] in ms;
    }
  }

  /** Every listed user is one of the other users, refined or not. */
  lemma ResponseFromOthers(mine: seq<Skill>, others: seq<UserId>, all: seq<Skill>, ai: AiOutcome)
    ensures forall s :: s in MatchSkills(mine, others, all, ai) ==> s.userId in others
  {
    if |mine| > 0 && |others| > 0 {
      var ms := Candidates(mine, others, all);
      if Refines(ms, ai) {
        RefinedInRange(ms, ai.reply, others);
      } else {
        PresentedInRange(ms, others);
      }
    }
  }

  /** No user is listed twice (profile ids are unique). */
  lemma ResponseDistinct(mine: seq<Skill>, others: seq<UserId>, all: seq<Skill>, ai: AiOutcome)
    requires Distinct(others)
    ensures Distinct(Project(MatchSkills(mine, others, all, ai), ScoredId))
  {
    if |mine| > 0 && |others| > 0 {
      var ms := Candidates(mine, others, all);
      if Refines(ms, ai) {
        CandidatesDistinct(mine, others, all);
        var first := Project(ms[..Min(|ms|, 5)], MatchId);
        assert forall i :: 0 <= i < |first| ==> first[i] == Project(ms, MatchId)[i];
        SortDistinct(Refined(ms, ai.reply), ByScore, ScoredId);
      } else {
        CandidatesDistinct(mine, others, all);
        var p := Project(ms, Present);
        assert Project(p, ScoredId) == Project(ms, MatchId);
        SortDistinct(p, ByScore, ScoredId);
      }
    }
  }

  /** "ui design" and "UI/UX Design" do not contain one another, so only the
      python pair counts: the score is one half-point (0.5), not 1. */
  lemma UiDesignExample()
    ensures HalfPoints([Skill("me", "ui design", Needed), Skill("me", "python", Offered)],
                       [Skill("a", "UI/UX Design", Offered), Skill("a", "Python", Needed)]) == 1
  {
    var mine := [Skill("me", "ui design", Needed), Skill("me", "python", Offered)];
    var theirs := [Skill("a", "UI/UX Design", Offered), Skill("a", "Python", Needed)];
    assert OfKind(mine, Needed) == [mine[0]];
    assert OfKind(mine, Offered) == [mine[1]];
    assert OfKind(theirs, Offered) == [theirs[0]];
    assert OfKind(theirs, Needed) == [theirs[1]];
    LowerExamples();
    assert Names(theirs, Offered) == ["ui/ux design"];
    assert Names(theirs, Needed) == ["python"];
    assert Names(mine, Needed) == ["ui design"];
    assert Names(mine, Offered) == ["python"];
    UiDesignNotRelated();
    assert Contains("python", "python");
    assert PairCount(["ui design"], ["ui/ux design"]) == 0;
    assert PairCount(["python"], ["python"]) == 1;
  }

  lemma LowerExamples()
    ensures Lower("UI/UX Design") == "ui/ux design"
    ensures Lower("Python") == "python"
    ensures Lower("python") == "python"
    ensures Lower("ui design") == "ui design"
  {
    var s, t := "UI/UX Design", "ui/ux design";
    forall k | 0 <= k < |s| ensures Lower(s)[k] == t[k] {
      assert LowerChar(s[k]) == t[k];
    }
    assert Lower("Python")[0] == 'p';
  }

  lemma UiDesignNotRelated()
    ensures !Related("ui design", "ui/ux design")
  {
    var n := "ui design";
    assert "ui/ux design"[2] == '/';
    SkipStart("ui/ux design", n, 2);
    assert "ui/ux design"[1..] == "i/ux design";
    SkipStart("i/ux design", n, 0);
    assert "i/ux design"[1..] == "/ux design";
    SkipStart("/ux design", n, 0);
    assert "/ux design"[1..] == "ux design";
    SkipStart("ux design", n, 1);
    assert "ux design"[1..] == "x design";
    ShortNotContained("x design", n);
    ShortNotContained(n, "ui/ux design");
  }

  /** No overlap: "cooking" against "painting" scores zero. */
  lemma CookingExample()
    ensures HalfPoints([Skill("me", "cooking", Needed)], [Skill("b", "painting", Offered)]) == 0
  {
    var mine := [Skill("me", "cooking", Needed)];
    var theirs := [Skill("b", "painting", Offered)];
    assert OfKind(mine, Offered) == [];
    assert OfKind(theirs, Needed) == [];
    assert Names(mine, Needed) == ["cooking"] by {
      assert Lower("cooking") == "cooking";
    }
    assert Names(theirs, Offered) == ["painting"] by {
      assert Lower("painting") == "painting";
    }
    SkipStart("painting", "cooking", 0);
    assert "painting"[1..] == "ainting";
    SkipStart("ainting", "cooking", 0);
    assert "ainting"[1..] == "inting";
    ShortNotContained("inting", "cooking");
    ShortNotContained("cooking", "painting");
    assert PairCount(["cooking"], ["painting"]) == 0;
  }

  /** A start position where a character differs is skipped. */
  lemma SkipStart(hay: string, needle: string, e: nat)
    requires e < |needle| && e < |hay| && hay[e] != needle[e]
    ensures Contains(hay, needle) == Contains(hay[1..], needle)
  {
  }

  lemma ShortNotContained(hay: string, needle: string)
    requires |hay| < |needle|
    ensures !Contains(hay, needle)
  {
  }
}
