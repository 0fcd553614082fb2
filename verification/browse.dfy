/** The browse page: the list of other users with their offered and needed
    skills, the merge of match scores into that list and its re-ordering,
    and the construction of a proposed agreement. Query results are inputs;
    a `null` result is `None` or an empty sequence as the page reads it. */
module Browse {
  import opened Common
  import opened Sorting
  import opened MatchScorer
  import Agreements

  /** One profile of another user, joined with its skill rows and its
      reputation row. */
  datatype ProfileRow = ProfileRow(id: UserId, bio: Option<string>, totalPoints: Option<int>, skills: seq<Skill>)

  /** A card on the page. `matchScore` is absent until a search scores it. */
  datatype Listing = Listing(
    userId: UserId,
    bio: string,
    reputation: int,
    offered: seq<Skill>,
    needed: seq<Skill>,
    matchScore: Option<real>)

  function ListingId(l: Listing): UserId {
    l.userId
  }

  /** The sort key: the match score, with a missing score read as 0. */
  function ScoreKey(l: Listing): real {
    l.matchScore.GetOr(0.0)
  }

  /** One card built from a profile: a missing bio reads as empty, a missing
      or zero reputation as 0, and the skill rows split by type. */
  function ToListing(row: ProfileRow): Listing {
    Listing(row.id, row.bio.GetOr(""), row.totalPoints.GetOr(0),
            OfKind(row.skills, Offered), OfKind(row.skills, Needed), None)
  }

  /** A card's two skill lists are the profile's rows split by type: each
      holds exactly the rows of its type in their original order, and
      together they hold every row once. */
  lemma ListingSplitsSkills(row: ProfileRow)
    ensures forall s :: s in ToListing(row).offered <==> s in row.skills && s.kind == Offered
    ensures forall s :: s in ToListing(row).needed <==> s in row.skills && s.kind == Needed
    ensures multiset(ToListing(row).offered) + multiset(ToListing(row).needed) == multiset(row.skills)
  {
    OfKindPartition(row.skills);
  }

  /** The cards for the profiles other than `me` that offer at least one
      skill, in profile order. */
  function Listings(me: UserId, rows: seq<ProfileRow>): (ls: seq<Listing>)
    ensures |ls| <= |rows|
    ensures forall l :: l in ls ==> |l.offered| > 0 && l.userId != me
    ensures forall l :: l in ls ==> exists r :: r in rows && l == ToListing(r)
    ensures forall r :: r in rows && r.id != me && |ToListing(r).offered| > 0 ==> ToListing(r) in ls
  {
    if rows == [] then []
    else
      var r := rows[0];
      var head := if r.id != me && |ToListing(r).offered| > 0 then [ToListing(r)] else [];
      assert rows == [r] + rows[1..];
      head + Listings(me, rows[1..])
  }

  /** Building and filtering is done profile by profile, so the cards keep
      the profile order and each qualifying profile gives one card. */
  lemma {:induction false} ListingsAppend(me: UserId, a: seq<ProfileRow>, b: seq<ProfileRow>)
    ensures Listings(me, a + b) == Listings(me, a) + Listings(me, b)
  {
    if a == [] {
      assert a + b == b;
    } else {
      assert (a + b)[0] == a[0];
      assert (a + b)[1..] == a[1..] + b;
      ListingsAppend(me, a[1..], b);
    }
  }

  /** Loading the page: when the profile query gives nothing the cards stay
      as they were. */
  function FetchUsers(prior: seq<Listing>, me: UserId, rows: Option<seq<ProfileRow>>): (ls: seq<Listing>)
    ensures rows.None? ==> ls == prior
    ensures rows.Some? ==> forall l :: l in ls ==> |l.offered| > 0 && l.userId != me
    ensures rows.Some? ==> ls == Listings(me, rows.value)
  {
    match rows
    case None => prior
    case Some(rs) => Listings(me, rs)
  }

  /** The first match naming user `id`, if any. */
  function FirstMatch(matches: seq<Scored>, id: UserId): (r: Option<Scored>)
    ensures r.None? <==> forall j :: 0 <= j < |matches| ==> matches[j].userId != id
    ensures r.Some? ==> r.value in matches && r.value.userId == id
  {
    if matches == [] then None
    else if matches[0].userId == id then Some(matches[0])
    else FirstMatch(matches[1..], id)
  }

  /** The match found is the first one naming `id`. */
  lemma {:induction false} FirstMatchIsFirst(matches: seq<Scored>, id: UserId)
    requires FirstMatch(matches, id).Some?
    ensures exists j :: 0 <= j < |matches| && matches[j] == FirstMatch(matches, id).value
                        && forall k :: 0 <= k < j ==> matches[k].userId != id
  {
    if matches[0].userId != id {
      FirstMatchIsFirst(matches[1..], id);
      var j :| 0 <= j < |matches[1..]| && matches[1..][j] == FirstMatch(matches, id).value
               && forall k :: 0 <= k < j ==> matches[1..][k].userId != id;
      assert matches[j + 1] == FirstMatch(matches, id).value;
      forall k | 0 <= k < j + 1
        ensures matches[k].userId != id
      {
        if k > 0 {
          assert matches[k] == matches[1..][k - 1];
        }
      }
    } else {
      assert matches[0] == FirstMatch(matches, id).value;
    }
  }

  /** One card after a search: the score of the first match for its user,
      or the card unchanged when no match names it. */
  function WithMatch(u: Listing, matches: seq<Scored>): Listing {
    match FirstMatch(matches, u.userId)
    case Some(m) => u.(matchScore := Some(m.score))
    case None => u
  }

  /** Every card kept in place, only its score changed. */
  function Merge(users: seq<Listing>, matches: seq<Scored>): (r: seq<Listing>)
    ensures |r| == |users|
    ensures forall i :: 0 <= i < |users| ==> r[i].(matchScore := users[i].matchScore) == users[i]
    ensures forall i :: 0 <= i < |users| ==>
      (r[i].matchScore != users[i].matchScore ==>
        exists j :: 0 <= j < |matches| && matches[j].userId == users[i].userId)
    ensures forall i, j :: 0 <= i < |users| && 0 <= j < |matches| && matches[j].userId == users[i].userId ==>
      r[i].matchScore == Some(FirstMatch(matches, users[i].userId).value.score)
  {
    Project(users, (u: Listing) => WithMatch(u, matches))
  }

  /** The notice shown after a search. */
  datatype Notice = AddSkillsFirst | SearchFailed | NoMatches | Found(count: nat)

  datatype SearchResult = SearchResult(users: seq<Listing>, notice: Notice)

  /** "Find AI Matches": refused without any skill of the requester; on a
      failed call or no matches the cards stay as they were; otherwise the
      scores are merged and the cards re-ordered by non-increasing score. */
  function FindMatches(users: seq<Listing>, mySkills: seq<Skill>, reply: Option<seq<Scored>>): (r: SearchResult)
    ensures |mySkills| == 0 ==> r == SearchResult(users, AddSkillsFirst)
    ensures !r.notice.Found? ==> r.users == users
    ensures r.notice.Found? ==> SortedDesc(r.users, ScoreKey)
    ensures r.notice.Found? <==> |mySkills| > 0 && reply.Some? && |reply.value| > 0
    ensures r.notice.Found? ==> multiset(r.users) == multiset(Merge(users, reply.value))
  {
    if |mySkills| == 0 then SearchResult(users, AddSkillsFirst)
    else match reply
      case None => SearchResult(users, SearchFailed)
      case Some(matches) =>
        if |matches| == 0 then SearchResult(users, NoMatches)
        else SearchResult(SortDesc(Merge(users, matches), ScoreKey), Found(|matches|))
  }

  /** The search keeps every card exactly once: the multiset of user ids is
      unchanged. */
  lemma FindMatchesKeepsUsers(users: seq<Listing>, mySkills: seq<Skill>, reply: Option<seq<Scored>>)
    ensures multiset(Project(FindMatches(users, mySkills, reply).users, ListingId)) == multiset(Project(users, ListingId))
  {
    var r := FindMatches(users, mySkills, reply);
    if r.notice.Found? {
      var merged := Merge(users, reply.value);
      SortProjection(merged, ScoreKey, ListingId);
      assert Project(merged, ListingId) == Project(users, ListingId);
    }
  }

  /** The row sent to the `agreements` table by "Propose Exchange". */
  datatype Proposal = Proposal(providerId: UserId, seekerId: UserId, skillOffered: string, skillNeeded: string, status: string)

  /** Proposing an exchange to the user of card `provider`: refused when the
      requester has no needed skill; otherwise a pending request from the
      requester for the card's first offered skill, in exchange for the
      requester's first needed skill. */
  function Propose(me: UserId, provider: Listing, mySkills: seq<Skill>): (r: Option<Proposal>)
    requires |provider.offered| > 0
    ensures r.None? <==> forall s :: s in mySkills ==> s.kind != Needed
    ensures r.Some? ==> r.value.status == Agreements.Name(Agreements.Pending)
    ensures r.Some? ==> r.value.seekerId == me && r.value.providerId == provider.userId
    ensures r.Some? ==> r.value.skillOffered == provider.offered[0].name
    ensures r.Some? ==> exists s :: s in mySkills && s.kind == Needed && r.value.skillNeeded == s.name
  {
    var needed := OfKind(mySkills, Needed);
    if |needed| == 0 then None
    else
      assert needed[0] in needed;
      Some(Proposal(provider.userId, me, provider.offered[0].name, needed[0].name, "pending"))
  }

  /** A proposal made from a listed card never has the requester on both
      sides, since the requester's own profile is not listed. */
  lemma ProposalPartiesDiffer(me: UserId, rows: seq<ProfileRow>, l: Listing, mySkills: seq<Skill>)
    requires l in Listings(me, rows)
    ensures Propose(me, l, mySkills).Some? ==>
      Propose(me, l, mySkills).value.providerId != Propose(me, l, mySkills).value.seekerId
  {
  }

  /** The stored row for a proposal: the store assigns the id and the
      creation time and leaves the completion time empty. */
  function Stored(p: Proposal, id: string, createdAt: Agreements.Timestamp): Agreements.Agreement {
    Agreements.Agreement(id, p.providerId, p.seekerId, p.skillOffered, p.skillNeeded, p.status, createdAt, None)
  }

  /** A new agreement starts consistent and pending; the seeker who proposed
      it cannot approve it, and its provider can accept or decline. */
  lemma NewAgreementAwaitsProvider(me: UserId, rows: seq<ProfileRow>, l: Listing, mySkills: seq<Skill>,
                                   id: string, createdAt: Agreements.Timestamp)
    requires l in Listings(me, rows)
    requires Propose(me, l, mySkills).Some?
    ensures Agreements.Consistent(Stored(Propose(me, l, mySkills).value, id, createdAt))
    ensures Agreements.Buttons(Stored(Propose(me, l, mySkills).value, id, createdAt), me) == []
    ensures Agreements.Buttons(Stored(Propose(me, l, mySkills).value, id, createdAt), l.userId)
              == [Agreements.Accept, Agreements.Decline]
  {
    var a := Stored(Propose(me, l, mySkills).value, id, createdAt);
    assert a.status == "pending";
    Agreements.PendingOnlyProvider(a, me);
    Agreements.PendingOnlyProvider(a, l.userId);
  }
}
