/** Records shared by the browse page, the agreements page and the
    match-skills function: user ids, optional values, skill rows, and a few
    sequence helpers. */
module Common {

  /** A profile id as stored in the hosted database. */
  type UserId = string

  /** A value that may be missing (a `null` query result, an absent field). */
  datatype Option<+T> = None | Some(value: T) {

    /** The value, or `default` when missing (a `||` default
        for values that are never falsy). */
    function GetOr(default: T): T {
      match this
      case Some(v) => v
      case None => default
    }
  }

  /** The `skill_type` column of a skill row. */
  datatype SkillType = Offered | Needed

  /** A row of the `skills` table: its owner, its free-text name and its type. */
  datatype Skill = Skill(owner: UserId, name: string, kind: SkillType)

  /** No element occurs twice. */
  ghost predicate Distinct<T>(s: seq<T>) {
    forall i, j :: 0 <= i < j < |s| ==> s[i] != s[j]
  }

  /** `f` applied to every element, in order. */
  function Project<T, U>(s: seq<T>, f: T -> U): (r: seq<U>)
    ensures |r| == |s|
    ensures forall i :: 0 <= i < |s| ==> r[i] == f(s[i])
  {
    seq(|s|, i requires 0 <= i < |s| => f(s[i]))
  }

  lemma ProjectAppend<T, U>(a: seq<T>, b: seq<T>, f: T -> U)
    ensures Project(a + b, f) == Project(a, f) + Project(b, f)
  {
  }

  /** The skill rows whose type is `kind`, in their original order. */
  function OfKind(skills: seq<Skill>, kind: SkillType): (r: seq<Skill>)
    ensures |r| <= |skills|
    ensures forall s :: s in r <==> s in skills && s.kind == kind
  {
    if skills == [] then []
    else (if skills[0].kind == kind then [skills[0]] else []) + OfKind(skills[1..], kind)
  }

  /** Filtering distributes over concatenation, so it keeps the original
      order of the rows it selects. */
  lemma {:induction false} OfKindAppend(a: seq<Skill>, b: seq<Skill>, kind: SkillType)
    ensures OfKind(a + b, kind) == OfKind(a, kind) + OfKind(b, kind)
  {
    if a == [] {
      assert a + b == b;
    } else {
      assert (a + b)[0] == a[0];
      assert (a + b)[1..] == a[1..] + b;
      OfKindAppend(a[1..], b, kind);
    }
  }

  /** Splitting by type loses and invents no row: the offered and the needed
      rows together are exactly the input rows. */
  lemma {:induction false} OfKindPartition(skills: seq<Skill>)
    ensures |OfKind(skills, Offered)| + |OfKind(skills, Needed)| == |skills|
    ensures multiset(OfKind(skills, Offered)) + multiset(OfKind(skills, Needed)) == multiset(skills)
  {
    if skills != [] {
      OfKindPartition(skills[1..]);
      assert skills == [skills[0]] + skills[1..];
    }
  }

  /** The skill rows owned by `id`, in their original order. */
  function OwnedBy(skills: seq<Skill>, id: UserId): (r: seq<Skill>)
    ensures |r| <= |skills|
    ensures forall s :: s in r <==> s in skills && s.owner == id
  {
    if skills == [] then []
    else (if skills[0].owner == id then [skills[0]] else []) + OwnedBy(skills[1..], id)
  }

  /** Selecting by owner distributes over concatenation, so a user's rows
      keep their original order and a repeated row is kept every time. */
  lemma {:induction false} OwnedByAppend(a: seq<Skill>, b: seq<Skill>, id: UserId)
    ensures OwnedBy(a + b, id) == OwnedBy(a, id) + OwnedBy(b, id)
  {
    if a == [] {
      assert a + b == b;
    } else {
      assert (a + b)[0] == a[0];
      assert (a + b)[1..] == a[1..] + b;
      OwnedByAppend(a[1..], b, id);
    }
  }
}
