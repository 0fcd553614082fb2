/** The agreements page: the status lifecycle of an exchange agreement,
    the actions offered to the viewing user, the row update each action
    writes, and the status badge. The page shows an action only when it is
    legal; here that guard is the precondition of `Transition`. */
module Agreements {
  import opened Common
  import opened Text

  datatype Status = Pending | Active | Completed | Cancelled

  /** The string stored in the `status` column. */
  function Name(st: Status): string {
    match st
    case Pending => "pending"
    case Active => "active"
    case Completed => "completed"
    case Cancelled => "cancelled"
  }

  /** Reads a stored status; any other string is unrecognised. */
  function Parse(s: string): (r: Option<Status>)
    ensures forall st :: r == Some(st) <==> s == Name(st)
  {
    if s == "pending" then Some(Pending)
    else if s == "active" then Some(Active)
    else if s == "completed" then Some(Completed)
    else if s == "cancelled" then Some(Cancelled)
    else None
  }

  predicate Terminal(st: Status) {
    st == Completed || st == Cancelled
  }

  /** Milliseconds since the epoch; the clock is a parameter of the model. */
  type Timestamp = nat

  /** A row of the `agreements` table. */
  datatype Agreement = Agreement(
    id: string,
    providerId: UserId,
    seekerId: UserId,
    skillOffered: string,
    skillNeeded: string,
    status: string,
    createdAt: Timestamp,
    completedAt: Option<Timestamp>)

  /** The page lists only the agreements the viewer is a party to. */
  predicate Visible(a: Agreement, viewer: UserId) {
    a.providerId == viewer || a.seekerId == viewer
  }

  predicate IsProvider(a: Agreement, viewer: UserId) {
    a.providerId == viewer
  }

  /** The buttons: Accept, Decline, Mark as Completed, Cancel. */
  datatype Action = Accept | Decline | Complete | Cancel

  /** The status each button writes. */
  function Target(act: Action): Status {
    match act
    case Accept => Active
    case Decline => Cancelled
    case Complete => Completed
    case Cancel => Cancelled
  }

  /** The buttons shown to `viewer` on the card of `a`: Accept and Decline
      on a pending agreement to its provider, Mark as Completed and Cancel on
      an active one, nothing otherwise. */
  function Buttons(a: Agreement, viewer: UserId): (acts: seq<Action>)
    ensures forall act :: act in acts ==> Parse(a.status).Some? && !Terminal(Parse(a.status).value)
  {
    if a.status == "pending" && IsProvider(a, viewer) then [Accept, Decline]
    else if a.status == "active" then [Complete, Cancel]
    else []
  }

  /** Reference definition: the lifecycle's transition table, stated by
      status, by who is acting, and by the status reached. */
  ghost predicate Legal(from: Status, byProvider: bool, bySeeker: bool, to: Status) {
    || (from == Pending && byProvider && (to == Active || to == Cancelled))
    || (from == Active && (byProvider || bySeeker) && (to == Completed || to == Cancelled))
  }

  /** The transition table seen from the card of `a` by `viewer`. */
  ghost predicate LegalFor(a: Agreement, viewer: UserId, to: Status) {
    Parse(a.status).Some? && Legal(Parse(a.status).value, a.providerId == viewer, a.seekerId == viewer, to)
  }

  /** The buttons follow the transition table in both directions: every
      button shown leads along a legal step, and every legal step for the
      viewer has a button. */
  lemma ButtonsFollowTable(a: Agreement, viewer: UserId)
    requires Visible(a, viewer)
    ensures forall act :: act in Buttons(a, viewer) ==> LegalFor(a, viewer, Target(act))
    ensures forall to :: LegalFor(a, viewer, to) ==>
      exists act :: act in Buttons(a, viewer) && Target(act) == to
  {
    var acts := Buttons(a, viewer);
    forall to | LegalFor(a, viewer, to)
      ensures exists act :: act in acts && Target(act) == to
    {
      var from := Parse(a.status).value;
      assert a.status == Name(from);
      if from == Pending {
        assert to == Target(Accept) || to == Target(Decline);
      } else {
        assert to == Target(Complete) || to == Target(Cancel);
      }
    }
  }

  /** From `pending`, only the provider acts: Accept and Decline; the seeker
      who proposed the exchange has no button. */
  lemma PendingOnlyProvider(a: Agreement, viewer: UserId)
    requires Parse(a.status) == Some(Pending)
    ensures IsProvider(a, viewer) ==> Buttons(a, viewer) == [Accept, Decline]
    ensures !IsProvider(a, viewer) ==> Buttons(a, viewer) == []
  {
  }

  /** From `active`, either party may complete or cancel. */
  lemma ActiveEitherParty(a: Agreement, viewer: UserId)
    requires Parse(a.status) == Some(Active) && Visible(a, viewer)
    ensures Buttons(a, viewer) == [Complete, Cancel]
  {
  }

  /** Terminal and unrecognised statuses offer nothing. */
  lemma NoButtonsWhenTerminal(a: Agreement, viewer: UserId)
    requires Parse(a.status).None? || Terminal(Parse(a.status).value)
    ensures Buttons(a, viewer) == []
  {
  }

  /** The row update `{ status, completed_at }` written for a new status;
      `now` stands for `new Date()`. */
  datatype Update = Update(status: string, completedAt: Option<Timestamp>)

  /** The completion time is set exactly when the new status is
      `completed`, and cleared for every other status. */
  function UpdateFor(newStatus: string, now: Timestamp): (u: Update)
    ensures u.status == newStatus
    ensures u.completedAt.Some? <==> newStatus == Name(Completed)
    ensures u.completedAt.Some? ==> u.completedAt.value == now
  {
    Update(newStatus, if newStatus == "completed" then Some(now) else None)
  }

  /** The status and the completion time agree, and the parties differ. */
  ghost predicate Consistent(a: Agreement) {
    && (a.completedAt.Some? <==> a.status == Name(Completed))
    && a.providerId != a.seekerId
  }

  /** Pressing button `act`, shown to `viewer`, at time `now`: only the
      status and the completion time of the row change. */
  function Transition(a: Agreement, viewer: UserId, act: Action, now: Timestamp): (r: Agreement)
    requires Visible(a, viewer) && act in Buttons(a, viewer)
    ensures Parse(r.status) == Some(Target(act))
    ensures r.completedAt.Some? <==> Target(act) == Completed
    ensures r.(status := a.status, completedAt := a.completedAt) == a
    ensures Consistent(a) ==> Consistent(r)
  {
    var u := UpdateFor(Name(Target(act)), now);
    a.(status := u.status, completedAt := u.completedAt)
  }

  /** A terminal state is final: after completing, cancelling or declining,
      no viewer is offered anything. */
  lemma TerminalIsFinal(a: Agreement, viewer: UserId, act: Action, now: Timestamp, other: UserId)
    requires Visible(a, viewer) && act in Buttons(a, viewer)
    requires Terminal(Target(act))
    ensures Buttons(Transition(a, viewer, act, now), other) == []
  {
    NoButtonsWhenTerminal(Transition(a, viewer, act, now), other);
  }

  /** At most two steps are possible: whatever the second step is, no third
      one is offered. */
  lemma AtMostTwoSteps(a: Agreement, v1: UserId, act1: Action, t1: Timestamp,
                       v2: UserId, act2: Action, t2: Timestamp, v3: UserId)
    requires Visible(a, v1) && act1 in Buttons(a, v1)
    requires Visible(Transition(a, v1, act1, t1), v2) && act2 in Buttons(Transition(a, v1, act1, t1), v2)
    ensures Buttons(Transition(Transition(a, v1, act1, t1), v2, act2, t2), v3) == []
  {
    var a1 := Transition(a, v1, act1, t1);
    var a2 := Transition(a1, v2, act2, t2);
    assert Parse(a1.status) == Some(Active);
    assert Terminal(Target(act2));
    NoButtonsWhenTerminal(a2, v3);
  }

  /** Badge colour and icon. */
  datatype Tone = Yellow | Blue | Green | Red
  datatype Icon = Clock | CheckCircle | XCircle
  datatype Style = Style(tone: Tone, icon: Icon)

  /** The entries of the `variants` table. */
  function StyleOf(st: Status): Style {
    match st
    case Pending => Style(Yellow, Clock)
    case Active => Style(Blue, Clock)
    case Completed => Style(Green, CheckCircle)
    case Cancelled => Style(Red, XCircle)
  }

  /** The names every plain object literal inherits from `Object.prototype`. */
  const PrototypeMembers: set<string> := {
    "constructor", "hasOwnProperty", "isPrototypeOf", "propertyIsEnumerable",
    "toLocaleString", "toString", "valueOf", "__proto__",
    "__defineGetter__", "__defineSetter__", "__lookupGetter__", "__lookupSetter__"
  }

  /** What `variants[status]` yields: an own entry, an inherited member
      (a function, or the prototype itself; truthy, and not a style), or
      `undefined`. */
  datatype Lookup = Own(style: Style) | Inherited(member: string) | Undefined

  /** The style lookup as written, with its `||` fallback: the fallback is
      taken only when the lookup is `undefined`. */
  function BadgeLookupAsWritten(status: string): (l: Lookup)
    ensures status in PrototypeMembers ==> l == Inherited(status)
  {
    match Parse(status)
    case Some(st) => Own(StyleOf(st))
    case None =>
      if status in PrototypeMembers then Inherited(status) else Own(StyleOf(Pending))
  }

  /** The status "toString" finds the inherited method, so the pending
      fallback is skipped. The model stops at the lookup result: the icon
      read from that method is undefined, and rendering it fails. */
  lemma BadgeFallbackMissed()
    ensures !BadgeLookupAsWritten("toString").Own?
  {
    assert "toString" in PrototypeMembers;
  }

  /** The badge style with the fallback as intended: a recognised status
      gets its own entry and every other string the pending entry. */
  function BadgeStyle(status: string): (s: Style)
    ensures forall st :: Parse(status) == Some(st) ==> s == StyleOf(st)
    ensures Parse(status).None? ==> s == StyleOf(Pending)
  {
    match Parse(status)
    case Some(st) => StyleOf(st)
    case None => StyleOf(Pending)
  }

  /** The code as written and the intended fallback differ only on the
      inherited member names. */
  lemma BadgeAgreesOffPrototype(status: string)
    ensures status !in PrototypeMembers <==> BadgeLookupAsWritten(status) == Own(BadgeStyle(status))
  {
    if status in PrototypeMembers {
      assert Parse(status).None? by {
        if Parse(status).Some? {
          assert status == Name(Parse(status).value);
        }
      }
    }
  }

  /** The badge text: the status with its first character upper-cased. */
  function BadgeLabel(status: string): (l: string)
    ensures |l| == |status|
    ensures |status| > 0 ==> l[0] == UpperChar(status[0]) && l[1..] == status[1..]
  {
    Capitalize(status)
  }

  /** The label of a recognised status names it: lower-casing the label
      gives the stored status back, and that parses to the same status. */
  lemma BadgeLabelNamesStatus(st: Status)
    ensures Lower(BadgeLabel(Name(st))) == Name(st)
    ensures Parse(Lower(BadgeLabel(Name(st)))) == Some(st)
  {
    CapitalizeLowersBack(Name(st));
  }

  /** The labels of the four statuses. */
  lemma StatusLabels()
    ensures BadgeLabel("pending") == "Pending"
    ensures BadgeLabel("active") == "Active"
    ensures BadgeLabel("completed") == "Completed"
    ensures BadgeLabel("cancelled") == "Cancelled"
  {
  }
}
