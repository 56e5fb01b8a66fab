/**
 The freeze rule: which changes a frozen document may show against its merge-base, and
 what that leaves of a document over its whole history.
 */
module Freeze {
  import opened HeaderGrammar
  import opened Wrappers

  datatype Refusal =
    | BodyChanged
    | LeftTerminal(status: string)
    | CorrectionsLost
    | PlansOffLedger
    | PlansLost
    | FieldChanged(field: Field)

  const LEDGER := "ledger"

  predicate IsTerminal(status: string) { status == "closed" || status == "retired" || status == "superseded" }

  /** The fields of a header, as the loop over the declared fields visits them. */
  datatype Field =
    | Id | Family | Kind | Title | Status | Created | Owner | Phase | Work | Slice | Tree | Plans | Supersedes
    | SupersededBy | CorrectedBy | Corrects | Relates | Was | Vendored | Origin | Extra

  const FIELDS :=
    [ Id, Family, Kind, Title, Status, Created, Owner, Phase, Work, Slice, Tree, Plans, Supersedes,
      SupersededBy, CorrectedBy, Corrects, Relates, Was, Vendored, Origin, Extra ]

  /** The fields the loop skips: the rule treats them by name. */
  const UNCHECKED := {Status, SupersededBy, Plans, CorrectedBy}

  /** `getattr(old, field) != getattr(new, field)`. */
  predicate Changed(a: Header, b: Header, f: Field) {
    match f
    case Id => a.id != b.id
    case Family => a.family != b.family
    case Kind => a.kind != b.kind
    case Title => a.title != b.title
    case Status => a.status != b.status
    case Created => a.created != b.created
    case Owner => a.owner != b.owner
    case Phase => a.phase != b.phase
    case Work => a.work != b.work
    case Slice => a.slice != b.slice
    case Tree => a.tree != b.tree
    case Plans => a.plans != b.plans
    case Supersedes => a.supersedes != b.supersedes
    case SupersededBy => a.supersededBy != b.supersededBy
    case CorrectedBy => a.correctedBy != b.correctedBy
    case Corrects => a.corrects != b.corrects
    case Relates => a.relates != b.relates
    case Was => a.was != b.was
    case Vendored => a.vendored != b.vendored
    case Origin => a.origin != b.origin
    case Extra => a.extra != b.extra
  }

  predicate Refused(a: Header, b: Header, f: Field) { f !in UNCHECKED && Changed(a, b, f) }

  /** The first of the fields that changed without being allowed to. */
  function FirstChanged(a: Header, b: Header, fields: seq<Field>): (r: Option<Field>)
    ensures r.None? <==> forall f | f in fields :: !Refused(a, b, f)
    ensures r.Some? ==> exists k :: IsFirst(a, b, fields, k) && fields[k] == r.value
  {
    if fields == [] then None
    else if Refused(a, b, fields[0]) then
      assert IsFirst(a, b, fields, 0);
      Some(fields[0])
    else
      var r := FirstChanged(a, b, fields[1..]);
      assert forall k | IsFirst(a, b, fields[1..], k) :: IsFirst(a, b, fields, k + 1);
      r
  }

  predicate IsFirst(a: Header, b: Header, fields: seq<Field>, k: int) {
    && 0 <= k < |fields| && Refused(a, b, fields[k])
    && forall j | 0 <= j < k :: !Refused(a, b, fields[j])
  }

  /** A document at one commit: its header and the text after the closing line. */
  datatype Version = Version(header: Header, body: string)

  /** `frozen_diff_is_permitted`: no refusal, or the first one. */
  function FrozenDiff(before: Version, after: Version): Option<Refusal> {
    var a, b := before.header, after.header;
    if before.body != after.body then Some(BodyChanged)
    else if a.status != b.status && IsTerminal(a.status) then Some(LeftTerminal(a.status))
    else if !(a.correctedBy <= b.correctedBy) then Some(CorrectionsLost)
    else if a.plans != b.plans && a.family != LEDGER then Some(PlansOffLedger)
    else if !(a.plans <= b.plans) then Some(PlansLost)
    else
      match FirstChanged(a, b, FIELDS)
      case Some(f) => Some(FieldChanged(f))
      case None => None
  }

  predicate Permitted(a: Version, b: Version) { FrozenDiff(a, b).None? }

  /** The two headers agree on everything but the four fields the rule treats by name. */
  predicate SameElsewhere(a: Header, b: Header) {
    b == a.(status := b.status, supersededBy := b.supersededBy, plans := b.plans, correctedBy := b.correctedBy)
  }

  /** The three words that are never left; any other status may change, `draft` and `active` among them. */
  ghost predicate EndsALife(status: string) { status in {"closed", "retired", "superseded"} }

  /** What may happen to a frozen document, said without an order of tests. */
  ghost predicate OnlyGrows(a: Version, b: Version) {
    && a.body == b.body && SameElsewhere(a.header, b.header)
    && (EndsALife(a.header.status) ==> b.header.status == a.header.status)
    && a.header.correctedBy <= b.header.correctedBy
    && (if a.header.family == "ledger" then a.header.plans <= b.header.plans else a.header.plans == b.header.plans)
  }

  lemma AllFields(f: Field)
    ensures f in FIELDS
  {}

  lemma SameRefusesNone(a: Header, b: Header, f: Field)
    requires SameElsewhere(a, b)
    ensures !Refused(a, b, f)
  {}

  lemma HalfSame(a: Header, b: Header)
    requires forall f :: !Refused(a, b, f)
    ensures a.id == b.id && a.family == b.family && a.kind == b.kind && a.title == b.title && a.created == b.created
    ensures a.owner == b.owner && a.phase == b.phase && a.work == b.work && a.slice == b.slice
  {
    assert !Refused(a, b, Id) && !Refused(a, b, Family) && !Refused(a, b, Kind) && !Refused(a, b, Title);
    assert !Refused(a, b, Created) && !Refused(a, b, Owner) && !Refused(a, b, Phase) && !Refused(a, b, Work);
    assert !Refused(a, b, Slice);
  }

  lemma OtherHalfSame(a: Header, b: Header)
    requires forall f :: !Refused(a, b, f)
    ensures a.tree == b.tree && a.supersedes == b.supersedes && a.corrects == b.corrects && a.relates == b.relates
    ensures a.was == b.was && a.vendored == b.vendored && a.origin == b.origin && a.extra == b.extra
  {
    assert !Refused(a, b, Tree) && !Refused(a, b, Supersedes) && !Refused(a, b, Corrects);
    assert !Refused(a, b, Relates) && !Refused(a, b, Was) && !Refused(a, b, Vendored);
    assert !Refused(a, b, Origin) && !Refused(a, b, Extra);
  }

  lemma NoneRefused(a: Header, b: Header)
    ensures (forall f :: !Refused(a, b, f)) <==> SameElsewhere(a, b)
  {
    if forall f :: !Refused(a, b, f) {
      HalfSame(a, b);
      OtherHalfSame(a, b);
    }
    if SameElsewhere(a, b) {
      forall f ensures !Refused(a, b, f) { SameRefusesNone(a, b, f); }
    }
  }

  lemma NoneFirst(a: Header, b: Header, fields: seq<Field>)
    requires forall f :: f in fields
    ensures FirstChanged(a, b, fields).None? <==> forall f :: !Refused(a, b, f)
  {}

  /** No field is refused exactly when the headers agree on all fields the rule does not name. */
  lemma FirstChangedExactly(a: Header, b: Header)
    ensures FirstChanged(a, b, FIELDS).None? <==> SameElsewhere(a, b)
  {
    forall f ensures f in FIELDS { AllFields(f); }
    NoneFirst(a, b, FIELDS);
    NoneRefused(a, b);
  }

  lemma PermittedExactly(a: Version, b: Version)
    ensures Permitted(a, b) <==> OnlyGrows(a, b)
  {
    FirstChangedExactly(a.header, b.header);
  }

  lemma PermittedIsReflexive(a: Version)
    ensures Permitted(a, a)
  {
    PermittedExactly(a, a);
  }

  lemma PermittedIsTransitive(a: Version, b: Version, c: Version)
    requires Permitted(a, b) && Permitted(b, c)
    ensures Permitted(a, c)
  {
    PermittedExactly(a, b);
    PermittedExactly(b, c);
    PermittedExactly(a, c);
  }

  /** Every commit is permitted against the one before it. */
  ghost predicate IsHistory(versions: seq<Version>) {
    forall i | 0 < i < |versions| :: Permitted(versions[i - 1], versions[i])
  }

  /** So every later version is permitted against every earlier one, however many commits lie between. */
  lemma {:induction false} HistoryIsPermitted(versions: seq<Version>, i: nat, j: nat)
    requires IsHistory(versions) && i <= j < |versions|
    ensures Permitted(versions[i], versions[j])
    decreases j - i
  {
    if i == j {
      PermittedIsReflexive(versions[i]);
    } else {
      HistoryIsPermitted(versions, i, j - 1);
      PermittedIsTransitive(versions[i], versions[j - 1], versions[j]);
    }
  }

  /**
   Along a history the body, the family and every unnamed field stay, a terminal status
   is never left, corrections only grow, and plans grow on ledgers and stay elsewhere.
   */
  lemma FrozenOverHistory(versions: seq<Version>, i: nat, j: nat)
    requires IsHistory(versions) && i <= j < |versions|
    ensures OnlyGrows(versions[i], versions[j])
  {
    HistoryIsPermitted(versions, i, j);
    PermittedExactly(versions[i], versions[j]);
  }

  /** A terminal status stays. The rules are given in the order they are tested. */
  ghost predicate StatusKept(a: Header, b: Header) { EndsALife(a.status) ==> b.status == a.status }

  /** Corrections grow at the end. */
  predicate CorrectionsKept(a: Header, b: Header) { a.correctedBy <= b.correctedBy }

  /** Only a ledger may change its plans. */
  predicate PlansInPlace(a: Header, b: Header) { a.family != "ledger" ==> b.plans == a.plans }

  /** Plans grow at the end. */
  predicate PlansKept(a: Header, b: Header) { a.plans <= b.plans }

  /** The new header with one field as it was. */
  function Restored(a: Header, b: Header, f: Field): Header {
    match f
    case Id => b.(id := a.id)
    case Family => b.(family := a.family)
    case Kind => b.(kind := a.kind)
    case Title => b.(title := a.title)
    case Status => b.(status := a.status)
    case Created => b.(created := a.created)
    case Owner => b.(owner := a.owner)
    case Phase => b.(phase := a.phase)
    case Work => b.(work := a.work)
    case Slice => b.(slice := a.slice)
    case Tree => b.(tree := a.tree)
    case Plans => b.(plans := a.plans)
    case Supersedes => b.(supersedes := a.supersedes)
    case SupersededBy => b.(supersededBy := a.supersededBy)
    case CorrectedBy => b.(correctedBy := a.correctedBy)
    case Corrects => b.(corrects := a.corrects)
    case Relates => b.(relates := a.relates)
    case Was => b.(was := a.was)
    case Vendored => b.(vendored := a.vendored)
    case Origin => b.(origin := a.origin)
    case Extra => b.(extra := a.extra)
  }

  /** A field counts as changed exactly when putting it back makes a difference. */
  lemma ChangedExactly(a: Header, b: Header, f: Field)
    ensures Changed(a, b, f) <==> Restored(a, b, f) != b
  {}

  /** Any status but the three may change to any other. */
  lemma LivingStatusMayChange(a: Version, status: string)
    ensures Permitted(a, a.(header := a.header.(status := status))) <==>
      a.header.status == status || a.header.status !in {"closed", "retired", "superseded"}
  {
    PermittedExactly(a, a.(header := a.header.(status := status)));
  }

  /** A refusal names the first rule broken: the rules before it hold, its own does not. */
  lemma RefusalNamesFirstRule(a: Version, b: Version)
    ensures var x, y := a.header, b.header;
      match FrozenDiff(a, b)
      case None => OnlyGrows(a, b)
      case Some(BodyChanged) => a.body != b.body
      case Some(LeftTerminal(s)) => a.body == b.body && s == x.status && !StatusKept(x, y)
      case Some(CorrectionsLost) => a.body == b.body && StatusKept(x, y) && !CorrectionsKept(x, y)
      case Some(PlansOffLedger) =>
        a.body == b.body && StatusKept(x, y) && CorrectionsKept(x, y) && !PlansInPlace(x, y)
      case Some(PlansLost) =>
        a.body == b.body && StatusKept(x, y) && CorrectionsKept(x, y) && PlansInPlace(x, y) && !PlansKept(x, y)
      case Some(FieldChanged(f)) =>
        && a.body == b.body && StatusKept(x, y) && CorrectionsKept(x, y) && PlansInPlace(x, y) && PlansKept(x, y)
        && exists k :: IsFirst(x, y, FIELDS, k) && FIELDS[k] == f
  {
    PermittedExactly(a, b);
  }

  /**
   The converse fails: a merge-base diff that is permitted does not show that every commit
   in between was. A body changed and changed back passes end to end.
   */
  lemma EndsDoNotShowTheSteps(a: Version, text: string)
    requires text != a.body
    ensures var versions := [a, a.(body := text), a];
      Permitted(versions[0], versions[2]) && !IsHistory(versions)
  {
    var versions := [a, a.(body := text), a];
    PermittedIsReflexive(a);
    PermittedExactly(a, a.(body := text));
    assert !Permitted(versions[0], versions[1]);
  }
}
