/**
 * The job-application endpoints: a per-user store of applications and the
 * log of their status changes. Applications are kept in a map from id to
 * record (the record names its owner); the status history is a sequence that
 * only grows. Every operation first validates its request body, then resolves
 * the current user, then checks that the application belongs to that user.
 */
module JobApplications {
  import opened Wrappers
  import opened Text
  import opened Search

  /** A LocalDate, as a day number. */
  type Date = int

  /** The priority of an application; only MEDIUM, the default, is named here. */
  datatype Priority = Medium | OtherPriority(name: string)

  /** A stored application and its owner's user id. */
  datatype JobApp = JobApp(
    company: string,
    role: string,
    status: Status,
    priority: Priority,
    appliedDate: Option<Date>,
    followUpDate: Option<Date>,
    notes: Option<string>,
    jobUrl: Option<string>,
    salary: Option<string>,
    owner: nat)

  /** An application as an endpoint returns it: its id and its fields. */
  datatype Record = Record(id: nat, app: JobApp)

  /** The body of POST and PUT; every field may arrive as null. */
  datatype UpsertRequest = UpsertRequest(
    company: Option<string>,
    role: Option<string>,
    status: Option<Status>,
    priority: Option<Priority>,
    appliedDate: Option<Date>,
    followUpDate: Option<Date>,
    notes: Option<string>,
    jobUrl: Option<string>,
    salary: Option<string>)

  /** One row of the status history: which application, whose, and the transition. */
  datatype StatusChange = StatusChange(appId: nat, userId: nat, from: Option<Status>, to: Status)

  datatype HttpStatus = Unauthorized | NotFound

  /** A constrained field of a request body. */
  datatype Field = CompanyField | RoleField | StatusField

  /** The field's name and the message of its constraint, as the bad-request body reports them. */
  function FieldName(f: Field): string {
    match f
    case CompanyField => "company"
    case RoleField => "role"
    case StatusField => "status"
  }

  function Message(f: Field): string {
    FieldName(f) + " is required"
  }

  /**
   * Why a request fails: a ResponseStatusException with its status and reason,
   * or a body that breaks its constraints (a bad request naming each field
   * whose constraint is broken, with that constraint's Message).
   */
  datatype Failure = Failure(status: HttpStatus, reason: string) | ValidationFailed(fields: set<Field>)

  /** Bean validation's @NotBlank: not null, and not empty once trimmed. */
  predicate NotBlank(s: Option<string>) {
    s.Some? && JavaTrim(s.value) != []
  }

  /** Whether the request body breaks the constraint on this field. */
  predicate Broken(body: UpsertRequest, f: Field) {
    match f
    case CompanyField => !NotBlank(body.company)
    case RoleField => !NotBlank(body.role)
    case StatusField => body.status.None?
  }

  /** The fields of the request body whose constraint is broken. */
  function Violations(body: UpsertRequest): (r: set<Field>)
    ensures CompanyField in r <==> !NotBlank(body.company)
    ensures RoleField in r <==> !NotBlank(body.role)
    ensures StatusField in r <==> body.status.None?
  {
    set f: Field | Broken(body, f)
  }

  /** The body of a status change breaks its one constraint exactly when the status is null. */
  function StatusViolations(status: Option<Status>): (r: set<Field>)
    ensures r == {} <==> status.Some?
    ensures r <= {StatusField}
  {
    if status.Some? then {} else {StatusField}
  }

  predicate IsValid(body: UpsertRequest) {
    NotBlank(body.company) && NotBlank(body.role) && body.status.Some?
  }

  /** A body passes validation exactly when no constraint is broken. */
  lemma ValidMeansNoViolations(body: UpsertRequest)
    ensures IsValid(body) <==> Violations(body) == {}
  {
    if !IsValid(body) {
      assert CompanyField in Violations(body) || RoleField in Violations(body) || StatusField in Violations(body);
    }
  }

  /** The record that create and update write from a valid body: company and role trimmed, MEDIUM by default. */
  function Fields(body: UpsertRequest, owner: nat): JobApp
    requires IsValid(body)
  {
    JobApp(JavaTrim(body.company.value), JavaTrim(body.role.value), body.status.value,
      if body.priority.None? then Medium else body.priority.value,
      body.appliedDate, body.followUpDate, body.notes, body.jobUrl, body.salary, owner)
  }

  /** The stored company and role are trimmed and not empty; a missing priority is MEDIUM; the rest is copied. */
  lemma FieldsMeaning(body: UpsertRequest, owner: nat)
    requires IsValid(body)
    ensures var a := Fields(body, owner);
      && a.company != [] && JavaTrim(a.company) == a.company
      && a.role != [] && JavaTrim(a.role) == a.role
      && a.status == body.status.value
      && (body.priority.None? ==> a.priority == Medium)
      && (body.priority.Some? ==> a.priority == body.priority.value)
      && a.appliedDate == body.appliedDate && a.followUpDate == body.followUpDate
      && a.notes == body.notes && a.jobUrl == body.jobUrl && a.salary == body.salary
      && a.owner == owner
  {
    JavaTrimIdempotent(body.company.value);
    JavaTrimIdempotent(body.role.value);
  }

  /** The application with this id exists and belongs to this user (findByIdAndUserId, existsByIdAndUserId). */
  predicate Owned(apps: map<nat, JobApp>, id: nat, userId: nat) {
    id in apps && apps[id].owner == userId
  }

  /** followUpDate < today; a null date never qualifies. */
  predicate Overdue(a: JobApp, today: Date) {
    a.followUpDate.Some? && a.followUpDate.value < today
  }

  /** followUpDate <= today; a null date never qualifies. */
  predicate Due(a: JobApp, today: Date) {
    a.followUpDate.Some? && a.followUpDate.value <= today
  }

  /**
   * Whether list returns an application: always only the user's own; the
   * overdue flag takes precedence over the due flag; either is combined with
   * the status filter when one is given.
   */
  predicate Selected(a: JobApp, userId: nat, status: Option<Status>, followUpDue: bool, followUpOverdue: bool, today: Date) {
    && a.owner == userId
    && (status.Some? ==> a.status == status.value)
    && (followUpOverdue ==> Overdue(a, today))
    && (!followUpOverdue && followUpDue ==> Due(a, today))
  }

  /** With the overdue flag set, the due flag does not matter, and overdue applications are all due. */
  lemma OverdueTakesPrecedence(a: JobApp, userId: nat, status: Option<Status>, today: Date)
    ensures Selected(a, userId, status, true, true, today) == Selected(a, userId, status, false, true, today)
    ensures Selected(a, userId, status, false, true, today) ==> Selected(a, userId, status, true, false, today)
    ensures Selected(a, userId, status, true, false, today) ==> Selected(a, userId, status, false, false, today)
  {
  }

  /** The status entry that was appended last for an application, if any. */
  function LastStatus(h: seq<StatusChange>, id: nat): Option<Status>
    decreases |h|
  {
    if h == [] then None
    else if h[|h| - 1].appId == id then Some(h[|h| - 1].to)
    else LastStatus(h[..|h| - 1], id)
  }

  lemma LastStatusAppend(h: seq<StatusChange>, e: StatusChange, id: nat)
    ensures LastStatus(h + [e], id) == if e.appId == id then Some(e.to) else LastStatus(h, id)
  {
    assert (h + [e])[..|h|] == h;
  }

  /** An application with no entry has no last status. */
  lemma {:induction false} LastStatusOfUnlogged(h: seq<StatusChange>, id: nat)
    requires forall k :: 0 <= k < |h| ==> h[k].appId != id
    ensures LastStatus(h, id) == None
  {
    if h != [] {
      LastStatusOfUnlogged(h[..|h| - 1], id);
    }
  }

  /**
   * The history is a chain of real transitions: every entry starts from the
   * status the application's previous entry ended in (null for its first
   * entry) and goes to a different status.
   */
  ghost predicate Chained(h: seq<StatusChange>) {
    forall k :: 0 <= k < |h| ==> h[k].from == LastStatus(h[..k], h[k].appId) && h[k].from != Some(h[k].to)
  }

  lemma ChainedAppend(h: seq<StatusChange>, e: StatusChange)
    requires Chained(h)
    requires e.from == LastStatus(h, e.appId) && e.from != Some(e.to)
    ensures Chained(h + [e])
  {
    var h' := h + [e];
    forall k | 0 <= k < |h'|
      ensures h'[k].from == LastStatus(h'[..k], h'[k].appId) && h'[k].from != Some(h'[k].to)
    {
      if k < |h| {
        assert h'[..k] == h[..k];
      } else {
        assert h'[..k] == h;
      }
    }
  }

  /** In a chained history, the oldest entry of every application is its creation, from null. */
  lemma FirstEntryIsCreation(h: seq<StatusChange>, k: nat)
    requires Chained(h) && k < |h|
    requires forall j :: 0 <= j < k ==> h[j].appId != h[k].appId
    ensures h[k].from == None
  {
    LastStatusOfUnlogged(h[..k], h[k].appId);
  }

  /**
   * The consistency of the store: ids below the next identity value, a
   * chained history whose last entry for each stored application is its
   * current status, and entries of a stored application made by its owner.
   */
  ghost predicate Consistent(apps: map<nat, JobApp>, history: seq<StatusChange>, nextId: nat) {
    && (forall id :: id in apps ==> id < nextId)
    && (forall k :: 0 <= k < |history| ==> history[k].appId < nextId)
    && Chained(history)
    && (forall id :: id in apps ==> LastStatus(history, id) == Some(apps[id].status))
    && (forall k :: 0 <= k < |history| && history[k].appId in apps ==> history[k].userId == apps[history[k].appId].owner)
  }

  lemma {:induction false} CreateKeepsConsistent(apps: map<nat, JobApp>, history: seq<StatusChange>, nextId: nat, app: JobApp)
    requires Consistent(apps, history, nextId)
    ensures Consistent(apps[nextId := app], history + [StatusChange(nextId, app.owner, None, app.status)], nextId + 1)
  {
    var e := StatusChange(nextId, app.owner, None, app.status);
    LastStatusOfUnlogged(history, nextId);
    ChainedAppend(history, e);
    forall id | id in apps[nextId := app]
      ensures LastStatus(history + [e], id) == Some(apps[nextId := app][id].status)
    {
      LastStatusAppend(history, e, id);
    }
  }

  lemma {:induction false} StatusChangeKeepsConsistent(apps: map<nat, JobApp>, history: seq<StatusChange>, nextId: nat, id: nat, app: JobApp)
    requires Consistent(apps, history, nextId)
    requires id in apps && app.owner == apps[id].owner && app.status != apps[id].status
    ensures Consistent(apps[id := app], history + [StatusChange(id, app.owner, Some(apps[id].status), app.status)], nextId)
  {
    var e := StatusChange(id, app.owner, Some(apps[id].status), app.status);
    ChainedAppend(history, e);
    forall i | i in apps[id := app]
      ensures LastStatus(history + [e], i) == Some(apps[id := app][i].status)
    {
      LastStatusAppend(history, e, i);
    }
  }

  lemma SameStatusKeepsConsistent(apps: map<nat, JobApp>, history: seq<StatusChange>, nextId: nat, id: nat, app: JobApp)
    requires Consistent(apps, history, nextId)
    requires id in apps && app.owner == apps[id].owner && app.status == apps[id].status
    ensures Consistent(apps[id := app], history, nextId)
  {
  }

  lemma DeleteKeepsConsistent(apps: map<nat, JobApp>, history: seq<StatusChange>, nextId: nat, id: nat)
    requires Consistent(apps, history, nextId)
    ensures Consistent(apps - {id}, history, nextId)
  {
  }

  /** The history of one application of one user, newest entry first (ORDER BY changedAt DESC). */
  function NewestFirst(h: seq<StatusChange>, id: nat, userId: nat): (r: seq<StatusChange>)
    ensures forall e :: e in r <==> e in h && e.appId == id && e.userId == userId
    ensures |r| <= |h|
    decreases |h|
  {
    if h == [] then []
    else
      var last := h[|h| - 1];
      (if last.appId == id && last.userId == userId then [last] else []) + NewestFirst(h[..|h| - 1], id, userId)
  }

  /** A new entry of that application comes first; an entry of another one leaves the list as it was. */
  lemma NewestFirstAppend(h: seq<StatusChange>, e: StatusChange, id: nat, userId: nat)
    ensures NewestFirst(h + [e], id, userId)
      == (if e.appId == id && e.userId == userId then [e] else []) + NewestFirst(h, id, userId)
  {
    assert (h + [e])[..|h|] == h;
  }

  /** The entries of one application of one user, oldest first: the log filtered front to back. */
  function Matching(h: seq<StatusChange>, id: nat, userId: nat): (r: seq<StatusChange>)
    ensures forall e :: e in r <==> e in h && e.appId == id && e.userId == userId
  {
    if h == [] then []
    else (if h[0].appId == id && h[0].userId == userId then [h[0]] else []) + Matching(h[1..], id, userId)
  }

  /** Appending an entry to the log appends it to the oldest-first filter when it matches. */
  lemma {:induction false} MatchingAppend(h: seq<StatusChange>, e: StatusChange, id: nat, userId: nat)
    ensures Matching(h + [e], id, userId)
      == Matching(h, id, userId) + (if e.appId == id && e.userId == userId then [e] else [])
  {
    if h != [] {
      assert (h + [e])[1..] == h[1..] + [e];
      MatchingAppend(h[1..], e, id, userId);
    }
  }

  /**
   * The newest-first listing is the oldest-first filter of the log read
   * backwards: the same entries, each as often as it was logged, in reverse
   * order of logging.
   */
  lemma {:induction false} NewestFirstIsReversedMatching(h: seq<StatusChange>, id: nat, userId: nat)
    ensures NewestFirst(h, id, userId) == Reversed(Matching(h, id, userId))
    decreases |h|
  {
    if h != [] {
      var init, last := h[..|h| - 1], h[|h| - 1];
      assert h == init + [last];
      NewestFirstIsReversedMatching(init, id, userId);
      MatchingAppend(init, last, id, userId);
      var m := Matching(init, id, userId);
      if last.appId == id && last.userId == userId {
        assert (m + [last])[..|m|] == m;
      } else {
        assert m + [] == m;
      }
    }
  }

  /**
   * When every entry of an application was made by its owner, the owner's
   * history of it is not empty once it has a status, and its newest entry
   * ends in that status.
   */
  lemma {:induction false} NewestFirstEndsInLastStatus(h: seq<StatusChange>, id: nat, userId: nat)
    requires LastStatus(h, id).Some?
    requires forall k :: 0 <= k < |h| && h[k].appId == id ==> h[k].userId == userId
    ensures NewestFirst(h, id, userId) != []
    ensures NewestFirst(h, id, userId)[0].to == LastStatus(h, id).value
  {
    var last := h[|h| - 1];
    if last.appId != id {
      NewestFirstEndsInLastStatus(h[..|h| - 1], id, userId);
    }
  }

  /** The history endpoint's first entry is the current status of the application. */
  lemma HistoryShowsCurrentStatus(apps: map<nat, JobApp>, history: seq<StatusChange>, nextId: nat, id: nat, userId: nat)
    requires Consistent(apps, history, nextId) && Owned(apps, id, userId)
    ensures NewestFirst(history, id, userId) != []
    ensures NewestFirst(history, id, userId)[0].to == apps[id].status
  {
    NewestFirstEndsInLastStatus(history, id, userId);
  }

  /** The controller together with its two repositories and the users' ids by e-mail address. */
  class JobApplicationController {
    /** The job_applications table. */
    var apps: map<nat, JobApp>
    /** The status_history table, in insertion order. */
    var history: seq<StatusChange>
    /** The next identity value of the job_applications table. */
    var nextId: nat
    /** The users table as this controller reads it: e-mail address to user id. */
    const users: map<string, nat>

    ghost predicate Valid()
      reads this
    {
      Consistent(apps, history, nextId)
    }

    constructor (users: map<string, nat>)
      ensures Valid() && apps == map[] && history == [] && nextId == 1 && this.users == users
    {
      apps := map[];
      history := [];
      nextId := 1;
      this.users := users;
    }

    /** requireCurrentUser: the user id of the authenticated principal, or UNAUTHORIZED. */
    method RequireCurrentUser(principal: Option<string>) returns (r: Result<nat, Failure>)
      ensures r.Ok? <==> principal.Some? && principal.value in users
      ensures r.Ok? ==> r.value == users[principal.value]
      ensures r.Err? ==> r.error == Failure(Unauthorized, "Unauthorized")
    {
      if principal.None? {
        return Err(Failure(Unauthorized, "Unauthorized"));
      }
      if principal.value !in users {
        return Err(Failure(Unauthorized, "Unauthorized"));
      }
      r := Ok(users[principal.value]);
    }

    /** recordStatusChange: appends one history entry and changes nothing else. */
    method RecordStatusChange(userId: nat, appId: nat, from: Option<Status>, to: Status)
      modifies this
      ensures history == old(history) + [StatusChange(appId, userId, from, to)]
      ensures apps == old(apps) && nextId == old(nextId)
    {
      history := history + [StatusChange(appId, userId, from, to)];
    }

    /**
     * list: dispatches on the two follow-up flags and the status to one of six
     * queries; the result is the set of ids selected (pages and sort order are
     * not modelled).
     */
    method List(principal: Option<string>, status: Option<Status>, followUpDue: bool, followUpOverdue: bool, today: Date)
      returns (r: Result<set<nat>, Failure>)
      ensures r.Ok? <==> principal.Some? && principal.value in users
      ensures r.Err? ==> r.error == Failure(Unauthorized, "Unauthorized")
      ensures r.Ok? ==> forall id :: id in r.value <==>
        id in apps && Selected(apps[id], users[principal.value], status, followUpDue, followUpOverdue, today)
    {
      var user := RequireCurrentUser(principal);
      if user.Err? {
        return Err(user.error);
      }
      var userId := user.value;
      if followUpOverdue {
        if status.Some? {
          return Ok(set id | id in apps && apps[id].owner == userId && apps[id].status == status.value && Overdue(apps[id], today));
        }
        return Ok(set id | id in apps && apps[id].owner == userId && Overdue(apps[id], today));
      }
      if followUpDue {
        if status.Some? {
          return Ok(set id | id in apps && apps[id].owner == userId && apps[id].status == status.value && Due(apps[id], today));
        }
        return Ok(set id | id in apps && apps[id].owner == userId && Due(apps[id], today));
      }
      if status.Some? {
        return Ok(set id | id in apps && apps[id].owner == userId && apps[id].status == status.value);
      }
      return Ok(set id | id in apps && apps[id].owner == userId);
    }

    /**
     * create: stores a new application of the current user under the next id
     * and logs its creation as a change from null to its status.
     */
    method Create(principal: Option<string>, body: UpsertRequest) returns (r: Result<Record, Failure>)
      requires Valid()
      modifies this
      ensures Valid()
      ensures !IsValid(body) ==> r == Err(ValidationFailed(Violations(body)))
      ensures IsValid(body) && !(principal.Some? && principal.value in users) ==> r == Err(Failure(Unauthorized, "Unauthorized"))
      ensures r.Err? ==> apps == old(apps) && history == old(history) && nextId == old(nextId)
      ensures IsValid(body) && principal.Some? && principal.value in users ==>
        var app := Fields(body, users[principal.value]);
        && r == Ok(Record(old(nextId), app))
        && apps == old(apps)[old(nextId) := app]
        && history == old(history) + [StatusChange(old(nextId), users[principal.value], None, app.status)]
        && nextId == old(nextId) + 1
    {
      if !IsValid(body) {
        return Err(ValidationFailed(Violations(body)));
      }
      var user := RequireCurrentUser(principal);
      if user.Err? {
        return Err(user.error);
      }
      var app := Fields(body, user.value);
      CreateKeepsConsistent(apps, history, nextId, app);
      var id := nextId;
      apps := apps[id := app];
      nextId := nextId + 1;
      RecordStatusChange(user.value, id, None, app.status);
      r := Ok(Record(id, app));
    }

    /** getById: the application, if it exists and belongs to the current user. */
    method GetById(principal: Option<string>, id: nat) returns (r: Result<Record, Failure>)
      ensures !(principal.Some? && principal.value in users) ==> r == Err(Failure(Unauthorized, "Unauthorized"))
      ensures principal.Some? && principal.value in users ==>
        if Owned(apps, id, users[principal.value]) then r == Ok(Record(id, apps[id]))
        else r == Err(Failure(NotFound, "Application not found"))
    {
      var user := RequireCurrentUser(principal);
      if user.Err? {
        return Err(user.error);
      }
      if !Owned(apps, id, user.value) {
        return Err(Failure(NotFound, "Application not found"));
      }
      r := Ok(Record(id, apps[id]));
    }

    /**
     * updateStatus: a request for the status the application already has
     * returns it untouched; any other status is stored and logged as a change
     * from the previous status.
     */
    method UpdateStatus(principal: Option<string>, id: nat, status: Option<Status>) returns (r: Result<Record, Failure>)
      requires Valid()
      modifies this
      ensures Valid()
      ensures nextId == old(nextId)
      ensures status.None? ==> r == Err(ValidationFailed(StatusViolations(status)))
      ensures status.Some? && !(principal.Some? && principal.value in users) ==> r == Err(Failure(Unauthorized, "Unauthorized"))
      ensures status.Some? && principal.Some? && principal.value in users && !Owned(old(apps), id, users[principal.value]) ==>
        r == Err(Failure(NotFound, "Application not found"))
      ensures r.Err? ==> apps == old(apps) && history == old(history)
      ensures status.Some? && principal.Some? && principal.value in users && Owned(old(apps), id, users[principal.value]) ==>
        var before := old(apps)[id];
        if before.status == status.value then
          r == Ok(Record(id, before)) && apps == old(apps) && history == old(history)
        else
          && r == Ok(Record(id, before.(status := status.value)))
          && apps == old(apps)[id := before.(status := status.value)]
          && history == old(history) + [StatusChange(id, users[principal.value], Some(before.status), status.value)]
    {
      if status.None? {
        return Err(ValidationFailed(StatusViolations(status)));
      }
      var user := RequireCurrentUser(principal);
      if user.Err? {
        return Err(user.error);
      }
      if !Owned(apps, id, user.value) {
        return Err(Failure(NotFound, "Application not found"));
      }
      var app := apps[id];
      var previous := app.status;
      if previous == status.value {
        return Ok(Record(id, app));
      }
      app := app.(status := status.value);
      StatusChangeKeepsConsistent(apps, history, nextId, id, app);
      apps := apps[id := app];
      RecordStatusChange(user.value, id, Some(previous), app.status);
      r := Ok(Record(id, app));
    }

    /**
     * update: overwrites every editable field of the application from the
     * body, and logs a change only when the status differs from before.
     */
    method Update(principal: Option<string>, id: nat, body: UpsertRequest) returns (r: Result<Record, Failure>)
      requires Valid()
      modifies this
      ensures Valid()
      ensures nextId == old(nextId)
      ensures !IsValid(body) ==> r == Err(ValidationFailed(Violations(body)))
      ensures IsValid(body) && !(principal.Some? && principal.value in users) ==> r == Err(Failure(Unauthorized, "Unauthorized"))
      ensures IsValid(body) && principal.Some? && principal.value in users && !Owned(old(apps), id, users[principal.value]) ==>
        r == Err(Failure(NotFound, "Application not found"))
      ensures r.Err? ==> apps == old(apps) && history == old(history)
      ensures IsValid(body) && principal.Some? && principal.value in users && Owned(old(apps), id, users[principal.value]) ==>
        var before := old(apps)[id];
        var after := Fields(body, users[principal.value]);
        && r == Ok(Record(id, after))
        && apps == old(apps)[id := after]
        && history == old(history) + (if before.status != after.status
             then [StatusChange(id, users[principal.value], Some(before.status), after.status)] else [])
    {
      if !IsValid(body) {
        return Err(ValidationFailed(Violations(body)));
      }
      var user := RequireCurrentUser(principal);
      if user.Err? {
        return Err(user.error);
      }
      if !Owned(apps, id, user.value) {
        return Err(Failure(NotFound, "Application not found"));
      }
      var app := apps[id];
      var previous := app.status;
      app := app.(company := JavaTrim(body.company.value), role := JavaTrim(body.role.value), status := body.status.value,
        priority := if body.priority.None? then Medium else body.priority.value,
        appliedDate := body.appliedDate, followUpDate := body.followUpDate,
        notes := body.notes, jobUrl := body.jobUrl, salary := body.salary);
      assert app == Fields(body, user.value);
      if previous != app.status {
        StatusChangeKeepsConsistent(apps, history, nextId, id, app);
        apps := apps[id := app];
        RecordStatusChange(user.value, id, Some(previous), app.status);
      } else {
        SameStatusKeepsConsistent(apps, history, nextId, id, app);
        apps := apps[id := app];
      }
      r := Ok(Record(id, app));
    }

    /** history: the current user's status changes of the application, newest first. */
    method History(principal: Option<string>, id: nat) returns (r: Result<seq<StatusChange>, Failure>)
      ensures !(principal.Some? && principal.value in users) ==> r == Err(Failure(Unauthorized, "Unauthorized"))
      ensures principal.Some? && principal.value in users ==>
        if Owned(apps, id, users[principal.value]) then r == Ok(NewestFirst(history, id, users[principal.value]))
        else r == Err(Failure(NotFound, "Application not found"))
    {
      var user := RequireCurrentUser(principal);
      if user.Err? {
        return Err(user.error);
      }
      if !Owned(apps, id, user.value) {
        return Err(Failure(NotFound, "Application not found"));
      }
      r := Ok(NewestFirst(history, id, user.value));
    }

    /** delete: removes that one application; the others and the whole history stay. */
    method Delete(principal: Option<string>, id: nat) returns (r: Result<(), Failure>)
      requires Valid()
      modifies this
      ensures Valid()
      ensures history == old(history) && nextId == old(nextId)
      ensures !(principal.Some? && principal.value in users) ==> r == Err(Failure(Unauthorized, "Unauthorized"))
      ensures principal.Some? && principal.value in users && !Owned(old(apps), id, users[principal.value]) ==>
        r == Err(Failure(NotFound, "Application not found"))
      ensures r.Err? ==> apps == old(apps)
      ensures principal.Some? && principal.value in users && Owned(old(apps), id, users[principal.value]) ==>
        r == Ok(()) && apps == old(apps) - {id}
    {
      var user := RequireCurrentUser(principal);
      if user.Err? {
        return Err(user.error);
      }
      if !Owned(apps, id, user.value) {
        return Err(Failure(NotFound, "Application not found"));
      }
      DeleteKeepsConsistent(apps, history, nextId, id);
      apps := apps - {id};
      r := Ok(());
    }
  }
}
