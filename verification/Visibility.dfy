/**
  The four hand-written forms of one access rule (backend/app/services/authorization.py):
  `can`, `_passes_scope` behind `get_visible_or_404`, `apply_visibility` and
  `visibility_clause`.  A WHERE clause is the predicate that says which rows it selects,
  and a comparison with NULL selects nothing.
*/
module Visibility {
  import opened Wrappers

  /** A UUID; only equality matters, and there is always another one. */
  datatype Id = Id(number: int)

  const ALL := "ALL"
  const TEAM := "TEAM"
  const ASSIGNED_ONLY := "ASSIGNED_ONLY"
  const OWNED_ONLY := "OWNED_ONLY"

  /** Which of the columns that the rule looks at a model declares. */
  datatype Model = Model(organizationId: bool, ownerId: bool, createdBy: bool,
                         assignedUserId: bool, teamId: bool, assignedTeamId: bool)

  datatype Row = Row(organizationId: Option<Id>, ownerId: Option<Id>, createdBy: Option<Id>,
                     assignedUserId: Option<Id>, teamId: Option<Id>, assignedTeamId: Option<Id>)

  /** `getattr(row, attr, None)`: a column that the model lacks reads as None. */
  ghost predicate RowOf(r: Row, m: Model) {
    && (r.organizationId.Some? ==> m.organizationId)
    && (r.ownerId.Some? ==> m.ownerId)
    && (r.createdBy.Some? ==> m.createdBy)
    && (r.assignedUserId.Some? ==> m.assignedUserId)
    && (r.teamId.Some? ==> m.teamId)
    && (r.assignedTeamId.Some? ==> m.assignedTeamId)
  }

  /** The caller: `defaults` are the organization's `visibility_defaults` by role. */
  datatype Context = Context(user: Id, organization: Id, teams: set<Id>, permissions: set<string>,
                             override: string, roles: seq<string>, defaults: map<string, string>)

  // ------------------------------------------------------------- scope resolution

  const SHIPPED_ROLES := {"SUPER_ADMIN", "ADMIN", "MANAGER", "OPERATOR", "VIEWER"}

  function FirstConfigured(roles: seq<string>, defaults: map<string, string>): Option<string> {
    if roles == [] then None
    else if roles[0] in defaults then Some(defaults[roles[0]])
    else FirstConfigured(roles[1..], defaults)
  }

  /** Member override, then the first role with an organization default, then the shipped ALL. */
  function Scope(ctx: Context): string {
    if ctx.override != "" then ctx.override
    else
      match FirstConfigured(ctx.roles, ctx.defaults)
      case Some(scope) => scope
      case None => FirstConfigured(ctx.roles, map role | role in SHIPPED_ROLES :: ALL).GetOr(ALL)
  }

  lemma {:induction false} FirstConfiguredIsFirst(roles: seq<string>, defaults: map<string, string>)
    ensures FirstConfigured(roles, defaults).None? <==> forall role :: role in roles ==> role !in defaults
    ensures FirstConfigured(roles, defaults).Some? ==>
      exists i ::
        0 <= i < |roles| && roles[i] in defaults && FirstConfigured(roles, defaults).value == defaults[roles[i]]
        && forall j :: 0 <= j < i ==> roles[j] !in defaults
    decreases |roles|
  {
    if roles != [] && roles[0] !in defaults {
      FirstConfiguredIsFirst(roles[1..], defaults);
      if FirstConfigured(roles[1..], defaults).Some? {
        var i :| 0 <= i < |roles[1..]| && roles[1..][i] in defaults
          && FirstConfigured(roles, defaults).value == defaults[roles[1..][i]]
          && forall j :: 0 <= j < i ==> roles[1..][j] !in defaults;
        assert roles[i + 1] == roles[1..][i];
        forall j | 0 <= j < i + 1 ensures roles[j] !in defaults {
          assert j > 0 ==> roles[j] == roles[1..][j - 1];
        }
      }
    }
  }

  /** Nobody is restricted by the shipped roles: a scope other than ALL was configured. */
  lemma RestrictionIsConfigured(ctx: Context)
    requires ctx.override == "" && forall role :: role in ctx.roles ==> role !in ctx.defaults
    ensures Scope(ctx) == ALL
  {
    FirstConfiguredIsFirst(ctx.roles, ctx.defaults);
    FirstConfiguredIsFirst(ctx.roles, map role | role in SHIPPED_ROLES :: ALL);
  }

  /** The member's own override wins, then the first role with an organization default. */
  lemma ScopePrecedence(ctx: Context, i: nat)
    ensures ctx.override != "" ==> Scope(ctx) == ctx.override
    ensures ctx.override == "" && i < |ctx.roles| && ctx.roles[i] in ctx.defaults
      && (forall j :: 0 <= j < i ==> ctx.roles[j] !in ctx.defaults)
      ==> Scope(ctx) == ctx.defaults[ctx.roles[i]]
  {
    FirstConfiguredIsFirst(ctx.roles, ctx.defaults);
  }

  // -------------------------------------------------------------- the Python rules

  predicate IsOwner(r: Row, user: Id) {
    r.ownerId == Some(user) || r.createdBy == Some(user)
  }

  predicate OrganizationMatches(r: Row, ctx: Context) {
    r.organizationId.None? || r.organizationId.value == ctx.organization
  }

  /** `getattr(resource, "team_id") or getattr(resource, "assigned_team_id")` */
  function TeamOf(r: Row): Option<Id> {
    if r.teamId.Some? then r.teamId else r.assignedTeamId
  }

  predicate Can(ctx: Context, permission: string, resource: Option<Row>) {
    if permission !in ctx.permissions then false
    else if resource.None? then true
    else
      var r, scope := resource.value, Scope(ctx);
      if !OrganizationMatches(r, ctx) then false
      else if scope == ALL then true
      else if scope == OWNED_ONLY then IsOwner(r, ctx.user)
      else if scope == ASSIGNED_ONLY then r.assignedUserId == Some(ctx.user) || IsOwner(r, ctx.user)
      else if scope == TEAM then
        IsOwner(r, ctx.user)
        || (TeamOf(r).Some? && TeamOf(r).value in ctx.teams)
        || TeamOf(r).None?
      else false
  }

  predicate PassesScope(r: Row, ctx: Context) {
    var scope := Scope(ctx);
    if scope == ALL then true
    else if scope == OWNED_ONLY then IsOwner(r, ctx.user)
    else if scope == ASSIGNED_ONLY then r.assignedUserId == Some(ctx.user) || IsOwner(r, ctx.user)
    else if scope == TEAM then
      TeamOf(r).None? || TeamOf(r).value in ctx.teams || IsOwner(r, ctx.user)
    else true
  }

  /** What `get_visible_or_404` hands out for an existing row. */
  predicate Fetches(r: Row, ctx: Context, permission: Option<string>) {
    && OrganizationMatches(r, ctx)
    && (permission.Some? ==> permission.value in ctx.permissions)
    && PassesScope(r, ctx)
  }

  /**
    Who is handed a row, told by its cells: nobody outside its organization, nobody without the
    permission asked for, and under a scope only owners, assignees and team members, where the
    first of the two team cells counts and a row without a team is everybody's under TEAM.
  */
  lemma FetchesIff(r: Row, ctx: Context, permission: Option<string>)
    ensures var mine := r.ownerId == Some(ctx.user) || r.createdBy == Some(ctx.user);
      Fetches(r, ctx, permission) <==>
        && (r.organizationId == None || r.organizationId == Some(ctx.organization))
        && (permission == None || permission.value in ctx.permissions)
        && (Scope(ctx) == OWNED_ONLY ==> mine)
        && (Scope(ctx) == ASSIGNED_ONLY ==> mine || r.assignedUserId == Some(ctx.user))
        && (Scope(ctx) == TEAM ==>
              || mine
              || (r.teamId == None && r.assignedTeamId == None)
              || (exists team :: team in ctx.teams && r.teamId == Some(team))
              || (r.teamId == None && exists team :: team in ctx.teams && r.assignedTeamId == Some(team)))
  {
  }

  // ----------------------------------------------------------------- the SQL rules

  /** A column of a model: absent, or read from the row. */
  datatype Column = Missing | Column(cell: Option<Id>)

  predicate Equals(c: Column, id: Id) {
    c.Column? && c.cell == Some(id)
  }

  function Either(first: bool, a: Option<Id>, second: bool, b: Option<Id>): Column {
    if first then Column(a) else if second then Column(b) else Missing
  }

  function OwnerColumn(m: Model, r: Row): Column {
    Either(m.ownerId, r.ownerId, m.createdBy, r.createdBy)
  }

  function AssignedColumn(m: Model, r: Row): Column {
    if m.assignedUserId then Column(r.assignedUserId) else Missing
  }

  function TeamColumn(m: Model, r: Row): Column {
    Either(m.teamId, r.teamId, m.assignedTeamId, r.assignedTeamId)
  }

  predicate OrganizationClause(m: Model, r: Row, ctx: Context) {
    m.organizationId ==> r.organizationId == Some(ctx.organization) || r.organizationId.None?
  }

  /** `or_(*clauses)` over the clauses that were appended, no restriction without any. */
  predicate AnyOf(clauses: seq<bool>) {
    clauses == [] || true in clauses
  }

  function ClauseFor(c: Column, id: Id): seq<bool> {
    if c.Column? then [Equals(c, id)] else []
  }

  /** Whether the query of `apply_visibility` keeps row `r` of model `m`. */
  predicate Applies(m: Model, r: Row, ctx: Context) {
    var scope := Scope(ctx);
    && OrganizationClause(m, r, ctx)
    && if scope == ALL then true
       else
         var owned := ClauseFor(OwnerColumn(m, r), ctx.user);
         if scope == OWNED_ONLY then AnyOf(owned)
         else
           var clauses := owned + ClauseFor(AssignedColumn(m, r), ctx.user);
           if scope == ASSIGNED_ONLY then AnyOf(clauses)
           else
             var team := TeamColumn(m, r);
             if scope == TEAM && team.Column? && ctx.teams != {} then
               AnyOf(clauses + [team.cell.Some? && team.cell.value in ctx.teams] + [team.cell.None?])
             else AnyOf(clauses)
  }

  /** Whether the clause of `visibility_clause` selects row `r` of model `m`. */
  predicate Selects(m: Model, r: Row, ctx: Context) {
    var scope := Scope(ctx);
    && OrganizationClause(m, r, ctx)
    && if scope == ALL then true
       else
         var owned := ClauseFor(OwnerColumn(m, r), ctx.user);
         if scope == OWNED_ONLY then AnyOf(owned)
         else
           var clauses := owned + ClauseFor(AssignedColumn(m, r), ctx.user);
           if scope == ASSIGNED_ONLY then AnyOf(clauses)
           else
             var team := TeamColumn(m, r);
             if scope == TEAM && team.Column? then
               AnyOf([team.cell.None?]
                     + (if ctx.teams != {} then [team.cell.Some? && team.cell.value in ctx.teams] else [])
                     + owned)
             else true
  }

  // -------------------------------------------------------------- where they agree

  predicate KnownScope(ctx: Context) {
    Scope(ctx) in {ALL, TEAM, ASSIGNED_ONLY, OWNED_ONLY}
  }

  /** `can` accepts a row exactly when the permission is held and the row could be fetched. */
  lemma CanIsFetch(r: Row, ctx: Context, permission: string)
    ensures Can(ctx, permission, Some(r))
       <==> permission in ctx.permissions && KnownScope(ctx) && Fetches(r, ctx, None)
  {
  }

  /** The columns for which listing and fetching are the same rule, by scope. */
  predicate Aligned(m: Model, ctx: Context) {
    var scope, bothOwners, owner := Scope(ctx), m.ownerId && m.createdBy, m.ownerId || m.createdBy;
    if scope == OWNED_ONLY then owner && !bothOwners
    else if scope == ASSIGNED_ONLY then (owner || m.assignedUserId) && !bothOwners
    else if scope == TEAM then m.teamId || m.assignedTeamId ==> !bothOwners && !(m.teamId && m.assignedTeamId)
    else true
  }

  const BLANK := Row(None, None, None, None, None, None)

  lemma AlignedRowsAgree(m: Model, r: Row, ctx: Context)
    requires RowOf(r, m) && Aligned(m, ctx)
    ensures Selects(m, r, ctx) <==> Fetches(r, ctx, None)
  {
  }

  ghost function Above(ids: set<Id>): (top: int)
    ensures forall id :: id in ids ==> id.number < top
  {
    if ids == {} then 0
    else
      var id :| id in ids;
      var top := Above(ids - {id});
      assert forall other :: other in ids ==> other == id || other in ids - {id};
      if id.number < top then top else id.number + 1
  }

  /** An identifier that is neither the caller nor one of the caller's teams. */
  ghost function Stranger(ctx: Context): (id: Id)
    ensures id != ctx.user && id !in ctx.teams
  {
    Id(Above(ctx.teams + {ctx.user}))
  }

  /** A row of an unaligned model that one form shows and the other hides. */
  lemma UnalignedRowDiffers(m: Model, ctx: Context) returns (r: Row)
    requires !Aligned(m, ctx)
    ensures RowOf(r, m) && (Selects(m, r, ctx) <==> !Fetches(r, ctx, None))
  {
    var other := Stranger(ctx);
    if Scope(ctx) == TEAM {
      if m.ownerId && m.createdBy {
        // created by the caller, owned and teamed by others: fetched, but not listed
        r := BLANK.(createdBy := Some(ctx.user), ownerId := Some(other));
        r := if m.teamId then r.(teamId := Some(other)) else r.(assignedTeamId := Some(other));
      } else {
        // no team, but assigned to a foreign team: listed, but not fetched
        r := BLANK.(assignedTeamId := Some(other));
      }
    } else if m.ownerId && m.createdBy {
      r := BLANK.(createdBy := Some(ctx.user), ownerId := Some(other));
    } else {
      r := BLANK;
    }
  }

  /**
    The rows selected by `visibility_clause` are those that `get_visible_or_404` returns
    for exactly the aligned models.
  */
  lemma ListingIsFetchingIffAligned(m: Model, ctx: Context)
    ensures (forall r :: RowOf(r, m) ==> (Selects(m, r, ctx) <==> Fetches(r, ctx, None))) <==> Aligned(m, ctx)
  {
    if Aligned(m, ctx) {
      forall r | RowOf(r, m) ensures Selects(m, r, ctx) <==> Fetches(r, ctx, None) {
        AlignedRowsAgree(m, r, ctx);
      }
    } else {
      var r := UnalignedRowDiffers(m, ctx);
    }
  }

  /** For which models and callers the two clause builders keep the same rows. */
  predicate SameClauses(m: Model, ctx: Context) {
    var scope, team := Scope(ctx), m.teamId || m.assignedTeamId;
    if scope in {ALL, OWNED_ONLY, ASSIGNED_ONLY} then true
    else if scope == TEAM && team then ctx.teams != {} && !m.assignedUserId
    else !m.ownerId && !m.createdBy && !m.assignedUserId
  }

  lemma SameClausesAgree(m: Model, r: Row, ctx: Context)
    requires SameClauses(m, ctx)
    ensures Applies(m, r, ctx) <==> Selects(m, r, ctx)
  {
  }

  lemma ClausesDiffer(m: Model, ctx: Context) returns (r: Row)
    requires !SameClauses(m, ctx)
    ensures RowOf(r, m) && (Applies(m, r, ctx) <==> !Selects(m, r, ctx))
  {
    var other := Stranger(ctx);
    r := BLANK;
    if Scope(ctx) == TEAM && (m.teamId || m.assignedTeamId) {
      if ctx.teams != {} {
        // assigned to the caller inside a foreign team: only `apply_visibility` keeps it
        r := r.(assignedUserId := Some(ctx.user));
        r := if m.teamId then r.(teamId := Some(other)) else r.(assignedTeamId := Some(other));
      } else if !m.ownerId && !m.createdBy && !m.assignedUserId {
        r := if m.teamId then r.(teamId := Some(other)) else r.(assignedTeamId := Some(other));
      }
    }
  }

  lemma ClauseBuildersAgreeIff(m: Model, ctx: Context)
    ensures (forall r :: RowOf(r, m) ==> (Applies(m, r, ctx) <==> Selects(m, r, ctx))) <==> SameClauses(m, ctx)
  {
    if SameClauses(m, ctx) {
      forall r | RowOf(r, m) ensures Applies(m, r, ctx) <==> Selects(m, r, ctx) {
        SameClausesAgree(m, r, ctx);
      }
    } else {
      var r := ClausesDiffer(m, ctx);
    }
  }

  /** A row as `visibility_clause` sees it: the second owner and team columns count only without the first. */
  function Seen(m: Model, r: Row): Row {
    r.(createdBy := if m.ownerId then None else r.createdBy,
       assignedTeamId := if m.teamId then None else r.assignedTeamId)
  }

  /** A model without any column that the scope asks about is not restricted at all. */
  predicate Unrestricted(m: Model, ctx: Context) {
    var owner := m.ownerId || m.createdBy;
    (Scope(ctx) == OWNED_ONLY && !owner) || (Scope(ctx) == ASSIGNED_ONLY && !owner && !m.assignedUserId)
  }

  /** On every model the clause selects what could be fetched of the row as it sees it. */
  lemma SelectsWhatItSees(m: Model, r: Row, ctx: Context)
    requires RowOf(r, m)
    ensures Selects(m, r, ctx)
       <==> OrganizationMatches(r, ctx) && (Unrestricted(m, ctx) || Fetches(Seen(m, r), ctx, None))
  {
  }

  /** Without a team to look at, every scope but ALL and OWNED_ONLY lists what ASSIGNED_ONLY lists. */
  lemma ApplyFallsBackToAssigned(m: Model, r: Row, ctx: Context)
    requires Scope(ctx) != ALL && Scope(ctx) != OWNED_ONLY
    requires !(Scope(ctx) == TEAM && (m.teamId || m.assignedTeamId) && ctx.teams != {})
    ensures Applies(m, r, ctx) <==> Applies(m, r, ctx.(override := ASSIGNED_ONLY))
  {
  }

  /** A member restricted to own rows gets no other one by any of the four forms, whatever the defaults are. */
  lemma OverrideRestricts(m: Model, r: Row, ctx: Context, permission: Option<string>, held: string)
    requires ctx.override == OWNED_ONLY && r.ownerId != Some(ctx.user) && r.createdBy != Some(ctx.user)
    ensures !Fetches(r, ctx, permission) && !Can(ctx, held, Some(r))
    ensures m.ownerId || m.createdBy ==> !Selects(m, r, ctx) && !Applies(m, r, ctx)
  {
    ScopePrecedence(ctx, 0);
  }

  /** Under TEAM with a team, `apply_visibility` adds exactly the rows assigned to the caller. */
  lemma ApplyAddsAssignedRows(m: Model, r: Row, ctx: Context)
    requires Scope(ctx) == TEAM && ctx.teams != {} && TeamColumn(m, r).Column?
    ensures Applies(m, r, ctx)
       <==> Selects(m, r, ctx) || (OrganizationClause(m, r, ctx) && Equals(AssignedColumn(m, r), ctx.user))
  {
  }

  /** Conversations, which have assignees but no owner, can be listed and then not be found. */
  lemma ListedConversationIsNotFound(ctx: Context)
    requires Scope(ctx) == TEAM && ctx.teams != {}
    ensures var conversations := Model(true, false, false, true, false, true);
      exists r :: RowOf(r, conversations) && Applies(conversations, r, ctx) && !Fetches(r, ctx, None)
  {
    var conversations := Model(true, false, false, true, false, true);
    var r := BLANK.(assignedUserId := Some(ctx.user), assignedTeamId := Some(Stranger(ctx)));
    assert Applies(conversations, r, ctx);
  }
}
