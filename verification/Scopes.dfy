/** Per-tool OAuth scope enforcement: what a call requires, which tools a token is shown, and which calls are
    admitted. The rules hold of any table; `ScopeTable` instantiates them with the server's own. */
module Scopes {
  import opened Prelude

  type Scope = string

  datatype Json =
    | Null
    | Bool(b: bool)
    | Num(n: int)
    | Str(s: string)
    | Arr(items: seq<Json>)
    | Obj(fields: map<string, Json>)

  type Args = Option<map<string, Json>>

  datatype ScopeRule =
    | Fixed(scopes: seq<Scope>)
    | PerAction(actions: seq<(string, seq<Scope>)>)
    | AnyOf(candidates: seq<Scope>)

  datatype Requirement =
    | Unchecked
    | Scopes(all: seq<Scope>)
    | SomeOf(any: seq<Scope>)
    | ScopesWithAnyOf(all: seq<Scope>, any: seq<Scope>)
    | Unmapped

  type Table = seq<(string, ScopeRule)>

  const ADMIN_SCOPE := "admin"
  const UPDATE_ISSUE := "update_redmine_issue"
  const CREATE_ISSUE := "create_redmine_issue"
  const NOTES_ONLY_FIELDS := ["notes", "private_notes"]
  const AGILE_UPDATE_FIELDS := ["story_points", "agile_sprint_id", "agile_position"]
  const UPDATE_ISSUE_NOTES_ONLY := ["add_issue_notes"]
  const UPDATE_ISSUE_BASE := ["edit_issues"]
  const UPDATE_ISSUE_WITH_SUBTASKS := ["edit_issues", "manage_subtasks"]
  const UPDATE_ISSUE_BASE_WITH_AGILE := ["edit_issues", "view_agile_queries"]
  const UPDATE_ISSUE_WITH_SUBTASKS_AND_AGILE := ["edit_issues", "manage_subtasks", "view_agile_queries"]
  const CREATE_ISSUE_BASE := ["add_issues"]
  const TAG_LIST_SCOPES := ["create_issue_tags", "edit_issue_tags"]

  /* ---------- What a call requires ---------- */

  ghost predicate NotesOnly(args: map<string, Json>) {
    && (forall key :: key in args && key != "issue_id" ==> key in NOTES_ONLY_FIELDS)
    && exists key :: key in args && key != "issue_id"
  }

  method IsNotesOnlyUpdate(args: map<string, Json>) returns (notesOnly: bool)
    ensures notesOnly <==> NotesOnly(args)
  {
    var sawNotesField := false;
    var keys := args.Keys;
    while keys != {}
      invariant keys <= args.Keys
      invariant forall key :: key in args && key !in keys && key != "issue_id" ==> key in NOTES_ONLY_FIELDS
      invariant sawNotesField <==> exists key :: key in args && key !in keys && key != "issue_id"
      decreases |keys|
    {
      var key :| key in keys;
      keys := keys - {key};
      if key != "issue_id" {
        if key !in NOTES_ONLY_FIELDS { return false; }
        sawNotesField := true;
      }
    }
    notesOnly := sawNotesField;
  }

  ghost predicate HasAgileField(args: map<string, Json>) {
    exists f :: f in AGILE_UPDATE_FIELDS && f in args
  }

  predicate Reparents(args: map<string, Json>) {
    || "parent_issue_id" in args
    || ("clear_fields" in args && args["clear_fields"].Arr? && Str("parent_issue_id") in args["clear_fields"].items)
  }

  function UpdateIssueBase(reparents: bool, agile: bool): seq<Scope> {
    if reparents then (if agile then UPDATE_ISSUE_WITH_SUBTASKS_AND_AGILE else UPDATE_ISSUE_WITH_SUBTASKS)
    else (if agile then UPDATE_ISSUE_BASE_WITH_AGILE else UPDATE_ISSUE_BASE)
  }

  ghost function UpdateIssueRequirement(args: Args): Requirement {
    if args.None? then Scopes(UPDATE_ISSUE_BASE)
    else if NotesOnly(args.value) then Scopes(UPDATE_ISSUE_NOTES_ONLY)
    else
      var base := UpdateIssueBase(Reparents(args.value), HasAgileField(args.value));
      if "tag_list" in args.value then ScopesWithAnyOf(base, TAG_LIST_SCOPES) else Scopes(base)
  }

  function CreateIssueRequirement(args: Args): Requirement {
    if args.Some? && "tag_list" in args.value then ScopesWithAnyOf(CREATE_ISSUE_BASE, TAG_LIST_SCOPES)
    else Scopes(CREATE_ISSUE_BASE)
  }

  // First match, as `iter().find` takes it.
  function Find<V>(table: seq<(string, V)>, name: string): Option<V> {
    if table == [] then None else if table[0].0 == name then Some(table[0].1) else Find(table[1..], name)
  }

  function ActionOf(args: Args): Option<string> {
    if args.Some? && "action" in args.value && args.value["action"].Str? then Some(args.value["action"].s) else None
  }

  function RuleRequirement(rule: Option<ScopeRule>, args: Args): Requirement {
    match rule
    case None => Unmapped
    case Some(Fixed(scopes)) => Scopes(scopes)
    case Some(AnyOf(candidates)) => SomeOf(candidates)
    case Some(PerAction(actions)) =>
      var action := ActionOf(args);
      if action.None? then Unchecked
      else
        var scopes := Find(actions, action.value);
        if scopes.None? then Unchecked else Scopes(scopes.value)
  }

  ghost function RequiredForCall(table: Table, tool: string, args: Args): Requirement {
    if tool == UPDATE_ISSUE then UpdateIssueRequirement(args)
    else if tool == CREATE_ISSUE then CreateIssueRequirement(args)
    else RuleRequirement(Find(table, tool), args)
  }

  /* ---------- The decisions ---------- */

  function Missing(required: seq<Scope>, held: set<Scope>): (missing: seq<Scope>)
    ensures missing == [] <==> forall s :: s in required ==> s in held
    ensures forall s :: s in missing <==> s in required && s !in held
  {
    if required == [] then []
    else (if required[0] in held then [] else [required[0]]) + Missing(required[1..], held)
  }

  predicate AnyHeld(candidates: seq<Scope>, held: set<Scope>) {
    exists s :: s in candidates && s in held
  }

  predicate Satisfied(r: Requirement, held: set<Scope>) {
    match r
    case Unchecked => false
    case Scopes(all) => Missing(all, held) == []
    case SomeOf(any) => AnyHeld(any, held)
    case ScopesWithAnyOf(all, any) => Missing(all, held) == [] && AnyHeld(any, held)
    case Unmapped => false
  }

  // `dispatch_tool_call` with enforcement on: the call goes through to the tool.
  ghost predicate Admitted(table: Table, tool: string, args: Args, held: set<Scope>) {
    var r := RequiredForCall(table, tool, args);
    ADMIN_SCOPE in held || r == Unchecked || Satisfied(r, held)
  }

  predicate VisibleByRule(rule: ScopeRule, held: set<Scope>) {
    match rule
    case Fixed(scopes) => forall s :: s in scopes ==> s in held
    case AnyOf(candidates) => AnyHeld(candidates, held)
    case PerAction(actions) => exists a :: a in actions && forall s :: s in a.1 ==> s in held
  }

  // Whether the tool appears in `tools/list`.
  predicate VisibleFor(table: Table, tool: string, held: set<Scope>) {
    if ADMIN_SCOPE in held then true
    else if tool == UPDATE_ISSUE then "edit_issues" in held || "add_issue_notes" in held
    else
      var rule := Find(table, tool);
      rule.Some? && VisibleByRule(rule.value, held)
  }

  function ListTools(table: Table, enforced: bool, tools: seq<string>, held: set<Scope>): seq<string> {
    if !enforced || tools == [] then tools
    else (if VisibleFor(table, tools[0], held) then [tools[0]] else []) + ListTools(table, enforced, tools[1..], held)
  }

  /* ---------- Listing and calling agree ---------- */

  predicate DistinctActions(rule: ScopeRule) {
    rule.PerAction? ==>
      forall i, j :: 0 <= i < j < |rule.actions| ==> rule.actions[i].0 != rule.actions[j].0
  }

  // The actions of each rule have distinct names, and the table agrees with the hand-written issue creation case.
  predicate WellFormed(table: Table) {
    && (forall i :: 0 <= i < |table| ==> DistinctActions(table[i].1))
    && Find(table, CREATE_ISSUE) == Some(Fixed(CREATE_ISSUE_BASE))
  }

  lemma {:induction false} FindFinds<V>(table: seq<(string, V)>, name: string)
    ensures match Find(table, name)
            case Some(v) => exists i :: 0 <= i < |table| && table[i] == (name, v)
            case None => forall i :: 0 <= i < |table| ==> table[i].0 != name
  {
    if table != [] && table[0].0 != name {
      FindFinds(table[1..], name);
      assert forall i :: 0 <= i < |table[1..]| ==> table[1..][i] == table[i + 1];
      assert forall i :: 1 <= i < |table| ==> table[i] == table[1..][i - 1];
    }
  }

  lemma {:induction false} FindDistinct<V>(table: seq<(string, V)>, i: nat)
    requires i < |table|
    requires forall j, k :: 0 <= j < k < |table| ==> table[j].0 != table[k].0
    ensures Find(table, table[i].0) == Some(table[i].1)
  {
    if i > 0 {
      assert table[1..][i - 1] == table[i];
      FindDistinct(table[1..], i - 1);
    }
  }

  // Some call of the tool resolves to a requirement that the token meets.
  ghost predicate Callable(table: Table, tool: string, held: set<Scope>) {
    exists args: Args :: Satisfied(RequiredForCall(table, tool, args), held)
  }

  lemma CallableIsVisible(table: Table, tool: string, args: Args, held: set<Scope>)
    requires WellFormed(table) && Satisfied(RequiredForCall(table, tool, args), held)
    ensures VisibleFor(table, tool, held)
  {
    if tool == UPDATE_ISSUE {
      assert "add_issue_notes" in UPDATE_ISSUE_NOTES_ONLY;
      assert UPDATE_ISSUE_BASE[0] == UPDATE_ISSUE_WITH_SUBTASKS[0] == UPDATE_ISSUE_BASE_WITH_AGILE[0]
             == UPDATE_ISSUE_WITH_SUBTASKS_AND_AGILE[0] == "edit_issues";
    } else if tool != CREATE_ISSUE {
      var rule := Find(table, tool);
      if rule.Some? && rule.value.PerAction? {
        FindFinds(rule.value.actions, ActionOf(args).value);
      }
    }
  }

  lemma VisibleIsCallable(table: Table, tool: string, held: set<Scope>) returns (args: Args)
    requires WellFormed(table) && ADMIN_SCOPE !in held && VisibleFor(table, tool, held)
    ensures Satisfied(RequiredForCall(table, tool, args), held)
  {
    args := None;
    if tool == UPDATE_ISSUE {
      if "edit_issues" !in held {
        var notes := map["notes" := Null];
        assert "notes" in notes && "notes" == NOTES_ONLY_FIELDS[0];
        args := Some(notes);
      }
    } else if tool != CREATE_ISSUE {
      var rule := Find(table, tool).value;
      if rule.PerAction? {
        var i :| 0 <= i < |rule.actions| && forall s :: s in rule.actions[i].1 ==> s in held;
        FindFinds(table, tool);
        FindDistinct(rule.actions, i);
        args := Some(map["action" := Str(rule.actions[i].0)]);
      }
    }
  }

  // For a token without the admin scope, a tool is listed exactly when some call of it resolves to a requirement
  // the token meets.
  lemma ListedIffCallable(table: Table, tool: string, held: set<Scope>)
    requires WellFormed(table) && ADMIN_SCOPE !in held
    ensures VisibleFor(table, tool, held) <==> Callable(table, tool, held)
  {
    if VisibleFor(table, tool, held) {
      var args := VisibleIsCallable(table, tool, held);
    }
    if Callable(table, tool, held) {
      var args: Args :| Satisfied(RequiredForCall(table, tool, args), held);
      CallableIsVisible(table, tool, args, held);
    }
  }

  // A call of a tool that is not listed goes through exactly when nothing is checked for its arguments.
  lemma HiddenAdmitsOnlyUnchecked(table: Table, tool: string, args: Args, held: set<Scope>)
    requires WellFormed(table) && !VisibleFor(table, tool, held)
    ensures Admitted(table, tool, args, held) <==> RequiredForCall(table, tool, args) == Unchecked
  {
    if Satisfied(RequiredForCall(table, tool, args), held) {
      CallableIsVisible(table, tool, args, held);
    }
  }

  // More scopes never lose a tool or a call.
  lemma MoreScopesAdmitMore(table: Table, tool: string, args: Args, held: set<Scope>, more: set<Scope>)
    requires held <= more
    ensures Admitted(table, tool, args, held) ==> Admitted(table, tool, args, more)
    ensures VisibleFor(table, tool, held) ==> VisibleFor(table, tool, more)
  {}

  // The tools shown are the registered ones at the positions `at`, in their order.
  ghost predicate InOrder(tools: seq<string>, shown: seq<string>, at: seq<nat>) {
    && |at| == |shown|
    && (forall m :: 0 <= m < |at| ==> at[m] < |tools| && shown[m] == tools[at[m]])
    && (forall m, n :: 0 <= m < n < |at| ==> at[m] < at[n])
  }

  // Those positions are all where the tool is visible.
  ghost predicate AllVisible(tools: seq<string>, visible: string -> bool, at: seq<nat>) {
    forall i :: 0 <= i < |tools| ==> (i in at <==> visible(tools[i]))
  }

  ghost function Later(at: seq<nat>): (later: seq<nat>)
    ensures |later| == |at| && forall m :: 0 <= m < |at| ==> later[m] == at[m] + 1
  {
    seq(|at|, m requires 0 <= m < |at| => at[m] + 1)
  }

  lemma InLater(at: seq<nat>, i: int)
    ensures i in Later(at) <==> i > 0 && i - 1 in at
  {
    if i > 0 && i - 1 in at {
      var m :| 0 <= m < |at| && at[m] == i - 1;
      assert Later(at)[m] == i;
    }
  }

  lemma InOrderLater(tools: seq<string>, shown: seq<string>, at: seq<nat>)
    requires tools != [] && InOrder(tools[1..], shown, at)
    ensures InOrder(tools, shown, Later(at))
    ensures InOrder(tools, [tools[0]] + shown, [0] + Later(at))
  {}

  lemma AllVisibleLater(tools: seq<string>, visible: string -> bool, at: seq<nat>)
    requires tools != [] && AllVisible(tools[1..], visible, at)
    ensures AllVisible(tools, visible, if visible(tools[0]) then [0] + Later(at) else Later(at))
  {
    forall i | 0 <= i < |tools| ensures i in Later(at) <==> i > 0 && visible(tools[i]) {
      InLater(at, i);
      assert i > 0 ==> (i - 1 in at <==> visible(tools[1..][i - 1]));
    }
    assert forall i :: i in [0] + Later(at) <==> i == 0 || i in Later(at);
  }

  lemma {:induction false} ListIsFiltered(table: Table, tools: seq<string>, held: set<Scope>, visible: string -> bool)
    returns (at: seq<nat>)
    requires forall t :: visible(t) == VisibleFor(table, t, held)
    ensures InOrder(tools, ListTools(table, true, tools, held), at) && AllVisible(tools, visible, at)
  {
    at := [];
    if tools != [] {
      var rest := ListIsFiltered(table, tools[1..], held, visible);
      InOrderLater(tools, ListTools(table, true, tools[1..], held), rest);
      AllVisibleLater(tools, visible, rest);
      at := if visible(tools[0]) then [0] + Later(rest) else Later(rest);
    }
  }

  // The list shown is the registered tools, in order, without those the token cannot use.
  lemma ListShowsCallable(table: Table, tools: seq<string>, held: set<Scope>) returns (at: seq<nat>)
    requires WellFormed(table) && ADMIN_SCOPE !in held
    ensures InOrder(tools, ListTools(table, true, tools, held), at)
    ensures forall i :: 0 <= i < |tools| ==> (i in at <==> Callable(table, tools[i], held))
  {
    var visible := t => VisibleFor(table, t, held);
    at := ListIsFiltered(table, tools, held, visible);
    forall i | 0 <= i < |tools| ensures i in at <==> Callable(table, tools[i], held) {
      ListedIffCallable(table, tools[i], held);
      assert i in at <==> visible(tools[i]);
    }
  }

  predicate ByAction(table: Table, tool: string) {
    && tool != UPDATE_ISSUE && tool != CREATE_ISSUE
    && Find(table, tool).Some? && Find(table, tool).value.PerAction?
  }

  // A hidden tool can still be called, with arguments that name no known action, exactly when its rule is by action.
  lemma HiddenYetAdmittedIff(table: Table, tool: string, held: set<Scope>)
    requires WellFormed(table) && !VisibleFor(table, tool, held)
    ensures (exists args: Args :: Admitted(table, tool, args, held)) <==> ByAction(table, tool)
  {
    HiddenAdmitsOnlyUnchecked(table, tool, None, held);
    forall args: Args | Admitted(table, tool, args, held) ensures RequiredForCall(table, tool, args) == Unchecked {
      HiddenAdmitsOnlyUnchecked(table, tool, args, held);
    }
    if ByAction(table, tool) {
      assert RequiredForCall(table, tool, None) == Unchecked;
    }
  }

  /* ---------- What each call needs, in scopes ---------- */

  // The token has one of the two scopes for setting tags, if the call sets any.
  ghost predicate MaySetTags(args: map<string, Json>, held: set<Scope>) {
    "tag_list" in args ==> "create_issue_tags" in held || "edit_issue_tags" in held
  }

  // The call moves the issue under another parent, or from under one.
  ghost predicate ChangesParent(args: map<string, Json>) {
    || "parent_issue_id" in args
    || ("clear_fields" in args && args["clear_fields"].Arr?
        && exists i :: 0 <= i < |args["clear_fields"].items| && args["clear_fields"].items[i] == Str("parent_issue_id"))
  }

  ghost predicate OnlyNotes(args: map<string, Json>) {
    && (forall key :: key in args ==> key == "issue_id" || key == "notes" || key == "private_notes")
    && ("notes" in args || "private_notes" in args)
  }

  lemma OnlyNotesIsNotesOnly(args: map<string, Json>)
    ensures OnlyNotes(args) <==> NotesOnly(args)
  {
    assert forall key :: key in NOTES_ONLY_FIELDS <==> key == "notes" || key == "private_notes";
    assert |"notes"| == 5 && |"issue_id"| == 8 && |"private_notes"| == 13;
  }

  ghost predicate SetsAgile(args: map<string, Json>) {
    "story_points" in args || "agile_sprint_id" in args || "agile_position" in args
  }

  lemma AgileFields(args: map<string, Json>)
    ensures HasAgileField(args) <==> SetsAgile(args)
  {
    assert AGILE_UPDATE_FIELDS[0] == "story_points" && AGILE_UPDATE_FIELDS[1] == "agile_sprint_id"
           && AGILE_UPDATE_FIELDS[2] == "agile_position";
  }

  lemma ParentFields(args: map<string, Json>)
    ensures Reparents(args) <==> ChangesParent(args)
  {}

  lemma OneHeld(a: Scope, held: set<Scope>)
    ensures Missing([a], held) == [] <==> a in held
  {}

  lemma TwoHeld(a: Scope, b: Scope, held: set<Scope>)
    ensures Missing([a, b], held) == [] <==> a in held && b in held
  {}

  lemma ThreeHeld(a: Scope, b: Scope, c: Scope, held: set<Scope>)
    ensures Missing([a, b, c], held) == [] <==> a in held && b in held && c in held
  {}

  lemma BaseHeld(reparents: bool, agile: bool, held: set<Scope>)
    ensures Missing(UpdateIssueBase(reparents, agile), held) == [] <==>
              && "edit_issues" in held
              && (reparents ==> "manage_subtasks" in held)
              && (agile ==> "view_agile_queries" in held)
  {
    OneHeld("edit_issues", held);
    TwoHeld("edit_issues", "manage_subtasks", held);
    TwoHeld("edit_issues", "view_agile_queries", held);
    ThreeHeld("edit_issues", "manage_subtasks", "view_agile_queries", held);
  }

  lemma TagsHeld(held: set<Scope>)
    ensures AnyHeld(TAG_LIST_SCOPES, held) <==> "create_issue_tags" in held || "edit_issue_tags" in held
  {
    assert TAG_LIST_SCOPES[0] == "create_issue_tags" && TAG_LIST_SCOPES[1] == "edit_issue_tags";
  }

  ghost predicate MayUpdate(args: map<string, Json>, held: set<Scope>) {
    && "edit_issues" in held
    && (ChangesParent(args) ==> "manage_subtasks" in held)
    && (SetsAgile(args) ==> "view_agile_queries" in held)
    && MaySetTags(args, held)
  }

  lemma UpdateSatisfiedIff(args: map<string, Json>, held: set<Scope>)
    ensures Satisfied(UpdateIssueRequirement(Some(args)), held) <==>
              if OnlyNotes(args) then "add_issue_notes" in held else MayUpdate(args, held)
  {
    OnlyNotesIsNotesOnly(args);
    AgileFields(args);
    ParentFields(args);
    OneHeld("add_issue_notes", held);
    BaseHeld(Reparents(args), HasAgileField(args), held);
    TagsHeld(held);
  }

  // Updating an issue without the admin scope: notes alone need the notes scope; anything else needs to edit issues,
  // to manage subtasks if it changes the parent, to see agile data if it sets any, and to set tags if it sets any.
  lemma UpdateAdmittedIff(table: Table, args: map<string, Json>, held: set<Scope>)
    requires "admin" !in held
    ensures Admitted(table, "update_redmine_issue", Some(args), held) <==>
              if OnlyNotes(args) then "add_issue_notes" in held else MayUpdate(args, held)
    ensures Admitted(table, "update_redmine_issue", None, held) <==> "edit_issues" in held
  {
    UpdateSatisfiedIff(args, held);
    OneHeld("edit_issues", held);
  }

  // Creating an issue without the admin scope.
  lemma CreateAdmittedIff(table: Table, args: Args, held: set<Scope>)
    requires "admin" !in held
    ensures Admitted(table, "create_redmine_issue", args, held) <==>
              "add_issues" in held && (args.Some? ==> MaySetTags(args.value, held))
  {
    OneHeld("add_issues", held);
    TagsHeld(held);
  }

  ghost predicate NamesAction(args: Args, action: string) {
    args.Some? && "action" in args.value && args.value["action"] == Str(action)
  }

  // Every other tool without the admin scope, by its first entry in the table. An action that the rule does not name,
  // or that is not given as a string, is not checked.
  lemma CallAdmittedIff(table: Table, tool: string, args: Args, held: set<Scope>, i: nat)
    requires ADMIN_SCOPE !in held && tool != "update_redmine_issue" && tool != "create_redmine_issue"
    requires i < |table| && table[i].0 == tool && forall j :: 0 <= j < i ==> table[j].0 != tool
    requires DistinctActions(table[i].1)
    ensures Admitted(table, tool, args, held) <==>
              match table[i].1
              case Fixed(scopes) => forall s :: s in scopes ==> s in held
              case AnyOf(scopes) => exists s :: s in scopes && s in held
              case PerAction(actions) =>
                forall a :: a in actions && NamesAction(args, a.0) ==> forall s :: s in a.1 ==> s in held
  {
    FindFirst(table, i);
    if table[i].1.PerAction? && ActionOf(args).Some? {
      var actions := table[i].1.actions;
      FindFinds(actions, ActionOf(args).value);
    }
  }

  // A tool without an entry is denied.
  lemma UnmappedIsDenied(table: Table, tool: string, args: Args, held: set<Scope>)
    requires ADMIN_SCOPE !in held && tool != "update_redmine_issue" && tool != "create_redmine_issue"
    requires forall j :: 0 <= j < |table| ==> table[j].0 != tool
    ensures !Admitted(table, tool, args, held) && !VisibleFor(table, tool, held)
  {
    FindFinds(table, tool);
  }

  lemma {:induction false} FindFirst<V>(table: seq<(string, V)>, i: nat)
    requires i < |table| && forall j :: 0 <= j < i ==> table[j].0 != table[i].0
    ensures Find(table, table[i].0) == Some(table[i].1)
  {
    if i > 0 {
      assert table[1..][i - 1] == table[i];
      FindFirst(table[1..], i - 1);
    }
  }

  // With the admin scope, or with enforcement off, everything is shown; and the admin scope admits every call.
  lemma {:induction false} AdminSeesAll(table: Table, tools: seq<string>, tool: string, args: Args, held: set<Scope>)
    ensures ListTools(table, false, tools, held) == tools
    ensures "admin" in held ==> ListTools(table, true, tools, held) == tools
    ensures "admin" in held ==> Admitted(table, tool, args, held)
  {
    if tools != [] { AdminSeesAll(table, tools[1..], tool, args, held); }
  }
}
