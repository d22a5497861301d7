// The server's own scope table, in its order, and the rules of `Scopes` for it.
module ScopeTable {
  import opened Prelude
  import opened Scopes

  const DISCOVERY_TOOLS: Table := [
    ("get_current_user", Fixed([])),
    ("get_mcp_server_info", Fixed([])),
    ("list_redmine_projects", Fixed(["view_project"])),
    ("list_redmine_trackers", Fixed([])),
    ("list_project_trackers", Fixed(["view_project"])),
    ("list_redmine_issue_statuses", Fixed([])),
    ("list_redmine_issue_priorities", Fixed([])),
    ("list_redmine_users", Fixed([])),
    ("list_redmine_queries", Fixed(["view_issues"])),
    ("list_project_issue_custom_fields", Fixed([])),
    ("summarize_project_status", Fixed(["view_project", "view_issues"])),
    ("list_redmine_versions", Fixed(["view_issues"])),
    ("manage_redmine_version", Fixed(["manage_versions"])),
    ("list_project_members", Fixed(["view_members"])),
    ("list_redmine_roles", Fixed([])),
    ("get_project_modules", Fixed(["view_project"])),
    ("manage_project_member", Fixed(["manage_members"])),
    ("get_redmine_issue", Fixed(["view_issues"])),
    ("list_redmine_issues", Fixed(["view_issues"])),
    ("search_redmine_issues", Fixed(["search_project", "view_issues"])),
    ("list_subtasks", Fixed(["view_issues"])),
    ("get_private_notes", Fixed(["view_issues", "view_private_notes"])),
    ("list_time_entries", Fixed(["view_time_entries"]))
  ]

  const TIME_TOOLS: Table := [
    ("manage_time_entry", PerAction([("create", ["log_time"]), ("update", ["edit_time_entries"])])),
    ("list_time_entry_activities", Fixed([])),
    ("import_time_entries", Fixed(["log_time"]))
  ]

  const ISSUE_TOOLS: Table := [
    ("create_redmine_issue", Fixed(["add_issues"])),
    ("update_redmine_issue", Fixed(["edit_issues"])),
    ("delete_redmine_issue", Fixed(["delete_issues"])),
    ("copy_issue", Fixed(["view_issues", "add_issues"]))
  ]

  const MANAGEMENT_TOOLS: Table := [
    ("manage_issue_relation", PerAction([
      ("list", ["view_issues"]),
      ("create", ["manage_issue_relations"]),
      ("delete", ["manage_issue_relations"])
    ])),
    ("manage_issue_watcher", PerAction([
      ("add", ["add_issue_watchers"]),
      ("remove", ["delete_issue_watchers"])
    ])),
    ("manage_issue_note", PerAction([("edit", ["edit_issue_notes"]), ("set_private", ["set_notes_private"])])),
    ("manage_issue_category", PerAction([
      ("list", ["view_issues"]),
      ("create", ["manage_categories"]),
      ("update", ["manage_categories"]),
      ("delete", ["manage_categories"])
    ])),
    ("search_entire_redmine", Fixed(["search_project"])),
    ("manage_redmine_wiki_page", PerAction([
      ("list", ["view_wiki_pages"]),
      ("get", ["view_wiki_pages"]),
      ("create", ["edit_wiki_pages"]),
      ("update", ["edit_wiki_pages"]),
      ("delete", ["delete_wiki_pages"]),
      ("rename", ["rename_wiki_pages"])
    ]))
  ]

  const FILE_AND_PLUGIN_TOOLS: Table := [
    ("get_gantt_chart", Fixed(["view_issues"])),
    ("get_redmine_attachment", Fixed(["view_files"])),
    ("list_files", Fixed(["view_files"])),
    ("delete_file", Fixed(["manage_files"])),
    ("upload_file", Fixed(["manage_files"])),
    ("cleanup_attachment_files", Fixed([])),
    ("get_checklist", Fixed([])),
    ("create_checklist_item", Fixed([])),
    ("update_checklist_item", Fixed([])),
    ("manage_product", Fixed([])),
    ("manage_contact", Fixed([]))
  ]

  const DOCUMENT_TOOLS: Table := [
    ("manage_document", PerAction([
      ("list", ["view_documents"]),
      ("get", ["view_documents"]),
      ("create", ["add_documents"]),
      ("update", ["edit_documents"])
    ]))
  ]

  const TOOL_SCOPES: Table :=
    DISCOVERY_TOOLS + TIME_TOOLS + ISSUE_TOOLS + MANAGEMENT_TOOLS + FILE_AND_PLUGIN_TOOLS + DOCUMENT_TOOLS

  predicate Clean(table: Table) {
    forall i :: 0 <= i < |table| ==> DistinctActions(table[i].1)
  }

  predicate Omits(table: Table, name: string) {
    forall i :: 0 <= i < |table| ==> table[i].0 != name
  }

  lemma {:induction false} FindAppend<V>(a: seq<(string, V)>, b: seq<(string, V)>, name: string)
    ensures Find(a + b, name) == if Find(a, name).Some? then Find(a, name) else Find(b, name)
  {
    if a == [] {
      assert a + b == b;
    } else {
      assert (a + b)[1..] == a[1..] + b;
      FindAppend(a[1..], b, name);
    }
  }

  lemma CleanAppend(a: Table, b: Table)
    requires Clean(a) && Clean(b)
    ensures Clean(a + b)
  {}

  lemma DiscoveryTools()
    ensures Clean(DISCOVERY_TOOLS) && Omits(DISCOVERY_TOOLS, CREATE_ISSUE)
  {}

  lemma TimeTools()
    ensures Clean(TIME_TOOLS) && Omits(TIME_TOOLS, CREATE_ISSUE)
  {}

  lemma IssueTools()
    ensures Clean(ISSUE_TOOLS) && Find(ISSUE_TOOLS, CREATE_ISSUE) == Some(Fixed(CREATE_ISSUE_BASE))
  {}

  lemma ManagementTools()
    ensures Clean(MANAGEMENT_TOOLS)
  {}

  lemma PluginTools()
    ensures Clean(FILE_AND_PLUGIN_TOOLS) && Clean(DOCUMENT_TOOLS)
  {}

  // Six tables in a row, of which the third is the first to mention issue creation.
  lemma InARow(a: Table, b: Table, c: Table, d: Table, e: Table, f: Table)
    requires Clean(a) && Clean(b) && Clean(c) && Clean(d) && Clean(e) && Clean(f)
    requires Omits(a, CREATE_ISSUE) && Omits(b, CREATE_ISSUE)
    requires Find(c, CREATE_ISSUE) == Some(Fixed(CREATE_ISSUE_BASE))
    ensures WellFormed(a + b + c + d + e + f)
  {
    CleanAppend(a, b);
    CleanAppend(a + b, c);
    CleanAppend(a + b + c, d);
    CleanAppend(a + b + c + d, e);
    CleanAppend(a + b + c + d + e, f);
    FindFinds(a, CREATE_ISSUE);
    FindFinds(b, CREATE_ISSUE);
    FindAppend(a, b, CREATE_ISSUE);
    FindAppend(a + b, c, CREATE_ISSUE);
    FindAppend(a + b + c, d, CREATE_ISSUE);
    FindAppend(a + b + c + d, e, CREATE_ISSUE);
    FindAppend(a + b + c + d + e, f, CREATE_ISSUE);
  }

  // So listing and calling agree for the table the server ships.
  lemma TableIsWellFormed()
    ensures WellFormed(TOOL_SCOPES)
  {
    DiscoveryTools();
    TimeTools();
    IssueTools();
    ManagementTools();
    PluginTools();
    InARow(DISCOVERY_TOOLS, TIME_TOOLS, ISSUE_TOOLS, MANAGEMENT_TOOLS, FILE_AND_PLUGIN_TOOLS, DOCUMENT_TOOLS);
  }

  lemma ServerListsExactlyCallableTools(tool: string, held: set<Scope>)
    requires ADMIN_SCOPE !in held
    ensures VisibleFor(TOOL_SCOPES, tool, held) <==> Callable(TOOL_SCOPES, tool, held)
  {
    TableIsWellFormed();
    ListedIffCallable(TOOL_SCOPES, tool, held);
  }

  const TIME_ENTRY_ACTIONS := [("create", ["log_time"]), ("update", ["edit_time_entries"])]

  lemma TimeEntryRule()
    ensures Omits(DISCOVERY_TOOLS, "manage_time_entry")
    ensures Find(TIME_TOOLS, "manage_time_entry") == Some(PerAction(TIME_ENTRY_ACTIONS))
  {}

  lemma FoundIn(a: Table, b: Table, c: Table, d: Table, e: Table, f: Table, tool: string)
    ensures Omits(a, tool) && Find(b, tool).Some? ==> Find(a + b + c + d + e + f, tool) == Find(b, tool)
  {
    FindFinds(a, tool);
    FindAppend(a, b, tool);
    FindAppend(a + b, c, tool);
    FindAppend(a + b + c, d, tool);
    FindAppend(a + b + c + d, e, tool);
    FindAppend(a + b + c + d + e, f, tool);
  }

  lemma NoActionNoScopes(table: Table, tool: string, actions: seq<(string, seq<Scope>)>)
    requires tool != UPDATE_ISSUE && tool != CREATE_ISSUE && Find(table, tool) == Some(PerAction(actions))
    requires forall a :: a in actions ==> a.1 != []
    ensures !VisibleFor(table, tool, {}) && Admitted(table, tool, None, {})
  {
    forall a | a in actions ensures exists s :: s in a.1 { assert a.1[0] in a.1; }
  }

  // For the shipped table: a token without scopes is not shown `manage_time_entry`, yet may call it without an action.
  lemma HiddenTimeEntryAdmitsNoAction()
    ensures !VisibleFor(TOOL_SCOPES, "manage_time_entry", {})
    ensures Admitted(TOOL_SCOPES, "manage_time_entry", None, {})
  {
    TimeEntryRule();
    FoundIn(DISCOVERY_TOOLS, TIME_TOOLS, ISSUE_TOOLS, MANAGEMENT_TOOLS, FILE_AND_PLUGIN_TOOLS, DOCUMENT_TOOLS,
            "manage_time_entry");
    NoActionNoScopes(TOOL_SCOPES, "manage_time_entry", TIME_ENTRY_ACTIONS);
  }
}
