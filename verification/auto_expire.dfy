/**
 * The namespaced plugin (src/Extension/EasyBlogAutoExpire.php): the rule loader
 * with its validation, the query of each rule as a filter over the table, the
 * per-row check, the action switch in development and production mode, and the
 * run over all rules that collects one entry per processed post.
 *
 * Each operation is a function that states its meaning; the methods follow the
 * source's loops and are proved to compute those functions.
 */
module AutoExpire {
  import opened Php
  import opened Host
  import opened Store
  import opened Diagnostics

  /** Rule slots read from the parameters. */
  const RuleSlots := 9

  /** The largest accepted number of days. */
  const MaxDays := 3650

  datatype Action = Disable | Archive | Both

  datatype Rule = Rule(enabled: bool, titleSearch: string, days: int, action: Action)

  /** The action switch: anything other than "archive" or "both" means disable. */
  function ParseAction(s: string): (a: Action)
    ensures a == Archive <==> s == "archive"
    ensures a == Both <==> s == "both"
    ensures s != "archive" && s != "both" ==> a == Disable
  {
    if s == "archive" then Archive else if s == "both" then Both else Disable
  }

  /** The validation of a slot: enabled, a title that is not `empty()` before it
      is trimmed, and 1 to 3650 days. */
  predicate SlotValid(slot: RawSlot) {
    EnabledParam(slot) && !IsEmpty(TitleParam(slot)) && 0 < DaysParam(slot) <= MaxDays
  }

  /** The rule a valid slot yields: its title trimmed, its action coerced. */
  function SlotRule(slot: RawSlot): Rule {
    Rule(true, Trim(TitleParam(slot)), DaysParam(slot), ParseAction(ActionParam(slot)))
  }

  /** The rules loaded from slots 1 to `n`, in slot order. */
  function LoadedRules(params: Params, n: nat): (rules: seq<Rule>)
    ensures |rules| <= n
    ensures forall r :: r in rules ==> r.enabled && 0 < r.days <= MaxDays
  {
    LoadedRulesInRange(params, n);
    LoadedSlots(params, n, SlotValid, SlotRule)
  }

  lemma LoadedRulesInRange(params: Params, n: nat)
    ensures forall r :: r in LoadedSlots(params, n, SlotValid, SlotRule) ==> r.enabled && 0 < r.days <= MaxDays
  {
    forall r | r in LoadedSlots(params, n, SlotValid, SlotRule)
      ensures r.enabled && 0 < r.days <= MaxDays
    {
      LoadedFromValidSlots(params, n, SlotValid, SlotRule, r);
    }
  }

  /** `getRules`: one pass over slots 1 to 9, appending the rule of every slot
      that passes validation. */
  method GetRules(params: Params) returns (rules: seq<Rule>)
    ensures rules == LoadedRules(params, RuleSlots)
    ensures |rules| <= RuleSlots
    ensures forall r :: r in rules ==> r.enabled && 0 < r.days <= MaxDays
  {
    rules := [];
    for i := 1 to RuleSlots + 1
      invariant rules == LoadedRules(params, i - 1)
    {
      var slot := Slot(params, i);
      var enabled := EnabledParam(slot);
      var titleSearch := TitleParam(slot);
      var days := DaysParam(slot);
      var action := ActionParam(slot);
      assert LoadedRules(params, i) == rules + (if SlotValid(slot) then [SlotRule(slot)] else []);
      if enabled && !IsEmpty(titleSearch) && days > 0 && days <= MaxDays {
        titleSearch := Trim(titleSearch);
        rules := rules + [Rule(true, titleSearch, days, ParseAction(action))];
      }
    }
  }

  /** A slot whose title is whitespace only is kept, with an empty search term
      (see `EmptyTermSelectsAllOld` for what such a rule selects). */
  lemma WhitespaceTitleIsKept(params: Params, i: nat)
    requires 1 <= i <= RuleSlots
    requires var slot := Slot(params, i);
      EnabledParam(slot) && 0 < DaysParam(slot) <= MaxDays
      && TitleParam(slot) != "" && AllTrimSpace(TitleParam(slot))
    ensures var slot := Slot(params, i);
      exists k :: 0 <= k < |LoadedRules(params, RuleSlots)|
        && LoadedRules(params, RuleSlots)[k] == Rule(true, "", DaysParam(slot), ParseAction(ActionParam(slot)))
  {
    var slot := Slot(params, i);
    var title := TitleParam(slot);
    assert IsTrimSpace(title[0]);
    var slots := KeptSlots(params, RuleSlots, SlotValid);
    assert i in slots;
    var k :| 0 <= k < |slots| && slots[k] == i;
    LoadedFollowsSlots(params, RuleSlots, SlotValid, SlotRule);
    assert LoadedRules(params, RuleSlots)[k].titleSearch == "";
  }

  /** The `LIKE` pattern built for a search term: the term passed through
      `escape($term, true)` between two `%`, quoted, and read back by the
      database as the literal's value. */
  function TitlePattern(term: string): (p: string)
    ensures p == "%" + EscapeLike(term) + "%"
  {
    QuotedValue("%" + EscapeLike(term) + "%")
  }

  /** The `WHERE` clause of a rule's query: published, created on or before the
      cutoff, and, when the term is not `empty()`, a title that is `LIKE` the
      pattern. */
  predicate Selects(rule: Rule, now: int, row: Post) {
    && row.published == 1
    && row.created <= Cutoff(now, rule.days)
    && (IsEmpty(rule.titleSearch) || Like(TitlePattern(rule.titleSearch), row.title))
  }

  /** The rows a rule's query returns, in table order. */
  function Select(rows: seq<Post>, rule: Rule, now: int): seq<Post> {
    Where(rows, row => Selects(rule, now, row))
  }

  /** A rule whose term is `empty()` adds no title filter: it selects every
      published post created on or before its cutoff. */
  lemma EmptyTermSelectsAllOld(rule: Rule, now: int, row: Post)
    requires IsEmpty(rule.titleSearch)
    ensures Selects(rule, now, row) <==> row.published == 1 && row.created <= now - rule.days * SecondsPerDay
  {
  }

  /** The query selects exactly the published posts created on or before the
      cutoff whose title contains the term, or every such post when the term is
      `empty()` ("" or "0"). Every `%`, `_` and backslash of the term stands for
      itself; only NUL, newline, carriage return and Ctrl-Z are matched as the
      letters `0`, `n`, `r` and `Z`. */
  lemma SelectsByContainment(rule: Rule, now: int, row: Post)
    ensures Selects(rule, now, row) <==>
      && row.published == 1
      && row.created <= now - rule.days * SecondsPerDay
      && (IsEmpty(rule.titleSearch) || Contains(row.title, LikeText(rule.titleSearch)))
    ensures NoControlEscapes(rule.titleSearch) ==> LikeText(rule.titleSearch) == rule.titleSearch
  {
    LikeEscapedContains(rule.titleSearch, row.title);
  }

  /** A newline in the term reaches `LIKE` as `\n`, which matches the letter `n`:
      the term "a", newline, "b" selects the title "anb" and not a title that
      holds the term itself. */
  lemma NewlineInTermMatchesLetter()
    ensures var rule := Rule(true, "a\nb", 1, Disable);
      && Selects(rule, SecondsPerDay, Post(1, "anb", 0, 1, 0))
      && !Selects(rule, SecondsPerDay, Post(1, "a\nb", 0, 1, 0))
  {
    var rule := Rule(true, "a\nb", 1, Disable);
    var hit, miss := Post(1, "anb", 0, 1, 0), Post(1, "a\nb", 0, 1, 0);
    assert LikeText("a\nb") == "anb" by {
      var t := LikeText("a\nb");
      assert |t| == 3 && t[0] == 'a' && t[1] == 'n' && t[2] == 'b';
    }
    assert Contains("anb", "anb") by {
      assert IsPrefix("anb", "anb");
    }
    assert !Contains("a\nb", "anb") by {
      NotContainsLonger("anb", "a\nb");
    }
    SelectsByContainment(rule, SecondsPerDay, hit);
    SelectsByContainment(rule, SecondsPerDay, miss);
  }

  /** `validatePost`: a positive id and `published == 1`. */
  predicate ValidatePost(row: Post) {
    row.id > 0 && row.published == 1
  }

  /** The label recorded in development mode. */
  function DevelopmentLabel(a: Action): string {
    match a
    case Disable => "would disable"
    case Archive => "would archive"
    case Both => "would archive and disable"
  }

  /** The label recorded in production, whether or not the writes succeeded. */
  function ProductionLabel(a: Action): string {
    match a
    case Disable => "disabled"
    case Archive => "archived"
    case Both => "archived and disabled"
  }

  function Label(developmentMode: bool, a: Action): string {
    if developmentMode then DevelopmentLabel(a) else ProductionLabel(a)
  }

  /** A label tells both the mode and the action: no two pairs share a label, and
      exactly the development labels start with "would ". */
  lemma LabelIdentifiesModeAndAction(d1: bool, a1: Action, d2: bool, a2: Action)
    ensures Label(d1, a1) == Label(d2, a2) <==> d1 == d2 && a1 == a2
    ensures |Label(d1, a1)| >= 6 && (Label(d1, a1)[..6] == "would " <==> d1)
  {
    var l1, l2 := Label(d1, a1), Label(d2, a2);
    if !(d1 == d2 && a1 == a2) {
      assert |l1| != |l2| || l1[0] != l2[0] || l1[6] != l2[6];
    }
    if !d1 {
      assert l1[0] != 'w';
    }
  }

  /** The writes of an action in production: disable unpublishes with
      `isScheduleProcess`, archive sets the state, both archives and then disables.
      Each write is attempted even when the one before it failed. */
  function Perform(t: Table, action: Action, id: int): Table {
    match action
    case Disable => Attempt(t, UnpublishPost(id, true))
    case Archive => Attempt(t, SetStateArchived(id))
    case Both => Attempt(Attempt(t, SetStateArchived(id)), UnpublishPost(id, true))
  }

  /** What an action does to the rows when its writes succeed: only rows with that
      id change; archive sets the archived state and keeps `published`, disable
      unpublishes and keeps `state`, both does the two. A failed write changes no
      row. */
  lemma PerformEffect(t: Table, action: Action, id: int)
    requires Succeeds(t) && (action == Both ==> |t.log| + 1 !in t.failing)
    ensures var rows := Perform(t, action, id).rows;
      |rows| == |t.rows|
      && (forall k :: 0 <= k < |rows| && t.rows[k].id != id ==> rows[k] == t.rows[k])
      && (forall k :: 0 <= k < |rows| && t.rows[k].id == id ==>
            && rows[k].id == id && rows[k].title == t.rows[k].title && rows[k].created == t.rows[k].created
            && rows[k].state == (if action == Disable then t.rows[k].state else ArchivedState)
            && rows[k].published == (if action == Archive then t.rows[k].published else 0))
  {
  }

  /** A failed write leaves every row as it was; only the attempt is logged. */
  lemma FailedWriteChangesNoRow(t: Table, w: Write)
    requires !Succeeds(t)
    ensures Attempt(t, w).rows == t.rows && Attempt(t, w).log == t.log + [w]
  {
  }

  /** `both` writes the archive state first and unpublishes second. */
  lemma BothArchivesBeforeDisabling(t: Table, id: int)
    ensures Perform(t, Both, id).log == t.log + [SetStateArchived(id), UnpublishPost(id, true)]
  {
  }

  lemma PerformEvolves(t: Table, action: Action, id: int)
    ensures TableEvolves(t, Perform(t, action, id))
  {
    match action
    case Disable => AttemptEvolves(t, UnpublishPost(id, true));
    case Archive => AttemptEvolves(t, SetStateArchived(id));
    case Both =>
      var t1 := Attempt(t, SetStateArchived(id));
      AttemptEvolves(t, SetStateArchived(id));
      AttemptEvolves(t1, UnpublishPost(id, true));
      TableEvolvesTransitive(t, t1, Perform(t, action, id));
  }

  /** An action changes no row with another id, whichever of its writes fail. */
  lemma PerformChangesOnlyId(t: Table, action: Action, id: int)
    ensures OnlyIdChanged(t.rows, Perform(t, action, id).rows, id)
  {
    var t1 := Attempt(t, SetStateArchived(id));
    AttemptChangesOnlyId(t, SetStateArchived(id));
    AttemptChangesOnlyId(t, UnpublishPost(id, true));
    AttemptChangesOnlyId(t1, UnpublishPost(id, true));
    if action == Both {
      OnlyIdChangedTransitive(t.rows, t1.rows, Perform(t, action, id).rows, id);
    }
  }

  /** `disablePost`: unpublish as a scheduled process; an error is caught and
      logged, and the run goes on. */
  method DisablePost(table: PostTable, id: int)
    modifies table
    ensures table.Snapshot() == Attempt(old(table.Snapshot()), UnpublishPost(id, true))
  {
    var ok := table.Unpublish(id, true);
  }

  /** `archivePost`: set state 2 on this id; an error is caught and logged, and
      the run goes on. */
  method ArchivePost(table: PostTable, id: int)
    modifies table
    ensures table.Snapshot() == Attempt(old(table.Snapshot()), SetStateArchived(id))
  {
    var ok := table.SetArchived(id);
  }

  /** The action switch for one post: in development mode only the label is
      produced; in production the action's writes are attempted, any failure
      being caught, and the production label is produced regardless. */
  method ApplyAction(table: PostTable, action: Action, id: int, developmentMode: bool) returns (actionTaken: string)
    modifies table
    ensures actionTaken == Label(developmentMode, action)
    ensures table.Snapshot() == if developmentMode then old(table.Snapshot()) else Perform(old(table.Snapshot()), action, id)
  {
    if developmentMode {
      match action {
        case Disable => actionTaken := "would disable";
        case Archive => actionTaken := "would archive";
        case Both => actionTaken := "would archive and disable";
      }
    } else {
      match action {
        case Disable =>
          DisablePost(table, id);
          actionTaken := "disabled";
        case Archive =>
          ArchivePost(table, id);
          actionTaken := "archived";
        case Both =>
          ArchivePost(table, id);
          DisablePost(table, id);
          actionTaken := "archived and disabled";
      }
    }
  }

  /** The state a run carries: the table and the entries recorded so far. */
  datatype RunState = RunState(table: Table, entries: seq<ProcessedEntry>)

  /** The entry recorded for a row processed under a rule. */
  function EntryFor(row: Post, rule: Rule, ruleNo: nat, developmentMode: bool): ProcessedEntry {
    ProcessedEntry(row.id, row.title, Label(developmentMode, rule.action), ruleNo, rule.titleSearch, rule.days, developmentMode)
  }

  /** One row of a rule's result: skipped unless it validates and loads; otherwise
      acted on (in production) and recorded. */
  function PostStep(st: RunState, rule: Rule, ruleNo: nat, developmentMode: bool, row: Post): RunState {
    if !ValidatePost(row) || !HasPost(st.table.rows, row.id) then st
    else
      RunState(
        if developmentMode then st.table else Perform(st.table, rule.action, row.id),
        st.entries + [EntryFor(row, rule, ruleNo, developmentMode)])
  }

  /** The rows of one rule's result, in order. */
  function RunPosts(st: RunState, rule: Rule, ruleNo: nat, developmentMode: bool, posts: seq<Post>): RunState
    decreases |posts|
  {
    if posts == [] then st
    else RunPosts(PostStep(st, rule, ruleNo, developmentMode, posts[0]), rule, ruleNo, developmentMode, posts[1..])
  }

  /** One rule: skipped when disabled, otherwise its query is run against the
      table as it is now and every row returned is processed. */
  function RuleStep(st: RunState, rule: Rule, ruleNo: nat, developmentMode: bool, now: int): RunState {
    if !rule.enabled then st
    else RunPosts(st, rule, ruleNo, developmentMode, Select(st.table.rows, rule, now))
  }

  /** The rules in order, numbered from `firstNo`. */
  function RunRules(st: RunState, rules: seq<Rule>, firstNo: nat, developmentMode: bool, now: int): RunState
    decreases |rules|
  {
    if rules == [] then st
    else RunRules(RuleStep(st, rules[0], firstNo, developmentMode, now), rules[1..], firstNo + 1, developmentMode, now)
  }

  /** A whole run over a table, with the rules numbered from 1. */
  function Run(t: Table, rules: seq<Rule>, developmentMode: bool, now: int): RunState {
    RunRules(RunState(t, []), rules, 1, developmentMode, now)
  }

  lemma RunRulesStep(st: RunState, rules: seq<Rule>, i: nat, developmentMode: bool, now: int)
    requires i < |rules|
    ensures RunRules(st, rules[i..], i + 1, developmentMode, now)
         == RunRules(RuleStep(st, rules[i], i + 1, developmentMode, now), rules[i + 1..], i + 2, developmentMode, now)
  {
    assert rules[i..][0] == rules[i] && rules[i..][1..] == rules[i + 1..];
  }

  lemma RunPostsStep(st: RunState, rule: Rule, ruleNo: nat, developmentMode: bool, posts: seq<Post>, j: nat)
    requires j < |posts|
    ensures RunPosts(st, rule, ruleNo, developmentMode, posts[j..])
         == RunPosts(PostStep(st, rule, ruleNo, developmentMode, posts[j]), rule, ruleNo, developmentMode, posts[j + 1..])
  {
    assert posts[j..][0] == posts[j] && posts[j..][1..] == posts[j + 1..];
  }

  /** What the query of an enabled rule and `validatePost` together accept of a
      row, with the `LIKE` read as containment: a positive id, published, created
      on or before the cutoff, and a title that contains the term's literal text
      unless the term is `empty()`. */
  predicate Expired(rule: Rule, now: int, row: Post) {
    && rule.enabled
    && row.id > 0 && row.published == 1
    && row.created <= Cutoff(now, rule.days)
    && (IsEmpty(rule.titleSearch) || Contains(row.title, LikeText(rule.titleSearch)))
  }

  /** Some row of `rows` with this id is expired under one of the rules. */
  predicate TargetedId(rows: seq<Post>, rules: seq<Rule>, now: int, id: int) {
    exists j, r :: 0 <= j < |rows| && r in rules && rows[j].id == id && Expired(r, now, rows[j])
  }

  function TargetedIds(rows: seq<Post>, rules: seq<Rule>, now: int): int -> bool {
    id => TargetedId(rows, rules, now, id)
  }

  /** The entry is about a row of `rows`, with its id and title, that is expired
      under the rule the entry names by its 1-based position. */
  predicate EntryTargets(rows: seq<Post>, rules: seq<Rule>, now: int, e: ProcessedEntry) {
    && 1 <= e.rule <= |rules|
    && exists j :: 0 <= j < |rows| && rows[j].id == e.id && rows[j].title == e.title && Expired(rules[e.rule - 1], now, rows[j])
  }

  /** Since table `t0` a run has only unpublished or archived rows, and only rows
      whose id is that of an expired row of `t0`; every entry is about an expired
      row of `t0`. */
  predicate OnlyExpiredTouched(t0: Table, rules: seq<Rule>, now: int, st: RunState) {
    && ChangesWithin(t0.rows, st.table.rows, TargetedIds(t0.rows, rules, now))
    && forall e :: e in st.entries ==> EntryTargets(t0.rows, rules, now, e)
  }

  lemma PostStepTouchesExpired(t0: Table, rules: seq<Rule>, i: nat, rows1: seq<Post>, st: RunState,
                               developmentMode: bool, now: int, p: Post)
    requires i < |rules| && rules[i].enabled
    requires OnlyExpiredTouched(t0, rules, now, st)
    requires RowsEvolve(t0.rows, rows1) && p in rows1 && Selects(rules[i], now, p)
    ensures OnlyExpiredTouched(t0, rules, now, PostStep(st, rules[i], i + 1, developmentMode, p))
  {
    var rule := rules[i];
    if ValidatePost(p) && HasPost(st.table.rows, p.id) {
      var st1 := PostStep(st, rule, i + 1, developmentMode, p);
      var j := PublishedRowWasThere(t0.rows, rows1, p);
      var o := t0.rows[j];
      assert Selects(rule, now, o);
      SelectsByContainment(rule, now, o);
      assert Expired(rule, now, o);
      assert TargetedIds(t0.rows, rules, now)(p.id) by {
        assert rule in rules;
      }
      var e := EntryFor(p, rule, i + 1, developmentMode);
      assert EntryTargets(t0.rows, rules, now, e) by {
        assert rules[e.rule - 1] == rule;
      }
      assert st1.entries == st.entries + [e];
      if !developmentMode {
        PerformEvolves(st.table, rule.action, p.id);
        PerformChangesOnlyId(st.table, rule.action, p.id);
        ChangesWithinStep(t0.rows, st.table.rows, st1.table.rows, p.id, TargetedIds(t0.rows, rules, now));
      }
    }
  }

  lemma {:induction false} RunPostsTouchesExpired(t0: Table, rules: seq<Rule>, i: nat, rows1: seq<Post>, st: RunState,
                                                  developmentMode: bool, now: int, posts: seq<Post>)
    requires i < |rules| && rules[i].enabled
    requires OnlyExpiredTouched(t0, rules, now, st)
    requires RowsEvolve(t0.rows, rows1) && forall p :: p in posts ==> p in rows1 && Selects(rules[i], now, p)
    ensures OnlyExpiredTouched(t0, rules, now, RunPosts(st, rules[i], i + 1, developmentMode, posts))
    decreases |posts|
  {
    if posts != [] {
      PostStepTouchesExpired(t0, rules, i, rows1, st, developmentMode, now, posts[0]);
      assert forall p :: p in posts[1..] ==> p in posts;
      RunPostsTouchesExpired(t0, rules, i, rows1, PostStep(st, rules[i], i + 1, developmentMode, posts[0]),
                             developmentMode, now, posts[1..]);
    }
  }

  lemma {:induction false} RunRulesTouchesExpired(t0: Table, rules: seq<Rule>, i: nat, st: RunState, developmentMode: bool, now: int)
    requires i <= |rules| && OnlyExpiredTouched(t0, rules, now, st)
    ensures OnlyExpiredTouched(t0, rules, now, RunRules(st, rules[i..], i + 1, developmentMode, now))
    decreases |rules| - i
  {
    if i == |rules| {
      assert rules[i..] == [];
    } else {
      RunRulesStep(st, rules, i, developmentMode, now);
      if rules[i].enabled {
        RunPostsTouchesExpired(t0, rules, i, st.table.rows, st, developmentMode, now, Select(st.table.rows, rules[i], now));
      }
      RunRulesTouchesExpired(t0, rules, i + 1, RuleStep(st, rules[i], i + 1, developmentMode, now), developmentMode, now);
    }
  }

  /** A run unpublishes or archives only rows whose id is that of a row of the
      original table that an enabled rule's query selects and `validatePost`
      accepts; and it records only such rows, each under the rule that selected
      it. */
  lemma RunTouchesOnlyExpired(t: Table, rules: seq<Rule>, developmentMode: bool, now: int)
    ensures OnlyExpiredTouched(t, rules, now, Run(t, rules, developmentMode, now))
  {
    ChangesWithinStart(t.rows, TargetedIds(t.rows, rules, now));
    assert rules[0..] == rules;
    RunRulesTouchesExpired(t, rules, 0, RunState(t, []), developmentMode, now);
  }

  /** The body of the loop over rules for one enabled rule: run its query
      against the table as it is now, then process every returned row in order,
      appending an entry and counting it for each row that validates and loads. */
  method ProcessRule(table: PostTable, rule: Rule, ruleNo: nat, developmentMode: bool, now: int,
                     processedPosts: seq<ProcessedEntry>, processedCount: nat)
    returns (processedPosts': seq<ProcessedEntry>, processedCount': nat)
    requires processedCount == |processedPosts|
    modifies table
    ensures RunState(table.Snapshot(), processedPosts')
         == RunPosts(RunState(old(table.Snapshot()), processedPosts), rule, ruleNo, developmentMode,
                     Select(old(table.rows), rule, now))
    ensures processedCount' == |processedPosts'|
  {
    processedPosts', processedCount' := processedPosts, processedCount;
    var posts := Select(table.rows, rule, now);
    ghost var final := RunPosts(RunState(table.Snapshot(), processedPosts), rule, ruleNo, developmentMode, posts);
    assert posts[0..] == posts;
    for j := 0 to |posts|
      invariant RunPosts(RunState(table.Snapshot(), processedPosts'), rule, ruleNo, developmentMode, posts[j..]) == final
      invariant processedCount' == |processedPosts'|
    {
      var postData := posts[j];
      ghost var before := RunState(table.Snapshot(), processedPosts');
      RunPostsStep(before, rule, ruleNo, developmentMode, posts, j);
      if !ValidatePost(postData) || !HasPost(table.rows, postData.id) {
        continue;
      }
      var actionTaken := ApplyAction(table, rule.action, postData.id, developmentMode);
      processedPosts' := processedPosts' + [ProcessedEntry(postData.id, postData.title, actionTaken, ruleNo,
                                                          rule.titleSearch, rule.days, developmentMode)];
      processedCount' := processedCount' + 1;
      assert RunState(table.Snapshot(), processedPosts') == PostStep(before, rule, ruleNo, developmentMode, postData);
    }
    assert posts[|posts|..] == [];
  }

  /** `processExpiredPosts`: load the rules, stop when there are none, run every
      rule's query and process every row it returns, then write the summary when
      at least one post was processed. */
  method ProcessExpiredPosts(table: PostTable, params: Params, now: int, timestamp: string)
    returns (processedPosts: seq<ProcessedEntry>, processedCount: nat, summary: Option<string>)
    modifies table
    ensures var final := Run(old(table.Snapshot()), LoadedRules(params, RuleSlots), DevelopmentMode(params), now);
      table.Snapshot() == final.table && processedPosts == final.entries
    ensures processedCount == |processedPosts|
    ensures summary == if processedCount > 0
      then Some(LogEntry(timestamp, processedPosts, processedCount, DevelopmentMode(params)))
      else None
    ensures OnlyExpiredTouched(old(table.Snapshot()), LoadedRules(params, RuleSlots), now, RunState(table.Snapshot(), processedPosts))
  {
    var rules := GetRules(params);
    var developmentMode := DevelopmentMode(params);
    processedPosts, processedCount, summary := [], 0, None;
    if rules == [] {
      assert OnlyExpiredTouched(old(table.Snapshot()), rules, now, RunState(table.Snapshot(), processedPosts)) by {
        RunTouchesOnlyExpired(old(table.Snapshot()), rules, developmentMode, now);
      }
      return;
    }
    ghost var final := Run(table.Snapshot(), rules, developmentMode, now);
    assert rules[0..] == rules;
    for i := 0 to |rules|
      invariant RunRules(RunState(table.Snapshot(), processedPosts), rules[i..], i + 1, developmentMode, now) == final
      invariant processedCount == |processedPosts|
    {
      var rule := rules[i];
      RunRulesStep(RunState(table.Snapshot(), processedPosts), rules, i, developmentMode, now);
      if !rule.enabled {
        continue;
      }
      processedPosts, processedCount := ProcessRule(table, rule, i + 1, developmentMode, now, processedPosts, processedCount);
    }
    if processedCount > 0 {
      var logEntry := BuildLogEntry(timestamp, processedPosts, processedCount, developmentMode);
      summary := Some(logEntry);
    }
    assert OnlyExpiredTouched(old(table.Snapshot()), rules, now, RunState(table.Snapshot(), processedPosts)) by {
      RunTouchesOnlyExpired(old(table.Snapshot()), rules, developmentMode, now);
    }
  }

  /** `onAfterRoute`: process the posts only on a cron request to the site with
      EasyBlog ready; otherwise leave everything as it is. */
  method OnAfterRoute(table: PostTable, params: Params, easyBlogReady: bool, task: string, cron: bool, isSite: bool,
                      now: int, timestamp: string)
    returns (ran: bool, summary: Option<string>)
    modifies table
    ensures ran == CronRun(easyBlogReady, task, cron, isSite)
    ensures !ran ==> table.Snapshot() == old(table.Snapshot()) && summary == None
    ensures ran ==>
      var final := Run(old(table.Snapshot()), LoadedRules(params, RuleSlots), DevelopmentMode(params), now);
      && table.Snapshot() == final.table
      && summary == if |final.entries| > 0
        then Some(LogEntry(timestamp, final.entries, |final.entries|, DevelopmentMode(params)))
        else None
  {
    ran := easyBlogReady && (task == "cron" || cron) && isSite;
    summary := None;
    if ran {
      var processedPosts, processedCount;
      processedPosts, processedCount, summary := ProcessExpiredPosts(table, params, now, timestamp);
    }
  }
}
