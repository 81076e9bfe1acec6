/**
 * The legacy plugin (easyblogautoexpire.php): ten rule slots kept when enabled
 * with a non-empty title, no day range check, no trimming, the search term put
 * into `LIKE` without escaping, no development mode and no per-post check beyond
 * loading the post. Nothing catches an error: the first write that raises ends
 * the whole run, leaving the writes before it in place.
 */
module Legacy {
  import opened Php
  import opened Host
  import opened Store

  /** Rule slots read from the parameters. */
  const RuleSlots := 10

  /** A loaded rule; the action is kept as the stored string. */
  datatype Rule = Rule(enabled: bool, titleSearch: string, days: int, action: string)

  /** A slot is kept when enabled and its title is not `empty()`. */
  predicate SlotValid(slot: RawSlot) {
    EnabledParam(slot) && !IsEmpty(TitleParam(slot))
  }

  /** The rule a kept slot yields: title and action as stored, days as stored. */
  function SlotRule(slot: RawSlot): Rule {
    Rule(true, TitleParam(slot), DaysParam(slot), ActionParam(slot))
  }

  /** The rules loaded from slots 1 to `n`, in slot order. */
  function LoadedRules(params: Params, n: nat): (rules: seq<Rule>)
    ensures |rules| <= n
    ensures forall r :: r in rules ==> r.enabled && !IsEmpty(r.titleSearch)
  {
    LoadedRulesHaveTerms(params, n);
    LoadedSlots(params, n, SlotValid, SlotRule)
  }

  lemma LoadedRulesHaveTerms(params: Params, n: nat)
    ensures forall r :: r in LoadedSlots(params, n, SlotValid, SlotRule) ==> r.enabled && !IsEmpty(r.titleSearch)
  {
    forall r | r in LoadedSlots(params, n, SlotValid, SlotRule)
      ensures r.enabled && !IsEmpty(r.titleSearch)
    {
      LoadedFromValidSlots(params, n, SlotValid, SlotRule, r);
    }
  }

  /** `getRules`: one pass over slots 1 to 10. */
  method GetRules(params: Params) returns (rules: seq<Rule>)
    ensures rules == LoadedRules(params, RuleSlots)
    ensures |rules| <= RuleSlots
    ensures forall r :: r in rules ==> r.enabled && !IsEmpty(r.titleSearch)
  {
    rules := [];
    for i := 1 to RuleSlots + 1
      invariant rules == LoadedRules(params, i - 1)
    {
      var slot := Slot(params, i);
      var enabled := EnabledParam(slot);
      var titleSearch := TitleParam(slot);
      var days := DaysParam(slot);
      var action := ActionParam(slot);
      if enabled && !IsEmpty(titleSearch) {
        rules := rules + [Rule(true, titleSearch, days, action)];
      }
    }
  }

  /** The `LIKE` pattern: the term between two `%`, quoted and read back by the
      database, so that its own `%` and `_` stay wildcards and a backslash in it
      escapes the next character. */
  function TitlePattern(term: string): (p: string)
    ensures p == "%" + term + "%"
  {
    QuotedValue("%" + term + "%")
  }

  /** The `WHERE` clause of a rule's query. */
  predicate Selects(rule: Rule, now: int, row: Post) {
    && row.published == 1
    && row.created <= Cutoff(now, rule.days)
    && (IsEmpty(rule.titleSearch) || Like(TitlePattern(rule.titleSearch), row.title))
  }

  /** A slot whose stored action is "" loads with the action "disable", since
      `Registry::get` returns the default for an empty stored value; the switch
      then unpublishes rather than skipping the post. */
  lemma EmptyStoredActionDisables(slot: RawSlot)
    requires slot.action == Some("")
    ensures SlotRule(slot).action == "disable"
  {
  }

  /** The rows a rule's query returns, in table order. */
  function Select(rows: seq<Post>, rule: Rule, now: int): seq<Post> {
    Where(rows, row => Selects(rule, now, row))
  }

  /** Every published post old enough whose title contains a backslash-free term
      is selected. */
  lemma SelectsContaining(rule: Rule, now: int, row: Post)
    requires '\\' !in rule.titleSearch
    requires row.published == 1 && row.created <= now - rule.days * SecondsPerDay
    requires Contains(row.title, rule.titleSearch)
    ensures Selects(rule, now, row)
  {
    LikeRawContains(rule.titleSearch, row.title);
  }

  /** The converse fails: the `_` of an unescaped term matches any character, so
      the term "a_c" selects the title "abc". */
  lemma UnescapedWildcardsSelectMore()
    ensures var rule := Rule(true, "a_c", 1, "disable");
      var row := Post(1, "abc", 0, 1, 0);
      Selects(rule, SecondsPerDay, row) && !Contains(row.title, rule.titleSearch)
  {
    assert Like("%", "") by {
      assert Like("", "");
    }
    assert Like("c%", "c") by {
      assert "c%"[1..] == "%";
    }
    assert Like("_c%", "bc") by {
      assert "_c%"[1..] == "c%";
      assert "bc"[1..] == "c";
    }
    assert Like("a_c%", "abc") by {
      assert "a_c%"[1..] == "_c%";
      assert "abc"[1..] == "bc";
    }
    assert Like("%a_c%", "abc") by {
      assert "%a_c%"[1..] == "a_c%";
    }
    assert !Contains("abc", "a_c") by {
      assert !Contains("bc", "a_c") by {
        assert !Contains("c", "a_c") by {
          assert !Contains("", "a_c");
        }
      }
    }
  }

  /** The writes of one action and whether one of them raised. */
  datatype Effect = Effect(table: Table, raised: bool)

  /** The action switch: "disable" unpublishes, "archive" sets the state, "both"
      archives and, only if that did not raise, disables; any other string does
      nothing. */
  function Perform(t: Table, action: string, id: int): Effect {
    if action == "disable" then Effect(Attempt(t, UnpublishPost(id, true)), !Succeeds(t))
    else if action == "archive" then Effect(Attempt(t, SetStateArchived(id)), !Succeeds(t))
    else if action == "both" then
      var t1 := Attempt(t, SetStateArchived(id));
      if !Succeeds(t) then Effect(t1, true)
      else Effect(Attempt(t1, UnpublishPost(id, true)), !Succeeds(t1))
    else Effect(t, false)
  }

  /** What an action writes: "disable" unpublishes, "archive" archives, "both"
      archives and then unpublishes unless the archive raised, and any other
      string writes nothing. */
  lemma PerformWrites(t: Table, action: string, id: int)
    ensures var e := Perform(t, action, id);
      e.table.log == t.log + (
        if action == "disable" then [UnpublishPost(id, true)]
        else if action == "archive" then [SetStateArchived(id)]
        else if action == "both" then
          (if Succeeds(t) then [SetStateArchived(id), UnpublishPost(id, true)] else [SetStateArchived(id)])
        else [])
    ensures action !in {"disable", "archive", "both"} ==> Perform(t, action, id) == Effect(t, false)
  {
  }

  /** An action stops at its first failing write: the writes it adds succeed
      except possibly the last, and it raised exactly when that last one failed. */
  predicate StopsAtFirstFailure(t: Table, t': Table, raised: bool) {
    var n := |t'.log|;
    && TableEvolves(t, t')
    && (forall k :: |t.log| <= k < n && k in t.failing ==> k == n - 1)
    && (raised <==> n > |t.log| && n - 1 in t.failing)
  }

  lemma StopsAtFirstFailureReflexive(t: Table)
    ensures StopsAtFirstFailure(t, t, false)
  {
    assert t.log[..|t.log|] == t.log;
  }

  lemma AttemptStops(t: Table, w: Write)
    requires w.UnpublishPost? ==> w.isScheduleProcess
    ensures StopsAtFirstFailure(t, Attempt(t, w), !Succeeds(t))
  {
    AttemptEvolves(t, w);
  }

  /** Running on after a step that did not raise. */
  lemma StopsAtFirstFailureTransitive(t: Table, t1: Table, t2: Table, raised: bool)
    requires StopsAtFirstFailure(t, t1, false) && StopsAtFirstFailure(t1, t2, raised)
    ensures StopsAtFirstFailure(t, t2, raised)
  {
    TableEvolvesTransitive(t, t1, t2);
    forall k | |t.log| <= k < |t1.log|
      ensures k !in t.failing
    {
    }
  }

  lemma PerformStops(t: Table, action: string, id: int)
    ensures var e := Perform(t, action, id); StopsAtFirstFailure(t, e.table, e.raised)
  {
    if action == "disable" {
      AttemptStops(t, UnpublishPost(id, true));
    } else if action == "archive" {
      AttemptStops(t, SetStateArchived(id));
    } else if action == "both" {
      var t1 := Attempt(t, SetStateArchived(id));
      AttemptStops(t, SetStateArchived(id));
      if Succeeds(t) {
        AttemptStops(t1, UnpublishPost(id, true));
        StopsAtFirstFailureTransitive(t, t1, Attempt(t1, UnpublishPost(id, true)), !Succeeds(t1));
      }
    } else {
      StopsAtFirstFailureReflexive(t);
    }
  }

  /** The state a run carries: the table, the count, and whether an error has
      ended the run. */
  datatype RunState = RunState(table: Table, count: nat, aborted: bool)

  /** One row of a rule's result: skipped when the post does not load; otherwise
      the action is performed and, unless it raised, the post is counted. */
  function PostStep(st: RunState, rule: Rule, row: Post): RunState {
    if !HasPost(st.table.rows, row.id) then st
    else
      var e := Perform(st.table, rule.action, row.id);
      RunState(e.table, if e.raised then st.count else st.count + 1, e.raised)
  }

  /** The rows of one rule's result, in order, until an error. */
  function RunPosts(st: RunState, rule: Rule, posts: seq<Post>): RunState
    decreases |posts|
  {
    if posts == [] || st.aborted then st
    else RunPosts(PostStep(st, rule, posts[0]), rule, posts[1..])
  }

  /** One rule: its query is run against the table as it is now. */
  function RuleStep(st: RunState, rule: Rule, now: int): RunState {
    if !rule.enabled then st
    else RunPosts(st, rule, Select(st.table.rows, rule, now))
  }

  /** The rules in order, until an error. */
  function RunRules(st: RunState, rules: seq<Rule>, now: int): RunState
    decreases |rules|
  {
    if rules == [] || st.aborted then st
    else RunRules(RuleStep(st, rules[0], now), rules[1..], now)
  }

  /** A whole run over a table, from a count of 0. */
  function Run(t: Table, rules: seq<Rule>, now: int): RunState {
    RunRules(RunState(t, 0, false), rules, now)
  }

  /** How `processExpiredPosts` ends: normally, with the count and the info
      message when the count is positive, or by throwing. */
  datatype Outcome = Completed(count: nat, info: Option<string>) | Threw

  /** The message passed to `EB::info`. */
  function InfoMessage(count: nat): (m: string)
    ensures |m| >= |InfoPrefix| + 7 && m[..|InfoPrefix|] == InfoPrefix && m[|m| - 7..] == " posts."
    ensures var digits := m[|InfoPrefix|..|m| - 7]; IsDigits(digits) && ParseNat(digits) == count
  {
    var digits := NatToString(count);
    ParseNatToString(count);
    var m := InfoPrefix + digits + " posts.";
    assert m[..|InfoPrefix|] == InfoPrefix && m[|InfoPrefix|..|m| - 7] == digits;
    m
  }

  const InfoPrefix := "EasyBlog Auto Expire processed "

  function Result(st: RunState): Outcome {
    if st.aborted then Threw
    else Completed(st.count, if st.count > 0 then Some(InfoMessage(st.count)) else None)
  }

  /** A post that loads is counted whatever its action string, even one the switch
      does not know, which changes nothing. */
  lemma UnknownActionIsCounted(st: RunState, rule: Rule, row: Post)
    requires HasPost(st.table.rows, row.id)
    requires rule.action !in {"disable", "archive", "both"}
    ensures PostStep(st, rule, row) == RunState(st.table, st.count + 1, false)
  {
  }

  lemma {:induction false} RunPostsStops(st: RunState, rule: Rule, posts: seq<Post>)
    requires !st.aborted
    ensures var r := RunPosts(st, rule, posts); StopsAtFirstFailure(st.table, r.table, r.aborted)
    decreases |posts|
  {
    if posts == [] {
      StopsAtFirstFailureReflexive(st.table);
    } else {
      var st1 := PostStep(st, rule, posts[0]);
      if HasPost(st.table.rows, posts[0].id) {
        PerformStops(st.table, rule.action, posts[0].id);
      } else {
        StopsAtFirstFailureReflexive(st.table);
      }
      if !st1.aborted {
        RunPostsStops(st1, rule, posts[1..]);
        var r := RunPosts(st1, rule, posts[1..]);
        StopsAtFirstFailureTransitive(st.table, st1.table, r.table, r.aborted);
      }
    }
  }

  /** A run stops at its first failing write: every write it attempts succeeds
      except possibly the last, it ends by throwing exactly when that last write
      failed, rows only become unpublished or archived, and every unpublish is
      flagged `isScheduleProcess`. */
  lemma {:induction false} RunRulesStops(st: RunState, rules: seq<Rule>, now: int)
    requires !st.aborted
    ensures var r := RunRules(st, rules, now); StopsAtFirstFailure(st.table, r.table, r.aborted)
    decreases |rules|
  {
    if rules == [] {
      StopsAtFirstFailureReflexive(st.table);
    } else {
      var st1 := RuleStep(st, rules[0], now);
      if rules[0].enabled {
        RunPostsStops(st, rules[0], Select(st.table.rows, rules[0], now));
      } else {
        StopsAtFirstFailureReflexive(st.table);
      }
      if !st1.aborted {
        RunRulesStops(st1, rules[1..], now);
        var r := RunRules(st1, rules[1..], now);
        StopsAtFirstFailureTransitive(st.table, st1.table, r.table, r.aborted);
      }
    }
  }

  /** With no failing write ahead, a run completes. */
  lemma NoFailureCompletes(t: Table, rules: seq<Rule>, now: int)
    requires forall k :: k in t.failing ==> k < |t.log|
    ensures Result(Run(t, rules, now)).Completed?
  {
    RunRulesStops(RunState(t, 0, false), rules, now);
  }

  /** The number of rows of a result whose post loads. */
  function Loaded(rows: seq<Post>, posts: seq<Post>): nat
    decreases |posts|
  {
    if posts == [] then 0
    else (if HasPost(rows, posts[0].id) then 1 else 0) + Loaded(rows, posts[1..])
  }

  lemma {:induction false} LoadedEvolves(rows: seq<Post>, rows': seq<Post>, posts: seq<Post>)
    requires RowsEvolve(rows, rows')
    ensures Loaded(rows, posts) == Loaded(rows', posts)
    decreases |posts|
  {
    if posts != [] {
      HasPostEvolves(rows, rows', posts[0].id);
      LoadedEvolves(rows, rows', posts[1..]);
    }
  }

  /** When no error ends a rule, it counts every row of its result whose post
      loads, whatever the action. */
  lemma {:induction false} CountsEveryLoadedPost(st: RunState, rule: Rule, posts: seq<Post>)
    requires !st.aborted
    ensures var r := RunPosts(st, rule, posts);
      !r.aborted ==> r.count == st.count + Loaded(st.table.rows, posts)
    decreases |posts|
  {
    if posts != [] {
      var st1 := PostStep(st, rule, posts[0]);
      if HasPost(st.table.rows, posts[0].id) {
        PerformStops(st.table, rule.action, posts[0].id);
      } else {
        StopsAtFirstFailureReflexive(st.table);
      }
      if !st1.aborted {
        LoadedEvolves(st.table.rows, st1.table.rows, posts[1..]);
        CountsEveryLoadedPost(st1, rule, posts[1..]);
      }
    }
  }

  /** An action changes no row with another id, whichever of its writes fail. */
  lemma PerformChangesOnlyId(t: Table, action: string, id: int)
    ensures OnlyIdChanged(t.rows, Perform(t, action, id).table.rows, id)
  {
    var t1 := Attempt(t, SetStateArchived(id));
    AttemptChangesOnlyId(t, SetStateArchived(id));
    AttemptChangesOnlyId(t, UnpublishPost(id, true));
    AttemptChangesOnlyId(t1, UnpublishPost(id, true));
    if action == "both" && Succeeds(t) {
      OnlyIdChangedTransitive(t.rows, t1.rows, Perform(t, action, id).table.rows, id);
    }
  }

  /** Some row of `rows` with this id is one that an enabled rule's query
      selects. */
  predicate TargetedId(rows: seq<Post>, rules: seq<Rule>, now: int, id: int) {
    exists j, r :: 0 <= j < |rows| && r in rules && r.enabled && rows[j].id == id && Selects(r, now, rows[j])
  }

  function TargetedIds(rows: seq<Post>, rules: seq<Rule>, now: int): int -> bool {
    id => TargetedId(rows, rules, now, id)
  }

  lemma PostStepTouchesSelected(t0: Table, rules: seq<Rule>, rule: Rule, rows1: seq<Post>, st: RunState, now: int, p: Post)
    requires rule in rules && rule.enabled
    requires ChangesWithin(t0.rows, st.table.rows, TargetedIds(t0.rows, rules, now))
    requires RowsEvolve(t0.rows, rows1) && p in rows1 && Selects(rule, now, p)
    ensures ChangesWithin(t0.rows, PostStep(st, rule, p).table.rows, TargetedIds(t0.rows, rules, now))
  {
    if HasPost(st.table.rows, p.id) {
      var j := PublishedRowWasThere(t0.rows, rows1, p);
      assert Selects(rule, now, t0.rows[j]);
      assert TargetedIds(t0.rows, rules, now)(p.id);
      PerformStops(st.table, rule.action, p.id);
      PerformChangesOnlyId(st.table, rule.action, p.id);
      ChangesWithinStep(t0.rows, st.table.rows, PostStep(st, rule, p).table.rows, p.id, TargetedIds(t0.rows, rules, now));
    }
  }

  lemma {:induction false} RunPostsTouchesSelected(t0: Table, rules: seq<Rule>, rule: Rule, rows1: seq<Post>, st: RunState,
                                                   now: int, posts: seq<Post>)
    requires rule in rules && rule.enabled
    requires ChangesWithin(t0.rows, st.table.rows, TargetedIds(t0.rows, rules, now))
    requires RowsEvolve(t0.rows, rows1) && forall p :: p in posts ==> p in rows1 && Selects(rule, now, p)
    ensures ChangesWithin(t0.rows, RunPosts(st, rule, posts).table.rows, TargetedIds(t0.rows, rules, now))
    decreases |posts|
  {
    if posts != [] && !st.aborted {
      PostStepTouchesSelected(t0, rules, rule, rows1, st, now, posts[0]);
      assert forall p :: p in posts[1..] ==> p in posts;
      RunPostsTouchesSelected(t0, rules, rule, rows1, PostStep(st, rule, posts[0]), now, posts[1..]);
    }
  }

  lemma {:induction false} RunRulesTouchesSelected(t0: Table, rules: seq<Rule>, rest: seq<Rule>, st: RunState, now: int)
    requires forall r :: r in rest ==> r in rules
    requires ChangesWithin(t0.rows, st.table.rows, TargetedIds(t0.rows, rules, now))
    ensures ChangesWithin(t0.rows, RunRules(st, rest, now).table.rows, TargetedIds(t0.rows, rules, now))
    decreases |rest|
  {
    if rest != [] && !st.aborted {
      if rest[0].enabled {
        assert rest[0] in rest;
        RunPostsTouchesSelected(t0, rules, rest[0], st.table.rows, st, now, Select(st.table.rows, rest[0], now));
      }
      assert forall r :: r in rest[1..] ==> r in rest;
      RunRulesTouchesSelected(t0, rules, rest[1..], RuleStep(st, rest[0], now), now);
    }
  }

  /** A run, however it ends, unpublishes or archives only rows whose id is that
      of a row of the original table that an enabled rule's query selects:
      published, created on or before the cutoff, and with a title the rule's
      unescaped `LIKE` pattern matches. */
  lemma RunTouchesOnlySelected(t: Table, rules: seq<Rule>, now: int)
    ensures ChangesWithin(t.rows, Run(t, rules, now).table.rows, TargetedIds(t.rows, rules, now))
  {
    ChangesWithinStart(t.rows, TargetedIds(t.rows, rules, now));
    RunRulesTouchesSelected(t, rules, rules, RunState(t, 0, false), now);
  }

  /** `disablePost`: unpublish as a scheduled process; `ok` is false when it
      raised. */
  method DisablePost(table: PostTable, id: int) returns (ok: bool)
    modifies table
    ensures ok == Succeeds(old(table.Snapshot()))
    ensures table.Snapshot() == Attempt(old(table.Snapshot()), UnpublishPost(id, true))
  {
    ok := table.Unpublish(id, true);
  }

  /** `archivePost`: set state 2 on this id; `ok` is false when it raised. */
  method ArchivePost(table: PostTable, id: int) returns (ok: bool)
    modifies table
    ensures ok == Succeeds(old(table.Snapshot()))
    ensures table.Snapshot() == Attempt(old(table.Snapshot()), SetStateArchived(id))
  {
    ok := table.SetArchived(id);
  }

  /** The action switch for one post; `raised` tells that an error escaped it. */
  method ApplyAction(table: PostTable, action: string, id: int) returns (raised: bool)
    modifies table
    ensures Effect(table.Snapshot(), raised) == Perform(old(table.Snapshot()), action, id)
  {
    raised := false;
    var ok;
    if action == "disable" {
      ok := DisablePost(table, id);
      raised := !ok;
    } else if action == "archive" {
      ok := ArchivePost(table, id);
      raised := !ok;
    } else if action == "both" {
      ok := ArchivePost(table, id);
      if !ok {
        return true;
      }
      ok := DisablePost(table, id);
      raised := !ok;
    }
  }

  lemma RunRulesStep(st: RunState, rules: seq<Rule>, i: nat, now: int)
    requires i < |rules| && !st.aborted
    ensures RunRules(st, rules[i..], now) == RunRules(RuleStep(st, rules[i], now), rules[i + 1..], now)
  {
    assert rules[i..][0] == rules[i] && rules[i..][1..] == rules[i + 1..];
  }

  lemma RunPostsStep(st: RunState, rule: Rule, posts: seq<Post>, j: nat)
    requires j < |posts| && !st.aborted
    ensures RunPosts(st, rule, posts[j..]) == RunPosts(PostStep(st, rule, posts[j]), rule, posts[j + 1..])
  {
    assert posts[j..][0] == posts[j] && posts[j..][1..] == posts[j + 1..];
  }

  /** The loop over the rows of one rule's result; it stops at the first error. */
  method ProcessRule(table: PostTable, rule: Rule, now: int, processedCount: nat)
    returns (processedCount': nat, raised: bool)
    modifies table
    ensures RunState(table.Snapshot(), processedCount', raised)
         == RunPosts(RunState(old(table.Snapshot()), processedCount, false), rule, Select(old(table.rows), rule, now))
  {
    processedCount', raised := processedCount, false;
    var posts := Select(table.rows, rule, now);
    ghost var final := RunPosts(RunState(table.Snapshot(), processedCount, false), rule, posts);
    assert posts[0..] == posts;
    for j := 0 to |posts|
      invariant RunPosts(RunState(table.Snapshot(), processedCount', false), rule, posts[j..]) == final
    {
      var postData := posts[j];
      ghost var before := RunState(table.Snapshot(), processedCount', false);
      RunPostsStep(before, rule, posts, j);
      if !HasPost(table.rows, postData.id) {
        continue;
      }
      raised := ApplyAction(table, rule.action, postData.id);
      if raised {
        assert RunState(table.Snapshot(), processedCount', true) == PostStep(before, rule, postData);
        return;
      }
      processedCount' := processedCount' + 1;
      assert RunState(table.Snapshot(), processedCount', false) == PostStep(before, rule, postData);
    }
    assert posts[|posts|..] == [];
  }

  /** `processExpiredPosts`: load the rules, stop when there are none, run every
      rule until an error escapes, then report the count. */
  method ProcessExpiredPosts(table: PostTable, params: Params, now: int) returns (outcome: Outcome)
    modifies table
    ensures var final := Run(old(table.Snapshot()), LoadedRules(params, RuleSlots), now);
      table.Snapshot() == final.table && outcome == Result(final)
    ensures ChangesWithin(old(table.rows), table.rows, TargetedIds(old(table.rows), LoadedRules(params, RuleSlots), now))
  {
    RunTouchesOnlySelected(table.Snapshot(), LoadedRules(params, RuleSlots), now);
    var rules := GetRules(params);
    if rules == [] {
      return Completed(0, None);
    }
    var processedCount := 0;
    ghost var final := Run(table.Snapshot(), rules, now);
    assert rules[0..] == rules;
    for i := 0 to |rules|
      invariant RunRules(RunState(table.Snapshot(), processedCount, false), rules[i..], now) == final
    {
      var rule := rules[i];
      RunRulesStep(RunState(table.Snapshot(), processedCount, false), rules, i, now);
      if !rule.enabled {
        continue;
      }
      var raised;
      processedCount, raised := ProcessRule(table, rule, now, processedCount);
      if raised {
        return Threw;
      }
    }
    assert rules[|rules|..] == [];
    if processedCount > 0 {
      return Completed(processedCount, Some(InfoMessage(processedCount)));
    }
    return Completed(processedCount, None);
  }

  /** `onAfterRoute`: process the posts only on a cron request to the site with
      EasyBlog ready. */
  method OnAfterRoute(table: PostTable, params: Params, easyBlogReady: bool, task: string, cron: bool, isSite: bool, now: int)
    returns (outcome: Option<Outcome>)
    modifies table
    ensures outcome.Some? == CronRun(easyBlogReady, task, cron, isSite)
    ensures outcome.None? ==> table.Snapshot() == old(table.Snapshot())
    ensures outcome.Some? ==>
      var final := Run(old(table.Snapshot()), LoadedRules(params, RuleSlots), now);
      table.Snapshot() == final.table && outcome.value == Result(final)
  {
    outcome := None;
    if easyBlogReady && (task == "cron" || cron) && isSite {
      var o := ProcessExpiredPosts(table, params, now);
      outcome := Some(o);
    }
  }
}
