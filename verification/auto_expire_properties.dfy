/**
 * What a run of the namespaced plugin guarantees: in development mode the table
 * is untouched; otherwise rows only become unpublished or archived; every entry
 * names the loaded rule (by its 1-based position) it was recorded under; store
 * failures do not drop entries; and in development mode every rule sees the
 * same table, so rules that overlap record the same post again.
 */
module AutoExpireProperties {
  import opened Php
  import opened Store
  import opened Diagnostics
  import opened AutoExpire

  lemma PostStepEvolves(st: RunState, rule: Rule, ruleNo: nat, developmentMode: bool, row: Post)
    ensures TableEvolves(st.table, PostStep(st, rule, ruleNo, developmentMode, row).table)
  {
    if !ValidatePost(row) || !HasPost(st.table.rows, row.id) || developmentMode {
      TableEvolvesReflexive(st.table);
    } else {
      PerformEvolves(st.table, rule.action, row.id);
    }
  }

  lemma {:induction false} RunPostsEvolves(st: RunState, rule: Rule, ruleNo: nat, developmentMode: bool, posts: seq<Post>)
    ensures TableEvolves(st.table, RunPosts(st, rule, ruleNo, developmentMode, posts).table)
    decreases |posts|
  {
    if posts == [] {
      TableEvolvesReflexive(st.table);
    } else {
      var st1 := PostStep(st, rule, ruleNo, developmentMode, posts[0]);
      PostStepEvolves(st, rule, ruleNo, developmentMode, posts[0]);
      RunPostsEvolves(st1, rule, ruleNo, developmentMode, posts[1..]);
      TableEvolvesTransitive(st.table, st1.table, RunPosts(st, rule, ruleNo, developmentMode, posts).table);
    }
  }

  /** Over a whole run every row keeps its id, title and creation time, may only
      become unpublished (`published = 0`) or archived (`state = 2`), writes are
      only added to the log, and every unpublish is flagged `isScheduleProcess`. */
  lemma {:induction false} RunEvolves(st: RunState, rules: seq<Rule>, firstNo: nat, developmentMode: bool, now: int)
    ensures TableEvolves(st.table, RunRules(st, rules, firstNo, developmentMode, now).table)
    decreases |rules|
  {
    if rules == [] {
      TableEvolvesReflexive(st.table);
    } else {
      var st1 := RuleStep(st, rules[0], firstNo, developmentMode, now);
      if rules[0].enabled {
        RunPostsEvolves(st, rules[0], firstNo, developmentMode, Select(st.table.rows, rules[0], now));
      } else {
        TableEvolvesReflexive(st.table);
      }
      RunEvolves(st1, rules[1..], firstNo + 1, developmentMode, now);
      TableEvolvesTransitive(st.table, st1.table, RunRules(st, rules, firstNo, developmentMode, now).table);
    }
  }

  lemma {:induction false} DevelopmentRunPostsKeepsTable(st: RunState, rule: Rule, ruleNo: nat, posts: seq<Post>)
    ensures RunPosts(st, rule, ruleNo, true, posts).table == st.table
    decreases |posts|
  {
    if posts != [] {
      DevelopmentRunPostsKeepsTable(PostStep(st, rule, ruleNo, true, posts[0]), rule, ruleNo, posts[1..]);
    }
  }

  /** In development mode a run changes nothing in the table: no row and no
      write attempt. */
  lemma {:induction false} DevelopmentModeChangesNothing(st: RunState, rules: seq<Rule>, firstNo: nat, now: int)
    ensures RunRules(st, rules, firstNo, true, now).table == st.table
    decreases |rules|
  {
    if rules != [] {
      var st1 := RuleStep(st, rules[0], firstNo, true, now);
      if rules[0].enabled {
        DevelopmentRunPostsKeepsTable(st, rules[0], firstNo, Select(st.table.rows, rules[0], now));
      }
      DevelopmentModeChangesNothing(st1, rules[1..], firstNo + 1, now);
    }
  }

  /** The entries one rule records for the rows of its result: one per row that
      validates and loads, in order, all naming that rule. This depends on the
      rows only through which ids exist, and not at all on which writes fail. */
  function Recorded(rows: seq<Post>, rule: Rule, ruleNo: nat, developmentMode: bool, posts: seq<Post>): seq<ProcessedEntry>
    decreases |posts|
  {
    if posts == [] then []
    else RecordedFor(rows, rule, ruleNo, developmentMode, posts[0]) + Recorded(rows, rule, ruleNo, developmentMode, posts[1..])
  }

  /** The entry, if any, one row of a rule's result gets. */
  function RecordedFor(rows: seq<Post>, rule: Rule, ruleNo: nat, developmentMode: bool, row: Post): seq<ProcessedEntry> {
    if ValidatePost(row) && HasPost(rows, row.id) then [EntryFor(row, rule, ruleNo, developmentMode)] else []
  }

  lemma PostStepRecords(st: RunState, rule: Rule, ruleNo: nat, developmentMode: bool, row: Post)
    ensures PostStep(st, rule, ruleNo, developmentMode, row).entries == st.entries + RecordedFor(st.table.rows, rule, ruleNo, developmentMode, row)
  {
  }

  /** What an entry says about the rule it was recorded under. */
  predicate EntryMatchesRule(e: ProcessedEntry, rule: Rule, developmentMode: bool) {
    && e.id > 0
    && e.searchTerm == rule.titleSearch
    && e.days == rule.days
    && e.action == Label(developmentMode, rule.action)
    && e.developmentMode == developmentMode
  }

  /** Every entry a rule records names that rule and carries its term, days and
      label, one entry at most per row of the rule's result. */
  lemma {:induction false} RecordedNamesRule(rows: seq<Post>, rule: Rule, ruleNo: nat, developmentMode: bool, posts: seq<Post>)
    ensures var es := Recorded(rows, rule, ruleNo, developmentMode, posts);
      |es| <= |posts| && forall k :: 0 <= k < |es| ==> es[k].rule == ruleNo && EntryMatchesRule(es[k], rule, developmentMode)
    decreases |posts|
  {
    if posts != [] {
      RecordedNamesRule(rows, rule, ruleNo, developmentMode, posts[1..]);
    }
  }

  lemma {:induction false} RecordedEvolves(rows: seq<Post>, rows': seq<Post>, rule: Rule, ruleNo: nat, developmentMode: bool, posts: seq<Post>)
    requires RowsEvolve(rows, rows')
    ensures Recorded(rows, rule, ruleNo, developmentMode, posts) == Recorded(rows', rule, ruleNo, developmentMode, posts)
    decreases |posts|
  {
    if posts != [] {
      HasPostEvolves(rows, rows', posts[0].id);
      RecordedEvolves(rows, rows', rule, ruleNo, developmentMode, posts[1..]);
    }
  }

  /** A failing write does not stop a rule: every row of its result that validates
      and loads is recorded, with the rule's label, whatever the writes did. */
  lemma {:induction false} FailuresDoNotDropEntries(st: RunState, rule: Rule, ruleNo: nat, developmentMode: bool, posts: seq<Post>)
    ensures RunPosts(st, rule, ruleNo, developmentMode, posts).entries
         == st.entries + Recorded(st.table.rows, rule, ruleNo, developmentMode, posts)
    decreases |posts|
  {
    if posts != [] {
      var st1 := PostStep(st, rule, ruleNo, developmentMode, posts[0]);
      var head := RecordedFor(st.table.rows, rule, ruleNo, developmentMode, posts[0]);
      var rest := Recorded(st.table.rows, rule, ruleNo, developmentMode, posts[1..]);
      PostStepRecords(st, rule, ruleNo, developmentMode, posts[0]);
      PostStepEvolves(st, rule, ruleNo, developmentMode, posts[0]);
      RecordedEvolves(st.table.rows, st1.table.rows, rule, ruleNo, developmentMode, posts[1..]);
      FailuresDoNotDropEntries(st1, rule, ruleNo, developmentMode, posts[1..]);
      ConcatAssociates(st.entries, head, rest);
    }
  }

  /** Every entry names, by its number counted from `firstNo`, one of the rules
      and agrees with that rule's term, days and action label. */
  predicate DescribesRules(es: seq<ProcessedEntry>, rules: seq<Rule>, firstNo: nat, developmentMode: bool) {
    forall k :: 0 <= k < |es| ==>
      firstNo <= es[k].rule < firstNo + |rules| && EntryMatchesRule(es[k], rules[es[k].rule - firstNo], developmentMode)
  }

  /** Entries naming the first rule, followed by entries that describe the
      remaining rules, describe the whole list. */
  lemma DescribesRulesCons(mine: seq<ProcessedEntry>, later: seq<ProcessedEntry>, rules: seq<Rule>, firstNo: nat, developmentMode: bool)
    requires rules != []
    requires forall k :: 0 <= k < |mine| ==> mine[k].rule == firstNo && EntryMatchesRule(mine[k], rules[0], developmentMode)
    requires DescribesRules(later, rules[1..], firstNo + 1, developmentMode)
    ensures DescribesRules(mine + later, rules, firstNo, developmentMode)
  {
    var added := mine + later;
    forall k | 0 <= k < |mine|
      ensures added[k] == mine[k]
    {
    }
    forall k | |mine| <= k < |added|
      ensures added[k] == later[k - |mine|]
    {
    }
    forall j | 0 <= j < |later|
      ensures rules[1..][later[j].rule - (firstNo + 1)] == rules[later[j].rule - firstNo]
    {
    }
  }

  /** A run only appends entries, and each entry it appends names the rule it was
      recorded under by its position in the rule list. */
  lemma {:induction false} EntriesDescribeRules(st: RunState, rules: seq<Rule>, firstNo: nat, developmentMode: bool, now: int)
    returns (added: seq<ProcessedEntry>)
    ensures RunRules(st, rules, firstNo, developmentMode, now).entries == st.entries + added
    ensures DescribesRules(added, rules, firstNo, developmentMode)
    decreases |rules|
  {
    if rules == [] {
      added := [];
      assert st.entries + added == st.entries;
    } else {
      var rule := rules[0];
      var st1 := RuleStep(st, rule, firstNo, developmentMode, now);
      var mine: seq<ProcessedEntry> := [];
      if rule.enabled {
        var posts := Select(st.table.rows, rule, now);
        FailuresDoNotDropEntries(st, rule, firstNo, developmentMode, posts);
        RecordedNamesRule(st.table.rows, rule, firstNo, developmentMode, posts);
        mine := Recorded(st.table.rows, rule, firstNo, developmentMode, posts);
      } else {
        assert st1.entries == st.entries + mine;
      }
      var later := EntriesDescribeRules(st1, rules[1..], firstNo + 1, developmentMode, now);
      added := mine + later;
      DescribesRulesCons(mine, later, rules, firstNo, developmentMode);
      ConcatAssociates(st.entries, mine, later);
    }
  }

  /** The entries of a whole run: rule numbers run from 1 to the number of loaded
      rules, and each entry carries that rule's term, days and label. */
  lemma RunEntriesDescribeRules(t: Table, rules: seq<Rule>, developmentMode: bool, now: int)
    ensures DescribesRules(Run(t, rules, developmentMode, now).entries, rules, 1, developmentMode)
  {
    var added := EntriesDescribeRules(RunState(t, []), rules, 1, developmentMode, now);
    assert [] + added == added;
  }

  /** In development mode every rule is judged against the same, unchanged table. */
  function DevelopmentEntries(rows: seq<Post>, rules: seq<Rule>, firstNo: nat, now: int): seq<ProcessedEntry>
    decreases |rules|
  {
    if rules == [] then []
    else
      (if rules[0].enabled then Recorded(rows, rules[0], firstNo, true, Select(rows, rules[0], now)) else [])
      + DevelopmentEntries(rows, rules[1..], firstNo + 1, now)
  }

  /** A development run records, rule after rule, every row of that rule's result
      on the original table that validates and loads; a post matched by two rules
      is recorded twice. */
  lemma {:induction false} DevelopmentRunEntries(st: RunState, rules: seq<Rule>, firstNo: nat, now: int)
    ensures RunRules(st, rules, firstNo, true, now).entries == st.entries + DevelopmentEntries(st.table.rows, rules, firstNo, now)
    decreases |rules|
  {
    if rules != [] {
      var st1 := RuleStep(st, rules[0], firstNo, true, now);
      if rules[0].enabled {
        var posts := Select(st.table.rows, rules[0], now);
        FailuresDoNotDropEntries(st, rules[0], firstNo, true, posts);
        DevelopmentRunPostsKeepsTable(st, rules[0], firstNo, posts);
      }
      assert st1.table == st.table;
      DevelopmentRunEntries(st1, rules[1..], firstNo + 1, now);
    }
  }

  /** No row with this id is published. */
  predicate Unpublished(rows: seq<Post>, id: int) {
    forall k :: 0 <= k < |rows| && rows[k].id == id ==> rows[k].published != 1
  }

  /** No entry is about this id. */
  predicate NoEntryFor(es: seq<ProcessedEntry>, id: int) {
    forall k :: 0 <= k < |es| ==> es[k].id != id
  }

  lemma UnpublishedEvolves(rows: seq<Post>, rows': seq<Post>, id: int)
    requires RowsEvolve(rows, rows') && Unpublished(rows, id)
    ensures Unpublished(rows', id)
  {
    forall k | 0 <= k < |rows'| && rows'[k].id == id
      ensures rows'[k].published != 1
    {
      assert RowEvolves(rows[k], rows'[k]);
    }
  }

  lemma {:induction false} RecordedAvoids(rows: seq<Post>, rule: Rule, ruleNo: nat, developmentMode: bool, posts: seq<Post>, id: int)
    requires forall j :: 0 <= j < |posts| ==> posts[j].id != id
    ensures NoEntryFor(Recorded(rows, rule, ruleNo, developmentMode, posts), id)
    decreases |posts|
  {
    if posts != [] {
      RecordedAvoids(rows, rule, ruleNo, developmentMode, posts[1..], id);
    }
  }

  /** One rule appends no entry for a post that is not published when it
      starts, and leaves that post unpublished. */
  lemma RuleStepAvoids(st: RunState, rule: Rule, ruleNo: nat, developmentMode: bool, now: int, id: int)
    requires Unpublished(st.table.rows, id)
    ensures var st1 := RuleStep(st, rule, ruleNo, developmentMode, now);
      |st.entries| <= |st1.entries| && st1.entries[..|st.entries|] == st.entries
      && NoEntryFor(st1.entries[|st.entries|..], id) && Unpublished(st1.table.rows, id)
  {
    var st1 := RuleStep(st, rule, ruleNo, developmentMode, now);
    if !rule.enabled {
      assert st1.entries[|st.entries|..] == [];
    } else {
      var posts := Select(st.table.rows, rule, now);
      forall j | 0 <= j < |posts|
        ensures posts[j].id != id
      {
        assert posts[j] in posts;
      }
      FailuresDoNotDropEntries(st, rule, ruleNo, developmentMode, posts);
      RecordedAvoids(st.table.rows, rule, ruleNo, developmentMode, posts, id);
      RunPostsEvolves(st, rule, ruleNo, developmentMode, posts);
      UnpublishedEvolves(st.table.rows, st1.table.rows, id);
      var mine := Recorded(st.table.rows, rule, ruleNo, developmentMode, posts);
      assert st1.entries == st.entries + mine;
      assert st1.entries[|st.entries|..] == mine;
    }
  }

  /** If `b` extends `a` and `c` extends `b`, each with nothing about `id`,
      then `c` extends `a` with nothing about `id`. */
  lemma AppendAvoids(a: seq<ProcessedEntry>, b: seq<ProcessedEntry>, c: seq<ProcessedEntry>, id: int)
    requires |a| <= |b| && b[..|a|] == a && NoEntryFor(b[|a|..], id)
    requires |b| <= |c| && c[..|b|] == b && NoEntryFor(c[|b|..], id)
    ensures |a| <= |c| && c[..|a|] == a && NoEntryFor(c[|a|..], id)
  {
    forall k | 0 <= k < |c| - |a|
      ensures c[|a|..][k].id != id
    {
      if k + |a| < |b| {
        assert c[|a|..][k] == b[|a|..][k];
      } else {
        assert c[|a|..][k] == c[|b|..][k + |a| - |b|];
      }
    }
  }

  /** A post that is not published when a run starts is never processed by it:
      the run keeps the entries it started with and appends none for the post.
      In particular a post one rule has unpublished (and recorded) gets no
      further entry from a later rule, since every rule's query asks for
      `published = 1` on the table as it then is. */
  lemma {:induction false} UnpublishedIsNeverProcessed(st: RunState, rules: seq<Rule>, firstNo: nat, developmentMode: bool, now: int, id: int)
    requires Unpublished(st.table.rows, id)
    ensures var es := RunRules(st, rules, firstNo, developmentMode, now).entries;
      |st.entries| <= |es| && es[..|st.entries|] == st.entries && NoEntryFor(es[|st.entries|..], id)
    ensures NoEntryFor(st.entries, id) ==> NoEntryFor(RunRules(st, rules, firstNo, developmentMode, now).entries, id)
    decreases |rules|
  {
    var es := RunRules(st, rules, firstNo, developmentMode, now).entries;
    if rules == [] {
      assert es[|st.entries|..] == [];
    } else {
      var st1 := RuleStep(st, rules[0], firstNo, developmentMode, now);
      RuleStepAvoids(st, rules[0], firstNo, developmentMode, now, id);
      UnpublishedIsNeverProcessed(st1, rules[1..], firstNo + 1, developmentMode, now, id);
      AppendAvoids(st.entries, st1.entries, es, id);
    }
    if NoEntryFor(st.entries, id) {
      forall k | 0 <= k < |es|
        ensures es[k].id != id
      {
        if k < |st.entries| {
          assert es[k] == es[..|st.entries|][k];
        } else {
          assert es[k] == es[|st.entries|..][k - |st.entries|];
        }
      }
    }
  }
}
