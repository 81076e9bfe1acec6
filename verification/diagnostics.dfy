/**
 * The record kept for every post a run acts on, and the text block that
 * `logToEasyBlogDiagnostics` appends to the EasyBlog diagnostics file.
 */
module Diagnostics {
  import opened Php

  /** One processed post: its id and title, the action label, the 1-based
      position of the rule in the loaded rule list, the rule's search term and
      days, and whether development mode was on. */
  datatype ProcessedEntry = ProcessedEntry(
    id: int, title: string, action: string, rule: nat, searchTerm: string, days: int, developmentMode: bool)

  /** How many characters of a title a log line shows. */
  const TitleWidth := 50

  const DevelopmentSuffix := " [TEST ONLY]"
  const DevelopmentBanner := "\n*** DEVELOPMENT MODE ACTIVE - NO ACTUAL CHANGES MADE ***\n"

  /** `substr($title, 0, 50) . (strlen($title) > 50 ? '...' : '')`. */
  function CutTitle(title: string): (r: string)
    ensures |title| <= TitleWidth ==> r == title
    ensures |title| > TitleWidth ==> |r| == TitleWidth + 3
    ensures |title| > TitleWidth ==> r[..TitleWidth] == title[..TitleWidth] && r[TitleWidth..] == "..."
  {
    if |title| > TitleWidth then title[..TitleWidth] + "..." else title
  }

  /** The first lines of the block: a rule of `=`, the time stamp, the mode and
      the count, a rule of `-`. */
  function Header(timestamp: string, total: nat, developmentMode: bool): string {
    "\n" + Repeat('=', 80) + "\n"
    + "[" + timestamp + "] EasyBlog Auto Expire Plugin"
    + (if developmentMode then " (DEVELOPMENT MODE)" else "")
    + " - Processed " + NatToString(total) + " posts\n"
    + Repeat('-', 80) + "\n"
  }

  /** The line written for one processed post. */
  function EntryLine(e: ProcessedEntry, developmentMode: bool): string {
    "Post ID: " + IntToString(e.id)
    + " | Title: " + CutTitle(e.title)
    + " | Action: " + e.action
    + " | Rule: " + NatToString(e.rule)
    + " | Search: '" + e.searchTerm
    + "' | Days: " + IntToString(e.days)
    + (if developmentMode then DevelopmentSuffix else "") + "\n"
  }

  /** The lines of all entries, in order. */
  function Lines(entries: seq<ProcessedEntry>, developmentMode: bool): string
    decreases |entries|
  {
    if entries == [] then ""
    else Lines(entries[..|entries| - 1], developmentMode) + EntryLine(entries[|entries| - 1], developmentMode)
  }

  /** The closing lines: the development banner when in development mode, then a
      rule of `=`. */
  function Footer(developmentMode: bool): string {
    (if developmentMode then DevelopmentBanner else "") + ClosingRule()
  }

  /** The last line of the block: 80 `=` and a newline. */
  function ClosingRule(): string {
    Repeat('=', 80) + "\n"
  }

  /** The whole block appended to the diagnostics file. */
  function LogEntry(timestamp: string, entries: seq<ProcessedEntry>, total: nat, developmentMode: bool): string {
    Header(timestamp, total, developmentMode) + Lines(entries, developmentMode) + Footer(developmentMode)
  }

  /** A line ends in " [TEST ONLY]" and a newline exactly in development mode; in
      production it ends in the last digit of the days value. */
  lemma EntryLineMarksDevelopment(e: ProcessedEntry, developmentMode: bool)
    ensures var line := EntryLine(e, developmentMode);
      |line| >= 2 && line[|line| - 1] == '\n'
      && (line[|line| - 2] == ']' <==> developmentMode)
      && (developmentMode ==> line[|line| - 13..] == DevelopmentSuffix + "\n")
  {
    var line := EntryLine(e, developmentMode);
    var days := IntToString(e.days);
    var body := "Post ID: " + IntToString(e.id)
      + " | Title: " + CutTitle(e.title)
      + " | Action: " + e.action
      + " | Rule: " + NatToString(e.rule)
      + " | Search: '" + e.searchTerm
      + "' | Days: " + days;
    assert line == body + (if developmentMode then DevelopmentSuffix else "") + "\n";
    if !developmentMode {
      assert line[|line| - 2] == days[|days| - 1];
      if e.days >= 0 {
        assert '0' <= days[|days| - 1] <= '9';
      } else {
        assert days[|days| - 1] == days[1..][|days| - 2];
      }
    }
  }

  /** The header states the count: reading the digits after " - Processed "
      gives back the number of processed posts. */
  lemma HeaderStatesCount(timestamp: string, total: nat, developmentMode: bool)
    ensures var before := "\n" + Repeat('=', 80) + "\n" + "[" + timestamp + "] EasyBlog Auto Expire Plugin"
                          + (if developmentMode then " (DEVELOPMENT MODE)" else "") + " - Processed ";
            var digits := NatToString(total);
            Header(timestamp, total, developmentMode) == before + digits + " posts\n" + Repeat('-', 80) + "\n"
            && IsDigits(digits) && ParseNat(digits) == total
  {
    ParseNatToString(total);
  }

  /** The lines of a longer list extend those of its prefix: each entry has its
      own line, in entry order. */
  lemma {:induction false} LinesOfPrefix(entries: seq<ProcessedEntry>, i: nat, developmentMode: bool)
    requires i <= |entries|
    ensures |Lines(entries[..i], developmentMode)| <= |Lines(entries, developmentMode)|
    ensures Lines(entries, developmentMode)[..|Lines(entries[..i], developmentMode)|] == Lines(entries[..i], developmentMode)
    decreases |entries| - i
  {
    if i < |entries| {
      LinesOfPrefix(entries[..|entries| - 1], i, developmentMode);
      assert entries[..|entries| - 1][..i] == entries[..i];
      var full := Lines(entries, developmentMode);
      var front := Lines(entries[..|entries| - 1], developmentMode);
      assert full == front + EntryLine(entries[|entries| - 1], developmentMode);
      assert full[..|front|] == front;
    } else {
      assert entries[..i] == entries;
    }
  }

  /** Builds the block by appending one line per entry, as the source does. */
  method BuildLogEntry(timestamp: string, entries: seq<ProcessedEntry>, total: nat, developmentMode: bool)
    returns (logEntry: string)
    ensures logEntry == LogEntry(timestamp, entries, total, developmentMode)
  {
    logEntry := Header(timestamp, total, developmentMode);
    assert entries[..0] == [];
    for i := 0 to |entries|
      invariant logEntry == Header(timestamp, total, developmentMode) + Lines(entries[..i], developmentMode)
    {
      LinesStep(entries, i, developmentMode);
      ConcatAssociates(Header(timestamp, total, developmentMode), Lines(entries[..i], developmentMode), EntryLine(entries[i], developmentMode));
      logEntry := logEntry + EntryLine(entries[i], developmentMode);
    }
    assert entries[..|entries|] == entries;
    ghost var body := logEntry;
    if developmentMode {
      logEntry := logEntry + DevelopmentBanner;
    }
    ghost var banner := if developmentMode then DevelopmentBanner else "";
    assert logEntry == body + banner;
    logEntry := logEntry + ClosingRule();
    ConcatAssociates(body, banner, ClosingRule());
  }

  lemma LinesStep(entries: seq<ProcessedEntry>, i: nat, developmentMode: bool)
    requires i < |entries|
    ensures Lines(entries[..i + 1], developmentMode) == Lines(entries[..i], developmentMode) + EntryLine(entries[i], developmentMode)
  {
    assert entries[..i + 1][..i] == entries[..i];
  }
}
