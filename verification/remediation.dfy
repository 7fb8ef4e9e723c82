/** The deterministic part of the remediation node (agents/remediation.py):
    recovering the file name from the conversation, saving the agent's
    patch under the `_patched` name and replacing the agent's answer with a
    short summary. The language model's answer is a parameter. */
module Remediation {
  import opened Results
  import opened Strings
  import opened Messages
  import opened Workspace

  /** The sentence `get_filename_from_state` looks for in a message. */
  const Marker := "What are the recommended changes for this file"

  /** The literal part of the pattern `for this file "([^"]+)"`. */
  const FilePhrase := "for this file \""

  // ---------------------------------------------------------------------
  // re.search(r'for this file "([^"]+)"', text)

  /** Length of the longest run of characters other than `"` from `j`. */
  function QuoteFreeRun(s: string, j: nat): (n: nat)
    requires j <= |s|
    ensures j + n <= |s|
    ensures forall k :: j <= k < j + n ==> s[k] != '"'
    ensures j + n == |s| || s[j + n] == '"'
    decreases |s| - j
  {
    if j == |s| || s[j] == '"' then 0 else 1 + QuoteFreeRun(s, j + 1)
  }

  /** The pattern matches at `i`: the phrase, one or more characters other
      than `"`, then a `"`. Since `[^"]+` cannot take a `"`, the greedy
      group is the whole quote-free run and backtracking cannot help. */
  predicate MatchesAt(s: string, i: nat) {
    && OccursAt(s, FilePhrase, i)
    && var n := QuoteFreeRun(s, i + |FilePhrase|);
      n > 0 && i + |FilePhrase| + n < |s|
  }

  /** `match.group(1)` for a match at `i`. */
  function GroupAt(s: string, i: nat): (g: string)
    requires MatchesAt(s, i)
    ensures |g| > 0 && '"' !in g
    ensures OccursAt(s, FilePhrase + g + "\"", i)
  {
    var j := i + |FilePhrase|;
    var g := s[j..j + QuoteFreeRun(s, j)];
    assert s[i..i + |FilePhrase + g + "\""|] == s[i..j] + g + [s[j + |g|]];
    g
  }

  /** `re.search` from position `i` on: the leftmost match wins. */
  function SearchFrom(s: string, i: nat): (r: Option<string>)
    ensures r.None? <==> forall k: nat :: i <= k ==> !MatchesAt(s, k)
    ensures r.Some? ==> exists k: nat :: (i <= k && MatchesAt(s, k) && r.value == GroupAt(s, k) &&
      forall k': nat :: i <= k' < k ==> !MatchesAt(s, k'))
    decreases |s| - i
  {
    if i > |s| then
      assert forall k: nat :: i <= k ==> !OccursAt(s, FilePhrase, k);
      None
    else if MatchesAt(s, i) then Some(GroupAt(s, i))
    else SearchFrom(s, i + 1)
  }

  /** The group of `re.search(r'for this file "([^"]+)"', text)`, if any. */
  function FileGroup(text: string): (r: Option<string>)
    ensures r.None? <==> forall k: nat :: !MatchesAt(text, k)
    ensures r.Some? ==> |r.value| > 0 && '"' !in r.value
  {
    SearchFrom(text, 0)
  }

  /** The group of a search is the group at its leftmost match. */
  lemma FileGroupIsLeftmost(text: string, k: nat)
    requires MatchesAt(text, k)
    requires forall k': nat :: k' < k ==> !MatchesAt(text, k')
    ensures FileGroup(text) == Some(GroupAt(text, k))
  {
    var r := SearchFrom(text, 0);
    assert r.Some?;
    var k0: nat :| MatchesAt(text, k0) && r.value == GroupAt(text, k0) &&
      forall k': nat :: k' < k0 ==> !MatchesAt(text, k');
    assert k0 == k;
  }

  // ---------------------------------------------------------------------
  // get_filename_from_state

  /** A message the scan accepts: it holds the marker sentence and the
      pattern finds a file name in it. */
  predicate NamesFile(m: Message) {
    Contains(m.content, Marker) && FileGroup(m.content).Some?
  }

  datatype RemediationError =
    | FilenameNotRecoverable
    | EmptyAgentResult

  /** Which messages name a file. */
  function Naming(messages: seq<Message>): (flags: seq<bool>)
    ensures |flags| == |messages|
    ensures forall i :: 0 <= i < |messages| ==> flags[i] == NamesFile(messages[i])
  {
    seq(|messages|, i requires 0 <= i < |messages| => NamesFile(messages[i]))
  }

  /** Index of the last `true` among the first `n` flags. */
  function LastBelow(flags: seq<bool>, n: nat): (r: Option<nat>)
    requires n <= |flags|
    ensures r.None? <==> forall i :: 0 <= i < n ==> !flags[i]
    ensures r.Some? ==> r.value < n && flags[r.value] && forall j :: r.value < j < n ==> !flags[j]
  {
    if n == 0 then None
    else if flags[n - 1] then Some(n - 1)
    else LastBelow(flags, n - 1)
  }

  /** `get_filename_from_state`: the messages are scanned newest first and
      the first one that names a file decides; a `ValueError` when none
      does. */
  function GetFilenameFromState(messages: seq<Message>): (r: Result<string, RemediationError>)
    ensures r.Failure? <==> forall i :: 0 <= i < |messages| ==> !NamesFile(messages[i])
    ensures r.Failure? ==> r.error == FilenameNotRecoverable
  {
    match LastBelow(Naming(messages), |messages|)
    case None => Failure(FilenameNotRecoverable)
    case Some(i) => Success(FileGroup(messages[i].content).value)
  }

  /** The name comes from the newest message that names a file. */
  lemma FilenameSource(messages: seq<Message>) returns (i: nat)
    requires GetFilenameFromState(messages).Success?
    ensures i < |messages| && NamesFile(messages[i])
    ensures FileGroup(messages[i].content) == Some(GetFilenameFromState(messages).value)
    ensures forall j :: i < j < |messages| ==> !NamesFile(messages[j])
  {
    var flags := Naming(messages);
    i := LastBelow(flags, |messages|).value;
    assert flags[i];
    assert forall j :: i < j < |messages| ==> !flags[j];
  }

  /** The recovered name is never empty and never holds a `"`. */
  lemma FilenameShape(messages: seq<Message>)
    requires GetFilenameFromState(messages).Success?
    ensures var f := GetFilenameFromState(messages).value;
      |f| > 0 && '"' !in f
  {
    var f := GetFilenameFromState(messages).value;
    var i := FilenameSource(messages);
    var s := messages[i].content;
    var k: nat :| MatchesAt(s, k) && f == GroupAt(s, k);
  }

  /** Messages appended after the one that names the file change nothing
      as long as none of them names a file itself. */
  lemma LaterMessagesIgnored(messages: seq<Message>, later: seq<Message>)
    requires forall j :: 0 <= j < |later| ==> !NamesFile(later[j])
    ensures GetFilenameFromState(messages + later) == GetFilenameFromState(messages)
  {
    var all := messages + later;
    var flags, prefix := Naming(all), Naming(messages);
    forall j | |messages| <= j < |all| ensures !flags[j] {
      assert all[j] == later[j - |messages|];
    }
    SkipFalse(flags, |messages|, |all|);
    LastBelowReadsPrefix(flags, prefix, |messages|);
  }

  /** Flags between `lo` and `n` that are all `false` do not change the
      scan. */
  lemma {:induction false} SkipFalse(flags: seq<bool>, lo: nat, n: nat)
    requires lo <= n <= |flags|
    requires forall j :: lo <= j < n ==> !flags[j]
    ensures LastBelow(flags, n) == LastBelow(flags, lo)
    decreases n - lo
  {
    if lo < n {
      SkipFalse(flags, lo, n - 1);
    }
  }

  /** The scan of the first `n` flags reads nothing after them. */
  lemma {:induction false} LastBelowReadsPrefix(a: seq<bool>, b: seq<bool>, n: nat)
    requires n <= |a| && n <= |b|
    requires forall i :: 0 <= i < n ==> a[i] == b[i]
    ensures LastBelow(a, n) == LastBelow(b, n)
    decreases n
  {
    if n > 0 {
      LastBelowReadsPrefix(a, b, n - 1);
    }
  }

  // ---------------------------------------------------------------------
  // remediation_node

  /** The summary that replaces the agent's answer. */
  function Summary(filename: string, patchedFilename: string): (s: string)
    ensures Contains(s, OriginalLabel + filename + "\n")
    ensures EndsWith(s, PatchedLabel + patchedFilename + "\n")
  {
    SummaryShape(SummaryTitle + "\n" + "\n", OriginalLabel, filename, "\n", PatchedLabel, patchedFilename, "\n");
    SummaryTitle + "\n" + "\n" + OriginalLabel + filename + "\n" + PatchedLabel + patchedFilename + "\n"
  }

  /** Where the two labelled lines of a text of the summary's shape sit. */
  lemma SummaryShape(a: string, o: string, f: string, n: string, l: string, p: string, m: string)
    ensures Contains(a + o + f + n + l + p + m, o + f + n)
    ensures EndsWith(a + o + f + n + l + p + m, l + p + m)
  {
    var s := a + o + f + n + l + p + m;
    assert s == a + (o + f + n) + (l + p + m);
    ContainsMiddle(a, o + f + n, l + p + m);
    assert s == (a + o + f + n) + (l + p + m);
  }

  const SummaryTitle := " Remediation completed:"
  const OriginalLabel := "Original file: "
  const PatchedLabel := "Patched file: "

  /** The summary's lines, as a reader splitting it on newlines sees them. */
  function SummaryLines(filename: string, patchedFilename: string): seq<string> {
    [SummaryTitle, "", OriginalLabel + filename, PatchedLabel + patchedFilename, ""]
  }

  /** The summary is its five lines joined by newlines. */
  lemma SummaryIsJoin(filename: string, patchedFilename: string)
    ensures Summary(filename, patchedFilename) == Join(SummaryLines(filename, patchedFilename), "\n")
  {
    JoinFive(SummaryTitle, "", OriginalLabel + filename, PatchedLabel + patchedFilename, "", "\n");
  }

  lemma JoinFive(a: string, b: string, c: string, d: string, e: string, sep: string)
    ensures Join([a, b, c, d, e], sep) == a + sep + b + sep + c + sep + d + sep + e
  {
    assert [d, e][1..] == [e];
    assert Join([d, e], sep) == d + sep + e;
    assert [c, d, e][1..] == [d, e];
    assert Join([c, d, e], sep) == c + sep + (d + sep + e);
    assert [b, c, d, e][1..] == [c, d, e];
    assert Join([b, c, d, e], sep) == b + sep + (c + sep + (d + sep + e));
    assert [a, b, c, d, e][1..] == [b, c, d, e];
  }

  /** Names without newlines can be read back from the summary: its third
      and fourth lines carry them after fixed labels. */
  lemma SummaryLinesRoundTrip(filename: string, patchedFilename: string)
    requires '\n' !in filename && '\n' !in patchedFilename
    ensures Split(Summary(filename, patchedFilename), '\n') == SummaryLines(filename, patchedFilename)
  {
    var lines := SummaryLines(filename, patchedFilename);
    SummaryIsJoin(filename, patchedFilename);
    LabelledLineHasNoNewline(OriginalLabel, filename);
    LabelledLineHasNoNewline(PatchedLabel, patchedFilename);
    assert '\n' !in lines[0];
    SplitJoin(lines, '\n');
  }

  lemma LabelledLineHasNoNewline(prefix: string, name: string)
    requires '\n' !in prefix && '\n' !in name
    ensures '\n' !in prefix + name
  {
  }

  /** What the node hands back to the graph: the updated message list and
      the scratch directory after the save. */
  datatype NodeUpdate = NodeUpdate(messages: seq<Message>, dir: Dir)

  /** What the node does once it knows the file name: save the stripped
      answer under the patched name (when `saved`) and put the summary in
      place of the agent's last message. */
  function ApplyPatch(filename: string, agentMessages: seq<Message>, saved: bool, dir: Dir): (u: NodeUpdate)
    requires |agentMessages| > 0
    ensures |u.messages| == |agentMessages|
    ensures u.messages[..|agentMessages| - 1] == agentMessages[..|agentMessages| - 1]
    ensures u.messages[|agentMessages| - 1] == Human(Summary(filename, PatchedName(filename)), Some("remediation"))
    ensures saved ==> u.dir == dir[Tmp(PatchedName(filename)) := Strip(agentMessages[|agentMessages| - 1].content)]
    ensures !saved ==> u.dir == dir
  {
    var patched := Strip(agentMessages[|agentMessages| - 1].content);
    var patchedFilename := PatchedName(filename);
    var dir' := if saved then dir[Tmp(patchedFilename) := patched] else dir;
    var summary := Summary(filename, patchedFilename);
    NodeUpdate(agentMessages[..|agentMessages| - 1] + [Human(summary, Some("remediation"))], dir')
  }

  /** `remediation_node` with the agent's message list as a parameter and
      `saved` telling whether writing the patched file succeeded (a failed
      write is caught and only reported). */
  function RemediationNode(state: seq<Message>, agentMessages: seq<Message>, saved: bool, dir: Dir): (r: Result<NodeUpdate, RemediationError>)
    ensures GetFilenameFromState(state).Failure? ==> r == Failure(FilenameNotRecoverable)
    ensures GetFilenameFromState(state).Success? && agentMessages == [] ==> r == Failure(EmptyAgentResult)
    ensures GetFilenameFromState(state).Success? && |agentMessages| > 0 ==> r.Success?
    ensures r.Success? ==> (|agentMessages| > 0 && GetFilenameFromState(state).Success? &&
      r.value == ApplyPatch(GetFilenameFromState(state).value, agentMessages, saved, dir))
  {
    var filename :- GetFilenameFromState(state);
    if |agentMessages| == 0 then Failure(EmptyAgentResult)
    else Success(ApplyPatch(filename, agentMessages, saved, dir))
  }

  /** Only the patched file's entry of the scratch directory changes. */
  lemma OtherFilesUntouched(filename: string, agentMessages: seq<Message>, saved: bool, dir: Dir, path: string)
    requires |agentMessages| > 0
    requires path != Tmp(PatchedName(filename))
    ensures var u := ApplyPatch(filename, agentMessages, saved, dir);
      (path in u.dir <==> path in dir) && (path in dir ==> u.dir[path] == dir[path])
  {
  }

  /** The saved patch carries no leading or trailing whitespace, and the
      summary names both files. */
  lemma SavedPatchAndSummary(filename: string, agentMessages: seq<Message>, dir: Dir)
    requires |agentMessages| > 0
    ensures var u := ApplyPatch(filename, agentMessages, true, dir);
      && IsStripped(u.dir[Tmp(PatchedName(filename))])
      && Contains(u.messages[|u.messages| - 1].content, filename)
      && Contains(u.messages[|u.messages| - 1].content, PatchedName(filename))
  {
    var p := PatchedName(filename);
    var u := ApplyPatch(filename, agentMessages, true, dir);
    assert u.messages[|u.messages| - 1].content == Summary(filename, p);
    NamesBoth(SummaryTitle + "\n" + "\n" + OriginalLabel, filename, "\n", PatchedLabel, p, "\n");
  }

  lemma NamesBoth(a: string, f: string, b: string, c: string, p: string, d: string)
    ensures Contains(a + f + b + c + p + d, f) && Contains(a + f + b + c + p + d, p)
  {
    ContainsMiddle(a, f, b + c + p + d);
    assert a + f + b + c + p + d == a + f + (b + c + p + d);
    ContainsMiddle(a + f + b + c, p, d);
  }
}
