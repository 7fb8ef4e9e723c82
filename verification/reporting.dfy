/** The deterministic part of `generate_report` (agents/reporting.py): from
    the final conversation and the scratch directory it derives the report
    sent for approval. The timing fields, the environment lookup and the
    HTTP request are not part of this model. */
module Reporting {
  import opened Results
  import opened Strings
  import opened Json
  import opened Messages
  import opened Workspace
  import opened ChangeAnalysis
  import opened ValidationOutput

  // ---------------------------------------------------------------------
  // partitioning the conversation

  /** The AI messages, in conversation order. */
  function AiMessages(ms: seq<Message>): (r: seq<Message>)
    ensures forall i :: 0 <= i < |r| ==> r[i].Ai?
    ensures forall m :: m in r <==> m in ms && m.Ai?
    decreases |ms|
  {
    if |ms| == 0 then []
    else
      var init := AiMessages(ms[..|ms| - 1]);
      var m := ms[|ms| - 1];
      assert ms == ms[..|ms| - 1] + [m];
      if m.Ai? then init + [m] else init
  }

  /** The tool messages, in conversation order. */
  function ToolMessages(ms: seq<Message>): (r: seq<Message>)
    ensures forall i :: 0 <= i < |r| ==> r[i].Tool?
    ensures forall m :: m in r <==> m in ms && m.Tool?
    decreases |ms|
  {
    if |ms| == 0 then []
    else
      var init := ToolMessages(ms[..|ms| - 1]);
      var m := ms[|ms| - 1];
      assert ms == ms[..|ms| - 1] + [m];
      if m.Tool? then init + [m] else init
  }

  /** Selecting from a concatenation selects from each part. */
  lemma {:induction false} AiMessagesAppend(a: seq<Message>, b: seq<Message>)
    ensures AiMessages(a + b) == AiMessages(a) + AiMessages(b)
    decreases |b|
  {
    if |b| > 0 {
      var b' := b[..|b| - 1];
      assert (a + b)[..|a + b| - 1] == a + b';
      AiMessagesAppend(a, b');
    } else {
      assert a + b == a;
    }
  }

  lemma {:induction false} ToolMessagesAppend(a: seq<Message>, b: seq<Message>)
    ensures ToolMessages(a + b) == ToolMessages(a) + ToolMessages(b)
    decreases |b|
  {
    if |b| > 0 {
      var b' := b[..|b| - 1];
      assert (a + b)[..|a + b| - 1] == a + b';
      ToolMessagesAppend(a, b');
    } else {
      assert a + b == a;
    }
  }

  /** `ai_messages[0]` is the earliest AI message of the conversation. */
  lemma FirstAiMessage(ms: seq<Message>, k: nat)
    requires k < |ms| && ms[k].Ai?
    requires forall j :: 0 <= j < k ==> !ms[j].Ai?
    ensures AiMessages(ms) != [] && AiMessages(ms)[0] == ms[k]
  {
    var before, after := ms[..k + 1], ms[k + 1..];
    assert ms == before + after;
    AiMessagesAppend(before, after);
    assert before[..k] == ms[..k];
    assert AiMessages(ms[..k]) == [] by {
      if AiMessages(ms[..k]) != [] {
        assert AiMessages(ms[..k])[0] in AiMessages(ms[..k]);
      }
    }
  }

  /** `tool_messages[0]` is the earliest tool message of the conversation. */
  lemma FirstToolMessage(ms: seq<Message>, k: nat)
    requires k < |ms| && ms[k].Tool?
    requires forall j :: 0 <= j < k ==> !ms[j].Tool?
    ensures ToolMessages(ms) != [] && ToolMessages(ms)[0] == ms[k]
  {
    var before, after := ms[..k + 1], ms[k + 1..];
    assert ms == before + after;
    ToolMessagesAppend(before, after);
    assert before[..k] == ms[..k];
    assert ToolMessages(ms[..k]) == [] by {
      if ToolMessages(ms[..k]) != [] {
        assert ToolMessages(ms[..k])[0] in ToolMessages(ms[..k]);
      }
    }
  }

  /** `tool_messages[-1]` is the latest tool message of the conversation. */
  lemma LastToolMessage(ms: seq<Message>, k: nat)
    requires k < |ms| && ms[k].Tool?
    requires forall j :: k < j < |ms| ==> !ms[j].Tool?
    ensures ToolMessages(ms) != [] && ToolMessages(ms)[|ToolMessages(ms)| - 1] == ms[k]
  {
    var before, after := ms[..k + 1], ms[k + 1..];
    assert ms == before + after;
    ToolMessagesAppend(before, after);
    assert before[..k] == ms[..k];
  }

  /** How many messages are neither AI nor tool messages. */
  function OtherCount(ms: seq<Message>): nat
    decreases |ms|
  {
    if |ms| == 0 then 0
    else OtherCount(ms[..|ms| - 1]) + if ms[|ms| - 1].Ai? || ms[|ms| - 1].Tool? then 0 else 1
  }

  /** The loop puts each message in at most one list and loses none of the
      AI and tool messages. */
  lemma {:induction false} PartitionCounts(ms: seq<Message>)
    ensures |AiMessages(ms)| + |ToolMessages(ms)| + OtherCount(ms) == |ms|
    decreases |ms|
  {
    if |ms| > 0 {
      PartitionCounts(ms[..|ms| - 1]);
    }
  }

  // ---------------------------------------------------------------------
  // pieces of the report

  datatype Status = Passed | Failed

  /** `original_validation_output.count("FAIL") if "FAIL" in ... else 0`. */
  function ViolationsDetected(output: string): (n: nat)
    ensures n == Count(output, "FAIL")
    ensures n > 0 <==> Contains(output, "FAIL")
  {
    CountPositiveIffContains(output, "FAIL");
    if Contains(output, "FAIL") then Count(output, "FAIL") else 0
  }

  function StatusOf(violations: nat): (status: Status)
    ensures status == Failed <==> violations > 0
  {
    if violations > 0 then Failed else Passed
  }

  /** `line.split("-")[-1]`: the whole line when it has no `-`, and
      otherwise what follows its last `-`. */
  function LastDashPiece(line: string): (r: string)
    ensures '-' !in r && EndsWith(line, r)
    ensures '-' !in line ==> r == line
    ensures '-' in line ==> |r| < |line| && line[|line| - |r| - 1] == '-'
  {
    LastSplit(line, '-')
  }

  function LastDashPieces(lines: seq<string>): (r: seq<string>)
    ensures |r| == |lines|
    ensures forall i :: 0 <= i < |lines| ==> r[i] == LastDashPiece(lines[i])
    decreases |lines|
  {
    if |lines| == 0 then [] else LastDashPieces(lines[..|lines| - 1]) + [LastDashPiece(lines[|lines| - 1])]
  }

  /** `[line.split("-")[-1] for line in output.split("\n")[:-3]]`: the last
      three lines are dropped (all of them if there are fewer), and of
      every other line what follows its last `-` is kept. */
  function SpecificRules(output: string): (r: seq<string>)
    ensures var lines := Split(output, '\n');
      && |r| == (if |lines| >= 3 then |lines| - 3 else 0)
      && forall i :: 0 <= i < |r| ==> r[i] == LastDashPiece(lines[i])
  {
    var lines := Split(output, '\n');
    var kept := if |lines| >= 3 then lines[..|lines| - 3] else [];
    assert forall i :: 0 <= i < |kept| ==> kept[i] == lines[i];
    LastDashPieces(kept)
  }

  /** `line.split("-")[-1]` of a line ending in `x-y` where `y` has no
      `-` is `y`. */
  lemma LastDashPieceOf(x: string, y: string)
    requires '-' !in y
    ensures LastDashPiece(x + "-" + y) == y
  {
    SplitAppend(x, y, '-');
    SplitSingle(y, '-');
  }

  /** The rule names of the policies contain dashes, so the last `-` piece
      of a conftest failure line is only the rule name's last word. */
  lemma RuleNameTruncated(line: string)
    requires line == "FAIL - policy/deny-s3.rego - deny-s3-bucket-public-read"
    ensures LastDashPiece(line) == "read"
  {
    var x := "FAIL - policy/deny-s3.rego - deny-s3-bucket-public";
    assert line == x + "-" + "read";
    LastDashPieceOf(x, "read");
  }

  // ---------------------------------------------------------------------
  // the rule names as the unit test extracts them

  /** The separator conftest puts between the fields of a result line. */
  const FieldSeparator := " - "

  /** The marker the unit test requires at the start of a failure line. */
  const FailPrefix := "FAIL -"

  /** What the unit test (tests/unit-tests.py:142-147) reads from one line
      of conftest's output: a line that starts with `FAIL -` and splits
      into at least three fields at ` - ` gives its last field, stripped;
      any other line gives nothing. */
  function FailureRule(line: string): (r: Option<string>)
    ensures r.Some? <==> IsPrefix(FailPrefix, line) && |SplitOn(line, FieldSeparator)| >= 3
    ensures r.Some? ==> r.value == Strip(Last(SplitOn(line, FieldSeparator)))
    ensures r.Some? ==> IsStripped(r.value) && !Contains(r.value, FieldSeparator)
  {
    LastOfFields(line, FailPrefix, FieldSeparator)
  }

  /** The last of at least three `sep`-separated fields of a line that
      starts with `prefix`, stripped. */
  function LastOfFields(line: string, prefix: string, sep: string): (r: Option<string>)
    requires |sep| > 0
    ensures r.Some? <==> IsPrefix(prefix, line) && |SplitOn(line, sep)| >= 3
    ensures r.Some? ==> r.value == Strip(Last(SplitOn(line, sep)))
    ensures r.Some? ==> IsStripped(r.value) && !Contains(r.value, sep)
  {
    var fields := SplitOn(line, sep);
    if IsPrefix(prefix, line) && |fields| >= 3 then
      var last := Last(fields);
      StripKeepsText(last, sep);
      Some(Strip(last))
    else None
  }

  /** Stripping cannot create an occurrence of a text. */
  lemma StripKeepsText(s: string, w: string)
    requires !Contains(s, w)
    ensures !Contains(Strip(s), w)
  {
    var a, b := StripSlice(s);
    assert s == s[..a] + s[a..b] + s[b..];
    if Contains(Strip(s), w) {
      ContainsWithin(s[a..b], w, s[..a], s[b..]);
    }
  }

  /** A failure line whose fields hold no space, the first being `FAIL`,
      gives its last field. */
  lemma FailureRuleOf(fields: seq<string>)
    requires |fields| >= 3 && fields[0] == "FAIL"
    requires forall i :: 0 <= i < |fields| ==> ' ' !in fields[i]
    requires IsStripped(fields[|fields| - 1])
    ensures FailureRule(Join(fields, FieldSeparator)) == Some(fields[|fields| - 1])
  {
    var line := Join(fields, FieldSeparator);
    assert IsPrefix(FailPrefix, line) by {
      FailPrefixOf(Join(fields[1..], FieldSeparator));
    }
    assert forall i :: 0 <= i < |fields| ==> FieldSeparator[0] !in fields[i] by {
      assert FieldSeparator[0] == ' ';
    }
    LastOfJoinedFields(fields, FailPrefix, FieldSeparator);
  }

  /** Joined fields none of which holds the separator's first character
      split back into the same fields. */
  lemma LastOfJoinedFields(fields: seq<string>, prefix: string, sep: string)
    requires |sep| > 0 && |fields| >= 3
    requires forall i :: 0 <= i < |fields| ==> sep[0] !in fields[i]
    requires IsPrefix(prefix, Join(fields, sep)) && IsStripped(fields[|fields| - 1])
    ensures LastOfFields(Join(fields, sep), prefix, sep) == Some(fields[|fields| - 1])
  {
    SplitOnJoin(fields, sep);
  }

  lemma FailPrefixOf(rest: string)
    ensures IsPrefix(FailPrefix, "FAIL" + FieldSeparator + rest)
  {
    var line := "FAIL" + FieldSeparator + rest;
    assert line[..6] == FailPrefix;
  }

  /** The unit test's fixture line keeps its whole rule name. */
  lemma RuleNameKept(line: string)
    requires line == "FAIL - policy/deny-s3.rego - deny-s3-bucket-public-read"
    ensures FailureRule(line) == Some("deny-s3-bucket-public-read")
  {
    var a, b, c := "FAIL", "policy/deny-s3.rego", "deny-s3-bucket-public-read";
    KeptFields(a, b, c);
    KeptLineJoins(a, b, c, line);
    ThreeFields(a, b, c, FieldSeparator);
    FailureRuleOf([a, b, c]);
  }

  lemma KeptFields(a: string, b: string, c: string)
    requires a == "FAIL" && b == "policy/deny-s3.rego" && c == "deny-s3-bucket-public-read"
    ensures ' ' !in a && ' ' !in b && ' ' !in c && IsStripped(c)
  {
  }

  lemma KeptLineJoins(a: string, b: string, c: string, line: string)
    requires a == "FAIL" && b == "policy/deny-s3.rego" && c == "deny-s3-bucket-public-read"
    requires line == "FAIL - policy/deny-s3.rego - deny-s3-bucket-public-read"
    ensures a + FieldSeparator + b + FieldSeparator + c == line
  {
    var p := "FAIL - policy/deny-s3.rego";
    FirstTwoFields(a, b, p);
    assert p + FieldSeparator + c == line;
  }

  lemma FirstTwoFields(a: string, b: string, p: string)
    requires a == "FAIL" && b == "policy/deny-s3.rego" && p == "FAIL - policy/deny-s3.rego"
    ensures a + FieldSeparator + b == p
  {
  }

  /** Three fields joined, spelled out. */
  lemma ThreeFields(a: string, b: string, c: string, sep: string)
    ensures Join([a, b, c], sep) == a + sep + b + sep + c
    ensures ' ' !in a && ' ' !in b && ' ' !in c ==>
      forall i :: 0 <= i < |[a, b, c]| ==> ' ' !in [a, b, c][i]
  {
    assert [a, b, c][1..] == [b, c];
    assert [b, c][1..] == [c];
    assert Join([b, c], sep) == b + sep + c;
  }

  /** The text a failure line gives under the code as written: the last
      field after the space that precedes it, when the field has no `-`. */
  lemma AsWrittenPiece(fields: seq<string>)
    requires |fields| >= 2 && '-' !in fields[|fields| - 1]
    ensures LastDashPiece(Join(fields, FieldSeparator)) == " " + fields[|fields| - 1]
  {
    var last := fields[|fields| - 1];
    var init := fields[..|fields| - 1];
    var j := Join(init, FieldSeparator);
    assert Join(fields, FieldSeparator) == (j + " ") + "-" + (" " + last) by {
      assert fields == init + [last];
      JoinSnoc(init, last, FieldSeparator);
      SeparatorAround(j, last);
    }
    assert '-' !in " " + last;
    LastDashPieceOf(j + " ", " " + last);
  }

  lemma SeparatorAround(p: string, q: string)
    ensures p + FieldSeparator + q == (p + " ") + "-" + (" " + q)
  {
    assert FieldSeparator == [' ', '-', ' '];
  }

  lemma StripLeadingSpace(t: string)
    requires IsStripped(t)
    ensures Strip(" " + t) == t
  {
    assert (" " + t)[1..] == t;
  }

  /** Where the rule name holds no `-`, the code's extraction and the
      test's agree, except for the space after the separator, which the
      code's piece keeps. */
  lemma DashFreeRuleAgrees(fields: seq<string>)
    requires |fields| >= 3 && fields[0] == "FAIL"
    requires forall i :: 0 <= i < |fields| ==> ' ' !in fields[i]
    requires IsStripped(fields[|fields| - 1]) && '-' !in fields[|fields| - 1]
    ensures var line := Join(fields, FieldSeparator);
      && LastDashPiece(line) == " " + fields[|fields| - 1]
      && FailureRule(line) == Some(Strip(LastDashPiece(line)))
  {
    AsWrittenPiece(fields);
    StripLeadingSpace(fields[|fields| - 1]);
    FailureRuleOf(fields);
  }

  /** The values held by the `Some`s of `opts`, in order. */
  function Somes<T(!new)>(opts: seq<Option<T>>): (r: seq<T>)
    ensures |r| <= |opts|
    ensures forall x :: x in r <==> Some(x) in opts
    decreases |opts|
  {
    if |opts| == 0 then []
    else
      var init, last := opts[..|opts| - 1], opts[|opts| - 1];
      assert opts == init + [last];
      Somes(init) + (if last.Some? then [last.value] else [])
  }

  /** `f` applied to every element of `xs`. */
  function MapSeq<A, B>(f: A -> B, xs: seq<A>): (r: seq<B>)
    ensures |r| == |xs|
    ensures forall i :: 0 <= i < |xs| ==> r[i] == f(xs[i])
    decreases |xs|
  {
    if |xs| == 0 then [] else MapSeq(f, xs[..|xs| - 1]) + [f(xs[|xs| - 1])]
  }

  /** The rule names the unit test collects, line by line, in order. */
  function FailureRules(lines: seq<string>): (r: seq<string>)
    ensures |r| <= |lines|
    ensures forall k :: 0 <= k < |r| ==> IsStripped(r[k]) && !Contains(r[k], FieldSeparator)
  {
    var opts := MapSeq(FailureRule, lines);
    var r := Somes(opts);
    assert forall k :: 0 <= k < |r| ==> IsStripped(r[k]) && !Contains(r[k], FieldSeparator) by {
      forall k | 0 <= k < |r| ensures IsStripped(r[k]) && !Contains(r[k], FieldSeparator) {
        assert Some(r[k]) in opts;
        var i :| 0 <= i < |opts| && opts[i] == Some(r[k]);
        assert FailureRule(lines[i]) == Some(r[k]);
      }
    }
    r
  }

  /** A rule name is collected exactly when some line yields it. */
  lemma FailureRulesMembers(lines: seq<string>, x: string)
    ensures x in FailureRules(lines) <==> exists i :: 0 <= i < |lines| && FailureRule(lines[i]) == Some(x)
  {
    var opts := MapSeq(FailureRule, lines);
    assert FailureRules(lines) == Somes(opts);
    assert x in Somes(opts) <==> Some(x) in opts;
  }

  /** `violated_policies` as the unit test computes it from conftest's
      output. */
  function TestRules(output: string): (r: seq<string>)
    ensures |r| <= |Split(output, '\n')|
    ensures forall k :: 0 <= k < |r| ==> IsStripped(r[k]) && !Contains(r[k], FieldSeparator)
  {
    FailureRules(Split(output, '\n'))
  }

  // ---------------------------------------------------------------------
  // the report

  /** The approval request's data. */
  datatype Report = Report(
    originalFilename: string,
    patchedContent: string,
    violationsDetected: nat,
    validationStatus: Status,
    policyFile: string,
    changes: ChangeSummary,
    rawViolations: string,
    originalValidation: string,
    patchedValidation: string,
    originalSummary: TestSummary,
    patchedSummary: TestSummary,
    specificRules: seq<string>)

  /** Where `generate_report` raises: an index or key lookup that fails, or
      a file it cannot open. */
  datatype ReportError =
    | NoAiMessage
    | NoToolCall
    | MissingArgument(key: string)
    | FileNotFound(path: string)
    | NoToolMessage

  /** The arguments of the first tool call of the first AI message. */
  function FirstToolArgs(messages: seq<Message>): (r: Result<seq<(string, string)>, ReportError>)
    ensures AiMessages(messages) == [] ==> r == Failure(NoAiMessage)
    ensures AiMessages(messages) != [] && AiMessages(messages)[0].toolCalls == [] ==> r == Failure(NoToolCall)
    ensures AiMessages(messages) != [] && AiMessages(messages)[0].toolCalls != [] ==>
      r == Success(AiMessages(messages)[0].toolCalls[0].args)
    ensures r.Success? ==> AiMessages(messages) != [] && r.value == AiMessages(messages)[0].toolCalls[0].args
  {
    var ai := AiMessages(messages);
    if |ai| == 0 then Failure(NoAiMessage)
    else if |ai[0].toolCalls| == 0 then Failure(NoToolCall)
    else Success(ai[0].toolCalls[0].args)
  }

  /** `args[key]`. */
  function Argument(args: seq<(string, string)>, key: string): (r: Result<string, ReportError>)
    ensures r.Failure? <==> key !in Keys(args)
    ensures r.Failure? ==> r.error == MissingArgument(key)
    ensures r.Success? ==> exists i :: 0 <= i < |args| && args[i] == (key, r.value)
  {
    match Get(args, key)
    case None => Failure(MissingArgument(key))
    case Some(v) => Success(v)
  }

  /** Everything `generate_report` looks up is there: the first AI
      message's first tool call, its two arguments, the original and the
      patched file, and a tool message. */
  predicate HasInputs(messages: seq<Message>, dir: Dir) {
    && FirstToolArgs(messages).Success?
    && var args := FirstToolArgs(messages).value;
    && "filename" in Keys(args) && "policy_path" in Keys(args)
    && var filename := Argument(args, "filename").value;
    && Tmp(PatchedName(filename)) in dir
    && Tmp(filename) in dir
    && ToolMessages(messages) != []
  }

  /** How the validation fields of a report follow from the first tool
      output (`before`, the original file's check) and the last (`after`). */
  predicate ReadsOutputs(report: Report, before: string, after: string, remoteFilename: string) {
    && (report.validationStatus == Failed <==> Contains(before, "FAIL"))
    && report.violationsDetected == Count(before, "FAIL")
    && (report.violationsDetected > 0 <==> Contains(before, "FAIL"))
    && report.rawViolations == Replace(before, report.originalFilename, remoteFilename)
    && report.originalValidation == report.rawViolations
    && report.originalSummary == ParseValidationOutput(before)
    && report.patchedSummary == ParseValidationOutput(after)
    && report.patchedValidation == after
    && report.specificRules == SpecificRules(before)
  }

  /** `generate_report(remediation_start, messages, remote_filename)` with
      the scratch directory in place of the file system; both files are
      read in text mode. */
  function GenerateReport(messages: seq<Message>, remoteFilename: string, dir: Dir): (r: Result<Report, ReportError>)
    ensures r.Success? <==> HasInputs(messages, dir)
    ensures FirstToolArgs(messages).Failure? ==> r == Failure(FirstToolArgs(messages).error)
    ensures FirstToolArgs(messages).Success? ==>
      var args := FirstToolArgs(messages).value;
      && ("filename" !in Keys(args) ==> r == Failure(MissingArgument("filename")))
      && ("filename" in Keys(args) && "policy_path" !in Keys(args) ==> r == Failure(MissingArgument("policy_path")))
    ensures (FirstToolArgs(messages).Success? && "filename" in Keys(FirstToolArgs(messages).value)
      && "policy_path" in Keys(FirstToolArgs(messages).value)) ==>
      var filename := Argument(FirstToolArgs(messages).value, "filename").value;
      && (Tmp(PatchedName(filename)) !in dir ==> r == Failure(FileNotFound(Tmp(PatchedName(filename)))))
      && (Tmp(PatchedName(filename)) in dir && Tmp(filename) !in dir ==> r == Failure(FileNotFound(Tmp(filename))))
      && ((Tmp(PatchedName(filename)) in dir && Tmp(filename) in dir && ToolMessages(messages) == [])
            ==> r == Failure(NoToolMessage))
    ensures r.Success? ==>
      && Argument(FirstToolArgs(messages).value, "filename") == Success(r.value.originalFilename)
      && Argument(FirstToolArgs(messages).value, "policy_path") == Success(r.value.policyFile)
      && r.value.patchedContent == UniversalNewlines(dir[Tmp(PatchedName(r.value.originalFilename))])
      && r.value.changes == AnalyzeChanges(UniversalNewlines(dir[Tmp(r.value.originalFilename)]), r.value.patchedContent)
    ensures r.Success? ==> ReadsOutputs(r.value, ToolMessages(messages)[0].content,
                                        ToolMessages(messages)[|ToolMessages(messages)| - 1].content, remoteFilename)
  {
    var args :- FirstToolArgs(messages);
    var filename :- Argument(args, "filename");
    var policyPath :- Argument(args, "policy_path");
    var patchedFilename := PatchedName(filename);
    if Tmp(patchedFilename) !in dir then Failure(FileNotFound(Tmp(patchedFilename)))
    else if Tmp(filename) !in dir then Failure(FileNotFound(Tmp(filename)))
    else
      var patchedContent := UniversalNewlines(dir[Tmp(patchedFilename)]);
      var changes := AnalyzeChanges(UniversalNewlines(dir[Tmp(filename)]), patchedContent);
      var tools := ToolMessages(messages);
      if |tools| == 0 then Failure(NoToolMessage)
      else
        var before := tools[0].content;
        var after := tools[|tools| - 1].content;
        var violations := ViolationsDetected(before);
        var original := Replace(before, filename, remoteFilename);
        Success(Report(
          filename, patchedContent, violations, StatusOf(violations), policyPath, changes,
          original, original, after,
          ParseValidationOutput(before), ParseValidationOutput(after), SpecificRules(before)))
  }

  /** With a single tool message the "before" and "after" outputs are the
      same message, so the two summaries agree. */
  lemma SingleToolMessageSameSummaries(messages: seq<Message>, remoteFilename: string, dir: Dir)
    requires |ToolMessages(messages)| == 1
    ensures var r := GenerateReport(messages, remoteFilename, dir);
      r.Success? ==> r.value.originalSummary == r.value.patchedSummary
  {
    if GenerateReport(messages, remoteFilename, dir).Success? {
      SingleToolMessageReport(messages, remoteFilename, dir);
    }
  }

  lemma SingleToolMessageReport(messages: seq<Message>, remoteFilename: string, dir: Dir)
    requires |ToolMessages(messages)| == 1
    requires GenerateReport(messages, remoteFilename, dir).Success?
    ensures var report := GenerateReport(messages, remoteFilename, dir).value;
      report.originalSummary == report.patchedSummary
  {
    var tools := ToolMessages(messages);
    var report := GenerateReport(messages, remoteFilename, dir).value;
    assert ReadsOutputs(report, tools[0].content, tools[|tools| - 1].content, remoteFilename);
  }

  /** The report names the file as the repository knows it only where the
      local name occurred: output that never mentions the local name is
      reported verbatim. */
  lemma RawViolationsVerbatim(messages: seq<Message>, remoteFilename: string, dir: Dir)
    ensures var r := GenerateReport(messages, remoteFilename, dir);
      r.Success? && |r.value.originalFilename| > 0 && !Contains(ToolMessages(messages)[0].content, r.value.originalFilename)
      ==> r.value.rawViolations == ToolMessages(messages)[0].content
  {
    var r := GenerateReport(messages, remoteFilename, dir);
    if r.Success? && |r.value.originalFilename| > 0 && !Contains(ToolMessages(messages)[0].content, r.value.originalFilename) {
      ReplaceAbsent(ToolMessages(messages)[0].content, r.value.originalFilename, remoteFilename);
    }
  }
}
