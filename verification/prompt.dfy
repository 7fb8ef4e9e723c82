/** The question the entry point puts to the agents (main.py), and the
    round trip that makes the remediation node work: the file name the
    prompt carries is the one `get_filename_from_state` reads back. */
module Prompt {
  import opened Results
  import opened Strings
  import opened Messages
  import opened Remediation

  const Intro := "This is the file content:\n"
  const Ask := "What are the recommended changes "
  const Against := "\" against the policy in "

  /** `run_agents`' prompt: the file's contents after an introductory line,
      then the question naming the file in double quotes and the policy. */
  function BuildPrompt(contents: string, filename: string, policyPath: string): (p: string)
    ensures IsPrefix(Intro + contents, p)
    ensures EndsWith(p, Against + policyPath + "?")
    ensures Contains(p, FilePhrase + filename + Against)
  {
    PromptShape(Intro + contents, Ask, FilePhrase, filename, Against, policyPath, "?");
    Intro + contents + Ask + FilePhrase + filename + Against + policyPath + "?"
  }

  /** Where the parts of a text of the prompt's shape sit. */
  lemma PromptShape(a: string, b: string, f: string, n: string, g: string, h: string, q: string)
    ensures IsPrefix(a, a + b + f + n + g + h + q)
    ensures Contains(a + b + f + n + g + h + q, f + n + g)
    ensures EndsWith(a + b + f + n + g + h + q, g + h + q)
  {
    var p := a + b + f + n + g + h + q;
    assert p == a + (b + f + n + g + h + q);
    assert p == (a + b) + (f + n + g) + (h + q);
    ContainsMiddle(a + b, f + n + g, h + q);
    assert p == (a + b + f + n) + (g + h + q);
  }

  /** The literal facts the round trip rests on. */
  lemma PromptLiterals()
    ensures |FilePhrase| == 15 && FilePhrase[14] == '"' && '"' !in FilePhrase[..14] && '\n' !in FilePhrase
    ensures |Intro| > 0 && Intro[|Intro| - 1] == '\n' && '"' !in Intro
    ensures '"' !in Ask
    ensures |Against| > 0 && Against[0] == '"'
    ensures Marker == Ask + FilePhrase[..13]
  {
    assert FilePhrase[..14] == "for this file ";
  }

  /** In `i + c + a + FilePhrase + rest` no occurrence of the phrase starts
      before the one after `a`, provided `c` does not contain it, `i` and
      `a` hold no `"` and `i` ends in a newline. */
  lemma {:induction false} NoEarlierPhrase(i: string, c: string, a: string, rest: string, k: nat)
    requires |FilePhrase| == 15 && FilePhrase[14] == '"' && '"' !in FilePhrase[..14] && '\n' !in FilePhrase
    requires |i| > 0 && i[|i| - 1] == '\n' && '"' !in i && '"' !in a
    requires !Contains(c, FilePhrase)
    requires k < |i| + |c| + |a|
    ensures !OccursAt(i + c + a + FilePhrase + rest, FilePhrase, k)
  {
    var s := i + c + a + FilePhrase + rest;
    var t := |i| + |c| + |a|;
    var e := k + 14;
    if e >= |s| {
    } else if e < |i| {
      assert s[e] == i[e];
      assert s[k..k + 15][14] != FilePhrase[14];
    } else if e >= t {
      assert s[e] == FilePhrase[..14][e - t];
      assert s[k..k + 15][14] != FilePhrase[14];
    } else if e >= |i| + |c| {
      assert s[e] == a[e - |i| - |c|];
      assert s[k..k + 15][14] != FilePhrase[14];
    } else if k >= |i| {
      assert c[k - |i|..k - |i| + 15] == s[k..k + 15];
      assert !OccursAt(c, FilePhrase, k - |i|);
    } else {
      assert s[|i| - 1] == i[|i| - 1];
      assert s[k..k + 15][|i| - 1 - k] != FilePhrase[|i| - 1 - k];
    }
  }

  /** After the phrase comes the file name and then a `"`: the pattern
      matches there and its group is the name. */
  lemma {:induction false} GroupAfterPhrase(pre: string, f: string, rest: string)
    requires |f| > 0 && '"' !in f && |rest| > 0 && rest[0] == '"'
    ensures var s := pre + FilePhrase + f + rest;
      MatchesAt(s, |pre|) && GroupAt(s, |pre|) == f
  {
    var s := pre + FilePhrase + f + rest;
    var j := |pre| + |FilePhrase|;
    assert s[|pre|..j] == FilePhrase;
    assert s[j..j + |f|] == f;
    forall k | j <= k < j + |f| ensures s[k] != '"' {
      assert s[k] == f[k - j];
    }
    assert s[j + |f|] == rest[0];
  }

  /** The round trip: a prompt whose file name is non-empty and free of
      `"`, over contents that do not themselves contain `for this file "`,
      gives that name back. */
  lemma PromptNamesFile(contents: string, filename: string, policyPath: string)
    requires |filename| > 0 && '"' !in filename
    requires !Contains(contents, FilePhrase)
    ensures GetFilenameFromState([Human(BuildPrompt(contents, filename, policyPath), None)]) == Success(filename)
  {
    PromptLiterals();
    var rest := Against + policyPath + "?";
    assert BuildPrompt(contents, filename, policyPath) == Intro + contents + Ask + FilePhrase + filename + rest;
    NamedAfter(Intro, contents, Ask, filename, rest);
  }

  /** The round trip for any text of the prompt's shape `i + c + a` then
      the phrase, the name and a closing `"`. */
  lemma NamedAfter(i: string, c: string, a: string, f: string, rest: string)
    requires |FilePhrase| == 15 && FilePhrase[14] == '"' && '"' !in FilePhrase[..14] && '\n' !in FilePhrase
    requires |i| > 0 && i[|i| - 1] == '\n' && '"' !in i && '"' !in a
    requires Marker == a + FilePhrase[..13]
    requires !Contains(c, FilePhrase)
    requires |f| > 0 && '"' !in f && |rest| > 0 && rest[0] == '"'
    ensures GetFilenameFromState([Human(i + c + a + FilePhrase + f + rest, None)]) == Success(f)
  {
    var pre := i + c + a;
    var s := pre + FilePhrase + f + rest;
    GroupAfterPhrase(pre, f, rest);
    assert s == i + c + a + FilePhrase + (f + rest);
    forall k: nat | k < |pre| ensures !MatchesAt(s, k) {
      NoEarlierPhrase(i, c, a, f + rest, k);
    }
    FileGroupIsLeftmost(s, |pre|);
    MarkerInside(i + c, a, FilePhrase, f, rest, 13);
    var m := Human(s, None);
    assert NamesFile(m);
    assert [m][0] == m;
  }

  lemma MarkerInside(x: string, a: string, fp: string, y1: string, y2: string, n: nat)
    requires n <= |fp|
    ensures Contains(x + a + fp + y1 + y2, a + fp[..n])
  {
    ContainsMiddle(x, a + fp[..n], fp[n..] + y1 + y2);
    assert fp == fp[..n] + fp[n..];
    assert x + a + fp + y1 + y2 == x + (a + fp[..n]) + (fp[n..] + y1 + y2);
  }

  /** The same holds in a whole conversation, whatever follows the prompt,
      as long as no later message names a file. */
  lemma ConversationNamesFile(contents: string, filename: string, policyPath: string, later: seq<Message>)
    requires |filename| > 0 && '"' !in filename
    requires !Contains(contents, FilePhrase)
    requires forall j :: 0 <= j < |later| ==> !NamesFile(later[j])
    ensures GetFilenameFromState([Human(BuildPrompt(contents, filename, policyPath), None)] + later) == Success(filename)
  {
    PromptNamesFile(contents, filename, policyPath);
    LaterMessagesIgnored([Human(BuildPrompt(contents, filename, policyPath), None)], later);
  }
}
