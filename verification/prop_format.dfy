/** The `key=value` properties format and its bridge to JSON objects: the
    parse loop shared by `prop2json` (utils/filetype.py, utils/properties.py)
    and `convert` (utils/prop2json.py), and the emit loop shared by the two
    `json2prop` copies. A file is read in text mode, so `\r\n` and a lone
    `\r` end a line just as `\n` does. */
module PropFormat {
  import opened Results
  import opened Strings
  import opened Json

  /** A flat dictionary of strings, pairs in insertion order: what the
      parse loop builds and what the emit loop prints. */
  type Props = seq<(string, string)>

  // ---------------------------------------------------------------------
  // parsing

  /** A line the parse loop skips: blank after trimming, a `#` comment, or
      without any `=`. */
  predicate IsSkipped(raw: string) {
    var line := Strip(raw);
    line == [] || line[0] == '#' || '=' !in line
  }

  /** What one line of a properties file contributes: nothing, or the
      trimmed text before its first `=` as key and the trimmed rest as
      value. */
  function ParseLine(raw: string): (r: Option<(string, string)>)
    ensures r.None? <==> IsSkipped(raw)
    ensures r.Some? ==> IsStripped(r.value.0) && IsStripped(r.value.1)
  {
    var line := Strip(raw);
    if line == [] || line[0] == '#' then None
    else match IndexOf(line, '=')
      case None => None
      case Some(i) => Some((Strip(line[..i]), Strip(line[i + 1..])))
  }

  /** The line was split at its first `=`: the key holds none, the value
      may hold any number. */
  lemma ParsedKeyHasNoEquals(raw: string)
    requires ParseLine(raw).Some?
    ensures '=' !in ParseLine(raw).value.0
  {
    var line := Strip(raw);
    var i := IndexOf(line, '=').value;
    StripKeeps(line[..i], '=');
  }

  /** The line `key=value` reads back as exactly that pair, whatever `=`
      the value holds, provided the key has none, neither part has outer
      whitespace and the key does not start a comment. */
  lemma {:induction false} ParseLineOfEntry(k: string, v: string)
    requires '=' !in k && IsStripped(k) && IsStripped(v)
    requires k == [] || k[0] != '#'
    ensures ParseLine(k + "=" + v) == Some((k, v))
  {
    var line := k + "=" + v;
    assert IsStripped(line);
    assert line[..|k|] == k && line[|k| + 1..] == v;
    IndexOfIs(line, '=', |k|);
  }

  /** Any line is cut at its first `=`, with whatever whitespace around the
      key, the `=` and the value: the key is the trimmed text before that
      `=`, the value the trimmed text after it, unless the trimmed key
      starts a comment. */
  lemma {:induction false} ParseLineCut(before: string, after: string)
    requires '=' !in before
    requires Strip(before) == [] || Strip(before)[0] != '#'
    ensures ParseLine(before + "=" + after) == Some((Strip(before), Strip(after)))
  {
    var a, n := StripAroundMark(before, '=', after);
    var line := Strip(before + "=" + after);
    var key := before[a..];
    assert line == key + "=" + after[..n];
    assert line[..|key|] == key && line[|key| + 1..] == after[..n];
    IndexOfIs(line, '=', |key|);
    StripDropFront(before, a);
    StripDropBack(after, n);
    if key != [] {
      StripKeepsFirst(key);
    }
  }

  /** One turn of the parse loop: the line's assignment, if it has one,
      applied to the dictionary built so far. */
  function Assign(acc: Props, line: string): (r: Props)
    ensures UniqueKeys(acc) ==> UniqueKeys(r)
  {
    match ParseLine(line)
    case None => acc
    case Some((k, v)) => Set(acc, k, v)
  }

  /** The parse loop over a file's lines: each contributing line assigns
      its key, so a later duplicate overwrites the value in place. */
  function ParseLines(lines: seq<string>): (r: Props)
    ensures UniqueKeys(r)
    decreases |lines|
  {
    if |lines| == 0 then []
    else Assign(ParseLines(lines[..|lines| - 1]), lines[|lines| - 1])
  }

  lemma ParseLinesSnoc(init: seq<string>, last: string)
    ensures ParseLines(init + [last]) == Assign(ParseLines(init), last)
  {
    assert (init + [last])[..|init|] == init;
  }

  /** The lines `for line in f` yields from a file opened in text mode,
      without their line ends. */
  function TextLines(text: string): (lines: seq<string>)
    ensures forall i :: 0 <= i < |lines| ==> '\n' !in lines[i] && '\r' !in lines[i]
    ensures '\r' !in text ==> lines == Split(text, '\n')
  {
    var t := UniversalNewlines(text);
    var lines := Split(t, '\n');
    forall i | 0 <= i < |lines| ensures '\r' !in lines[i] {
      JoinChars(lines, "\n", '\r');
    }
    lines
  }

  /** Lines written with `\n`, `\r\n` or `\r` line ends read back as the
      same lines. */
  lemma TextLinesOfJoin(lines: seq<string>, nl: string)
    requires nl == "\r\n" || nl == "\r" || nl == "\n"
    requires |lines| >= 1
    requires forall i :: 0 <= i < |lines| ==> '\n' !in lines[i] && '\r' !in lines[i]
    ensures TextLines(Join(lines, nl)) == lines
  {
    UniversalNewlinesJoin(lines, nl);
    SplitJoin(lines, '\n');
  }

  /** The parse loop of `prop2json` and `convert` on the contents of a
      properties file. */
  function Parse(text: string): (p: Props)
    ensures UniqueKeys(p)
    ensures forall k :: k in Keys(p) <==> exists i :: 0 <= i < |TextLines(text)| && Defines(TextLines(text)[i], k)
  {
    var lines := TextLines(text);
    var p := ParseLines(lines);
    assert forall k :: k in Keys(p) <==> exists i :: 0 <= i < |lines| && Defines(lines[i], k) by {
      forall k ensures k in Keys(p) <==> exists i :: 0 <= i < |lines| && Defines(lines[i], k) {
        ParseLinesHasKey(lines, k);
      }
    }
    p
  }

  /** `line` assigns key `k`. */
  predicate Defines(line: string, k: string) {
    ParseLine(line).Some? && ParseLine(line).value.0 == k
  }

  /** A key is present exactly when some line assigns it. */
  lemma {:induction false} ParseLinesHasKey(lines: seq<string>, k: string)
    ensures k in Keys(ParseLines(lines)) <==> exists i :: 0 <= i < |lines| && Defines(lines[i], k)
    decreases |lines|
  {
    if |lines| > 0 {
      var init := lines[..|lines| - 1];
      var last := lines[|lines| - 1];
      ParseLinesHasKey(init, k);
      assert lines == init + [last];
      ParseLinesSnoc(init, last);
      var acc := ParseLines(init);
      var p := ParseLine(last);
      if p.Some? && p.value.0 != k {
        SetOther(acc, p.value.0, p.value.1, k);
      }
      if exists i :: 0 <= i < |lines| && Defines(lines[i], k) {
        var i :| 0 <= i < |lines| && Defines(lines[i], k);
        if i < |init| {
          assert Defines(init[i], k);
        }
      }
    }
  }

  /** The last line that assigns a key decides its value. */
  lemma {:induction false} LastAssignmentWins(lines: seq<string>, k: string, i: nat)
    requires i < |lines| && Defines(lines[i], k)
    requires forall j :: i < j < |lines| ==> !Defines(lines[j], k)
    ensures Get(ParseLines(lines), k) == Some(ParseLine(lines[i]).value.1)
    decreases |lines|
  {
    var init := lines[..|lines| - 1];
    var last := lines[|lines| - 1];
    assert lines == init + [last];
    ParseLinesSnoc(init, last);
    if i < |lines| - 1 {
      assert init[i] == lines[i];
      LastAssignmentWins(init, k, i);
      var p := ParseLine(last);
      if p.Some? {
        SetOther(ParseLines(init), p.value.0, p.value.1, k);
      }
    }
  }

  /** A line the loop skips can be dropped from anywhere in the file. */
  lemma {:induction false} SkippedLineContributesNothing(a: seq<string>, line: string, b: seq<string>)
    requires IsSkipped(line)
    ensures ParseLines(a + [line] + b) == ParseLines(a + b)
    decreases |b|
  {
    if |b| == 0 {
      assert a + [line] + b == a + [line];
      assert a + b == a;
      ParseLinesSnoc(a, line);
    } else {
      var b' := b[..|b| - 1];
      var last := b[|b| - 1];
      SkippedLineContributesNothing(a, line, b');
      assert a + [line] + b == (a + [line] + b') + [last];
      assert a + b == (a + b') + [last];
      ParseLinesSnoc(a + [line] + b', last);
      ParseLinesSnoc(a + b', last);
    }
  }

  /** The keys a file assigns, line by line, duplicates included. */
  function AssignedKeys(lines: seq<string>): seq<string>
    decreases |lines|
  {
    if |lines| == 0 then []
    else
      var init := AssignedKeys(lines[..|lines| - 1]);
      match ParseLine(lines[|lines| - 1])
      case None => init
      case Some((k, _)) => init + [k]
  }

  /** The first occurrence of every element, in order. */
  function FirstOccurrences(ks: seq<string>): seq<string>
    decreases |ks|
  {
    if |ks| == 0 then []
    else
      var init := FirstOccurrences(ks[..|ks| - 1]);
      if ks[|ks| - 1] in init then init else init + [ks[|ks| - 1]]
  }

  /** The dictionary's keys appear in the order in which the file first
      assigns them: a later duplicate does not move its key. */
  lemma {:induction false} KeysInFirstAssignmentOrder(lines: seq<string>)
    ensures Keys(ParseLines(lines)) == FirstOccurrences(AssignedKeys(lines))
    decreases |lines|
  {
    if |lines| > 0 {
      var init := lines[..|lines| - 1];
      KeysInFirstAssignmentOrder(init);
      var p := ParseLine(lines[|lines| - 1]);
      if p.Some? {
        var acc := ParseLines(init);
        if p.value.0 !in Keys(acc) {
          assert Keys(acc + [p.value]) == Keys(acc) + [p.value.0];
        }
      }
    }
  }

  // ---------------------------------------------------------------------
  // emitting

  /** The pairs a nested member `key` prints: one `key.sub` per field. */
  function Dotted(key: string, fields: seq<(string, string)>): (r: Props)
    ensures |r| == |fields|
    ensures forall i :: 0 <= i < |fields| ==> r[i] == (key + "." + fields[i].0, fields[i].1)
    decreases |fields|
  {
    if |fields| == 0 then []
    else Dotted(key, fields[..|fields| - 1]) + [(key + "." + fields[|fields| - 1].0, fields[|fields| - 1].1)]
  }

  /** The pairs the emit loop prints, in the object's order: a string
      member as itself, a nested member as its dotted fields. */
  function Entries(m: Object): (r: Props)
    ensures (forall i :: 0 <= i < |m| ==> m[i].1.Str?) ==>
      |r| == |m| && forall i :: 0 <= i < |m| ==> r[i] == (m[i].0, m[i].1.text)
    decreases |m|
  {
    if |m| == 0 then []
    else
      var (k, v) := m[|m| - 1];
      Entries(m[..|m| - 1]) + match v
        case Str(s) => [(k, s)]
        case Obj(fields) => Dotted(k, fields)
  }

  /** One printed line, `key=value`. */
  function Line(e: (string, string)): string {
    e.0 + "=" + e.1
  }

  /** One line per pair, in order. */
  function Lines(p: Props): (r: seq<string>)
    ensures |r| == |p|
    ensures forall i :: 0 <= i < |p| ==> r[i] == Line(p[i])
    decreases |p|
  {
    if |p| == 0 then [] else Lines(p[..|p| - 1]) + [Line(p[|p| - 1])]
  }

  /** The emit loop of `json2prop`: the lines joined by `\n`, no newline
      after the last. */
  function Emit(m: Object): (text: string)
    ensures |Entries(m)| == 0 ==> text == []
    ensures |Entries(m)| > 0 && (forall i :: 0 <= i < |Entries(m)| ==> '\n' !in Line(Entries(m)[i])) ==>
      Split(text, '\n') == Lines(Entries(m))
  {
    var lines := Lines(Entries(m));
    if |lines| > 0 && forall i :: 0 <= i < |lines| ==> '\n' !in lines[i] then
      SplitJoin(lines, '\n');
      Join(lines, "\n")
    else Join(lines, "\n")
  }

  /** The JSON object `prop2json` writes for a parsed dictionary: every
      value a string. */
  function ToObject(p: Props): (m: Object)
    ensures |m| == |p|
    ensures forall i :: 0 <= i < |p| ==> m[i] == (p[i].0, Str(p[i].1))
    decreases |p|
  {
    if |p| == 0 then [] else ToObject(p[..|p| - 1]) + [(p[|p| - 1].0, Str(p[|p| - 1].1))]
  }

  /** An object of strings prints exactly its own pairs. */
  lemma {:induction false} EntriesOfToObject(p: Props)
    ensures Entries(ToObject(p)) == p
    decreases |p|
  {
    if |p| > 0 {
      var m := ToObject(p);
      assert m[..|m| - 1] == ToObject(p[..|p| - 1]);
      EntriesOfToObject(p[..|p| - 1]);
    }
  }

  /** A key the format can carry: no `=`, no line break (`\n` or `\r`), no
      outer whitespace, not starting a comment. */
  predicate SafeKey(k: string) {
    '=' !in k && '\n' !in k && '\r' !in k && IsStripped(k) && (k == [] || k[0] != '#')
  }

  /** A value the format can carry: no line break (`\n` or `\r`), no outer
      whitespace. */
  predicate SafeText(v: string) {
    '\n' !in v && '\r' !in v && IsStripped(v)
  }

  /** A dictionary whose every pair survives the trip through the format. */
  predicate Portable(p: Props) {
    && UniqueKeys(p)
    && forall i :: 0 <= i < |p| ==> SafeKey(p[i].0) && SafeText(p[i].1)
  }

  /** Every pair a line yields is one the format can carry again. */
  lemma ParsedPairIsSafe(raw: string)
    requires '\n' !in raw && '\r' !in raw && ParseLine(raw).Some?
    ensures SafeKey(ParseLine(raw).value.0) && SafeText(ParseLine(raw).value.1)
  {
    var line := Strip(raw);
    var i := IndexOf(line, '=').value;
    var k := Strip(line[..i]);
    ParsedKeyHasNoEquals(raw);
    StripKeeps(raw, '\n');
    StripKeeps(raw, '\r');
    assert '\n' !in line[..i] && '\n' !in line[i + 1..] && '\r' !in line[..i] && '\r' !in line[i + 1..] by {
      forall j | 0 <= j < |line| ensures line[j] != '\n' && line[j] != '\r' {
      }
    }
    StripKeeps(line[..i], '\n');
    StripKeeps(line[i + 1..], '\n');
    StripKeeps(line[..i], '\r');
    StripKeeps(line[i + 1..], '\r');
    if k != [] {
      var a, b := StripSlice(line[..i]);
      assert k[0] == line[0];
    }
  }

  /** Whatever the file, the parsed dictionary is portable. */
  lemma {:induction false} ParseLinesPortable(lines: seq<string>)
    requires forall i :: 0 <= i < |lines| ==> '\n' !in lines[i] && '\r' !in lines[i]
    ensures Portable(ParseLines(lines))
    decreases |lines|
  {
    if |lines| > 0 {
      var init := lines[..|lines| - 1];
      var last := lines[|lines| - 1];
      ParseLinesPortable(init);
      assert lines == init + [last];
      ParseLinesSnoc(init, last);
      var p := ParseLine(last);
      if p.Some? {
        ParsedPairIsSafe(last);
        SetPairs(ParseLines(init), p.value.0, p.value.1);
      }
    }
  }

  lemma ParsedIsPortable(text: string)
    ensures Portable(Parse(text))
  {
    ParseLinesPortable(TextLines(text));
  }

  /** Parsing the printed lines of a portable dictionary gives it back,
      pairs in the same order. */
  lemma {:induction false} ParseLinesOfLines(p: Props)
    requires Portable(p)
    ensures ParseLines(Lines(p)) == p
    decreases |p|
  {
    if |p| > 0 {
      var init := p[..|p| - 1];
      var k, v := p[|p| - 1].0, p[|p| - 1].1;
      assert p == init + [(k, v)];
      PortablePrefix(p);
      ParseLinesOfLines(init);
      var line := Line((k, v));
      assert Lines(p) == Lines(init) + [line];
      ParseLinesSnoc(Lines(init), line);
      assert SafeKey(k) && SafeText(v);
      ParseLineOfEntry(k, v);
      assert k !in Keys(init) by {
        forall j | 0 <= j < |init| ensures Keys(init)[j] != k {
          assert init[j] == p[j];
        }
      }
      assert Assign(init, line) == Set(init, k, v);
    }
  }

  /** Dropping the last pair keeps a dictionary portable. */
  lemma PortablePrefix(p: Props)
    requires |p| > 0 && Portable(p)
    ensures Portable(p[..|p| - 1])
  {
  }

  /** Round trip: `prop2json(json2prop(d)) == d` for every portable
      dictionary of strings, order included. */
  lemma EmitThenParse(p: Props)
    requires Portable(p)
    ensures Parse(Emit(ToObject(p))) == p
  {
    EntriesOfToObject(p);
    var lines := Lines(p);
    if |p| == 0 {
      SplitSingle("", '\n');
      assert ParseLines([""]) == ParseLines([""][..0]);
    } else {
      forall i | 0 <= i < |lines| ensures '\n' !in lines[i] && '\r' !in lines[i] {
        assert lines[i] == p[i].0 + "=" + p[i].1;
      }
      JoinChars(lines, "\n", '\r');
      SplitJoin(lines, '\n');
      ParseLinesOfLines(p);
    }
  }

  /** Nesting does not survive: an object with nested members comes back
      flat, every field under the dotted key `key.sub`. */
  lemma NestedComesBackFlat(m: Object)
    requires Portable(Entries(m))
    ensures Parse(Emit(m)) == Entries(m)
  {
    EmitThenParse(Entries(m));
    EntriesOfToObject(Entries(m));
  }

  /** Parsing is a normalisation: converting the parsed dictionary back to
      properties text and parsing that again changes nothing. */
  lemma ParseIsStable(text: string)
    ensures Parse(Emit(ToObject(Parse(text)))) == Parse(text)
  {
    ParsedIsPortable(text);
    EmitThenParse(Parse(text));
  }
}
