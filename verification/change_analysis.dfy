/** `analyze_changes` (agents/reporting.py): a line-set difference between
    the original and the patched text. Both texts are normalised (each line
    stripped, blank lines dropped); the patched lines missing from the
    original are reported as ADDED, in patched order, and then the original
    lines missing from the patched text as REMOVED, in original order. The
    two file reads become the two texts. */
module ChangeAnalysis {
  import opened Strings

  datatype ChangeKind = Added | Removed

  /** One entry of `changes_detail`: its `type`, `content` and
      `description`. */
  datatype Change = Change(kind: ChangeKind, content: string, description: string)

  datatype ChangeSummary = ChangeSummary(totalChanges: nat, changesDetail: seq<Change>)

  function Label(kind: ChangeKind): string {
    match kind
    case Added => "Added: "
    case Removed => "Removed: "
  }

  /** `[line.strip() for line in lines if line.strip()]`. */
  function Normalize(lines: seq<string>): (r: seq<string>)
    ensures |r| <= |lines|
    ensures forall i :: 0 <= i < |r| ==> r[i] != [] && IsStripped(r[i])
    decreases |lines|
  {
    if |lines| == 0 then []
    else
      var init := Normalize(lines[..|lines| - 1]);
      var line := Strip(lines[|lines| - 1]);
      if line == [] then init else init + [line]
  }

  /** The normalised lines of a text. */
  function NormalizedLines(text: string): (r: seq<string>)
    ensures |r| <= |Split(text, '\n')|
    ensures forall i :: 0 <= i < |r| ==> r[i] != [] && IsStripped(r[i]) && '\n' !in r[i]
  {
    var lines := Split(text, '\n');
    var r := Normalize(lines);
    assert forall i :: 0 <= i < |r| ==> '\n' !in r[i] by {
      forall i | 0 <= i < |r| ensures '\n' !in r[i] {
        NormalizeMembers(lines, r[i]);
        var j :| 0 <= j < |lines| && Strip(lines[j]) == r[i];
        StripKeeps(lines[j], '\n');
      }
    }
    r
  }

  /** A normalised line is exactly a non-blank line of the input, stripped. */
  lemma {:induction false} NormalizeMembers(lines: seq<string>, x: string)
    ensures x in Normalize(lines) <==> x != [] && exists i :: 0 <= i < |lines| && Strip(lines[i]) == x
    decreases |lines|
  {
    if |lines| > 0 {
      var init := lines[..|lines| - 1];
      NormalizeMembers(init, x);
      assert forall i :: 0 <= i < |init| ==> init[i] == lines[i];
      if exists i :: 0 <= i < |lines| && Strip(lines[i]) == x {
        var i :| 0 <= i < |lines| && Strip(lines[i]) == x;
        if i < |init| {
          assert Strip(init[i]) == x;
        }
      }
    }
  }

  /** One loop of `analyze_changes`: an entry of `kind` for every line of
      `xs` that `ys` lacks, in the order of `xs`. */
  function Missing(xs: seq<string>, ys: seq<string>, kind: ChangeKind): (r: seq<Change>)
    ensures forall i :: 0 <= i < |r| ==> r[i].kind == kind && r[i].content in xs && r[i].content !in ys
    ensures forall i :: 0 <= i < |r| ==> r[i].description == Label(kind) + r[i].content
    decreases |xs|
  {
    if |xs| == 0 then []
    else
      var init := Missing(xs[..|xs| - 1], ys, kind);
      var line := xs[|xs| - 1];
      if line in ys then init else init + [Change(kind, line, Label(kind) + line)]
  }

  /** `analyze_changes` on the two file texts. */
  function AnalyzeChanges(original: string, patched: string): (r: ChangeSummary)
    ensures r.totalChanges == |r.changesDetail|
    ensures forall i, j :: 0 <= i < j < |r.changesDetail| && r.changesDetail[j].kind == Added ==> r.changesDetail[i].kind == Added
    ensures forall i :: 0 <= i < |r.changesDetail| ==>
      var c := r.changesDetail[i];
      c.content != [] && IsStripped(c.content) && c.description == Label(c.kind) + c.content
  {
    var o := NormalizedLines(original);
    var p := NormalizedLines(patched);
    var detail := Missing(p, o, Added) + Missing(o, p, Removed);
    ChangeSummary(|detail|, detail)
  }

  // ---------------------------------------------------------------------
  // reference definitions

  /** The elements of `xs` that `ys` lacks, in order: a plain filter. */
  function Without(xs: seq<string>, ys: seq<string>): (r: seq<string>)
    ensures forall x :: x in r <==> x in xs && x !in ys
    decreases |xs|
  {
    if |xs| == 0 then []
    else if xs[0] in ys then Without(xs[1..], ys)
    else [xs[0]] + Without(xs[1..], ys)
  }

  /** The contents of the entries of one kind, in order. */
  function ContentsOf(cs: seq<Change>, kind: ChangeKind): seq<string>
    decreases |cs|
  {
    if |cs| == 0 then []
    else (if cs[0].kind == kind then [cs[0].content] else []) + ContentsOf(cs[1..], kind)
  }

  lemma {:induction false} ContentsOfAppend(a: seq<Change>, b: seq<Change>, kind: ChangeKind)
    ensures ContentsOf(a + b, kind) == ContentsOf(a, kind) + ContentsOf(b, kind)
    decreases |a|
  {
    if |a| == 0 {
      assert a + b == b;
    } else {
      assert (a + b)[1..] == a[1..] + b;
      ContentsOfAppend(a[1..], b, kind);
    }
  }

  lemma {:induction false} WithoutAppend(xs: seq<string>, x: string, ys: seq<string>)
    ensures Without(xs + [x], ys) == Without(xs, ys) + (if x in ys then [] else [x])
    decreases |xs|
  {
    if |xs| == 0 {
      assert [x][1..] == [];
    } else {
      assert (xs + [x])[1..] == xs[1..] + [x];
      WithoutAppend(xs[1..], x, ys);
    }
  }

  lemma MissingSnoc(init: seq<string>, x: string, ys: seq<string>, kind: ChangeKind)
    ensures Missing(init + [x], ys, kind) ==
      Missing(init, ys, kind) + if x in ys then [] else [Change(kind, x, Label(kind) + x)]
  {
    assert (init + [x])[..|init|] == init;
  }

  /** The entries `Missing` builds are those of a filter. */
  lemma {:induction false} MissingContents(xs: seq<string>, ys: seq<string>, kind: ChangeKind)
    ensures ContentsOf(Missing(xs, ys, kind), kind) == Without(xs, ys)
    decreases |xs|
  {
    if |xs| > 0 {
      var init := xs[..|xs| - 1];
      var x := xs[|xs| - 1];
      MissingContents(init, ys, kind);
      assert xs == init + [x];
      MissingSnoc(init, x, ys, kind);
      WithoutAppend(init, x, ys);
      if x !in ys {
        var e := Change(kind, x, Label(kind) + x);
        ContentsOfAppend(Missing(init, ys, kind), [e], kind);
        assert ContentsOf([e], kind) == [x] by {
          assert [e][1..] == [];
        }
      }
    }
  }

  /** A list of entries of one kind has no contents of another. */
  lemma {:induction false} ContentsOfOtherKind(cs: seq<Change>, kind: ChangeKind)
    requires forall i :: 0 <= i < |cs| ==> cs[i].kind != kind
    ensures ContentsOf(cs, kind) == []
    decreases |cs|
  {
    if |cs| > 0 {
      ContentsOfOtherKind(cs[1..], kind);
    }
  }

  /** ADDED lists, in patched order, the normalised patched lines the
      original lacks; REMOVED lists, in original order, the normalised
      original lines the patch lacks. */
  lemma ChangesAreLineDifferences(original: string, patched: string)
    ensures var r := AnalyzeChanges(original, patched);
      && ContentsOf(r.changesDetail, Added) == Without(NormalizedLines(patched), NormalizedLines(original))
      && ContentsOf(r.changesDetail, Removed) == Without(NormalizedLines(original), NormalizedLines(patched))
  {
    var o := NormalizedLines(original);
    var p := NormalizedLines(patched);
    MissingContents(p, o, Added);
    MissingContents(o, p, Removed);
    ContentsOfOtherKind(Missing(p, o, Added), Removed);
    ContentsOfOtherKind(Missing(o, p, Removed), Added);
    ContentsOfAppend(Missing(p, o, Added), Missing(o, p, Removed), Added);
    ContentsOfAppend(Missing(p, o, Added), Missing(o, p, Removed), Removed);
  }

  /** Swapping the files swaps the roles: what was added becomes what was
      removed, in the same order. */
  lemma AntiSymmetry(original: string, patched: string)
    ensures ContentsOf(AnalyzeChanges(original, patched).changesDetail, Added)
         == ContentsOf(AnalyzeChanges(patched, original).changesDetail, Removed)
    ensures ContentsOf(AnalyzeChanges(original, patched).changesDetail, Removed)
         == ContentsOf(AnalyzeChanges(patched, original).changesDetail, Added)
  {
    ChangesAreLineDifferences(original, patched);
    ChangesAreLineDifferences(patched, original);
  }

  lemma {:induction false} MissingEmpty(xs: seq<string>, ys: seq<string>, kind: ChangeKind)
    ensures Missing(xs, ys, kind) == [] <==> forall x :: x in xs ==> x in ys
    decreases |xs|
  {
    if |xs| > 0 {
      var init := xs[..|xs| - 1];
      MissingEmpty(init, ys, kind);
      assert xs == init + [xs[|xs| - 1]];
    }
  }

  /** There are no changes exactly when the two files have the same set of
      normalised lines, whatever their order or repetition. */
  lemma NoChangesIffSameLines(original: string, patched: string)
    ensures AnalyzeChanges(original, patched).changesDetail == [] <==>
      (set x | x in NormalizedLines(original)) == (set x | x in NormalizedLines(patched))
  {
    var o := NormalizedLines(original);
    var p := NormalizedLines(patched);
    var so := set x | x in o;
    var sp := set x | x in p;
    MissingEmpty(p, o, Added);
    MissingEmpty(o, p, Removed);
    var detail := Missing(p, o, Added) + Missing(o, p, Removed);
    assert detail == [] <==> Missing(p, o, Added) == [] && Missing(o, p, Removed) == [];
    if so == sp {
      assert forall x :: x in p ==> x in sp;
      assert forall x :: x in o ==> x in so;
    }
    if detail == [] {
      assert forall x :: x in so <==> x in sp;
    }
  }

  /** `x` is, once stripped, one of the lines of `text`. */
  predicate IsLineOf(text: string, x: string) {
    var lines := Split(text, '\n');
    exists i :: 0 <= i < |lines| && Strip(lines[i]) == x
  }

  lemma NormalizedLinesMembers(text: string, x: string)
    ensures x in NormalizedLines(text) <==> x != [] && IsLineOf(text, x)
  {
    NormalizeMembers(Split(text, '\n'), x);
  }

  /** Which lines are reported, stated on the texts themselves: an ADDED
      entry for `x` exactly when `x` is a stripped non-blank line of the
      patched text and of no line of the original; a REMOVED entry the
      other way round. */
  lemma ReportedLines(original: string, patched: string, x: string)
    ensures x in ContentsOf(AnalyzeChanges(original, patched).changesDetail, Added) <==>
      x != [] && IsLineOf(patched, x) && !IsLineOf(original, x)
    ensures x in ContentsOf(AnalyzeChanges(original, patched).changesDetail, Removed) <==>
      x != [] && IsLineOf(original, x) && !IsLineOf(patched, x)
  {
    ChangesAreLineDifferences(original, patched);
    NormalizedLinesMembers(patched, x);
    NormalizedLinesMembers(original, x);
  }
}
