/** The scratch directory `tmp/` every component reads and writes, and the
    `<base>_patched<ext>` naming rule the remediation node, the report and
    the filetype wrapper share. */
module Workspace {
  import opened Strings

  /** The scratch directory's files: path to text. */
  type Dir = map<string, string>

  /** The path of a file in the scratch directory. */
  function Tmp(name: string): string {
    "tmp/" + name
  }

  /** `f"{base_name}_patched{extension}"` with `base_name, extension =
      os.path.splitext(filename)`. */
  function PatchedName(filename: string): (r: string)
    ensures SplitExt(r) == (SplitExt(filename).0 + "_patched", SplitExt(filename).1)
  {
    var (base, ext) := SplitExt(filename);
    SplitExtOfPatched(filename);
    base + "_patched" + ext
  }

  lemma SplitExtOfPatched(filename: string)
    ensures var (base, ext) := SplitExt(filename);
      SplitExt(base + "_patched" + ext) == (base + "_patched", ext)
  {
    SuffixLiterals();
    SplitExtOfInsert(filename, "_patched");
  }

  /** Inserting a suffix without `.` or `/` but with some other character
      between stem and extension keeps the extension. */
  lemma SplitExtOfInsert(filename: string, sfx: string)
    requires '/' !in sfx && '.' !in sfx && HasNonDot(sfx)
    ensures var (base, ext) := SplitExt(filename);
      SplitExt(base + sfx + ext) == (base + sfx, ext)
  {
    var (base, ext) := SplitExt(filename);
    if ext == [] {
      assert base == filename;
      AppendKeepsNoExtension(filename, sfx);
      assert base + sfx + ext == filename + sfx;
    } else {
      HasNamedStemAppend(base, sfx);
      SplitExtOfJoin(base + sfx, ext);
    }
  }

  /** A name without an extension still has none once a suffix without
      `.` or `/` is appended. */
  lemma AppendKeepsNoExtension(p: string, sfx: string)
    requires '/' !in sfx && '.' !in sfx
    requires SplitExt(p).1 == []
    ensures SplitExt(p + sfx) == (p + sfx, [])
  {
    var q := p + sfx;
    assert ExtStart(p) == -1;
    var sep, dot := RFind(p, '/'), RFind(p, '.');
    RFindAppendMissing(p, sfx, '/');
    RFindAppendMissing(p, sfx, '.');
    if dot > sep {
      assert q[sep + 1..dot] == p[sep + 1..dot];
    }
    assert ExtStart(q) == -1;
  }

  lemma SuffixLiterals()
    ensures '/' !in "_patched" && '.' !in "_patched" && HasNonDot("_patched")
  {
    assert "_patched"[0] != '.';
  }

  /** The patched name of a stem and an extension puts the suffix between
      them. */
  lemma PatchedNameOfJoin(base: string, ext: string)
    requires IsExtension(ext) && HasNamedStem(base)
    ensures PatchedName(base + ext) == base + "_patched" + ext
  {
    SplitExtOfJoin(base, ext);
  }

  /** The original name is the patched name with `_patched` taken out
      again: base and extension come back unchanged. */
  lemma PatchedNameRecoversOriginal(filename: string)
    ensures var (b, e) := SplitExt(PatchedName(filename));
      EndsWith(b, "_patched") && b[..|b| - 8] + e == filename
  {
    var (base, ext) := SplitExt(filename);
    var b := base + "_patched";
    assert b[..|b| - 8] == base;
    assert b[|b| - 8..] == "_patched";
  }
}
