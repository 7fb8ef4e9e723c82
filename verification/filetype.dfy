/** utils/filetype.py: `prop2json`, `json2prop` and the file-type dispatch
    of the `with_filetype_conversion` decorator. Files live in the scratch
    directory, which the operations take and return as a value. JSON text
    is not modelled: `json.dumps` and `json.load` are parameters (`dumps`,
    and `loads`, which gives `None` where `json.load` raises). */
module Filetype {
  import opened Results
  import opened Strings
  import opened Json
  import opened PropFormat
  import opened Workspace

  /** Why a converter stops the program with `sys.exit(1)`. */
  datatype Exit = MissingFile(path: string) | InvalidJson(path: string)

  /** `prop2json(src, des)`: the properties file `src` parsed and written
      to `des` as JSON; the JSON text is also returned. */
  function Prop2Json(dir: Dir, src: string, des: string, dumps: Object -> string): (r: Result<(Dir, string), Exit>)
    ensures r.Failure? <==> src !in dir
    ensures r.Failure? ==> r.error == MissingFile(src)
    ensures r.Success? ==> r.value.0 == dir[des := r.value.1]
    ensures r.Success? ==> r.value.1 == dumps(ToObject(Parse(dir[src])))
  {
    if src !in dir then Failure(MissingFile(src))
    else
      var text := dumps(ToObject(Parse(dir[src])));
      Success((dir[des := text], text))
  }

  /** `json2prop(src, des)`: the JSON file `src` loaded, printed as
      properties text and written to `des`; the text is also returned. */
  function Json2Prop(dir: Dir, src: string, des: string, loads: string -> Option<Object>): (r: Result<(Dir, string), Exit>)
    ensures src !in dir ==> r == Failure(MissingFile(src))
    ensures src in dir && loads(dir[src]).None? ==> r == Failure(InvalidJson(src))
    ensures src in dir && loads(dir[src]).Some? ==> r.Success?
    ensures r.Success? ==> r.value.0 == dir[des := r.value.1]
    ensures r.Success? ==> r.value.1 == Emit(loads(dir[src]).value)
  {
    if src !in dir then Failure(MissingFile(src))
    else match loads(dir[src])
      case None => Failure(InvalidJson(src))
      case Some(data) =>
        var text := Emit(data);
        Success((dir[des := text], text))
  }

  /** Converting a properties file to JSON and back keeps every key and
      value, in order, provided `json.load` reads back what `json.dumps`
      wrote: comments, blank lines and overwritten duplicates are gone, and
      the result is the normal form of the original. */
  lemma ConversionRoundTrip(dir: Dir, src: string, mid: string, des: string,
                            dumps: Object -> string, loads: string -> Option<Object>)
    requires src in dir
    requires loads(dumps(ToObject(Parse(dir[src])))) == Some(ToObject(Parse(dir[src])))
    ensures Prop2Json(dir, src, mid, dumps).Success?
    ensures var d1 := Prop2Json(dir, src, mid, dumps).value.0;
      Json2Prop(d1, mid, des, loads).Success? &&
      Parse(Json2Prop(d1, mid, des, loads).value.1) == Parse(dir[src])
  {
    ParseIsStable(dir[src]);
  }

  // ---------------------------------------------------------------------
  // the decorator's dispatch

  /** The arguments the wrapped function is called with. */
  datatype Call = Call(content: string, filename: string)

  const PropertiesExtension: string := ".properties"

  /** The first half of the wrapper (lines 9-18): a `.properties` file is
      converted to `tmp/<base>.json` and the wrapped function sees that
      JSON text under the name `<base>.json`; any other file passes through
      untouched. */
  function PrepareCall(dir: Dir, content: string, filename: string, dumps: Object -> string): (r: Result<(Dir, Call), Exit>)
    ensures SplitExt(filename).1 != PropertiesExtension ==> r == Success((dir, Call(content, filename)))
    ensures SplitExt(filename).1 == PropertiesExtension && r.Success? ==>
      && r.value.1.filename == SplitExt(filename).0 + ".json"
      && Tmp(filename) in dir
      && r.value.1.content == dumps(ToObject(Parse(dir[Tmp(filename)])))
      && r.value.0 == dir[Tmp(r.value.1.filename) := r.value.1.content]
    ensures SplitExt(filename).1 == PropertiesExtension ==>
      (r.Failure? <==> Tmp(filename) !in dir)
  {
    var (base, extension) := SplitExt(filename);
    if extension == PropertiesExtension then
      match Prop2Json(dir, Tmp(filename), Tmp(base + ".json"), dumps)
      case Failure(e) => Failure(e)
      case Success((dir', json)) => Success((dir', Call(json, base + ".json")))
    else Success((dir, Call(content, filename)))
  }

  /** The second half of the wrapper (lines 20-26): for a `.properties`
      file, `tmp/<base>_patched.json` is converted back and written to
      `tmp/<base>_patched.properties`, and the text becomes the result's
      `parsed_patched_content`; any other file adds nothing. */
  function ConvertBack(dir: Dir, filename: string, loads: string -> Option<Object>): (r: Result<(Dir, Option<string>), Exit>)
    ensures SplitExt(filename).1 != PropertiesExtension ==> r == Success((dir, None))
    ensures SplitExt(filename).1 == PropertiesExtension ==>
      var src := Tmp(SplitExt(filename).0 + "_patched.json");
      && (r.Failure? <==> src !in dir || loads(dir[src]).None?)
      && (r.Success? ==>
            && r.value.1 == Some(Emit(loads(dir[src]).value))
            && r.value.0 == dir[Tmp(PatchedName(filename)) := r.value.1.value])
  {
    var (base, extension) := SplitExt(filename);
    if extension == PropertiesExtension then
      match Json2Prop(dir, Tmp(base + "_patched.json"), Tmp(base + "_patched" + extension), loads)
      case Failure(e) => Failure(e)
      case Success((dir', text)) => Success((dir', Some(text)))
    else Success((dir, None))
  }

  /** The file the wrapper converts back is the one the remediation step
      writes for the file the wrapped function was given: the patched name
      of `<base>.json` is `<base>_patched.json`. */
  lemma ConvertBackReadsPatchedFile(filename: string)
    requires SplitExt(filename).1 == PropertiesExtension
    ensures PatchedName(SplitExt(filename).0 + ".json") == SplitExt(filename).0 + "_patched.json"
  {
    var base := SplitExt(filename).0;
    JsonLiterals();
    PatchedNameOfJoin(base, ".json");
    assert base + "_patched" + ".json" == base + ("_patched" + ".json");
  }

  lemma JsonLiterals()
    ensures IsExtension(".json")
    ensures "_patched" + ".json" == "_patched.json"
  {
    assert ".json"[1..] == "json";
  }
}
