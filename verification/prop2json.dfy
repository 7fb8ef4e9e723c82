/** utils/prop2json.py: `convert`, a third copy of the properties-to-JSON
    converter, returning nothing. */
module Prop2JsonScript {
  import opened Results
  import opened Json
  import opened PropFormat
  import opened Workspace
  import Filetype

  /** `convert(src, des)`: the properties file parsed and written as JSON. */
  function Convert(dir: Dir, src: string, des: string, dumps: Object -> string): (r: Result<Dir, Filetype.Exit>)
    ensures r.Failure? <==> src !in dir
    ensures r.Success? ==> des in r.value && r.value[des] == dumps(ToObject(Parse(dir[src])))
  {
    if src !in dir then Failure(Filetype.MissingFile(src))
    else Success(dir[des := dumps(ToObject(Parse(dir[src])))])
  }

  /** `convert` and `filetype.prop2json` fail on the same inputs and
      otherwise write the same file. */
  lemma ConvertAgrees(dir: Dir, src: string, des: string, dumps: Object -> string)
    ensures var mine, theirs := Convert(dir, src, des, dumps), Filetype.Prop2Json(dir, src, des, dumps);
      && (mine.Failure? <==> theirs.Failure?)
      && (mine.Failure? ==> mine.error == theirs.error)
      && (mine.Success? ==> mine.value == theirs.value.0)
  {
  }
}
