/** utils/properties.py: the same two converters as utils/filetype.py,
    except that neither returns the text it writes. Their loops are the
    shared ones of the properties format. */
module Properties {
  import opened Results
  import opened Json
  import opened PropFormat
  import opened Workspace
  import Filetype

  /** `prop2json(src, des)`: the properties file parsed and written as
      JSON. */
  function Prop2Json(dir: Dir, src: string, des: string, dumps: Object -> string): (r: Result<Dir, Filetype.Exit>)
    ensures r.Failure? <==> src !in dir
    ensures r.Success? ==> des in r.value && r.value[des] == dumps(ToObject(Parse(dir[src])))
    ensures r.Success? ==> forall f :: f in dir && f != des ==> f in r.value && r.value[f] == dir[f]
  {
    if src !in dir then Failure(Filetype.MissingFile(src))
    else Success(dir[des := dumps(ToObject(Parse(dir[src])))])
  }

  /** `json2prop(src, des)`: the JSON file printed as properties text. */
  function Json2Prop(dir: Dir, src: string, des: string, loads: string -> Option<Object>): (r: Result<Dir, Filetype.Exit>)
    ensures r.Failure? <==> src !in dir || loads(dir[src]).None?
    ensures r.Success? ==> des in r.value && r.value[des] == Emit(loads(dir[src]).value)
  {
    if src !in dir then Failure(Filetype.MissingFile(src))
    else match loads(dir[src])
      case None => Failure(Filetype.InvalidJson(src))
      case Some(data) => Success(dir[des := Emit(data)])
  }

  /** Both copies of `prop2json` fail on the same inputs, for the same
      reason, and otherwise leave the scratch directory in the same state. */
  lemma Prop2JsonAgrees(dir: Dir, src: string, des: string, dumps: Object -> string)
    ensures var mine, theirs := Prop2Json(dir, src, des, dumps), Filetype.Prop2Json(dir, src, des, dumps);
      && (mine.Failure? <==> theirs.Failure?)
      && (mine.Failure? ==> mine.error == theirs.error)
      && (mine.Success? ==> mine.value == theirs.value.0)
  {
  }

  /** Both copies of `json2prop` agree in the same sense. */
  lemma Json2PropAgrees(dir: Dir, src: string, des: string, loads: string -> Option<Object>)
    ensures var mine, theirs := Json2Prop(dir, src, des, loads), Filetype.Json2Prop(dir, src, des, loads);
      && (mine.Failure? <==> theirs.Failure?)
      && (mine.Failure? ==> mine.error == theirs.error)
      && (mine.Success? ==> mine.value == theirs.value.0)
  {
  }
}
