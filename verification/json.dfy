/** The JSON objects the properties bridge produces and consumes, kept
    abstract: an object is what Python's `dict` holds, its key/value pairs in
    insertion order with no key twice. Text formatting (`json.dumps`,
    `json.load`) is not part of this model. */
module Json {
  import opened Results

  /** A member value: a string, or a one-level nested object whose values
      are strings. */
  datatype Value = Str(text: string) | Obj(fields: seq<(string, string)>)

  /** A top-level object, pairs in insertion order. */
  type Object = seq<(string, Value)>

  function Keys<V>(m: seq<(string, V)>): (ks: seq<string>)
    ensures |ks| == |m|
    ensures forall i :: 0 <= i < |m| ==> ks[i] == m[i].0
    decreases |m|
  {
    if |m| == 0 then [] else [m[0].0] + Keys(m[1..])
  }

  /** The invariant every Python `dict` keeps. */
  predicate UniqueKeys<V>(m: seq<(string, V)>) {
    forall i, j :: 0 <= i < j < |m| ==> m[i].0 != m[j].0
  }

  /** Position of the first occurrence of `k` in `ks`. */
  function Find(ks: seq<string>, k: string): (r: Option<nat>)
    ensures r.None? <==> k !in ks
    ensures r.Some? ==> r.value < |ks| && ks[r.value] == k && k !in ks[..r.value]
    decreases |ks|
  {
    if |ks| == 0 then None
    else if ks[0] == k then Some(0)
    else match Find(ks[1..], k)
      case None => None
      case Some(i) => assert ks[..i + 1] == [ks[0]] + ks[1..][..i]; Some(i + 1)
  }

  /** `d.get(k)`. */
  function Get<V>(m: seq<(string, V)>, k: string): (r: Option<V>)
    ensures r.None? <==> k !in Keys(m)
    ensures r.Some? ==> exists i :: 0 <= i < |m| && m[i].0 == k && m[i].1 == r.value
  {
    match Find(Keys(m), k)
    case None => None
    case Some(i) => Some(m[i].1)
  }

  /** `d[k] = v`: an existing key keeps its position and takes the new
      value; a new key goes to the end. */
  function Set<V>(m: seq<(string, V)>, k: string, v: V): (r: seq<(string, V)>)
    ensures Get(r, k) == Some(v)
    ensures k in Keys(m) ==> Keys(r) == Keys(m)
    ensures k !in Keys(m) ==> r == m + [(k, v)]
    ensures UniqueKeys(m) ==> UniqueKeys(r)
  {
    match Find(Keys(m), k)
    case Some(i) => SetExisting(m, k, v, i); m[i := (k, v)]
    case None => SetAppended(m, k, v); m + [(k, v)]
  }

  lemma SetExisting<V>(m: seq<(string, V)>, k: string, v: V, i: nat)
    requires Find(Keys(m), k) == Some(i)
    ensures var r := m[i := (k, v)];
      Keys(r) == Keys(m) && Get(r, k) == Some(v) && (UniqueKeys(m) ==> UniqueKeys(r))
  {
    var r := m[i := (k, v)];
    assert Keys(r) == Keys(m);
  }

  lemma SetAppended<V>(m: seq<(string, V)>, k: string, v: V)
    requires k !in Keys(m)
    ensures var r := m + [(k, v)];
      Get(r, k) == Some(v) && (UniqueKeys(m) ==> UniqueKeys(r))
  {
    var r := m + [(k, v)];
    assert Keys(r) == Keys(m) + [k];
    FindAppend(Keys(m), k, k);
    if UniqueKeys(m) {
      AppendUnique(m, k, v);
    }
  }

  lemma AppendUnique<V>(m: seq<(string, V)>, k: string, v: V)
    requires k !in Keys(m) && UniqueKeys(m)
    ensures UniqueKeys(m + [(k, v)])
  {
    var r := m + [(k, v)];
    forall i, j | 0 <= i < j < |r| ensures r[i].0 != r[j].0 {
      if j == |m| {
        assert r[i].0 == Keys(m)[i];
      } else {
        assert r[i] == m[i] && r[j] == m[j];
      }
    }
  }

  /** `d[k] = v` leaves every other key's value as it was. */
  lemma SetOther<V>(m: seq<(string, V)>, k: string, v: V, k': string)
    requires k' != k
    ensures Get(Set(m, k, v), k') == Get(m, k')
  {
    match Find(Keys(m), k)
    case Some(i) => OtherAfterUpdate(m, k, v, k', i);
    case None => OtherAfterAppend(m, k, v, k');
  }

  lemma OtherAfterUpdate<V>(m: seq<(string, V)>, k: string, v: V, k': string, i: nat)
    requires k' != k && Find(Keys(m), k) == Some(i)
    ensures Get(m[i := (k, v)], k') == Get(m, k')
  {
    var r := m[i := (k, v)];
    SetExisting(m, k, v, i);
    match Find(Keys(m), k')
    case None =>
    case Some(j) =>
      assert Keys(m)[j] != Keys(m)[i];
      assert r[j] == m[j];
  }

  lemma OtherAfterAppend<V>(m: seq<(string, V)>, k: string, v: V, k': string)
    requires k' != k && k !in Keys(m)
    ensures Get(m + [(k, v)], k') == Get(m, k')
  {
    var r := m + [(k, v)];
    assert Keys(r) == Keys(m) + [k];
    FindAppend(Keys(m), k, k');
    match Find(Keys(m), k')
    case None =>
    case Some(j) =>
      assert r[j] == m[j];
  }

  /** `d[k] = v` adds no pair other than `(k, v)`. */
  lemma SetPairs<V>(m: seq<(string, V)>, k: string, v: V)
    ensures forall i :: 0 <= i < |Set(m, k, v)| ==> Set(m, k, v)[i] in m || Set(m, k, v)[i] == (k, v)
  {
    var f := Find(Keys(m), k);
    if f.Some? {
      var r := m[f.value := (k, v)];
      assert forall i :: 0 <= i < |r| && i != f.value ==> r[i] == m[i];
    } else {
      var r := m + [(k, v)];
      assert forall i :: 0 <= i < |m| ==> r[i] == m[i];
    }
  }

  lemma {:induction false} FindAppend(ks: seq<string>, k: string, k': string)
    requires k !in ks
    ensures Find(ks + [k], k) == Some(|ks|)
    ensures k' != k ==> Find(ks + [k], k') == Find(ks, k')
  {
    var r := ks + [k];
    assert r[..|ks|] == ks;
    var f := Find(ks, k');
    if f.Some? {
      assert r[..f.value] == ks[..f.value];
    }
  }
}
