/**
 * A provider's pool of named key sets, as stored under the provider's data
 * secret: the sets in order and the index of the active one.
 */
module PoolData {

  import opened Wrappers
  import KeyText

  /** A named key set. `keys` is the stored key text; its keys are `SplitKeys(keys)`. */
  datatype KeySet = KeySet(name: string, keys: string)

  /** The pool state every handler works on. */
  datatype PoolData = PoolData(activeSetIndex: int, sets: seq<KeySet>)

  /**
   * One element of the stored `sets` array as `JSON.parse` gave it: `None` for
   * `null`, `undefined` or a value without fields; a missing field is `None`.
   */
  datatype RawSet = RawSet(name: Option<string>, keys: Option<string>)

  /** A parsed pool that passed the shape test: a numeric index and an array of sets. */
  datatype RawPool = RawPool(activeSetIndex: int, sets: seq<Option<RawSet>>)

  const DefaultSetName: string := "Default"
  const UnnamedSetName: string := "Unnamed Set"

  /** The pool invariant: at least one set, and the active index names one of them. */
  predicate Repaired(d: PoolData) {
    |d.sets| >= 1 && 0 <= d.activeSetIndex < |d.sets|
  }

  /** No two sets share a name; the add and rename handlers refuse a name that is taken. */
  predicate UniqueNames(sets: seq<KeySet>) {
    forall i, j :: 0 <= i < j < |sets| ==> sets[i].name != sets[j].name
  }

  function KeysOf(s: KeySet): seq<string> {
    KeyText.SplitKeys(s.keys)
  }

  function ActiveSet(d: PoolData): KeySet
    requires Repaired(d)
  {
    d.sets[d.activeSetIndex]
  }

  /** `getDefaultSetData`: one empty set named "Default", active. */
  function DefaultSetData(): (d: PoolData)
    ensures d.activeSetIndex == 0 && d.sets == [KeySet(DefaultSetName, "")]
    ensures Repaired(d)
  {
    PoolData(0, [KeySet(DefaultSetName, "")])
  }

  /** The stored form of a pool: every set present with both fields. */
  function AsStored(d: PoolData): RawPool {
    RawPool(d.activeSetIndex, seq(|d.sets|, k requires 0 <= k < |d.sets| => Some(RawSet(Some(d.sets[k].name), Some(d.sets[k].keys)))))
  }

  /** `set => ({ name: set?.name ?? "Unnamed Set", keys: set?.keys ?? "" })`. */
  function FillSet(e: Option<RawSet>): (r: KeySet)
    ensures e.Some? && e.value.name.Some? ==> r.name == e.value.name.value
    ensures e.None? || e.value.name.None? ==> r.name == UnnamedSetName
    ensures e.Some? && e.value.keys.Some? ==> r.keys == e.value.keys.value
    ensures e.None? || e.value.keys.None? ==> r.keys == ""
  {
    match e
    case None => KeySet(UnnamedSetName, "")
    case Some(r) => KeySet(r.name.GetOr(UnnamedSetName), r.keys.GetOr(""))
  }

  /**
   * The pool `loadSetData` produces. `parsed` is `None` when the data secret is
   * absent or empty, when it does not parse, or when the parsed value is not an
   * object with a numeric `activeSetIndex` and an array `sets`: all of these give
   * the default. Otherwise every stored element is filled in, an empty list gets
   * the default set, and an index outside the list falls back to 0.
   */
  function LoadedData(parsed: Option<RawPool>): (d: PoolData)
    ensures Repaired(d)
    ensures parsed.None? || |parsed.value.sets| == 0 ==> d == DefaultSetData()
    ensures parsed.Some? && |parsed.value.sets| > 0 ==>
      var raw := parsed.value;
      |d.sets| == |raw.sets| &&
      d.activeSetIndex == (if 0 <= raw.activeSetIndex < |raw.sets| then raw.activeSetIndex else 0) &&
      forall k :: 0 <= k < |raw.sets| ==> d.sets[k] == FillSet(raw.sets[k])
  {
    if parsed.None? || |parsed.value.sets| == 0 then DefaultSetData()
    else
      var raw := parsed.value;
      PoolData(if 0 <= raw.activeSetIndex < |raw.sets| then raw.activeSetIndex else 0,
               seq(|raw.sets|, k requires 0 <= k < |raw.sets| => FillSet(raw.sets[k])))
  }

  /** Loading what was stored gives back the pool that was stored. */
  lemma LoadStored(d: PoolData)
    requires Repaired(d)
    ensures LoadedData(Some(AsStored(d))) == d
  {
    var l := LoadedData(Some(AsStored(d)));
    assert |l.sets| == |d.sets|;
    forall k | 0 <= k < |d.sets| ensures l.sets[k] == d.sets[k] {
      assert l.sets[k] == FillSet(AsStored(d).sets[k]);
    }
  }

  /** `loadSetData`, building the list of sets one element at a time. */
  method LoadSetData(parsed: Option<RawPool>) returns (data: PoolData)
    ensures data == LoadedData(parsed)
    ensures forall d :: Repaired(d) && parsed == Some(AsStored(d)) ==> data == d
  {
    var index: int;
    var raw: seq<Option<RawSet>>;
    if parsed.None? {
      index, raw := 0, [Some(RawSet(Some(DefaultSetName), Some("")))];
    } else {
      index, raw := parsed.value.activeSetIndex, parsed.value.sets;
      if |raw| == 0 {
        raw := raw + [Some(RawSet(Some(DefaultSetName), Some("")))];
        index := 0;
      }
      if index < 0 || index >= |raw| {
        index := 0;
      }
    }
    var sets: seq<KeySet> := [];
    var i := 0;
    while i < |raw|
      invariant 0 <= i <= |raw|
      invariant |sets| == i
      invariant forall k :: 0 <= k < i ==> sets[k] == FillSet(raw[k])
    {
      sets := sets + [FillSet(raw[i])];
      i := i + 1;
    }
    data := PoolData(index, sets);
    forall d | Repaired(d) && parsed == Some(AsStored(d)) ensures data == d {
      LoadStored(d);
    }
  }

  /**
   * The pool after the delete handler removes set `j`: the set is spliced out,
   * the active index follows the active set (or falls back to 0 when the active
   * set itself went), and an emptied list gets a fresh default set.
   */
  function AfterDelete(d: PoolData, j: int): (r: PoolData)
    requires Repaired(d) && 0 <= j < |d.sets|
    ensures Repaired(r)
    ensures |d.sets| == 1 ==> r == DefaultSetData()
    ensures |d.sets| > 1 ==> (
      |r.sets| == |d.sets| - 1 &&
      (forall k :: 0 <= k < j ==> r.sets[k] == d.sets[k]) &&
      (forall k :: j <= k < |r.sets| ==> r.sets[k] == d.sets[k + 1]))
    ensures j == d.activeSetIndex ==> r.activeSetIndex == 0
    ensures j < d.activeSetIndex ==> r.activeSetIndex == d.activeSetIndex - 1
    ensures j > d.activeSetIndex ==> r.activeSetIndex == d.activeSetIndex
    ensures j != d.activeSetIndex ==> ActiveSet(r) == ActiveSet(d)
    ensures UniqueNames(d.sets) ==> UniqueNames(r.sets)
  {
    var sets := d.sets[..j] + d.sets[j + 1..];
    var index := if d.activeSetIndex == j then 0
                 else if d.activeSetIndex > j then d.activeSetIndex - 1
                 else d.activeSetIndex;
    if |sets| == 0 then DefaultSetData() else PoolData(index, sets)
  }
}
