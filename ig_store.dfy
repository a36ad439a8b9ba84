/**
 * The overlay store of the Instagram floating-image canvas: one localStorage
 * entry per thread holding the ordered list of image records, with the
 * load, save, update, remove and append operations the script performs.
 */
module IgStore {
  import opened Maybe
  import opened JsText
  import opened IgThread

  /** One floating image: `{id, src, x, y, width}`. */
  datatype ImageRecord = ImageRecord(id: string, src: string, x: int, y: int, width: nat)

  /**
   * What localStorage holds under a key: the JSON text of a record list, or
   * text that `JSON.parse` rejects (or that parses to a falsy value).
   */
  datatype Stored = Serialized(records: seq<ImageRecord>) | Unparseable(text: string)

  /** localStorage: key to stored text. */
  type Storage = map<string, Stored>

  /** `JSON.stringify(state)`. */
  function Encode(rs: seq<ImageRecord>): Stored {
    Serialized(rs)
  }

  /** `JSON.parse(text)`: fails on text that is not a record list. */
  function Decode(v: Stored): Option<seq<ImageRecord>> {
    match v
    case Serialized(rs) => Some(rs)
    case Unparseable(_) => None
  }

  lemma DecodeEncode(rs: seq<ImageRecord>)
    ensures Decode(Encode(rs)) == Some(rs)
  {
  }

  /** loadState: the list stored under the key; `[]` when it is missing or does not parse. */
  function Load(st: Storage, key: string): (r: seq<ImageRecord>)
    ensures key in st && st[key].Serialized? ==> r == st[key].records
  {
    if key in st then Decode(st[key]).GetOr([]) else []
  }

  /** saveState: replaces the whole list under the key. */
  function Save(st: Storage, key: string, rs: seq<ImageRecord>): (r: Storage)
    ensures key in r && Decode(r[key]) == Some(rs)
    ensures forall k :: k in st ==> k in r
    ensures forall k :: k in r && k != key ==> k in st && r[k] == st[k]
  {
    st[key := Encode(rs)]
  }

  /** Loading right after saving returns the saved list. */
  lemma LoadSave(st: Storage, key: string, rs: seq<ImageRecord>)
    ensures Load(Save(st, key, rs), key) == rs
  {
  }

  /** A missing or corrupt entry loads as the empty list. */
  lemma LoadMissingOrCorrupt(st: Storage, key: string)
    requires key !in st || st[key].Unparseable?
    ensures Load(st, key) == []
  {
  }

  /** Saving under thread `a` never changes what loads under another thread `b`. */
  lemma ThreadIsolation(st: Storage, a: string, b: string, rs: seq<ImageRecord>)
    requires a != b
    ensures Load(Save(st, StorageKey(Some(a)), rs), StorageKey(Some(b))) == Load(st, StorageKey(Some(b)))
  {
    if StorageKey(Some(a)) == StorageKey(Some(b)) {
      StorageKeyInjective(Some(a), Some(b));
    }
  }

  // ------------------------------------------------------------ updateImage

  /** The fields `updateImage` is given: `{width}` from a wheel tick, `{x, y}` from a drag. */
  datatype Patch = Patch(x: Option<int>, y: Option<int>, width: Option<nat>)

  /** `Object.assign(img, data)`: the given fields replace the record's, the rest stay. */
  function Merge(r: ImageRecord, p: Patch): ImageRecord {
    r.(x := p.x.GetOr(r.x), y := p.y.GetOr(r.y), width := p.width.GetOr(r.width))
  }

  predicate HasId(rs: seq<ImageRecord>, id: string) {
    exists k :: 0 <= k < |rs| && rs[k].id == id
  }

  /** `k` is the first record with the id. */
  predicate FirstWithId(rs: seq<ImageRecord>, id: string, k: int) {
    0 <= k < |rs| && rs[k].id == id && forall j :: 0 <= j < k ==> rs[j].id != id
  }

  /** `state.find(i => i.id === id)`, as an index. */
  function FindById(rs: seq<ImageRecord>, id: string): (r: Option<int>)
    ensures r.Some? ==> FirstWithId(rs, id, r.value)
    ensures r.None? ==> !HasId(rs, id)
  {
    var p := k => 0 <= k < |rs| && rs[k].id == id;
    assert forall k :: p(k) == (0 <= k < |rs| && rs[k].id == id);
    FirstIndex(p, 0, |rs|)
  }

  /**
   * The list updateImage writes back: the first record with the id merged
   * with the patch; none (no write at all) when no record has the id.
   */
  function UpdateRecords(rs: seq<ImageRecord>, id: string, p: Patch): (r: Option<seq<ImageRecord>>)
    ensures r.None? <==> !HasId(rs, id)
    ensures r.Some? ==> |r.value| == |rs| && forall j :: 0 <= j < |rs| ==> r.value[j].id == rs[j].id
  {
    match FindById(rs, id)
    case None => None
    case Some(k) => Some(rs[k := Merge(rs[k], p)])
  }

  /** Only the first record with the id changes; every other record and the order stay. */
  lemma UpdateFirstOnly(rs: seq<ImageRecord>, id: string, p: Patch, k: int)
    requires FirstWithId(rs, id, k)
    ensures UpdateRecords(rs, id, p) == Some(rs[k := Merge(rs[k], p)])
  {
  }

  /** With no record of that id there is nothing to write. */
  lemma UpdateAbsent(rs: seq<ImageRecord>, id: string, p: Patch)
    requires !HasId(rs, id)
    ensures UpdateRecords(rs, id, p).None?
  {
  }

  /**
   * With unique ids, updating the id of record `k` rewrites exactly record
   * `k`, and the ids stay unique.
   */
  lemma UpdateUnique(rs: seq<ImageRecord>, k: int, p: Patch)
    requires UniqueIds(rs) && 0 <= k < |rs|
    ensures UpdateRecords(rs, rs[k].id, p) == Some(rs[k := Merge(rs[k], p)])
    ensures UniqueIds(rs[k := Merge(rs[k], p)])
  {
    assert FirstWithId(rs, rs[k].id, k);
    UpdateFirstOnly(rs, rs[k].id, p, k);
  }

  /** updateImage on the whole storage: rewrite the key only when the id was found. */
  function UpdateStorage(st: Storage, key: string, id: string, p: Patch): (r: Storage)
    ensures !HasId(Load(st, key), id) ==> r == st
    ensures forall k :: k != key ==> (k in r <==> k in st) && (k in st ==> r[k] == st[k])
  {
    match UpdateRecords(Load(st, key), id, p)
    case None => st
    case Some(rs) => Save(st, key, rs)
  }

  // ------------------------------------------------------------ removeImage

  /** `state.filter(i => i.id !== id)`. */
  function RemoveRecords(rs: seq<ImageRecord>, id: string): (r: seq<ImageRecord>)
    ensures |r| <= |rs|
    ensures forall k :: 0 <= k < |r| ==> r[k].id != id
  {
    if rs == [] then []
    else (if rs[0].id == id then [] else [rs[0]]) + RemoveRecords(rs[1..], id)
  }

  lemma {:induction false} RemoveAppend(a: seq<ImageRecord>, b: seq<ImageRecord>, id: string)
    ensures RemoveRecords(a + b, id) == RemoveRecords(a, id) + RemoveRecords(b, id)
  {
    if a == [] {
      assert a + b == b;
    } else {
      assert (a + b)[0] == a[0];
      assert (a + b)[1..] == a[1..] + b;
      RemoveAppend(a[1..], b, id);
    }
  }

  /** Removing an id no record has keeps the list as it is. */
  lemma {:induction false} RemoveAbsent(rs: seq<ImageRecord>, id: string)
    requires !HasId(rs, id)
    ensures RemoveRecords(rs, id) == rs
  {
    if rs != [] {
      assert forall k :: 0 <= k < |rs| - 1 ==> rs[1..][k] == rs[k + 1];
      RemoveAbsent(rs[1..], id);
      assert rs == [rs[0]] + rs[1..];
    }
  }

  predicate UniqueIds(rs: seq<ImageRecord>) {
    forall i, j :: 0 <= i < j < |rs| ==> rs[i].id != rs[j].id
  }

  /** With unique ids, no record but record `k` carries its id. */
  lemma OthersLackId(rs: seq<ImageRecord>, k: int)
    requires UniqueIds(rs) && 0 <= k < |rs|
    ensures !HasId(rs[..k], rs[k].id) && !HasId(rs[k + 1..], rs[k].id)
  {
    var before, after := rs[..k], rs[k + 1..];
    forall j | 0 <= j < |before|
      ensures before[j].id != rs[k].id
    {
      assert before[j] == rs[j];
    }
    forall j | 0 <= j < |after|
      ensures after[j].id != rs[k].id
    {
      assert after[j] == rs[k + 1 + j];
    }
  }

  /** A list of one record with the id filters to nothing. */
  lemma RemoveSingle(r: ImageRecord, id: string)
    requires r.id == id
    ensures RemoveRecords([r], id) == []
  {
    assert [r][1..] == [];
  }

  /**
   * With unique ids (every id is a fresh UUID), removing the id of record
   * `k` drops exactly that record and keeps the others in order.
   */
  lemma RemoveUnique(rs: seq<ImageRecord>, id: string, k: int)
    requires UniqueIds(rs) && 0 <= k < |rs| && rs[k].id == id
    ensures RemoveRecords(rs, id) == rs[..k] + rs[k + 1..]
  {
    var before, after := rs[..k], rs[k + 1..];
    OthersLackId(rs, k);
    assert rs == before + ([rs[k]] + after);
    calc {
      RemoveRecords(rs, id);
      RemoveRecords(before + ([rs[k]] + after), id);
      { RemoveAppend(before, [rs[k]] + after, id); }
      RemoveRecords(before, id) + RemoveRecords([rs[k]] + after, id);
      { RemoveAppend([rs[k]], after, id); RemoveSingle(rs[k], id); }
      RemoveRecords(before, id) + ([] + RemoveRecords(after, id));
      { RemoveAbsent(before, id); RemoveAbsent(after, id); assert [] + after == after; }
      before + after;
    }
  }

  /** removeImage on the whole storage: the filtered list is always written back. */
  function RemoveStorage(st: Storage, key: string, id: string): Storage {
    Save(st, key, RemoveRecords(Load(st, key), id))
  }

  // ------------------------------------------------------------------ drop

  /** The drop handler's `state.push(img); saveState(state)`. */
  function AppendStorage(st: Storage, key: string, r: ImageRecord): Storage {
    Save(st, key, Load(st, key) + [r])
  }

  /**
   * Two reads that complete one after the other both land in the list, in
   * completion order, and nothing else changes under that key.
   */
  lemma AppendTwice(st: Storage, key: string, a: ImageRecord, b: ImageRecord)
    ensures Load(AppendStorage(AppendStorage(st, key, a), key, b), key) == Load(st, key) + [a, b]
  {
  }

  /** Whichever read completes first, the same records end up stored. */
  lemma AppendOrderIrrelevant(st: Storage, key: string, a: ImageRecord, b: ImageRecord)
    ensures multiset(Load(AppendStorage(AppendStorage(st, key, a), key, b), key))
         == multiset(Load(AppendStorage(AppendStorage(st, key, b), key, a), key))
  {
    AppendTwice(st, key, a, b);
    AppendTwice(st, key, b, a);
  }

  /** A fresh id keeps the ids of the list unique. */
  lemma AppendFreshUnique(rs: seq<ImageRecord>, r: ImageRecord)
    requires UniqueIds(rs) && !HasId(rs, r.id)
    ensures UniqueIds(rs + [r])
  {
    forall i, j | 0 <= i < j < |rs + [r]|
      ensures (rs + [r])[i].id != (rs + [r])[j].id
    {
      if j == |rs| {
        assert (rs + [r])[i] == rs[i];
      }
    }
  }
}
