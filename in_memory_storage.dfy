/**
 * The older bidirectional store (storage.InMemoryStorage): two maps kept as
 * inverses of each other, value to id and id to value, and a `uint32`
 * counter that numbers new values from 1. Inserting a value already stored
 * returns its id. The counter wraps around at 2^32 like the Go `uint32` it is,
 * and the lemmas below say what that does to the store.
 */
module InMemoryStorage {
  import opened Model

  /** The content of a store. */
  datatype Store = Store(id2value: map<u32, string>, value2id: map<string, u32>, currentID: u32)

  /** NewInMemoryStorage: both maps empty, and the first id will be 1. */
  const Initial: Store := Store(map[], map[], 1)

  /** The largest `uint32`. */
  const MaxU32: u32 := 0xFFFF_FFFF

  /**
   * The maps are inverses of each other, and the ids in use are exactly
   * 1 .. currentID - 1.
   */
  ghost predicate Inv(s: Store) {
    && s.currentID >= 1
    && (forall id :: id in s.id2value ==>
          && 1 <= id < s.currentID
          && s.id2value[id] in s.value2id && s.value2id[s.id2value[id]] == id)
    && (forall v :: v in s.value2id ==>
          s.value2id[v] in s.id2value && s.id2value[s.value2id[v]] == v)
    && (forall id: u32 :: 1 <= id < s.currentID ==> id in s.id2value)
  }

  /** Insert: the store afterwards and the id returned. */
  function Inserted(s: Store, value: string): (r: (Store, u32))
  {
    if value in s.value2id then (s, s.value2id[value])
    else
      var id := s.currentID;
      (Store(s.id2value[id := value], s.value2id[value := id], (s.currentID + 1) % TwoTo32), id)
  }

  /** Select: the value stored under `id`, or the "id not found" error. */
  function Selected(s: Store, id: u32): (r: Result<string>)
  {
    if id in s.id2value then Ok(s.id2value[id]) else Err(ErrIdNotFound(id))
  }

  /** A new store satisfies the invariant and knows no id. */
  lemma InitialInv(id: u32)
    ensures Inv(Initial)
    ensures Selected(Initial, id) == Err(ErrIdNotFound(id))
  {
  }

  /** Inserting a value already stored returns its id and changes nothing. */
  lemma InsertExisting(s: Store, value: string)
    requires Inv(s) && value in s.value2id
    ensures Inserted(s, value) == (s, s.value2id[value])
    ensures Selected(s, s.value2id[value]) == Ok(value)
  {
  }

  /**
   * Inserting a new value returns the counter, records the value under it
   * in both maps, keeps every earlier entry and moves the counter on by one;
   * unless that was the last `uint32`, the invariant still holds.
   */
  lemma {:induction false} InsertNew(s: Store, value: string)
    requires Inv(s) && value !in s.value2id
    ensures var (t, id) := Inserted(s, value);
      && id == s.currentID
      && Selected(t, id) == Ok(value) && value in t.value2id && t.value2id[value] == id
      && (forall i :: i in s.id2value ==> i in t.id2value && t.id2value[i] == s.id2value[i])
      && (forall v :: v in s.value2id ==> v in t.value2id && t.value2id[v] == s.value2id[v])
      && (s.currentID < MaxU32 ==> t.currentID == s.currentID + 1 && Inv(t))
      && (s.currentID == MaxU32 ==> t.currentID == 0)
  {
    var (t, id) := Inserted(s, value);
    assert id !in s.id2value;
    if s.currentID < MaxU32 {
      forall i: u32 | 1 <= i < t.currentID ensures i in t.id2value {
        if i < s.currentID {
          assert i in s.id2value;
        }
      }
    }
  }

  /** Different stored values have different ids. */
  lemma {:induction false} DistinctIds(s: Store, v1: string, v2: string)
    requires Inv(s) && v1 in s.value2id && v2 in s.value2id && v1 != v2
    ensures s.value2id[v1] != s.value2id[v2]
  {
    assert s.id2value[s.value2id[v1]] == v1;
    assert s.id2value[s.value2id[v2]] == v2;
  }

  /** Whatever is inserted can be selected by the id Insert returned (while the counter has not run out). */
  lemma {:induction false} SelectAfterInsert(s: Store, value: string)
    requires Inv(s) && s.currentID < MaxU32
    ensures var (t, id) := Inserted(s, value);
      Inv(t) && Selected(t, id) == Ok(value)
  {
    if value in s.value2id {
      InsertExisting(s, value);
    } else {
      InsertNew(s, value);
    }
  }

  /**
   * Once the counter has run out, ids are handed out again: after 0xFFFFFFFF
   * and 0, the third new value gets id 1, which already names another value,
   * and Select(1) now answers the newcomer.
   */
  lemma {:induction false} IdsReusedAfterWrap(s: Store, a: string, b: string, c: string)
    requires Inv(s) && s.currentID == MaxU32
    requires a !in s.value2id && b !in s.value2id && c !in s.value2id
    requires a != b && b != c && a != c
    ensures var (s1, idA) := Inserted(s, a);
      var (s2, idB) := Inserted(s1, b);
      var (s3, idC) := Inserted(s2, c);
      && idA == MaxU32 && idB == 0 && idC == 1
      && 1 in s.id2value && s.id2value[1] != c
      && s3.value2id[s.id2value[1]] == 1 && Selected(s3, 1) == Ok(c)
  {
    InsertNew(s, a);
    var (s1, idA) := Inserted(s, a);
    assert 1 in s.id2value;
    var v1 := s.id2value[1];
    assert v1 in s.value2id && v1 != c;
  }

  /** The cases of storage/in_memory_storage_test.go. */
  lemma TestVectors()
    ensures var (s1, id1) := Inserted(Initial, "value1");
      var (s2, id2) := Inserted(s1, "value2");
      var (s3, id3) := Inserted(s2, "value1");
      var (s4, id4) := Inserted(s3, "value2");
      && id1 == 1 && id2 == 2 && id3 == 1 && id4 == 2
      && Selected(s1, 1) == Ok("value1") && Selected(s1, 2) == Err(ErrIdNotFound(2))
  {
  }

  /** InMemoryStorage: the two maps and the counter, updated in place. */
  class Storage {
    var id2value: map<u32, string>
    var value2id: map<string, u32>
    var currentID: u32

    function Content(): Store
      reads this
    {
      Store(id2value, value2id, currentID)
    }

    /** NewInMemoryStorage. */
    constructor ()
      ensures Content() == Initial
    {
      id2value := map[];
      value2id := map[];
      currentID := 1;
    }

    /** Select: read only. */
    method Select(id: u32) returns (r: Result<string>)
      ensures r == Selected(Content(), id)
    {
      if id in id2value {
        return Ok(id2value[id]);
      }
      return Err(ErrIdNotFound(id));
    }

    /** Insert: never fails. */
    method Insert(value: string) returns (id: u32, err: Option<Error>)
      modifies this
      ensures (Content(), id) == Inserted(old(Content()), value) && err == None
    {
      if value in value2id {
        return value2id[value], None;
      }
      id := currentID;
      id2value := id2value[id := value];
      value2id := value2id[value := id];
      currentID := (currentID + 1) % TwoTo32;
      err := None;
    }
  }
}
