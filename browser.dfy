/** The browser state the page handlers change: the tab's localStorage and
    the router's navigation history. Storage writes are also recorded, in
    order, in a ghost log, so that what a handler wrote and in which order can
    be stated, and the storage is always the initial storage with the log
    replayed over it. */
module Browser {
  import opened Auth

  datatype StorageWrite = SetItem(key: string, value: string) | RemoveItem(key: string)

  /** One `localStorage.setItem` or `localStorage.removeItem`. */
  function Apply(storage: Storage, w: StorageWrite): Storage
  {
    match w
    case SetItem(key, value) => storage[key := value]
    case RemoveItem(key) => storage - {key}
  }

  /** Writes applied in order. */
  function ApplyAll(storage: Storage, ws: seq<StorageWrite>): Storage
    decreases |ws|
  {
    if ws == [] then storage else ApplyAll(Apply(storage, ws[0]), ws[1..])
  }

  /** The keys a sequence of writes touches. */
  function Touched(ws: seq<StorageWrite>): (keys: set<string>)
    ensures forall i :: 0 <= i < |ws| ==> ws[i].key in keys
  {
    if ws == [] then {} else {ws[0].key} + Touched(ws[1..])
  }

  /** Replaying two batches one after the other is replaying them joined. */
  lemma {:induction false} ApplyAllAppend(storage: Storage, ws1: seq<StorageWrite>, ws2: seq<StorageWrite>)
    ensures ApplyAll(storage, ws1 + ws2) == ApplyAll(ApplyAll(storage, ws1), ws2)
    decreases |ws1|
  {
    if ws1 != [] {
      assert (ws1 + ws2)[0] == ws1[0] && (ws1 + ws2)[1..] == ws1[1..] + ws2;
      ApplyAllAppend(Apply(storage, ws1[0]), ws1[1..], ws2);
    } else {
      assert ws1 + ws2 == ws2;
    }
  }

  /** Short batches, spelt out. */
  lemma ApplyShort(storage: Storage, a: StorageWrite, b: StorageWrite, c: StorageWrite)
    ensures ApplyAll(storage, [a, b]) == Apply(Apply(storage, a), b)
    ensures ApplyAll(storage, [a, b, c]) == Apply(Apply(Apply(storage, a), b), c)
    ensures Touched([a, b]) == {a.key, b.key}
    ensures Touched([a, b, c]) == {a.key, b.key, c.key}
  {
    assert [a, b][1..] == [b] && [b][1..] == [];
    assert [a, b, c][1..] == [b, c] && [b, c][1..] == [c] && [c][1..] == [];
    var s1 := Apply(storage, a);
    var s2 := Apply(s1, b);
    assert ApplyAll(s2, []) == s2;
    assert ApplyAll(s1, [b]) == s2;
    assert ApplyAll(Apply(s2, c), []) == Apply(s2, c);
    assert ApplyAll(s2, [c]) == Apply(s2, c);
    assert ApplyAll(s1, [b, c]) == Apply(s2, c);
    assert Touched([c]) == {c.key};
    assert Touched([b]) == {b.key};
    assert Touched([b, c]) == {b.key, c.key};
  }

  /** Writes leave every key they do not touch as it was. */
  lemma {:induction false} UntouchedKeysKept(storage: Storage, ws: seq<StorageWrite>, key: string)
    requires key !in Touched(ws)
    ensures key in ApplyAll(storage, ws) <==> key in storage
    ensures key in storage ==> ApplyAll(storage, ws)[key] == storage[key]
    decreases |ws|
  {
    if ws != [] {
      UntouchedKeysKept(Apply(storage, ws[0]), ws[1..], key);
    }
  }

  class Tab {
    /** window.localStorage */
    var storage: Storage
    /** The targets of router.push, oldest first. */
    var navigations: seq<string>
    /** The storage when the tab was opened, and every write since. */
    ghost var initial: Storage
    ghost var writes: seq<StorageWrite>

    ghost predicate Valid()
      reads this
    {
      storage == ApplyAll(initial, writes)
    }

    constructor (storage0: Storage)
      ensures Valid()
      ensures storage == storage0 && navigations == [] && writes == []
    {
      storage := storage0;
      navigations := [];
      initial := storage0;
      writes := [];
    }

    method SetItem(key: string, value: string)
      requires Valid()
      modifies this
      ensures Valid()
      ensures storage == old(storage)[key := value]
      ensures writes == old(writes) + [StorageWrite.SetItem(key, value)]
      ensures navigations == old(navigations) && initial == old(initial)
    {
      ApplyAllAppend(initial, writes, [StorageWrite.SetItem(key, value)]);
      storage := storage[key := value];
      writes := writes + [StorageWrite.SetItem(key, value)];
    }

    method RemoveItem(key: string)
      requires Valid()
      modifies this
      ensures Valid()
      ensures storage == old(storage) - {key}
      ensures writes == old(writes) + [StorageWrite.RemoveItem(key)]
      ensures navigations == old(navigations) && initial == old(initial)
    {
      ApplyAllAppend(initial, writes, [StorageWrite.RemoveItem(key)]);
      storage := storage - {key};
      writes := writes + [StorageWrite.RemoveItem(key)];
    }

    /** router.push(path) */
    method Push(path: string)
      modifies this
      ensures navigations == old(navigations) + [path]
      ensures storage == old(storage) && writes == old(writes) && initial == old(initial)
    {
      navigations := navigations + [path];
    }
  }
}
