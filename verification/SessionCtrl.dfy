/** The index of sessions under two keys: a map by the first key, and a list of the pairs of keys. */
module SessionCtrl {
  import opened Bytes

  datatype KeyPair = KeyPair(key1: uint32, key2: uint32)

  // ---------------------------------------------------------------- on values

  /** The two parts of the index agree: the same first keys, and no key twice. */
  predicate Agree(keys: set<uint32>, pairs: seq<KeyPair>) {
    && (forall i :: 0 <= i < |pairs| ==> pairs[i].key1 in keys)
    && (forall k :: k in keys ==> exists i :: 0 <= i < |pairs| && pairs[i].key1 == k)
    && (forall i, j :: 0 <= i < j < |pairs| ==> pairs[i].key1 != pairs[j].key1 && pairs[i].key2 != pairs[j].key2)
  }

  predicate Paired(pairs: seq<KeyPair>, key1: uint32, key2: uint32) {
    exists i :: 0 <= i < |pairs| && pairs[i] == KeyPair(key1, key2)
  }

  predicate HasKey2(pairs: seq<KeyPair>, key2: uint32) {
    exists i :: 0 <= i < |pairs| && pairs[i].key2 == key2
  }

  /** Between the keys in use, being paired is one-to-one. */
  lemma OneToOne(keys: set<uint32>, pairs: seq<KeyPair>)
    requires Agree(keys, pairs)
    ensures forall k1 :: k1 in keys <==> exists k2 :: Paired(pairs, k1, k2)
    ensures forall k1, k2, l2 :: Paired(pairs, k1, k2) && Paired(pairs, k1, l2) ==> k2 == l2
    ensures forall k1, l1, k2 :: Paired(pairs, k1, k2) && Paired(pairs, l1, k2) ==> k1 == l1
  {
    forall k1 | k1 in keys
      ensures exists k2 :: Paired(pairs, k1, k2)
    {
      var i :| 0 <= i < |pairs| && pairs[i].key1 == k1;
      assert Paired(pairs, k1, pairs[i].key2);
    }
  }

  function Without(pairs: seq<KeyPair>, i: nat): seq<KeyPair>
    requires i < |pairs|
  {
    pairs[..i] + pairs[i + 1..]
  }

  lemma WithoutAt(pairs: seq<KeyPair>, i: nat, j: nat)
    requires i < |pairs| && j < |pairs| && j != i
    ensures var at := if j < i then j else j - 1;
            at < |Without(pairs, i)| && Without(pairs, i)[at] == pairs[j]
  {
  }

  lemma WithoutAgrees(keys: set<uint32>, pairs: seq<KeyPair>, i: nat)
    requires Agree(keys, pairs) && i < |pairs|
    ensures Agree(keys - {pairs[i].key1}, Without(pairs, i))
    ensures forall k1, k2 :: Paired(Without(pairs, i), k1, k2) <==> Paired(pairs, k1, k2) && k1 != pairs[i].key1
  {
    var rest := Without(pairs, i);
    assert |rest| == |pairs| - 1 && forall j :: 0 <= j < |rest| ==> rest[j] == pairs[if j < i then j else j + 1];
    hide Without;
    forall k | k in keys - {pairs[i].key1}
      ensures exists j :: 0 <= j < |rest| && rest[j].key1 == k
    {
      var j :| 0 <= j < |pairs| && pairs[j].key1 == k;
      WithoutAt(pairs, i, j);
    }
    forall k1, k2 | Paired(pairs, k1, k2) && k1 != pairs[i].key1
      ensures Paired(rest, k1, k2)
    {
      var j :| 0 <= j < |pairs| && pairs[j] == KeyPair(k1, k2);
      WithoutAt(pairs, i, j);
    }
  }

  lemma AppendAgrees(keys: set<uint32>, pairs: seq<KeyPair>, key1: uint32, key2: uint32)
    requires Agree(keys, pairs) && key1 !in keys && !HasKey2(pairs, key2)
    ensures Agree(keys + {key1}, pairs + [KeyPair(key1, key2)])
    ensures forall k1, k2 :: Paired(pairs + [KeyPair(key1, key2)], k1, k2) <==>
              Paired(pairs, k1, k2) || (k1 == key1 && k2 == key2)
  {
    var more := pairs + [KeyPair(key1, key2)];
    assert more[|pairs|] == KeyPair(key1, key2);
    forall k | k in keys
      ensures exists j :: 0 <= j < |more| && more[j].key1 == k
    {
      var j :| 0 <= j < |pairs| && pairs[j].key1 == k;
      assert more[j] == pairs[j];
    }
    forall k1, k2 | Paired(pairs, k1, k2)
      ensures Paired(more, k1, k2)
    {
      var j :| 0 <= j < |pairs| && pairs[j] == KeyPair(k1, k2);
      assert more[j] == pairs[j];
    }
  }

  // ---------------------------------------------------------------- the class

  class ZSessionCtrl2Key<T> {
    var sessionMap: map<uint32, T>
    var keyMap: seq<KeyPair>

    ghost predicate Valid()
      reads this
    {
      Agree(sessionMap.Keys, keyMap)
    }

    constructor ()
      ensures Valid() && sessionMap == map[] && keyMap == []
    {
      sessionMap, keyMap := map[], [];
    }

    method FindByKey1(key1: uint32) returns (s: Option<T>)
      ensures s == if key1 in sessionMap then Some(sessionMap[key1]) else None
    {
      s := if key1 in sessionMap then Some(sessionMap[key1]) else None;
    }

    /** The first key that goes with a second one. */
    method GetKey1ByKey2(key2: uint32) returns (key1: Option<uint32>)
      requires Valid()
      ensures forall k1: uint32 :: key1 == Some(k1) <==> Paired(keyMap, k1, key2)
      ensures key1 == None <==> !HasKey2(keyMap, key2)
    {
      for i := 0 to |keyMap|
        invariant forall j :: 0 <= j < i ==> keyMap[j].key2 != key2
      {
        if keyMap[i].key2 == key2 {
          OneToOne(sessionMap.Keys, keyMap);
          assert Paired(keyMap, keyMap[i].key1, key2);
          return Some(keyMap[i].key1);
        }
      }
      return None;
    }

    /** The second key that goes with a first one. */
    method GetKey2ByKey1(key1: uint32) returns (key2: Option<uint32>)
      requires Valid()
      ensures forall k2: uint32 :: key2 == Some(k2) <==> Paired(keyMap, key1, k2)
      ensures key2 == None <==> key1 !in sessionMap
    {
      for i := 0 to |keyMap|
        invariant forall j :: 0 <= j < i ==> keyMap[j].key1 != key1
      {
        if keyMap[i].key1 == key1 {
          OneToOne(sessionMap.Keys, keyMap);
          assert Paired(keyMap, key1, keyMap[i].key2);
          return Some(keyMap[i].key2);
        }
      }
      return None;
    }

    method FindByKey2(key2: uint32) returns (s: Option<T>)
      requires Valid()
      ensures forall k1 :: Paired(keyMap, k1, key2) ==> k1 in sessionMap && s == Some(sessionMap[k1])
      ensures s == None <==> !HasKey2(keyMap, key2)
    {
      OneToOne(sessionMap.Keys, keyMap);
      var key1 := GetKey1ByKey2(key2);
      if key1 == None {
        return None;
      }
      s := FindByKey1(key1.value);
    }

    /** A session is added exactly if neither of its keys is in use. */
    method Add(key1: uint32, key2: uint32, session: T) returns (ok: bool)
      requires Valid()
      modifies this
      ensures Valid()
      ensures ok <==> key1 !in old(sessionMap) && !HasKey2(old(keyMap), key2)
      ensures ok ==> sessionMap == old(sessionMap)[key1 := session]
      ensures ok ==>
                forall k1, k2 :: Paired(keyMap, k1, k2) <==> old(Paired(keyMap, k1, k2)) || (k1 == key1 && k2 == key2)
      ensures !ok ==> sessionMap == old(sessionMap) && keyMap == old(keyMap)
    {
      for i := 0 to |keyMap|
        invariant forall j :: 0 <= j < i ==> keyMap[j].key1 != key1 && keyMap[j].key2 != key2
        invariant sessionMap == old(sessionMap) && keyMap == old(keyMap)
      {
        if keyMap[i].key1 == key1 || keyMap[i].key2 == key2 {
          return false;
        }
      }
      ok := key1 !in sessionMap;
      if ok {
        AppendAgrees(sessionMap.Keys, keyMap, key1, key2);
        sessionMap := sessionMap[key1 := session];
        keyMap := keyMap + [KeyPair(key1, key2)];
        assert sessionMap.Keys == old(sessionMap).Keys + {key1};
      }
    }

    /** Takes the pair of a first key out of the list; it is always there. */
    method EraseKeyPair(key1: uint32)
      requires Agree(sessionMap.Keys + {key1}, keyMap)
      modifies this`keyMap
      ensures Agree(sessionMap.Keys - {key1}, keyMap)
      ensures forall k1, k2 :: Paired(keyMap, k1, k2) <==> old(Paired(keyMap, k1, k2)) && k1 != key1
    {
      var i := 0;
      while i < |keyMap| && keyMap[i].key1 != key1
        invariant 0 <= i <= |keyMap|
        invariant forall j :: 0 <= j < i ==> keyMap[j].key1 != key1
      {
        i := i + 1;
      }
      assert i < |keyMap|;
      WithoutAgrees(sessionMap.Keys + {key1}, keyMap, i);
      assert (sessionMap.Keys + {key1}) - {key1} == sessionMap.Keys - {key1};
      keyMap := Without(keyMap, i);
    }

    method RemoveByKey1(key1: uint32) returns (session: Option<T>)
      requires Valid()
      modifies this
      ensures Valid() && sessionMap == old(sessionMap) - {key1}
      ensures session == if key1 in old(sessionMap) then Some(old(sessionMap)[key1]) else None
      ensures forall k1, k2 :: Paired(keyMap, k1, k2) <==> old(Paired(keyMap, k1, k2)) && k1 != key1
    {
      if key1 !in sessionMap {
        OneToOne(sessionMap.Keys, keyMap);
        return None;
      }
      session := Some(sessionMap[key1]);
      sessionMap := sessionMap - {key1};
      assert sessionMap.Keys + {key1} == old(sessionMap).Keys;
      EraseKeyPair(key1);
      assert sessionMap.Keys - {key1} == sessionMap.Keys;
    }

    method RemoveByKey2(key2: uint32) returns (session: Option<T>)
      requires Valid()
      modifies this
      ensures Valid()
      ensures session == None <==> !HasKey2(old(keyMap), key2)
      ensures session == None ==> sessionMap == old(sessionMap) && keyMap == old(keyMap)
      ensures forall k1 :: old(Paired(keyMap, k1, key2)) ==>
                k1 in old(sessionMap) && session == Some(old(sessionMap)[k1]) && sessionMap == old(sessionMap) - {k1}
      ensures forall k1, k2 :: Paired(keyMap, k1, k2) <==> old(Paired(keyMap, k1, k2)) && k2 != key2
    {
      OneToOne(sessionMap.Keys, keyMap);
      var key1 := GetKey1ByKey2(key2);
      if key1 == None {
        return None;
      }
      session := RemoveByKey1(key1.value);
    }

    /** Erases the entry that an iterator stands on. */
    method Erase(key1: uint32)
      requires Valid() && key1 in sessionMap
      modifies this
      ensures Valid() && sessionMap == old(sessionMap) - {key1}
      ensures forall k1, k2 :: Paired(keyMap, k1, k2) <==> old(Paired(keyMap, k1, k2)) && k1 != key1
    {
      assert sessionMap.Keys + {key1} == sessionMap.Keys;
      EraseKeyPair(key1);
      sessionMap := sessionMap - {key1};
      assert sessionMap.Keys == old(sessionMap).Keys - {key1};
    }
  }
}
