/**
 The string dictionary of utils/dictionary.c: three parallel arrays of keys, values and hash
 tags with empty slots in between, searched linearly and grown by doubling.
 */
module Dictionaries {
  import opened Options

  // ---- The hash

  /** `hash += (unsigned)key[i]`, with char taken as unsigned. */
  function AddByte(h: bv32, c: char): bv32 {
    h + (c as int % 256) as bv32
  }

  /** `hash += hash << k`, wrapping at 32 bits. */
  function AddShifted(h: bv32, k: nat): bv32
    requires k < 32
  {
    h + (h << k)
  }

  /** `hash ^= hash >> k`. */
  function XorShifted(h: bv32, k: nat): bv32
    requires k < 32
  {
    h ^ (h >> k)
  }

  /** One step of the hash loop. */
  function HashStep(h: bv32, c: char): bv32 {
    XorShifted(AddShifted(AddByte(h, c), 10), 6)
  }

  function HashFold(key: string): bv32 {
    if key == "" then 0 else HashStep(HashFold(key[..|key| - 1]), key[|key| - 1])
  }

  function HashFinish(h: bv32): bv32 {
    AddShifted(XorShifted(AddShifted(h, 3), 11), 15)
  }

  function HashOf(key: string): bv32 {
    HashFinish(HashFold(key))
  }

  /** `dictionary_hash`; a NULL key hashes to zero. */
  method Hash(key: Text) returns (hash: bv32)
    ensures hash == if key == None then 0 else HashOf(key.value)
  {
    hide AddByte, AddShifted, XorShifted;
    if key == None {
      return 0;
    }
    var s := key.value;
    hash := 0;
    for i := 0 to |s|
      invariant hash == HashFold(s[..i])
    {
      assert s[..i + 1][..i] == s[..i];
      hash := AddByte(hash, s[i]);
      hash := AddShifted(hash, 10);
      hash := XorShifted(hash, 6);
    }
    assert s[..|s|] == s;
    hash := AddShifted(hash, 3);
    hash := XorShifted(hash, 11);
    hash := AddShifted(hash, 15);
  }

  // ---- The map a key array and a value array stand for

  ghost predicate DistinctKeys(keys: seq<Text>) {
    forall i, j | 0 <= i < j < |keys| && keys[i] != None :: keys[i] != keys[j]
  }

  function Occupied(keys: seq<Text>): (r: nat)
    ensures r <= |keys|
  {
    if keys == [] then 0 else Occupied(keys[..|keys| - 1]) + if keys[|keys| - 1] == None then 0 else 1
  }

  function MapOf(keys: seq<Text>, vals: seq<Text>): map<string, Text>
    requires |keys| == |vals|
  {
    if keys == [] then map[]
    else
      var (n, m) := (|keys| - 1, MapOf(keys[..|keys| - 1], vals[..|keys| - 1]));
      if keys[n] == None then m else m[keys[n].value := vals[n]]
  }

  lemma {:induction false} MapOfSlot(keys: seq<Text>, vals: seq<Text>, i: nat)
    requires |keys| == |vals| && DistinctKeys(keys) && i < |keys| && keys[i] != None
    ensures keys[i].value in MapOf(keys, vals) && MapOf(keys, vals)[keys[i].value] == vals[i]
  {
    var n := |keys| - 1;
    if i < n {
      MapOfSlot(keys[..n], vals[..n], i);
    }
  }

  lemma {:induction false} MapOfKey(keys: seq<Text>, vals: seq<Text>, k: string) returns (i: nat)
    requires |keys| == |vals| && k in MapOf(keys, vals)
    ensures i < |keys| && keys[i] == Some(k)
  {
    var n := |keys| - 1;
    if keys[n] == Some(k) {
      i := n;
    } else {
      i := MapOfKey(keys[..n], vals[..n], k);
    }
  }

  /** The number of occupied slots is the number of keys. */
  lemma {:induction false} OccupiedIsCardinality(keys: seq<Text>, vals: seq<Text>)
    requires |keys| == |vals| && DistinctKeys(keys)
    ensures Occupied(keys) == |MapOf(keys, vals)|
  {
    if keys != [] {
      var n := |keys| - 1;
      var m := MapOf(keys[..n], vals[..n]);
      OccupiedIsCardinality(keys[..n], vals[..n]);
      if keys[n] != None && keys[n].value in m {
        var i := MapOfKey(keys[..n], vals[..n], keys[n].value);
        assert false;
      }
    }
  }

  lemma {:induction false} OccupiedUpdate(keys: seq<Text>, i: nat, k: Text)
    requires i < |keys|
    ensures Occupied(keys[i := k]) + (if keys[i] == None then 0 else 1)
         == Occupied(keys) + (if k == None then 0 else 1)
  {
    var n := |keys| - 1;
    if i < n {
      OccupiedUpdate(keys[..n], i, k);
      assert keys[i := k][..n] == keys[..n][i := k];
    } else {
      assert keys[i := k][..n] == keys[..n];
    }
  }

  /** The pigeonhole behind "because d->n < d->size this will necessarily terminate". */
  lemma {:induction false} FreeSlot(keys: seq<Text>) returns (e: nat)
    requires Occupied(keys) < |keys|
    ensures e < |keys| && keys[e] == None
  {
    var n := |keys| - 1;
    if keys[n] == None {
      e := n;
    } else {
      e := FreeSlot(keys[..n]);
    }
  }

  /** A map that agrees with every occupied slot and has no other key is the map of the slots. */
  lemma SlotsDecide(keys: seq<Text>, vals: seq<Text>, m: map<string, Text>)
    requires |keys| == |vals| && DistinctKeys(keys)
    requires forall i | 0 <= i < |keys| && keys[i] != None :: keys[i].value in m && m[keys[i].value] == vals[i]
    requires forall k | k in m :: Some(k) in keys
    ensures MapOf(keys, vals) == m
  {
    var r := MapOf(keys, vals);
    forall k | k in m
      ensures k in r && r[k] == m[k]
    {
      var i :| 0 <= i < |keys| && keys[i] == Some(k);
      MapOfSlot(keys, vals, i);
    }
    forall k | k in r
      ensures k in m
    {
      var i := MapOfKey(keys, vals, k);
    }
  }

  lemma SlotsOf(keys: seq<Text>, vals: seq<Text>)
    requires |keys| == |vals| && DistinctKeys(keys)
    ensures forall i | 0 <= i < |keys| && keys[i] != None ::
              keys[i].value in MapOf(keys, vals) && MapOf(keys, vals)[keys[i].value] == vals[i]
    ensures forall k | k in MapOf(keys, vals) :: Some(k) in keys
  {
    forall i | 0 <= i < |keys| && keys[i] != None
      ensures keys[i].value in MapOf(keys, vals) && MapOf(keys, vals)[keys[i].value] == vals[i]
    {
      MapOfSlot(keys, vals, i);
    }
    forall k | k in MapOf(keys, vals)
      ensures Some(k) in keys
    {
      var i := MapOfKey(keys, vals, k);
    }
  }

  /** Writing a slot that is free, or already holds the key, is a map update. */
  lemma MapOfPut(keys: seq<Text>, vals: seq<Text>, i: nat, k: string, v: Text)
    requires |keys| == |vals| && DistinctKeys(keys) && i < |keys|
    requires keys[i] == Some(k) || (keys[i] == None && Some(k) !in keys)
    ensures DistinctKeys(keys[i := Some(k)])
    ensures MapOf(keys[i := Some(k)], vals[i := v]) == MapOf(keys, vals)[k := v]
  {
    hide MapOf;
    var (keys', m) := (keys[i := Some(k)], MapOf(keys, vals)[k := v]);
    SlotsOf(keys, vals);
    PutDistinct(keys, i, k);
    hide DistinctKeys;
    forall x | x in m
      ensures Some(x) in keys'
    {
      PutKeeps(keys, i, k, x);
    }
    SlotsDecide(keys', vals[i := v], m);
  }

  lemma PutDistinct(keys: seq<Text>, i: nat, k: string)
    requires DistinctKeys(keys) && i < |keys| && (keys[i] == Some(k) || (keys[i] == None && Some(k) !in keys))
    ensures DistinctKeys(keys[i := Some(k)])
    ensures forall j | 0 <= j < |keys| && j != i :: keys[j] != Some(k)
  {
  }

  lemma PutKeeps(keys: seq<Text>, i: nat, k: string, x: string)
    requires i < |keys| && (x == k || Some(x) in keys) && (keys[i] == Some(k) || keys[i] == None)
    ensures Some(x) in keys[i := Some(k)]
  {
    var keys' := keys[i := Some(k)];
    if x == k {
      assert keys'[i] == Some(k);
    } else {
      var j :| 0 <= j < |keys| && keys[j] == Some(x);
      assert keys'[j] == Some(x);
    }
  }

  /** Clearing a slot removes its key. */
  lemma MapOfDrop(keys: seq<Text>, vals: seq<Text>, i: nat)
    requires |keys| == |vals| && DistinctKeys(keys) && i < |keys| && keys[i] != None
    ensures DistinctKeys(keys[i := None])
    ensures MapOf(keys[i := None], vals[i := None]) == MapOf(keys, vals) - {keys[i].value}
  {
    hide MapOf;
    var (keys', m) := (keys[i := None], MapOf(keys, vals) - {keys[i].value});
    SlotsOf(keys, vals);
    forall x | x in m
      ensures Some(x) in keys'
    {
      var j :| 0 <= j < |keys| && keys[j] == Some(x);
      assert keys'[j] == Some(x);
    }
    SlotsDecide(keys', vals[i := None], m);
  }

  lemma AllFree(keys: seq<Text>, vals: seq<Text>)
    requires |keys| == |vals| && forall i | 0 <= i < |keys| :: keys[i] == None
    ensures DistinctKeys(keys) && Occupied(keys) == 0 && MapOf(keys, vals) == map[]
  {
    hide MapOf;
    SlotsDecide(keys, vals, map[]);
    NoneOccupied(keys);
  }

  lemma {:induction false} NoneOccupied(keys: seq<Text>)
    requires forall i | 0 <= i < |keys| :: keys[i] == None
    ensures Occupied(keys) == 0
  {
    if keys != [] {
      NoneOccupied(keys[..|keys| - 1]);
    }
  }

  /** Empty slots added behind change nothing. */
  lemma {:induction false} MapOfPadded(keys: seq<Text>, vals: seq<Text>, pad: nat)
    requires |keys| == |vals|
    ensures var none := seq(pad, _ => None);
            && MapOf(keys + none, vals + none) == MapOf(keys, vals)
            && Occupied(keys + none) == Occupied(keys)
  {
    var none: seq<Text> := seq(pad, _ => None);
    if pad == 0 {
      assert keys + none == keys && vals + none == vals;
    } else {
      var less: seq<Text> := seq(pad - 1, _ => None);
      MapOfPadded(keys, vals, pad - 1);
      assert (keys + none)[..|keys| + pad - 1] == keys + less;
      assert (vals + none)[..|keys| + pad - 1] == vals + less;
    }
  }

  // ---- The dictionary object

  /** What a lookup returns: the stored pointer, or the caller's default. */
  datatype Lookup = Stored(text: Text) | Default

  /** `calloc` of twice the length, then `memcpy` of the old slots. */
  method Doubled(a: array<Text>) returns (b: array<Text>)
    ensures fresh(b) && b.Length == 2 * a.Length && b[..] == a[..] + seq(a.Length, _ => None)
  {
    b := new Text[2 * a.Length](_ => None);
    var i := 0;
    while i < a.Length
      invariant i <= a.Length
      invariant b[..i] == a[..i] && forall j | i <= j < b.Length :: b[j] == None
    {
      b[i] := a[i];
      i := i + 1;
    }
    assert b[..] == b[..i] + b[i..];
  }

  method CopyTags(a: array<bv32>, b: array<bv32>)
    requires a.Length <= b.Length && a != b
    modifies b
    ensures b[..a.Length] == a[..]
  {
    var i := 0;
    while i < a.Length
      invariant i <= a.Length && b[..i] == a[..i]
    {
      b[i] := a[i];
      i := i + 1;
    }
  }

  class Dictionary {
    var size: nat
    var n: nat
    var key: array<Text>
    var val: array<Text>
    var hash: array<bv32>

    /** Stored keys are distinct, each tag is the hash of its key, and n counts the occupied
        slots. */
    ghost predicate Valid()
      reads this, key, val, hash
    {
      && 0 < size == key.Length == val.Length == hash.Length
      && key != val && key as object != hash && val as object != hash
      && n == Occupied(key[..])
      && DistinctKeys(key[..])
      && (forall i | 0 <= i < size && key[i] != None :: hash[i] == HashOf(key[i].value))
    }

    ghost function Contents(): map<string, Text>
      requires Valid()
      reads this, key, val, hash
    {
      MapOf(key[..], val[..])
    }

    ghost function Repr(): set<object>
      reads this
    {
      {this, key, val, hash}
    }

    /** `dictionary_new`: at least 128 slots, all empty. */
    constructor (wanted: nat)
      ensures Valid() && fresh(Repr())
      ensures Contents() == map[] && size == if wanted < 128 then 128 else wanted
    {
      var slots := if wanted < 128 then 128 else wanted;
      size := slots;
      n := 0;
      key := new Text[slots](_ => None);
      val := new Text[slots](_ => None);
      hash := new bv32[slots](_ => 0);
      new;
      hide MapOf, Occupied, HashOf;
      AllFree(key[..], val[..]);
    }

    /** The linear search all operations share: the slot of the key, or `size`. */
    method Find(k: string) returns (i: nat)
      requires Valid()
      ensures i <= size
      ensures if i < size then key[i] == Some(k) else Some(k) !in key[..]
    {
      var h := Hash(Some(k));
      i := 0;
      while i < size
        invariant i <= size && Some(k) !in key[..i]
      {
        if key[i] != None {
          if h == hash[i] {
            if k == key[i].value {
              return;
            }
          }
        }
        i := i + 1;
      }
      assert key[..size] == key[..];
    }

    /** `dictionary_get`. */
    method Get(k: string) returns (r: Lookup)
      requires Valid()
      ensures r == if k in Contents() then Stored(Contents()[k]) else Default
    {
      SlotsOf(key[..], val[..]);
      var i := Find(k);
      r := if i < size then Stored(val[i]) else Default;
      assert i < size ==> key[..][i] == Some(k);
    }

    /** `dictionary_grow`: twice the slots, same contents. */
    method Grow()
      requires Valid()
      modifies this
      ensures Valid() && fresh(key) && fresh(val) && fresh(hash)
      ensures Contents() == old(Contents()) && n == old(n) && size == 2 * old(size)
      ensures key[..] == old(key[..]) + seq(old(size), _ => None)
    {
      hide MapOf, Occupied, HashOf;
      var newVal := Doubled(val);
      var newKey := Doubled(key);
      var newHash := new bv32[2 * size](_ => 0);
      CopyTags(hash, newHash);
      MapOfPadded(key[..], val[..], size);
      size := size * 2;
      val, key, hash := newVal, newKey, newHash;
    }

    /** Replaces one slot in all three arrays. */
    method PutSlot(i: nat, k: Text, v: Text, h: bv32)
      requires i < key.Length == val.Length == hash.Length
      requires key != val && key as object != hash && val as object != hash
      modifies key, val, hash
      ensures key[..] == old(key[..])[i := k] && val[..] == old(val[..])[i := v] && hash[..] == old(hash[..])[i := h]
    {
      key[i] := k;
      val[i] := v;
      hash[i] := h;
    }

    /** `dictionary_set`: replaces the value of a key that is present, otherwise stores the pair
        in the first free slot found from position n on, wrapping around. A NULL key is an
        error. */
    method Set(k: Text, v: Text) returns (ret: int)
      requires Valid()
      modifies this, key, val, hash
      ensures Valid() && fresh(Repr() - old(Repr()))
      ensures k == None ==> ret == -1 && Contents() == old(Contents())
      ensures k != None ==> ret == 0 && Contents() == old(Contents())[k.value := v]
    {
      hide MapOf, Occupied, DistinctKeys, HashOf;
      if k == None {
        return -1;
      }
      if n > 0 {
        var i := Find(k.value);
        if i < size {
          MapOfPut(key[..], val[..], i, k.value, v);
          assert key[..][i := k] == key[..];
          val[i] := v;
          assert val[..] == old(val[..])[i := v];
          return 0;
        }
      } else {
        NothingStored(key[..], k);
      }
      ret := 0;
      Insert(k, v);
    }

    /** "Add a new value": grows a full dictionary first. */
    method Insert(k: Text, v: Text)
      requires Valid() && k != None && k !in key[..]
      modifies this, key, val, hash
      ensures Valid() && fresh(Repr() - old(Repr()))
      ensures Contents() == old(Contents())[k.value := v]
    {
      hide MapOf, Occupied, DistinctKeys, HashOf;
      if n == size {
        Grow();
      }
      assert k !in key[..];
      var h := Hash(k);
      var i := Probe();
      MapOfPut(key[..], val[..], i, k.value, v);
      OccupiedUpdate(key[..], i, k);
      PutSlot(i, k, v, h);
      n := n + 1;
    }

    /** "Insert key in the first empty slot. Start at d->n and wrap at d->size." */
    method Probe() returns (i: nat)
      requires Valid() && n < size
      ensures i < size && key[i] == None
    {
      ghost var e := FreeSlot(key[..]);
      i := n;
      while key[i] != None
        invariant i < size
        decreases if i <= e then e - i else size + e - i
      {
        i := i + 1;
        if i == size {
          i := 0;
        }
      }
    }

    /** `dictionary_unset`: nothing happens unless the key is present. */
    method Unset(k: Text)
      requires Valid()
      modifies this, key, val, hash
      ensures Valid() && Repr() == old(Repr())
      ensures Contents() == if k == None then old(Contents()) else old(Contents()) - {k.value}
    {
      hide MapOf, Occupied, DistinctKeys, HashOf;
      if k == None {
        return;
      }
      SlotsOf(key[..], val[..]);
      var i := Find(k.value);
      if i >= size {
        return;
      }
      MapOfDrop(key[..], val[..], i);
      OccupiedUpdate(key[..], i, None);
      PutSlot(i, None, None, 0);
      n := n - 1;
    }
  }

  lemma {:induction false} NothingStored(keys: seq<Text>, k: Text)
    requires Occupied(keys) == 0 && k != None
    ensures k !in keys
  {
    if keys != [] {
      NothingStored(keys[..|keys| - 1], k);
      assert keys == keys[..|keys| - 1] + [keys[|keys| - 1]];
    }
  }
}
