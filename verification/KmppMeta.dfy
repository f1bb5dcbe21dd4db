/**
 The metadata accessors of kmpp/base/kmpp_meta.c called one at a time: a map from keys to values
 whose get consumes what it reads, with `size` its cardinality.
 */
module KmppMeta {
  import opened MetaProtocol
  import opened Options

  const OK := 0
  const NOK := -1

  /** What a slot holds for its readers: the user and the kernel address, the latter also being
      the object pointer or the plain value. */
  datatype Value = Value(uaddr: int, kaddr: int)

  function ValueOf(x: Slot): Value {
    Value(x.uaddr, x.kaddr)
  }

  function MapOf(slots: seq<Slot>): map<nat, Value> {
    map k: nat | k < |slots| && slots[k].state.valid :: ValueOf(slots[k])
  }

  lemma {:induction false} MapSize(slots: seq<Slot>)
    ensures |MapOf(slots)| == CountIf(slots, IsValid)
  {
    if slots == [] {
      assert MapOf(slots) == map[];
    } else {
      var n := |slots| - 1;
      MapSize(slots[..n]);
      var m := MapOf(slots[..n]);
      if slots[n].state.valid {
        assert MapOf(slots) == m[n := ValueOf(slots[n])];
      } else {
        assert MapOf(slots) == m;
      }
    }
  }

  lemma MapUpdate(slots: seq<Slot>, k: nat, x: Slot)
    requires k < |slots|
    ensures MapOf(slots[k := x]) == if x.state.valid then MapOf(slots)[k := ValueOf(x)] else MapOf(slots) - {k}
  {
  }

  /** At rest a slot is empty, or valid and ready; a plain one has no user address and no mark. */
  predicate AtRest(x: Slot, pointer: bool) {
    && Settled(x)
    && (!pointer ==> !x.state.shm && x.uaddr == 0)
  }

  class Meta {
    /** Whether the key with this entry is a shared pointer key. */
    const pointer: seq<bool>
    var slots: array<Slot>
    var size: int

    ghost predicate Valid()
      reads this, slots
    {
      && slots.Length == |pointer|
      && (forall k | 0 <= k < slots.Length :: AtRest(slots[k], pointer[k]))
      && size == |MapOf(slots[..])|
    }

    ghost function Contents(): map<nat, Value>
      reads this, slots
    {
      MapOf(slots[..])
    }

    constructor (pointer: seq<bool>)
      ensures Valid() && fresh(slots) && Contents() == map[] && this.pointer == pointer
    {
      this.pointer := pointer;
      slots := new Slot[|pointer|](_ => Slot(VAL_INVALID, 0, 0));
      size := 0;
    }

    /** `meta_key_to_addr`: the table has an entry for this key and type. */
    predicate HasEntry(k: nat, pointer: bool)
      reads this
    {
      k < |this.pointer| && this.pointer[k] == pointer
    }

    /** `MPP_BOOL_CAS`. */
    method Cas(k: nat, from: Flags, to: Flags) returns (ok: bool)
      requires k < slots.Length
      modifies slots
      ensures ok <==> old(slots[k].state) == from
      ensures slots[..] == if ok then old(slots[..])[k := old(slots[k]).(state := to)] else old(slots[..])
    {
      ok := slots[k].state == from;
      if ok {
        slots[k] := slots[k].(state := to);
      }
    }

    /** The common shape of the setters: claim, count, store, mark ready; what is left in the
        slot is what the machine of atomic steps leaves when the call runs alone. */
    method Put(k: nat, c: Call)
      requires Valid() && k < |pointer| && if pointer[k] then c.SetPtr? else c.SetVal?
      modifies this`size, slots
      ensures Valid() && slots[..] == old(slots[..])[k := Solo(c, FirstStep(c), old(slots[k]), 8)]
      ensures Contents() == old(Contents())[k := if c.SetVal? then Value(0, c.val) else Value(c.uaddr, c.kaddr)]
    {
      hide MapOf, CountIf, Solo, Returns;
      SoloSet(slots[k], c);
      ghost var before := slots[..];
      var claimed := Cas(k, VAL_INVALID, VAL_VALID);
      if claimed {
        size := size + 1;
      }
      var x := slots[k];
      if c.SetVal? {
        x := x.(kaddr := c.val);
      } else {
        x := x.(uaddr := c.uaddr);
        x := x.(kaddr := c.kaddr);
        x := x.(state := x.state.(shm := c.shm));
      }
      x := x.(state := x.state.(ready := true));
      slots[k] := x;
      assert slots[..] == before[k := x];
      MapUpdate(before, k, x);
      MapKeys(before, k);
    }

    /** `META_UNMASK_PROP`. */
    method Unmask(k: nat)
      requires Valid() && k < |pointer|
      modifies slots
      ensures Valid() && Contents() == old(Contents())
      ensures slots[..] == old(slots[..])[k := old(slots[k]).(state := old(slots[k]).state.(shm := false))]
    {
      hide MapOf, CountIf;
      ghost var before := slots[..];
      var x := slots[k];
      slots[k] := x.(state := x.state.(shm := false));
      assert slots[..] == before[k := slots[k]];
      MapUpdate(before, k, slots[k]);
      MapKeys(before, k);
      assert k in MapOf(before) ==> MapOf(before)[k := ValueOf(x)] == MapOf(before);
      assert k !in MapOf(before) ==> MapOf(before) - {k} == MapOf(before);
    }

    /** Consume if ready, then uncount. */
    method Consume(k: nat) returns (value: Option<Value>)
      requires Valid() && k < |pointer| && !slots[k].state.shm
      modifies this`size, slots
      ensures Valid() && slots[..] == old(slots[..])[k := old(slots[k]).(state := VAL_INVALID)]
      ensures value == if k in old(Contents()) then Some(old(Contents())[k]) else None
      ensures Contents() == old(Contents()) - {k}
    {
      hide MapOf, CountIf;
      ghost var before := slots[..];
      MapKeys(before, k);
      var consumed := Cas(k, READY_MASK, VAL_INVALID);
      if consumed {
        value := Some(ValueOf(slots[k]));
        size := size - 1;
        MapUpdate(before, k, slots[k]);
      } else {
        value := None;
        assert MapOf(before) - {k} == MapOf(before);
      }
    }

    /** The common shape of the getters: the mark is dropped for pointers, then the slot is
        consumed; again as the call does when it runs alone. */
    method Take(k: nat, c: Call) returns (value: Option<Value>)
      requires Valid() && k < |pointer| && !IsSet(c) && pointer[k] == !c.GetVal?
      modifies this`size, slots
      ensures Valid() && slots[..] == old(slots[..])[k := Solo(c, FirstStep(c), old(slots[k]), 8)]
      ensures value == if k in old(Contents()) then Some(old(Contents())[k]) else None
      ensures Contents() == old(Contents()) - {k}
    {
      hide MapOf, CountIf, Solo, Returns;
      SoloGet(slots[k], c);
      if !c.GetVal? {
        Unmask(k);
      }
      value := Consume(k);
    }

    /** `kmpp_meta_set_s32`, `_s64` and `_ptr`. */
    method SetVal(k: nat, val: int) returns (ret: int)
      requires Valid()
      modifies this`size, slots
      ensures Valid()
      ensures ret == if HasEntry(k, false) then OK else NOK
      ensures Contents() == if ret == OK then old(Contents())[k := Value(0, val)] else old(Contents())
    {
      if !HasEntry(k, false) {
        return NOK;
      }
      Put(k, MetaProtocol.SetVal(val));
      ret := OK;
    }

    /** `kmpp_meta_get_s32`, `_s64` and `_ptr`. */
    method GetVal(k: nat) returns (ret: int, val: int)
      requires Valid()
      modifies this`size, slots
      ensures Valid() && Contents() == if HasEntry(k, false) then old(Contents()) - {k} else old(Contents())
      ensures ret == if HasEntry(k, false) && k in old(Contents()) then OK else NOK
      ensures ret == OK ==> val == old(Contents())[k].kaddr
    {
      val := 0;
      if !HasEntry(k, false) {
        return NOK, 0;
      }
      var value := Take(k, MetaProtocol.GetVal);
      if value.Some? {
        return OK, value.value.kaddr;
      }
      ret := NOK;
    }

    /** `kmpp_meta_get_s32_d`, `_s64_d` and `_ptr_d`: a default instead of a failure. */
    method GetValOr(k: nat, def: int) returns (ret: int, val: int)
      requires Valid()
      modifies this`size, slots
      ensures Valid() && Contents() == if HasEntry(k, false) then old(Contents()) - {k} else old(Contents())
      ensures ret == if HasEntry(k, false) then OK else NOK
      ensures ret == OK ==> val == if k in old(Contents()) then old(Contents())[k].kaddr else def
    {
      val := 0;
      if !HasEntry(k, false) {
        return NOK, 0;
      }
      var value := Take(k, MetaProtocol.GetVal);
      val := if value.Some? then value.value.kaddr else def;
      ret := OK;
    }

    /** `kmpp_meta_set_obj`; `shm` is the shared memory address pair of the object, if it has
        one. */
    method SetObj(k: nat, obj: int, shm: Option<Value>) returns (ret: int)
      requires Valid()
      modifies this`size, slots
      ensures Valid()
      ensures ret == if HasEntry(k, true) then OK else NOK
      ensures Contents() == if ret == NOK then old(Contents())
                            else old(Contents())[k := if shm.Some? then shm.value else Value(0, obj)]
    {
      if !HasEntry(k, true) {
        return NOK;
      }
      if shm.Some? {
        Put(k, SetPtr(shm.value.uaddr, shm.value.kaddr, true));
      } else {
        Put(k, SetPtr(0, obj, false));
      }
      ret := OK;
    }

    /** `kmpp_meta_set_shm`. */
    method SetShm(k: nat, sptr: Option<Value>) returns (ret: int)
      requires Valid()
      modifies this`size, slots
      ensures Valid()
      ensures ret == if HasEntry(k, true) then OK else NOK
      ensures Contents() == if ret == NOK then old(Contents())
                            else old(Contents())[k := if sptr.Some? then sptr.value else Value(0, 0)]
    {
      if !HasEntry(k, true) {
        return NOK;
      }
      if sptr.Some? {
        Put(k, SetPtr(sptr.value.uaddr, sptr.value.kaddr, sptr.value.uaddr != 0));
      } else {
        Put(k, SetPtr(0, 0, false));
      }
      ret := OK;
    }

    /** `kmpp_meta_get_obj`: the object pointer, whichever setter stored it. */
    method GetObj(k: nat) returns (ret: int, val: int)
      requires Valid()
      modifies this`size, slots
      ensures Valid() && Contents() == if HasEntry(k, true) then old(Contents()) - {k} else old(Contents())
      ensures ret == if HasEntry(k, true) && k in old(Contents()) then OK else NOK
      ensures ret == OK ==> val == old(Contents())[k].kaddr
    {
      val := 0;
      if !HasEntry(k, true) {
        return NOK, 0;
      }
      var value := Take(k, MetaProtocol.GetObj);
      if value.Some? {
        return OK, value.value.kaddr;
      }
      ret := NOK;
    }

    /** `kmpp_meta_get_obj_d`. */
    method GetObjOr(k: nat, def: int) returns (ret: int, val: int)
      requires Valid()
      modifies this`size, slots
      ensures Valid() && Contents() == if HasEntry(k, true) then old(Contents()) - {k} else old(Contents())
      ensures ret == if HasEntry(k, true) then OK else NOK
      ensures ret == OK ==> val == if k in old(Contents()) then old(Contents())[k].kaddr else def
    {
      val := 0;
      if !HasEntry(k, true) {
        return NOK, 0;
      }
      var value := Take(k, MetaProtocol.GetObj);
      val := if value.Some? then value.value.kaddr else def;
      ret := OK;
    }

    /** `kmpp_meta_get_shm`: both addresses. */
    method GetShm(k: nat) returns (ret: int, sptr: Value)
      requires Valid()
      modifies this`size, slots
      ensures Valid() && Contents() == if HasEntry(k, true) then old(Contents()) - {k} else old(Contents())
      ensures ret == if HasEntry(k, true) && k in old(Contents()) then OK else NOK
      ensures ret == OK ==> sptr == old(Contents())[k]
    {
      sptr := Value(0, 0);
      if !HasEntry(k, true) {
        return NOK, sptr;
      }
      var value := Take(k, MetaProtocol.GetShm);
      if value.Some? {
        return OK, value.value;
      }
      ret := NOK;
    }

    /** `kmpp_meta_size`. */
    method Size() returns (n: int)
      requires Valid()
      ensures n == |Contents()|
    {
      n := size;
    }
  }

  lemma MapKeys(slots: seq<Slot>, k: nat)
    requires k < |slots|
    ensures k in MapOf(slots) <==> slots[k].state.valid
    ensures k in MapOf(slots) ==> MapOf(slots)[k] == ValueOf(slots[k])
  {
  }
}
