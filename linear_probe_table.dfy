/** The inner table a `DoubleKeyTable` keeps in each outer slot: a fixed array
    of slots, each empty or holding one (key, value) pair, with no key stored
    twice. Only what the double-key table relies on is modelled: its size, the
    slots themselves, emptiness, length, keys and values in slot order, and
    lookup, insertion and deletion with the contracts of a finite map. */
module LinearProbing {
  import opened Errors

  type Slot<V> = Option<(string, V)>

  /** Slot `slot` holds the pair for `key`. */
  predicate Holds<V>(slot: Slot<V>, key: string) {
    slot.Some? && slot.value.0 == key
  }

  /** No key occupies two slots. */
  ghost predicate UniqueKeys<V>(s: seq<Slot<V>>) {
    forall i, j :: 0 <= i < j < |s| && s[i].Some? && s[j].Some? ==> s[i].value.0 != s[j].value.0
  }

  /** `n` empty slots, as a freshly allocated table has. */
  function EmptySlots<V>(n: nat): (r: seq<Slot<V>>)
    ensures |r| == n && forall i :: 0 <= i < n ==> r[i].None?
  {
    seq(n, _ => None)
  }

  /** The value stored under `key`, or `KeyError`. */
  function Lookup<V>(s: seq<Slot<V>>, key: string): (r: Result<V>)
    ensures r.Err? ==> r.error == KeyError
  {
    if s == [] then Err(KeyError)
    else if Holds(s[0], key) then Ok(s[0].value.1)
    else Lookup(s[1..], key)
  }

  /** The number of occupied slots. */
  function Occupied<V>(s: seq<Slot<V>>): nat {
    if s == [] then 0 else (if s[0].Some? then 1 else 0) + Occupied(s[1..])
  }

  /** The stored keys, in slot order. */
  function KeysOf<V>(s: seq<Slot<V>>): seq<string> {
    if s == [] then [] else (if s[0].Some? then [s[0].value.0] else []) + KeysOf(s[1..])
  }

  /** The stored values, in slot order. */
  function ValuesOf<V>(s: seq<Slot<V>>): seq<V> {
    if s == [] then [] else (if s[0].Some? then [s[0].value.1] else []) + ValuesOf(s[1..])
  }

  /** A lookup succeeds exactly when some slot holds the key. */
  lemma {:induction false} LookupFinds<V>(s: seq<Slot<V>>, key: string)
    ensures Lookup(s, key).Ok? <==> exists i :: 0 <= i < |s| && Holds(s[i], key)
  {
    if s != [] && !Holds(s[0], key) {
      LookupFinds(s[1..], key);
      if exists i :: 0 <= i < |s| && Holds(s[i], key) {
        var i :| 0 <= i < |s| && Holds(s[i], key);
        assert Holds(s[1..][i - 1], key);
      }
    }
  }

  /** With unique keys, the slot holding a key determines its lookup. */
  lemma {:induction false} LookupAt<V>(s: seq<Slot<V>>, i: nat)
    requires UniqueKeys(s) && i < |s| && s[i].Some?
    ensures Lookup(s, s[i].value.0) == Ok(s[i].value.1)
  {
    if i > 0 {
      assert !Holds(s[0], s[i].value.0);
      LookupAt(s[1..], i - 1);
    }
  }

  /** Writing a key into its own slot, or into an empty slot when it is absent,
      updates exactly that key and keeps keys unique. */
  lemma LookupAfterWrite<V>(s: seq<Slot<V>>, i: nat, key: string, v: V)
    requires UniqueKeys(s) && i < |s|
    requires Holds(s[i], key) || (s[i].None? && Lookup(s, key).Err?)
    ensures UniqueKeys(s[i := Some((key, v))])
    ensures forall k :: Lookup(s[i := Some((key, v))], k) == if k == key then Ok(v) else Lookup(s, k)
  {
    var t := s[i := Some((key, v))];
    LookupFinds(s, key);
    forall a, b | 0 <= a < b < |t| && t[a].Some? && t[b].Some?
      ensures t[a].value.0 != t[b].value.0
    {
      if a == i {
        assert !Holds(s[b], key);
      } else if b == i {
        assert !Holds(s[a], key);
      }
    }
    LookupAt(t, i);
    forall k | k != key
      ensures Lookup(t, k) == Lookup(s, k)
    {
      LookupFinds(s, k);
      LookupFinds(t, k);
      if j :| 0 <= j < |s| && Holds(s[j], k) {
        assert t[j] == s[j];
        LookupAt(s, j);
        LookupAt(t, j);
      } else {
        assert forall j :: 0 <= j < |t| ==> !Holds(t[j], k) by {
          forall j | 0 <= j < |t| ensures !Holds(t[j], k) {
            if j != i { assert t[j] == s[j]; }
          }
        }
      }
    }
  }

  /** Clearing the slot of a key removes exactly that key. */
  lemma LookupAfterClear<V>(s: seq<Slot<V>>, i: nat)
    requires UniqueKeys(s) && i < |s| && s[i].Some?
    ensures UniqueKeys(s[i := None])
    ensures forall k :: Lookup(s[i := None], k) == if k == s[i].value.0 then Err(KeyError) else Lookup(s, k)
  {
    var t: seq<Slot<V>> := s[i := None];
    var key := s[i].value.0;
    LookupFinds(t, key);
    forall j | 0 <= j < |t| ensures !Holds(t[j], key) {
      if j != i { assert t[j] == s[j]; }
    }
    forall k | k != key
      ensures Lookup(t, k) == Lookup(s, k)
    {
      LookupFinds(s, k);
      LookupFinds(t, k);
      if j :| 0 <= j < |s| && Holds(s[j], k) {
        assert t[j] == s[j];
        LookupAt(s, j);
        LookupAt(t, j);
      } else {
        forall j | 0 <= j < |t| ensures !Holds(t[j], k) {
          if j != i { assert t[j] == s[j]; }
        }
      }
    }
  }

  /** How one slot write changes the number of occupied slots. */
  lemma {:induction false} OccupiedAfterWrite<V>(s: seq<Slot<V>>, i: nat, x: Slot<V>)
    requires i < |s|
    ensures Occupied(s[i := x]) == Occupied(s) - (if s[i].Some? then 1 else 0) + (if x.Some? then 1 else 0)
  {
    if i > 0 {
      assert s[i := x][1..] == s[1..][i - 1 := x];
      OccupiedAfterWrite(s[1..], i - 1, x);
    } else {
      assert s[i := x][1..] == s[1..];
    }
  }

  /** No slot is occupied exactly when every slot is empty. */
  lemma {:induction false} OccupiedZero<V>(s: seq<Slot<V>>)
    ensures Occupied(s) == 0 <==> forall i :: 0 <= i < |s| ==> s[i].None?
  {
    if s != [] {
      OccupiedZero(s[1..]);
      assert forall i :: 1 <= i < |s| ==> s[i] == s[1..][i - 1];
    }
  }

  /** The key list has one entry per occupied slot and lists exactly the keys
      a lookup finds. */
  lemma {:induction false} KeysAreStored<V>(s: seq<Slot<V>>)
    ensures |KeysOf(s)| == Occupied(s) == |ValuesOf(s)|
    ensures forall k :: k in KeysOf(s) <==> Lookup(s, k).Ok?
  {
    if s != [] {
      KeysAreStored(s[1..]);
    }
  }

  class LinearProbeTable<V> {
    var slots: array<Slot<V>>  // the source's `array`

    ghost predicate Valid()
      reads this, slots
    {
      slots.Length >= 1 && UniqueKeys(slots[..])
    }

    /** A table of `sizes[0]` empty slots. */
    constructor (sizes: seq<nat>)
      requires |sizes| > 0 && sizes[0] >= 1
      ensures Valid() && fresh(slots)
      ensures slots[..] == EmptySlots(sizes[0])
    {
      slots := new Slot<V>[sizes[0]](_ => None);
    }

    function TableSize(): nat
      reads this
    {
      slots.Length
    }

    function Len(): nat
      reads this, slots
    {
      Occupied(slots[..])
    }

    function IsEmpty(): (b: bool)
      reads this, slots
      ensures b <==> forall i :: 0 <= i < slots.Length ==> slots[i].None?
    {
      OccupiedZero(slots[..]);
      Len() == 0
    }

    function Keys(): seq<string>
      reads this, slots
    {
      KeysOf(slots[..])
    }

    function Values(): seq<V>
      reads this, slots
    {
      ValuesOf(slots[..])
    }

    /** The slot holding `key`, if any. */
    method Find(key: string) returns (r: Option<nat>)
      ensures r.Some? ==> r.value < slots.Length && Holds(slots[r.value], key)
      ensures r.None? ==> forall i :: 0 <= i < slots.Length ==> !Holds(slots[i], key)
    {
      for i := 0 to slots.Length
        invariant forall j :: 0 <= j < i ==> !Holds(slots[j], key)
      {
        if Holds(slots[i], key) {
          return Some(i);
        }
      }
      return None;
    }

    method Contains(key: string) returns (b: bool)
      requires Valid()
      ensures b == Lookup(slots[..], key).Ok?
    {
      var i := Find(key);
      LookupFinds(slots[..], key);
      b := i.Some?;
    }

    method Get(key: string) returns (r: Result<V>)
      requires Valid()
      ensures r == Lookup(slots[..], key)
    {
      var i := Find(key);
      LookupFinds(slots[..], key);
      if i.None? {
        return Err(KeyError);
      }
      LookupAt(slots[..], i.value);
      return Ok(slots[i.value].value.1);
    }

    /** Stores `v` under `key`: in the key's own slot when it is present,
        otherwise in the first empty slot; `FullError` when there is none. */
    method Set(key: string, v: V) returns (o: Outcome)
      requires Valid()
      modifies slots
      ensures Valid()
      ensures o.Pass? ==> forall k :: Lookup(slots[..], k) == if k == key then Ok(v) else old(Lookup(slots[..], k))
      ensures o.Pass? ==> Len() == old(Len()) + (if old(Lookup(slots[..], key)).Ok? then 0 else 1)
      ensures o.Fail? ==> o.error == FullError && unchanged(slots)
      ensures o.Fail? <==> old(Lookup(slots[..], key)).Err? && forall i :: 0 <= i < slots.Length ==> old(slots[i]).Some?
    {
      var i := Find(key);
      LookupFinds(slots[..], key);
      if i.None? {
        var j := 0;
        while j < slots.Length && slots[j].Some?
          invariant j <= slots.Length
          invariant forall t :: 0 <= t < j ==> slots[t].Some?
        {
          j := j + 1;
        }
        if j == slots.Length {
          return Fail(FullError);
        }
        i := Some(j);
      }
      var p := i.value;
      LookupAfterWrite(slots[..], p, key, v);
      OccupiedAfterWrite(slots[..], p, Some((key, v)));
      slots[p] := Some((key, v));
      return Pass;
    }

    /** Removes `key`; `KeyError` when it is not stored. */
    method Delete(key: string) returns (o: Outcome)
      requires Valid()
      modifies slots
      ensures Valid()
      ensures old(Lookup(slots[..], key)).Err? ==> o == Fail(KeyError) && unchanged(slots)
      ensures old(Lookup(slots[..], key)).Ok? ==>
                o == Pass && Len() == old(Len()) - 1
                && forall k :: Lookup(slots[..], k) == if k == key then Err(KeyError) else old(Lookup(slots[..], k))
    {
      var i := Find(key);
      LookupFinds(slots[..], key);
      if i.None? {
        return Fail(KeyError);
      }
      var p := i.value;
      LookupAfterClear(slots[..], p);
      OccupiedAfterWrite(slots[..], p, None);
      slots[p] := None;
      return Pass;
    }
  }
}
