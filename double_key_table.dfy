/** A two-level hash table addressed by a pair of string keys: an outer array
    of `LinearProbeTable`s indexed by the polynomial hash of the first key,
    each storing values under the second key. */
module DoubleKey {
  import opened Errors
  import opened LinearProbing

  /** The default capacities; only the first one is ever used. */
  const TABLE_SIZES: seq<nat> := [5, 13, 29, 53, 97, 193, 389, 769, 1543, 3079, 6151, 12289, 24593, 49157,
                                  98317, 196613, 393241, 786433, 1572869]
  const HASH_BASE: nat := 31
  /** The starting multiplier of the polynomial hash. */
  const HASH_SEED: nat := 31415

  /** The accumulator `value` and the multiplier `a` of the polynomial hash
      modulo `m` after reading `s`. */
  function HashState(s: string, m: nat): (st: (nat, nat))
    requires m >= 2
    ensures st.0 < m
  {
    if s == [] then (0, HASH_SEED)
    else
      var prev := HashState(s[..|s| - 1], m);
      ((s[|s| - 1] as int + prev.1 * prev.0) % m, prev.1 * HASH_BASE % (m - 1))
  }

  /** The hash of `key` for a table of capacity `m`: an index below `m`, 0 for
      the empty key, and `ZeroDivisionError` when `m` is 1 and the key is not
      empty, because the multiplier is then reduced modulo 0. */
  function PolyHash(key: string, m: nat): (r: Result<nat>)
    requires m >= 1
    ensures r.Ok? ==> r.value < m
    ensures key == [] ==> r == Ok(0)
    ensures r.Err? <==> m == 1 && key != []
    ensures r.Err? ==> r.error == ZeroDivisionError
  {
    if m == 1 then (if key == [] then Ok(0) else Err(ZeroDivisionError))
    else Ok(HashState(key, m).0)
  }

  /** The body shared by `hash1` and `hash2`: one pass over the characters of
      `key`, updating the accumulator and the multiplier. */
  method PolynomialHash(key: string, m: nat) returns (r: Result<nat>)
    requires m >= 1
    ensures r == PolyHash(key, m)
  {
    var value: nat := 0;
    var a: nat := HASH_SEED;
    for i := 0 to |key|
      invariant m >= 2 ==> (value, a) == HashState(key[..i], m)
      invariant m == 1 ==> i == 0 && value == 0
    {
      assert key[..i + 1][..i] == key[..i];
      value := (key[i] as int + a * value) % m;
      if m - 1 == 0 {
        return Err(ZeroDivisionError);
      }
      a := a * HASH_BASE % (m - 1);
    }
    assert key[..|key|] == key;
    return Ok(value);
  }

  /** `hash1` as the source writes it: `self.table_size` names the method, not
      its result, so `%` raises `TypeError` as soon as the key has a character. */
  function Hash1AsWritten(key: string): (r: Result<nat>)
    ensures r.Ok? <==> key == []
  {
    if key == [] then Ok(0) else Err(TypeError)
  }

  /** Every non-empty first key makes the written `hash1` fail, although the
      intended hash of it is defined for every capacity of at least 2. */
  lemma Hash1AsWrittenFails(key: string, m: nat)
    requires key != [] && m >= 2
    ensures Hash1AsWritten(key) == Err(TypeError)
    ensures PolyHash(key, m).Ok? && PolyHash(key, m).value < m
  {
  }

  /** The slot inspected at step `t` of a probe that starts at `start` in a
      table of `n` slots, wrapping around once past the end. */
  function Step(start: nat, t: nat, n: nat): (p: nat)
    requires start < n && t < n
    ensures p < n
  {
    if start + t < n then start + t else start + t - n
  }

  /** The probing loop of `_linear_probe` from step `j` on: step `j` inspects
      slot `Step(start, j, |s|)`, and at most `|s|` steps are taken. */
  function ProbeFrom<V>(s: seq<Slot<V>>, start: nat, j: nat, key2: string, isInsert: bool): (r: Result<nat>)
    requires start < |s|
    ensures r.Ok? ==> r.value < |s| && (Holds(s[r.value], key2) || (isInsert && s[r.value].None?))
    ensures r.Err? ==> r.error == if isInsert then FullError else KeyError
    decreases |s| - j
  {
    if j >= |s| then Err(if isInsert then FullError else KeyError)
    else
      var p := Step(start, j, |s|);
      if s[p].None? then (if isInsert then Ok(p) else Err(KeyError))
      else if s[p].value.0 == key2 then Ok(p)
      else ProbeFrom(s, start, j + 1, key2, isInsert)
  }

  /** The first `j` probed slots are all occupied by other keys. */
  ghost predicate PassedOver<V>(s: seq<Slot<V>>, start: nat, j: nat, key2: string)
    requires start < |s| && j <= |s|
  {
    forall t :: 0 <= t < j ==> s[Step(start, t, |s|)].Some? && s[Step(start, t, |s|)].value.0 != key2
  }

  /** What a probe finds: the slot of `key2` or, when inserting, the first
      empty slot, in either case past occupied slots of other keys only;
      otherwise it stops at an empty slot (lookups) or after a full round,
      with `KeyError` for lookups and `FullError` for insertions. */
  lemma ProbeOutcome<V>(s: seq<Slot<V>>, start: nat, key2: string, isInsert: bool)
    requires start < |s|
    ensures match ProbeFrom(s, start, 0, key2, isInsert)
      case Ok(p) =>
        p < |s| && (Holds(s[p], key2) || (isInsert && s[p].None?))
        && exists j :: 0 <= j < |s| && p == Step(start, j, |s|) && PassedOver(s, start, j, key2)
      case Err(e) =>
        (if isInsert then e == FullError else e == KeyError)
        && exists j :: 0 <= j <= |s| && PassedOver(s, start, j, key2)
                       && (j == |s| || (!isInsert && s[Step(start, j, |s|)].None?))
  {
    ProbeOutcomeFrom(s, start, 0, key2, isInsert);
  }

  lemma {:induction false} ProbeOutcomeFrom<V>(s: seq<Slot<V>>, start: nat, j: nat, key2: string, isInsert: bool)
    requires start < |s| && j <= |s| && PassedOver(s, start, j, key2)
    ensures match ProbeFrom(s, start, j, key2, isInsert)
      case Ok(p) =>
        p < |s| && (Holds(s[p], key2) || (isInsert && s[p].None?))
        && exists i :: j <= i < |s| && p == Step(start, i, |s|) && PassedOver(s, start, i, key2)
      case Err(e) =>
        (if isInsert then e == FullError else e == KeyError)
        && exists i :: j <= i <= |s| && PassedOver(s, start, i, key2)
                       && (i == |s| || (!isInsert && s[Step(start, i, |s|)].None?))
    decreases |s| - j
  {
    if j < |s| {
      var p := Step(start, j, |s|);
      if s[p].Some? && s[p].value.0 != key2 {
        assert PassedOver(s, start, j + 1, key2);
        ProbeOutcomeFrom(s, start, j + 1, key2, isInsert);
      }
    }
  }

  /** A full round of probing visits every slot. */
  lemma FullRoundVisitsAll<V>(s: seq<Slot<V>>, start: nat, key2: string)
    requires start < |s| && PassedOver(s, start, |s|, key2)
    ensures forall i :: 0 <= i < |s| ==> s[i].Some? && s[i].value.0 != key2
  {
    forall i | 0 <= i < |s|
      ensures s[i].Some? && s[i].value.0 != key2
    {
      var t := if i >= start then i - start else i + |s| - start;
      assert Step(start, t, |s|) == i;
    }
  }

  /** Python's `(position + 1) % n` on an index below `n` is the next probe step. */
  lemma NextStep(start: nat, t: nat, n: nat)
    requires start < n && t + 1 < n
    ensures (Step(start, t, n) + 1) % n == Step(start, t + 1, n)
  {
    var x := Step(start, t, n) + 1;
    if x < n {
      assert x % n == x by { assert x == 0 * n + x; }
    } else {
      assert x % n == 0 by { assert x == 1 * n + 0; }
    }
  }

  /** An inner table with no occupied slot stores nothing. */
  lemma EmptyStoresNothing<V>(s: seq<Slot<V>>, k: string)
    requires Occupied(s) == 0
    ensures Lookup(s, k) == Err(KeyError)
  {
    OccupiedZero(s);
    LookupFinds(s, k);
  }

  /** The values of all inner tables, in outer-slot order. */
  function AllValuesOf<V>(cs: seq<seq<Slot<V>>>): seq<V> {
    if cs == [] then [] else AllValuesOf(cs[..|cs| - 1]) + ValuesOf(cs[|cs| - 1])
  }

  /** The total number of occupied inner slots. */
  function TotalOccupied<V>(cs: seq<seq<Slot<V>>>): nat {
    if cs == [] then 0 else TotalOccupied(cs[..|cs| - 1]) + Occupied(cs[|cs| - 1])
  }

  /** `values()` lists one value per stored pair, so it is as long as `len()`. */
  lemma {:induction false} AllValuesCount<V>(cs: seq<seq<Slot<V>>>)
    ensures |AllValuesOf(cs)| == TotalOccupied(cs)
  {
    if cs != [] {
      AllValuesCount(cs[..|cs| - 1]);
      KeysAreStored(cs[|cs| - 1]);
    }
  }

  /** The probe of an inner table: from the hash of `key2`, as in
      `_linear_probe` after the inner table is chosen. */
  function InnerProbe<V>(s: seq<Slot<V>>, key2: string, isInsert: bool): (r: Result<nat>)
    requires |s| >= 1
    ensures r.Ok? ==> r.value < |s| && (Holds(s[r.value], key2) || (isInsert && s[r.value].None?))
    ensures r.Err? ==> r.error == ZeroDivisionError || r.error == if isInsert then FullError else KeyError
    ensures r == Err(ZeroDivisionError) <==> |s| == 1 && key2 != []
  {
    var h2 := PolyHash(key2, |s|);
    if h2.Err? then Err(h2.error) else ProbeFrom(s, h2.value, 0, key2, isInsert)
  }

  /** The value under `(key1, key2)` when the inner tables hold `cs`. */
  function StoredIn<V>(cs: seq<seq<Slot<V>>>, key1: string, key2: string): Result<V>
    requires |cs| >= 1
  {
    var h := PolyHash(key1, |cs|);
    if h.Err? then Err(h.error) else Lookup(cs[h.value], key2)
  }

  /** Changing the entry for `key2` in the inner table of `key1` changes the
      stored value of exactly the pairs `(k1, key2)` with `k1` hashing like
      `key1`. */
  lemma StoredAfterUpdate<V>(cs: seq<seq<Slot<V>>>, after: seq<seq<Slot<V>>>, key1: string, key2: string, x: Result<V>)
    requires |cs| >= 1 && PolyHash(key1, |cs|).Ok? && |after| == |cs|
    requires forall i :: 0 <= i < |cs| && i != PolyHash(key1, |cs|).value ==> after[i] == cs[i]
    requires forall k :: Lookup(after[PolyHash(key1, |cs|).value], k) ==
                         if k == key2 then x else Lookup(cs[PolyHash(key1, |cs|).value], k)
    ensures forall k1, k2 :: StoredIn(after, k1, k2) ==
              if PolyHash(k1, |cs|) == PolyHash(key1, |cs|) && k2 == key2 then x else StoredIn(cs, k1, k2)
  {
  }

  class DoubleKeyTable<V> {
    var tableSizes: seq<nat>                       // the source's TABLE_SIZES
    var sizeIndex: nat
    var tables: array<LinearProbeTable?<V>>        // the source's `array`
    var count: int
    /** The slots of each inner table, outer slot by outer slot. */
    ghost var Contents: seq<seq<Slot<V>>>
    ghost var Repr: set<object>

    ghost predicate Valid()
      reads this, Repr
    {
      this in Repr && tables in Repr
      && sizeIndex < |tableSizes| && |tableSizes| > 0 && tableSizes[0] >= 1
      && tables.Length == tableSizes[sizeIndex] && tables.Length >= 1
      && |Contents| == tables.Length
      && (forall i :: 0 <= i < tables.Length ==>
            tables[i] != null && tables[i] in Repr && tables[i].slots in Repr
            && tables[i].Valid() && Contents[i] == tables[i].slots[..])
      && (forall i, j :: 0 <= i < j < tables.Length ==>
            tables[i] != tables[j] && tables[i].slots != tables[j].slots)
    }

    /** The value stored under the pair `(key1, key2)`, or the error reading
        it raises. */
    ghost function Stored(key1: string, key2: string): Result<V>
      reads this, Repr
      requires Valid()
    {
      StoredIn(Contents, key1, key2)
    }

    /** Two first keys share an outer slot exactly when they hash alike. */
    ghost predicate SameSlot(k1: string, key1: string)
      reads this, Repr
      requires Valid()
    {
      PolyHash(k1, TableSize()) == PolyHash(key1, TableSize())
    }

    /** `TABLE_SIZES[0]` empty inner tables sized by `internalSizes` (or by
        the outer sizes when it is absent); `count` starts at 0. */
    constructor (sizes: Option<seq<nat>>, internalSizes: Option<seq<nat>>)
      requires sizes.Some? ==> |sizes.value| > 0 && sizes.value[0] >= 1
      requires internalSizes.Some? ==> |internalSizes.value| > 0 && internalSizes.value[0] >= 1
      ensures Valid() && fresh(Repr)
      ensures tableSizes == (if sizes.Some? then sizes.value else TABLE_SIZES)
      ensures sizeIndex == 0 && count == 0 && tables.Length == tableSizes[0]
      ensures var internal := if internalSizes.Some? then internalSizes.value else tableSizes;
              forall i :: 0 <= i < tables.Length ==> Contents[i] == EmptySlots(internal[0])
    {
      var outer := if sizes.Some? then sizes.value else TABLE_SIZES;
      var internal := if internalSizes.Some? then internalSizes.value else outer;
      tableSizes := outer;
      sizeIndex := 0;
      var n := outer[0];
      tables := new LinearProbeTable?<V>[n](_ => null);
      Contents := seq(n, _ => EmptySlots(internal[0]));
      count := 0;
      Repr := {this, tables};
      new;
      ghost var empty := Contents;
      for i := 0 to n
        invariant tableSizes == outer && sizeIndex == 0 && count == 0
        invariant tables.Length == n && Contents == empty
        invariant fresh(Repr - {this})
        invariant this in Repr && tables in Repr
        invariant forall j :: 0 <= j < i ==>
                    tables[j] != null && tables[j] in Repr && tables[j].slots in Repr
                    && tables[j].Valid() && Contents[j] == tables[j].slots[..]
        invariant forall j, k :: 0 <= j < k < i ==> tables[j] != tables[k] && tables[j].slots != tables[k].slots
      {
        var t := new LinearProbeTable<V>(internal);
        ghost var owned := Repr;
        tables[i] := t;
        Repr := Repr + {t, t.slots};
        forall j, k | 0 <= j < k <= i
          ensures tables[j] != tables[k] && tables[j].slots != tables[k].slots
        {
          if k == i {
            assert tables[j] in owned && tables[j].slots in owned;
          }
        }
      }
    }

    function TableSize(): (r: nat)
      reads this, Repr
      requires Valid()
      ensures r == tables.Length && r >= 1
    {
      tableSizes[sizeIndex]
    }

    /** `hash1`, read with the capacity `table_size()` it evidently means. */
    method Hash1(key1: string) returns (r: Result<nat>)
      requires Valid()
      ensures r == PolyHash(key1, TableSize())
    {
      r := PolynomialHash(key1, TableSize());
    }

    method Hash2(key2: string, sub: LinearProbeTable<V>) returns (r: Result<nat>)
      requires sub.TableSize() >= 1
      ensures r == PolyHash(key2, sub.TableSize())
    {
      r := PolynomialHash(key2, sub.TableSize());
    }

    /** Puts a fresh empty inner table, sized by the outer sizes, in slot `p`. */
    method ReplaceEmpty(p: nat)
      requires Valid() && p < tables.Length
      modifies this`Contents, this`Repr, tables
      ensures Valid() && fresh(Repr - old(Repr))
      ensures fresh(tables[p]) && Contents == old(Contents)[p := EmptySlots(tableSizes[0])]
      ensures forall i :: 0 <= i < tables.Length && i != p ==> tables[i] == old(tables[i])
    {
      var replacement := new LinearProbeTable<V>(tableSizes);
      tables[p] := replacement;
      Contents := Contents[p := replacement.slots[..]];
      Repr := Repr + {replacement, replacement.slots};
    }

    /** The check that ends `__delitem__`: an inner table left with no
        pair is replaced by a fresh one, which stores the same (nothing). */
    method ReplaceIfEmpty(p: nat)
      requires Valid() && p < tables.Length
      modifies this`Contents, this`Repr, tables
      ensures Valid() && fresh(Repr - old(Repr))
      ensures forall i :: 0 <= i < tables.Length && i != p ==> tables[i] == old(tables[i])
      ensures forall k :: Lookup(Contents[p], k) == old(Lookup(Contents[p], k))
      ensures old(Occupied(Contents[p])) == 0 ==>
                fresh(tables[p]) && Contents == old(Contents)[p := EmptySlots(tableSizes[0])]
      ensures old(Occupied(Contents[p])) != 0 ==> tables[p] == old(tables[p]) && Contents == old(Contents)
    {
      if tables[p].Len() == 0 {
        ghost var emptied := Contents[p];
        ReplaceEmpty(p);
        OccupiedZero(Contents[p]);
        forall k ensures Lookup(Contents[p], k) == Lookup(emptied, k) {
          EmptyStoresNothing(emptied, k);
          EmptyStoresNothing(Contents[p], k);
        }
      }
    }

    /** The probing loop of `_linear_probe` over the chosen inner table: the
        slot of `key2`, or when inserting the first empty slot met. */
    method ProbeInner(inner: LinearProbeTable<V>, key2: string, isInsert: bool) returns (r: Result<nat>)
      requires inner.Valid()
      ensures r == InnerProbe(inner.slots[..], key2, isInsert)
      ensures r.Ok? ==> r.value < inner.slots.Length
                        && (Holds(inner.slots[r.value], key2) || (isInsert && inner.slots[r.value].None?))
    {
      var position2 :- Hash2(key2, inner);
      ghost var start := position2;
      var n := inner.TableSize();
      ProbeOutcome(inner.slots[..], start, key2, isInsert);
      for step := 0 to n
        invariant step < n ==> position2 == Step(start, step, n)
        invariant ProbeFrom(inner.slots[..], start, step, key2, isInsert)
                  == ProbeFrom(inner.slots[..], start, 0, key2, isInsert)
      {
        if inner.slots[position2].None? {
          if isInsert {
            return Ok(position2);
          } else {
            return Err(KeyError);
          }
        } else if inner.slots[position2].value.0 == key2 {
          return Ok(position2);
        } else {
          if step + 1 < n {
            NextStep(start, step, n);
          }
          position2 := (position2 + 1) % n;
        }
      }
      if isInsert {
        return Err(FullError);
      } else {
        return Err(KeyError);
      }
    }

    /** `_linear_probe`: the outer index is the hash of `key1`; an insertion
        that finds that inner table empty first replaces it with a fresh one;
        then the inner table is probed from the hash of `key2`. */
    method LinearProbe(key1: string, key2: string, isInsert: bool) returns (r: Result<(nat, nat)>)
      requires Valid()
      modifies this`Contents, this`Repr, tables
      ensures Valid() && fresh(Repr - old(Repr))
      ensures PolyHash(key1, TableSize()).Err? ==>
                r == Err(ZeroDivisionError) && Contents == old(Contents) && unchanged(tables)
      ensures PolyHash(key1, TableSize()).Ok? ==>
                var p1 := PolyHash(key1, TableSize()).value;
                (forall i :: 0 <= i < tables.Length && i != p1 ==> tables[i] == old(tables[i]))
                && (if isInsert && old(Occupied(Contents[p1])) == 0
                    then fresh(tables[p1]) && Contents == old(Contents)[p1 := EmptySlots(tableSizes[0])]
                    else tables[p1] == old(tables[p1]) && Contents == old(Contents))
                && r == (match InnerProbe(Contents[p1], key2, isInsert)
                           case Ok(p2) => Ok((p1, p2))
                           case Err(e) => Err(e))
      ensures r.Ok? ==>
                r.value.0 == PolyHash(key1, TableSize()).value && r.value.1 < |Contents[r.value.0]|
                && (Holds(Contents[r.value.0][r.value.1], key2)
                    || (isInsert && Contents[r.value.0][r.value.1].None?))
    {
      var position1 :- Hash1(key1);
      var inner := tables[position1];
      OccupiedZero(inner.slots[..]);
      if isInsert && inner.IsEmpty() {
        ReplaceEmpty(position1);
        inner := tables[position1];
      }
      var position2 :- ProbeInner(inner, key2, isInsert);
      return Ok((position1, position2));
    }

    /** `keys()`: the outer indices whose inner table is not empty, ascending. */
    method TopLevelKeys() returns (r: seq<nat>)
      requires Valid()
      ensures forall i :: i in r <==> 0 <= i < tables.Length && Occupied(Contents[i]) > 0
      ensures forall a, b :: 0 <= a < b < |r| ==> r[a] < r[b]
    {
      r := [];
      for i := 0 to tables.Length
        invariant forall k :: k in r <==> 0 <= k < i && Occupied(Contents[k]) > 0
        invariant forall a, b :: 0 <= a < b < |r| ==> r[a] < r[b]
        invariant forall a :: 0 <= a < |r| ==> r[a] < i
      {
        if !tables[i].IsEmpty() {
          r := r + [i];
        }
      }
    }

    /** `keys(key1)`: the second keys stored in the inner table of `key1`. */
    method KeysFor(key1: string) returns (r: Result<seq<string>>)
      requires Valid()
      ensures PolyHash(key1, TableSize()).Err? ==> r == Err(ZeroDivisionError)
      ensures PolyHash(key1, TableSize()).Ok? ==> r == Ok(KeysOf(Contents[PolyHash(key1, TableSize()).value]))
      ensures r.Ok? ==> forall k2 :: k2 in r.value <==> Stored(key1, k2).Ok?
    {
      var position :- Hash1(key1);
      KeysAreStored(Contents[position]);
      return Ok(tables[position].Keys());
    }

    /** `values()`: the values of every inner table, in outer-slot order. */
    method AllValues() returns (r: seq<V>)
      requires Valid()
      ensures r == AllValuesOf(Contents)
    {
      r := [];
      for i := 0 to tables.Length
        invariant r == AllValuesOf(Contents[..i])
      {
        assert Contents[..i + 1][..i] == Contents[..i];
        if !tables[i].IsEmpty() {
          r := r + tables[i].Values();
        } else {
          assert ValuesOf(Contents[i]) == [] by {
            KeysAreStored(Contents[i]);
          }
        }
      }
      assert Contents[..tables.Length] == Contents;
    }

    /** `values(key1)`: the values in the inner table of `key1`. */
    method ValuesFor(key1: string) returns (r: Result<seq<V>>)
      requires Valid()
      ensures PolyHash(key1, TableSize()).Err? ==> r == Err(ZeroDivisionError)
      ensures PolyHash(key1, TableSize()).Ok? ==> r == Ok(ValuesOf(Contents[PolyHash(key1, TableSize()).value]))
    {
      var position :- Hash1(key1);
      return Ok(tables[position].Values());
    }

    /** `(key1, key2) in table`. */
    method Contains(key1: string, key2: string) returns (r: Result<bool>)
      requires Valid()
      ensures PolyHash(key1, TableSize()).Err? ==> r == Err(ZeroDivisionError)
      ensures PolyHash(key1, TableSize()).Ok? ==> r == Ok(Stored(key1, key2).Ok?)
    {
      var position :- Hash1(key1);
      var b := tables[position].Contains(key2);
      return Ok(b);
    }

    /** `table[key1, key2]`. */
    method Get(key1: string, key2: string) returns (r: Result<V>)
      requires Valid()
      ensures r == Stored(key1, key2)
    {
      var position :- Hash1(key1);
      r := tables[position].Get(key2);
    }

    /** `table[key1, key2] = v`: stores into the inner table of `key1`, so
        every first key sharing that outer slot sees the new value. */
    method Set(key1: string, key2: string, v: V) returns (o: Outcome)
      requires Valid()
      modifies this`Contents, Repr - {this}
      ensures Valid() && Repr == old(Repr) && unchanged(tables)
      ensures o.Fail? ==> Contents == old(Contents)
      ensures o.Fail? ==> o.error == ZeroDivisionError || o.error == FullError
      ensures o == Fail(ZeroDivisionError) <==> PolyHash(key1, TableSize()).Err?
      ensures PolyHash(key1, TableSize()).Ok? ==>
                var p := PolyHash(key1, TableSize()).value;
                (o == Fail(FullError) <==>
                   old(Stored(key1, key2)).Err? && forall i :: 0 <= i < |old(Contents)[p]| ==> old(Contents)[p][i].Some?)
      ensures o.Pass? ==> forall k1, k2 :: Stored(k1, k2) ==
                            if SameSlot(k1, key1) && k2 == key2 then Ok(v) else old(Stored(k1, k2))
    {
      var h := Hash1(key1);
      if h.Err? {
        return Fail(h.error);
      }
      var position := h.value;
      var inner := tables[position];
      o := inner.Set(key2, v);
      if o.Pass? {
        ghost var before := Contents;
        Contents := Contents[position := inner.slots[..]];
        StoredAfterUpdate(before, Contents, key1, key2, Ok(v));
      }
    }

    /** `del table[key1, key2]`; an inner table left empty is replaced by a
        fresh one. */
    method Delete(key1: string, key2: string) returns (o: Outcome)
      requires Valid()
      modifies this`Contents, this`Repr, Repr - {this}
      ensures Valid() && fresh(Repr - old(Repr))
      ensures o.Fail? <==> old(Stored(key1, key2)).Err?
      ensures o.Fail? ==> o.error == old(Stored(key1, key2)).error && Contents == old(Contents)
      ensures o.Pass? ==> forall k1, k2 :: Stored(k1, k2) ==
                            if SameSlot(k1, key1) && k2 == key2 then Err(KeyError) else old(Stored(k1, k2))
      ensures o.Pass? ==>
                var p := PolyHash(key1, TableSize()).value;
                (forall i :: 0 <= i < tables.Length && i != p ==> tables[i] == old(tables[i]))
                && (if old(Occupied(Contents[p])) == 1
                    then fresh(tables[p]) && Contents == old(Contents)[p := EmptySlots(tableSizes[0])]
                    else tables[p] == old(tables[p]) && Occupied(Contents[p]) == old(Occupied(Contents[p])) - 1)
    {
      var h := Hash1(key1);
      if h.Err? {
        return Fail(h.error);
      }
      var position := h.value;
      ghost var before := Contents;
      o := DeleteInner(position, key2);
      if o.Fail? {
        return;
      }
      ghost var emptied := Contents;
      ReplaceIfEmpty(position);
      assert forall k :: Lookup(Contents[position], k) == Lookup(emptied[position], k);
      StoredAfterUpdate(before, Contents, key1, key2, Err(KeyError));
    }

    /** Removes `key2` from the inner table in slot `p`. */
    method DeleteInner(p: nat, key2: string) returns (o: Outcome)
      requires Valid() && p < tables.Length
      modifies this`Contents, tables[p].slots
      ensures Valid() && unchanged(tables)
      ensures o.Fail? <==> old(Lookup(Contents[p], key2)).Err?
      ensures o.Fail? ==> o == Fail(KeyError) && Contents == old(Contents)
      ensures o.Pass? ==> |Contents| == |old(Contents)|
                          && (forall i :: 0 <= i < |Contents| && i != p ==> Contents[i] == old(Contents[i]))
                          && Occupied(Contents[p]) == old(Occupied(Contents[p])) - 1
                          && forall k :: Lookup(Contents[p], k) ==
                                         if k == key2 then Err(KeyError) else old(Lookup(Contents[p], k))
    {
      var inner := tables[p];
      o := inner.Delete(key2);
      if o.Pass? {
        Contents := Contents[p := inner.slots[..]];
      }
    }

    /** `len(table)`: the sum of the inner lengths. */
    method Len() returns (r: nat)
      requires Valid()
      ensures r == TotalOccupied(Contents)
      ensures r == |AllValuesOf(Contents)|
    {
      r := 0;
      for i := 0 to tables.Length
        invariant r == TotalOccupied(Contents[..i])
      {
        assert Contents[..i + 1][..i] == Contents[..i];
        r := r + tables[i].Len();
      }
      assert Contents[..tables.Length] == Contents;
      AllValuesCount(Contents);
    }
  }
}
