/** The value model of `InfiniteHashTable`: a trie of 27-slot nodes. A node
    at level `L` places a key by its character at position `L` (modulo 26),
    or in the sentinel slot 26 once the key is exhausted. A slot is empty,
    holds one (key, value) pair, or holds a child node at level `L + 1`. */
module Trie {
  import opened Errors

  const TABLE_SIZE: nat := 27

  datatype Entry<V> = Vacant | Pair(key: string, value: V) | Table(child: Node<V>)

  /** `count` is the node's own counter, which the operations update only
      when they write a pair into, or remove a pair from, the node itself. */
  datatype Node<V> = Node(level: nat, slots: seq<Entry<V>>, count: int)

  /** The slot of `key` at `level`: its character there modulo 26, or the
      sentinel 26 exactly when the key has no character there. */
  function Hash(level: nat, key: string): (h: nat)
    ensures h < TABLE_SIZE
    ensures h == TABLE_SIZE - 1 <==> |key| <= level
  {
    if level < |key| then key[level] as int % (TABLE_SIZE - 1) else TABLE_SIZE - 1
  }

  function EmptyNode<V>(level: nat): (n: Node<V>)
    ensures |n.slots| == TABLE_SIZE && n.level == level && n.count == 0
    ensures forall i :: 0 <= i < TABLE_SIZE ==> n.slots[i].Vacant?
  {
    Node(level, seq(TABLE_SIZE, _ => Vacant), 0)
  }

  /** The number of non-empty slots. */
  function Occupied<V>(s: seq<Entry<V>>): nat {
    if s == [] then 0 else (if s[0].Vacant? then 0 else 1) + Occupied(s[1..])
  }

  /** Every pair held in the node or below it, as a map. */
  function Contents<V>(n: Node<V>): map<string, V>
    decreases n
  {
    SlotsContents(n.slots)
  }

  function SlotsContents<V>(s: seq<Entry<V>>): map<string, V>
    decreases s
  {
    if s == [] then map[] else EntryContents(s[0]) + SlotsContents(s[1..])
  }

  function EntryContents<V>(e: Entry<V>): map<string, V>
    decreases e
  {
    match e
    case Vacant => map[]
    case Pair(k, v) => map[k := v]
    case Table(c) => Contents(c)
  }

  /** Every key held under slot `j` is placed there by `Hash`. */
  ghost predicate Placed<V>(n: Node<V>) {
    forall j, k :: 0 <= j < |n.slots| && k in EntryContents(n.slots[j]) ==> Hash(n.level, k) == j
  }

  /** The invariant the table operations keep: 27 slots, the counter equal to
      the number of non-empty slots, no child in the sentinel slot, every key
      placed by its hash, and children one level down with the same shape. */
  ghost predicate Valid<V>(n: Node<V>)
    decreases n
  {
    |n.slots| == TABLE_SIZE
    && n.count == Occupied(n.slots)
    && !n.slots[TABLE_SIZE - 1].Table?
    && Placed(n)
    && forall j :: 0 <= j < TABLE_SIZE && n.slots[j].Table? ==>
         n.slots[j].child.level == n.level + 1 && Valid(n.slots[j].child)
  }

  predicate LowerCase(s: string) {
    forall i :: 0 <= i < |s| ==> 'a' <= s[i] <= 'z'
  }

  /** Two keys hash alike at every level below `level`. */
  ghost predicate Agree(k1: string, k2: string, level: nat) {
    forall l :: 0 <= l < level ==> Hash(l, k1) == Hash(l, k2)
  }

  /** What `set` needs to terminate: lower-case keys, and a new key that
      hashes like every stored key at the levels above the node. */
  ghost predicate Settable<V>(n: Node<V>, key: string) {
    LowerCase(key) && forall k :: k in Contents(n) ==> LowerCase(k) && Agree(k, key, n.level)
  }

  // ---------------------------------------------------------------------
  // Facts about the building blocks

  lemma {:induction false} OccupiedPositive<V>(s: seq<Entry<V>>, j: nat)
    requires j < |s| && !s[j].Vacant?
    ensures Occupied(s) > 0
  {
    if j > 0 {
      OccupiedPositive(s[1..], j - 1);
    }
  }

  lemma {:induction false} OccupiedAfterWrite<V>(s: seq<Entry<V>>, j: nat, e: Entry<V>)
    requires j < |s|
    ensures Occupied(s[j := e]) == Occupied(s) - (if s[j].Vacant? then 0 else 1) + (if e.Vacant? then 0 else 1)
  {
    if j > 0 {
      assert s[j := e][1..] == s[1..][j - 1 := e];
      OccupiedAfterWrite(s[1..], j - 1, e);
    } else {
      assert s[j := e][1..] == s[1..];
    }
  }

  /** With one non-empty slot, every other slot is empty. */
  lemma {:induction false} SoleEntry<V>(s: seq<Entry<V>>, j: nat)
    requires j < |s| && !s[j].Vacant? && Occupied(s) == 1
    ensures forall i :: 0 <= i < |s| && i != j ==> s[i].Vacant?
  {
    if j == 0 {
      forall i | 1 <= i < |s| ensures s[i].Vacant? {
        if !s[i].Vacant? {
          OccupiedPositive(s[1..], i - 1);
        }
      }
    } else {
      if !s[0].Vacant? {
        OccupiedPositive(s[1..], j - 1);
      }
      SoleEntry(s[1..], j - 1);
      forall i | 0 <= i < |s| && i != j ensures s[i].Vacant? {
        if i > 0 {
          assert s[i] == s[1..][i - 1];
        }
      }
    }
  }

  lemma {:induction false} SlotsContentsMember<V>(s: seq<Entry<V>>, k: string)
    ensures k in SlotsContents(s) <==> exists j :: 0 <= j < |s| && k in EntryContents(s[j])
  {
    if s != [] {
      SlotsContentsMember(s[1..], k);
      if exists j :: 0 <= j < |s| && k in EntryContents(s[j]) {
        var j :| 0 <= j < |s| && k in EntryContents(s[j]);
        if j > 0 {
          assert k in EntryContents(s[1..][j - 1]);
        }
      }
    }
  }

  lemma {:induction false} SlotsContentsValue<V>(s: seq<Entry<V>>, j: nat, k: string)
    requires j < |s| && k in EntryContents(s[j])
    requires forall i :: 0 <= i < |s| && i != j ==> k !in EntryContents(s[i])
    ensures k in SlotsContents(s) && SlotsContents(s)[k] == EntryContents(s[j])[k]
  {
    SlotsContentsMember(s, k);
    if j == 0 {
      SlotsContentsMember(s[1..], k);
      forall i | 0 <= i < |s[1..]| ensures k !in EntryContents(s[1..][i]) {
        assert s[1..][i] == s[i + 1];
      }
    } else {
      forall i | 0 <= i < |s[1..]| && i != j - 1 ensures k !in EntryContents(s[1..][i]) {
        assert s[1..][i] == s[i + 1];
      }
      SlotsContentsValue(s[1..], j - 1, k);
    }
  }

  /** In a placed node a key can only be held under its own slot. */
  lemma ContentsAt<V>(n: Node<V>, k: string)
    requires |n.slots| == TABLE_SIZE && Placed(n)
    ensures k in Contents(n) <==> k in EntryContents(n.slots[Hash(n.level, k)])
    ensures k in Contents(n) ==> Contents(n)[k] == EntryContents(n.slots[Hash(n.level, k)])[k]
  {
    SlotsContentsMember(n.slots, k);
    var h := Hash(n.level, k);
    if k in EntryContents(n.slots[h]) {
      SlotsContentsValue(n.slots, h, k);
    }
  }

  lemma EmptyNodeValid<V>(level: nat)
    ensures Valid(EmptyNode<V>(level)) && Contents(EmptyNode<V>(level)) == map[]
  {
    var n := EmptyNode<V>(level);
    forall k ensures k !in Contents(n) {
      SlotsContentsMember(n.slots, k);
    }
    OccupiedZeroVacant(n.slots);
  }

  lemma {:induction false} OccupiedZeroVacant<V>(s: seq<Entry<V>>)
    requires forall i :: 0 <= i < |s| ==> s[i].Vacant?
    ensures Occupied(s) == 0
  {
    if s != [] {
      OccupiedZeroVacant(s[1..]);
    }
  }

  /** Writing `e` into slot `i` of a valid node, where `e` holds only keys
      placed at `i`, gives a valid node whose contents are those of `e` for
      keys placed at `i` and those of the old node for every other key. */
  lemma WriteSlot<V>(n: Node<V>, i: nat, e: Entry<V>, r: Node<V>)
    requires Valid(n) && i < TABLE_SIZE
    requires i == TABLE_SIZE - 1 ==> !e.Table?
    requires e.Table? ==> e.child.level == n.level + 1 && Valid(e.child)
    requires forall k :: k in EntryContents(e) ==> Hash(n.level, k) == i
    requires r == Node(n.level, n.slots[i := e],
                       n.count - (if n.slots[i].Vacant? then 0 else 1) + (if e.Vacant? then 0 else 1))
    ensures Valid(r)
    ensures forall k :: Hash(n.level, k) != i ==>
              (k in Contents(r) <==> k in Contents(n)) && (k in Contents(r) ==> Contents(r)[k] == Contents(n)[k])
    ensures forall k :: Hash(n.level, k) == i ==>
              (k in Contents(r) <==> k in EntryContents(e)) && (k in Contents(r) ==> Contents(r)[k] == EntryContents(e)[k])
  {
    OccupiedAfterWrite(n.slots, i, e);
    assert Placed(r);
    forall k
      ensures Hash(n.level, k) != i ==>
                (k in Contents(r) <==> k in Contents(n)) && (k in Contents(r) ==> Contents(r)[k] == Contents(n)[k])
      ensures Hash(n.level, k) == i ==>
                (k in Contents(r) <==> k in EntryContents(e)) && (k in Contents(r) ==> Contents(r)[k] == EntryContents(e)[k])
    {
      ContentsAt(n, k);
      ContentsAt(r, k);
    }
  }

  lemma LowerCaseSlots(c1: char, c2: char)
    requires 'a' <= c1 <= 'z' && 'a' <= c2 <= 'z'
    requires c1 as int % 26 == c2 as int % 26
    ensures c1 == c2
  {
  }

  /** Lower-case keys that agree at every level up to one past the end of
      both are equal. */
  lemma AgreeingKeysEqual(k1: string, k2: string, level: nat)
    requires LowerCase(k1) && LowerCase(k2) && Agree(k1, k2, level)
    requires |k1| < level && |k2| < level
    ensures k1 == k2
  {
    var m := if |k1| < |k2| then |k1| else |k2|;
    assert Hash(m, k1) == Hash(m, k2);
    forall l | 0 <= l < |k1| ensures k1[l] == k2[l] {
      assert Hash(l, k1) == Hash(l, k2);
      LowerCaseSlots(k1[l], k2[l]);
    }
  }

  /** Two distinct lower-case keys that hash alike at `level` and at every
      level above both still have a character there, so pushing them one
      level down makes progress. */
  lemma Collision(k: string, key: string, level: nat)
    requires LowerCase(k) && LowerCase(key) && k != key
    requires Agree(k, key, level) && Hash(level, k) == Hash(level, key)
    ensures level < |key| && level < |k|
  {
    if |key| <= level || |k| <= level {
      assert Agree(k, key, level + 1);
      AgreeingKeysEqual(k, key, level + 1);
    }
  }

  // ---------------------------------------------------------------------
  // The operations

  /** `__getitem__`: the stored value of `key`, or `KeyError` when it is
      not stored. */
  function Get<V>(n: Node<V>, key: string): (r: Result<V>)
    requires Valid(n)
    ensures r == if key in Contents(n) then Ok(Contents(n)[key]) else Err(KeyError)
    decreases n
  {
    ContentsAt(n, key);
    match n.slots[Hash(n.level, key)]
    case Vacant => Err(KeyError)
    case Pair(k, v) => if k == key then Ok(v) else Err(KeyError)
    case Table(c) => Get(c, key)
  }

  function Weight<V>(n: Node<V>): nat {
    if Occupied(n.slots) == 0 then 0 else 1
  }

  function Remaining(key: string, level: nat): nat {
    if level <= |key| then |key| - level else 0
  }

  /** The node with slot `Hash(level, key)` replaced by `e`, where `e` holds
      what the old slot held with `key` mapped to `value`. */
  function SetSlot<V>(n: Node<V>, key: string, value: V, e: Entry<V>): (r: Node<V>)
    requires Valid(n) && !e.Vacant?
    requires e.Table? ==> e.child.level == n.level + 1 && Valid(e.child) && Hash(n.level, key) < TABLE_SIZE - 1
    requires EntryContents(e) == EntryContents(n.slots[Hash(n.level, key)])[key := value]
    ensures Valid(r) && r.level == n.level && Occupied(r.slots) > 0
    ensures r.slots == n.slots[Hash(n.level, key) := e]
    ensures Contents(r) == Contents(n)[key := value]
    ensures r.count == n.count + (if n.slots[Hash(n.level, key)].Vacant? then 1 else 0)
  {
    var i := Hash(n.level, key);
    var r := Node(n.level, n.slots[i := e], n.count + (if n.slots[i].Vacant? then 1 else 0));
    WriteSlot(n, i, e, r);
    OccupiedPositive(r.slots, i);
    SameMaps(n, r, i, key, value);
    r
  }

  /** When the slot of `key` holds a pair with another key, both keys can be
      pushed one level down, and `key` still has a character there. */
  lemma CollisionFacts<V>(n: Node<V>, key: string)
    requires Valid(n) && Settable(n, key)
    requires n.slots[Hash(n.level, key)].Pair? && n.slots[Hash(n.level, key)].key != key
    ensures var k := n.slots[Hash(n.level, key)].key;
            LowerCase(k) && Agree(k, key, n.level + 1) && n.level < |key|
    ensures Occupied(n.slots) > 0
  {
    var i := Hash(n.level, key);
    var k := n.slots[i].key;
    assert k in EntryContents(n.slots[i]);
    ContentsAt(n, k);
    Collision(k, key, n.level);
    OccupiedPositive(n.slots, i);
  }

  /** When the slot of `key` holds a child, the child can take `key`, which
      still has a character at this level. */
  lemma DescendFacts<V>(n: Node<V>, key: string)
    requires Valid(n) && Settable(n, key) && n.slots[Hash(n.level, key)].Table?
    ensures var c := n.slots[Hash(n.level, key)].child;
            Valid(c) && c.level == n.level + 1 && Settable(c, key) && n.level < |key|
    ensures Weight(n) == 1
  {
    var i := Hash(n.level, key);
    var c := n.slots[i].child;
    forall k | k in Contents(c) ensures k in Contents(n) && Agree(k, key, n.level + 1) {
      ContentsAt(n, k);
    }
    OccupiedPositive(n.slots, i);
  }

  /** `__setitem__`: an empty slot takes the pair and the counter grows; a
      pair with the same key is overwritten; a pair with another key is
      replaced by a new child one level down holding both pairs; a child
      receives the pair itself. */
  function Set<V>(n: Node<V>, key: string, value: V): (r: Node<V>)
    requires Valid(n) && Settable(n, key)
    ensures Valid(r) && r.level == n.level && Occupied(r.slots) > 0
    ensures Contents(r) == Contents(n)[key := value]
    ensures r.count == n.count + (if n.slots[Hash(n.level, key)].Vacant? then 1 else 0)
    decreases Weight(n), Remaining(key, n.level), 1
  {
    match n.slots[Hash(n.level, key)]
    case Vacant => SetSlot(n, key, value, Pair(key, value))
    case Pair(k, v) =>
      if k == key then SetSlot(n, key, value, Pair(key, value))
      else
        CollisionFacts(n, key);
        Split(n, key, value, k, v)
    case Table(c) =>
      DescendFacts(n, key);
      SetSlot(n, key, value, Table(Set(c, key, value)))
  }

  /** `__setitem__` on a slot holding another key: a new child table one
      level deeper receives the old pair and then the new one, and takes the
      slot. */
  function Split<V>(n: Node<V>, key: string, value: V, k: string, v: V): (r: Node<V>)
    requires Valid(n) && Settable(n, key)
    requires n.slots[Hash(n.level, key)] == Pair(k, v) && k != key
    requires LowerCase(k) && Agree(k, key, n.level + 1) && n.level < |key|
    ensures Valid(r) && r.level == n.level && Occupied(r.slots) > 0
    ensures Contents(r) == Contents(n)[key := value] && r.count == n.count
    decreases 1, Remaining(key, n.level), 0
  {
    SetSlot(n, key, value, Table(Pairs(n.level + 1, k, v, key, value)))
  }

  /** The child table a split builds at `level`: the pair of `k` is set
      into an empty table, then the pair of `key`. */
  function Pairs<V>(level: nat, k: string, v: V, key: string, value: V): (r: Node<V>)
    requires LowerCase(k) && LowerCase(key) && Agree(k, key, level) && k != key
    ensures Valid(r) && r.level == level && Contents(r) == map[k := v, key := value]
    decreases 1, Remaining(key, level), 3
  {
    EmptyNodeValid<V>(level);
    Set(Set(EmptyNode<V>(level), k, v), key, value)
  }

  /** Setting a key whose slot holds another key's pair is the split of
      that pair. */
  lemma SplitSlot<V>(n: Node<V>, key: string, value: V, k: string, v: V)
    requires Valid(n) && Settable(n, key)
    requires n.slots[Hash(n.level, key)] == Pair(k, v) && k != key
    requires LowerCase(k) && Agree(k, key, n.level + 1) && n.level < |key|
    ensures Set(n, key, value) == SetSlot(n, key, value, Table(Pairs(n.level + 1, k, v, key, value)))
  {
    var c := Pairs(n.level + 1, k, v, key, value);
    assert Set(n, key, value) == Split(n, key, value, k, v);
    assert Split(n, key, value, k, v) == SetSlot(n, key, value, Table(c));
  }

  /** The two steps of `Pairs` can each be taken. */
  lemma PairsSteps<V>(level: nat, k: string, v: V, key: string, value: V)
    requires LowerCase(k) && LowerCase(key) && Agree(k, key, level) && k != key
    ensures Valid(EmptyNode<V>(level)) && Settable(EmptyNode<V>(level), k)
    ensures Settable(Set(EmptyNode<V>(level), k, v), key)
    ensures Pairs(level, k, v, key, value) == Set(Set(EmptyNode<V>(level), k, v), key, value)
  {
    EmptyNodeValid<V>(level);
  }

  /** `__setitem__` on a slot holding a child writes back the child with
      the pair set into it. */
  lemma SetBelow<V>(n: Node<V>, key: string, value: V, c: Node<V>)
    requires Valid(n) && Settable(n, key) && n.slots[Hash(n.level, key)] == Table(c)
    requires Valid(c) && c.level == n.level + 1 && Settable(c, key) && n.level < |key|
    ensures Set(n, key, value) == SetSlot(n, key, value, Table(Set(c, key, value)))
  {
  }

  /** The map equality closing `SetSlot`. */
  lemma SameMaps<V>(n: Node<V>, r: Node<V>, i: nat, key: string, value: V)
    requires |n.slots| == TABLE_SIZE && Placed(n) && i == Hash(n.level, key)
    requires forall k :: Hash(n.level, k) != i ==>
               (k in Contents(r) <==> k in Contents(n)) && (k in Contents(r) ==> Contents(r)[k] == Contents(n)[k])
    requires forall k :: Hash(n.level, k) == i ==>
               (k in Contents(r) <==> k in EntryContents(n.slots[i])[key := value])
               && (k in Contents(r) ==> Contents(r)[k] == EntryContents(n.slots[i])[key := value][k])
    ensures Contents(r) == Contents(n)[key := value]
  {
    forall k ensures (k in Contents(r) <==> k in Contents(n)[key := value])
                     && (k in Contents(r) ==> Contents(r)[k] == Contents(n)[key := value][k]) {
      ContentsAt(n, k);
    }
  }

  /** The node with slot `Hash(level, key)` replaced by `e`, where `e` holds
      what the old slot held without `key`. */
  function DeleteSlot<V>(n: Node<V>, key: string, e: Entry<V>): (r: Node<V>)
    requires Valid(n)
    requires e.Table? ==> e.child.level == n.level + 1 && Valid(e.child) && Hash(n.level, key) < TABLE_SIZE - 1
    requires EntryContents(e) == EntryContents(n.slots[Hash(n.level, key)]) - {key}
    ensures Valid(r) && r.level == n.level
    ensures r.slots == n.slots[Hash(n.level, key) := e]
    ensures Contents(r) == Contents(n) - {key}
    ensures r.count == n.count - (if n.slots[Hash(n.level, key)].Vacant? then 0 else 1) + (if e.Vacant? then 0 else 1)
  {
    var i := Hash(n.level, key);
    var r := Node(n.level, n.slots[i := e],
                  n.count - (if n.slots[i].Vacant? then 0 else 1) + (if e.Vacant? then 0 else 1));
    forall k | k in EntryContents(e) ensures Hash(n.level, k) == i {
      assert k in EntryContents(n.slots[i]);
    }
    WriteSlot(n, i, e, r);
    forall k ensures (k in Contents(r) <==> k in Contents(n) - {key})
                     && (k in Contents(r) ==> Contents(r)[k] == Contents(n)[k]) {
      ContentsAt(n, k);
    }
    r
  }

  /** A valid node whose only non-empty slot is slot 0, holding a pair,
      holds just that pair. */
  lemma SoleContents<V>(n: Node<V>)
    requires Valid(n) && n.count == 1 && n.slots[0].Pair?
    ensures Contents(n) == map[n.slots[0].key := n.slots[0].value]
  {
    SoleEntry(n.slots, 0);
    forall k ensures (k in Contents(n) <==> k == n.slots[0].key) {
      ContentsAt(n, k);
    }
    ContentsAt(n, n.slots[0].key);
  }

  /** `__delitem__` as the source writes it. A pair with the key is removed
      and the counter drops; an empty slot or another key is `KeyError`. A
      child deletes the key itself and, when the child's own counter is then
      1, its slot 0 is unpacked as a pair into this slot. Slot 0 of the child
      may be empty or hold a child table although the counter is 1, and
      unpacking either is `TypeError`, raised after the key is already gone. */
  function Delete<V>(n: Node<V>, key: string): (r: (Node<V>, Outcome))
    requires Valid(n)
    ensures Valid(r.0) && r.0.level == n.level
    ensures r.1 == Fail(KeyError) <==> key !in Contents(n)
    ensures r.1 == Fail(KeyError) ==> r.0 == n
    ensures r.1 != Fail(KeyError) ==> Contents(r.0) == Contents(n) - {key}
    ensures r.1 == Pass || r.1 == Fail(KeyError) || r.1 == Fail(TypeError)
    ensures r.0.count == n.count - (if n.slots[Hash(n.level, key)].Pair? && n.slots[Hash(n.level, key)].key == key then 1 else 0)
    ensures forall j :: 0 <= j < TABLE_SIZE && j != Hash(n.level, key) ==> r.0.slots[j] == n.slots[j]
    ensures n.slots[Hash(n.level, key)].Pair? && n.slots[Hash(n.level, key)].key == key ==>
              r.1 == Pass && r.0.slots[Hash(n.level, key)].Vacant?
    ensures r.1 == Fail(TypeError) ==> n.slots[Hash(n.level, key)].Table?
    ensures n.slots[Hash(n.level, key)].Table? && key in Contents(n) ==>
              var (c2, o) := Delete(n.slots[Hash(n.level, key)].child, key);
              (r.1 == Fail(TypeError) <==> o == Fail(TypeError) || (c2.count == 1 && !c2.slots[0].Pair?))
              && r.0.slots[Hash(n.level, key)] ==
                   if o == Pass && c2.count == 1 && c2.slots[0].Pair? then c2.slots[0] else Table(c2)
    decreases n
  {
    var i := Hash(n.level, key);
    ContentsAt(n, key);
    match n.slots[i]
    case Vacant => (n, Fail(KeyError))
    case Pair(k, v) =>
      if k == key then (DeleteSlot(n, key, Vacant), Pass) else (n, Fail(KeyError))
    case Table(c) =>
      var (c2, o) := Delete(c, key);
      if o == Fail(KeyError) then (n, o)  // the child is left as it was
      else
        var n2 := DeleteSlot(n, key, Table(c2));
        if o.Fail? then (n2, o) else Collapse(n2, key)
  }

  /** The step of `__delitem__` after a child table has deleted `key`: when
      the child's counter is 1, the child's slot 0 is unpacked as a pair and
      takes the child's place. Only a pair can be unpacked; an empty slot or a
      child table there is `TypeError`. Collapsing never changes what is
      stored or the counter. */
  function Collapse<V>(n: Node<V>, key: string): (r: (Node<V>, Outcome))
    requires Valid(n) && n.slots[Hash(n.level, key)].Table? && key !in Contents(n)
    ensures Valid(r.0) && r.0.level == n.level
    ensures Contents(r.0) == Contents(n) && r.0.count == n.count
    ensures r.1 == Pass || r.1 == Fail(TypeError)
    ensures r.1 == Fail(TypeError) ==> r.0 == n
    ensures Valid(n.slots[Hash(n.level, key)].child)
    ensures var c := n.slots[Hash(n.level, key)].child;
            (c.count != 1 ==> r == (n, Pass))
            && (c.count == 1 && c.slots[0].Pair? ==>
                  r.1 == Pass && r.0.slots == n.slots[Hash(n.level, key) := c.slots[0]])
            && (r.1 == Fail(TypeError) <==> c.count == 1 && !c.slots[0].Pair?)
  {
    var c := n.slots[Hash(n.level, key)].child;
    assert Valid(c);
    if c.count == 1 then
      match c.slots[0]
      case Pair(k, v) =>
        ContentsAt(n, key);
        SoleContents(c);
        (DeleteSlot(n, key, Pair(k, v)), Pass)
      case _ => (n, Fail(TypeError))
    else (n, Pass)
  }

  /** The location `get_location` is meant to return: the slot taken at each
      level on the way down to the pair of `key`. */
  function Path<V>(n: Node<V>, key: string): (r: Result<seq<nat>>)
    requires Valid(n)
    ensures r.Err? ==> r.error == KeyError
    decreases n
  {
    var i := Hash(n.level, key);
    match n.slots[i]
    case Vacant => Err(KeyError)
    case Pair(k, _) => if k == key then Ok([i]) else Err(KeyError)
    case Table(c) =>
      match Path(c, key)
      case Ok(p) => Ok([i] + p)
      case Err(e) => Err(e)
  }

  /** A key has a location exactly when it is stored, and its location is its
      hash at each successive level. */
  lemma {:induction false} PathSpec<V>(n: Node<V>, key: string)
    requires Valid(n)
    ensures Path(n, key).Ok? <==> key in Contents(n)
    ensures Path(n, key).Ok? ==>
              var p := Path(n, key).value;
              |p| >= 1 && forall d :: 0 <= d < |p| ==> p[d] == Hash(n.level + d, key)
    decreases n
  {
    ContentsAt(n, key);
    var i := Hash(n.level, key);
    if n.slots[i].Table? {
      var c := n.slots[i].child;
      PathSpec(c, key);
      if Path(c, key).Ok? {
        var p := Path(n, key).value;
        forall d | 1 <= d < |p| ensures p[d] == Hash(n.level + d, key) {
          assert p[d] == Path(c, key).value[d - 1];
        }
      }
    }
  }

  /** `get_location` as the source writes it. */
  function Locate<V>(n: Node<V>, key: string): (r: Result<seq<nat>>)
    requires Valid(n)
    ensures r.Ok? ==> |r.value| >= 1 && r.value[0] == Hash(n.level, key)
                      && forall d :: 0 <= d < |r.value| ==> r.value[d] < TABLE_SIZE
    decreases n
  {
    var i := Hash(n.level, key);
    match n.slots[i]
    case Vacant => Err(KeyError)
    case Pair(k, _) => if k == key then Ok([i]) else Err(KeyError)
    case Table(_) => FollowLoop(n.slots[i], key, [i])
  }

  /** The `while` loop of `get_location`, entered with `entry` and the
      `location` built so far. While `entry` is not the pair of `key`, it
      asks `entry` for the location of `key` inside it, appends that, and
      moves to the slot of `entry` named by the last index appended. That
      index belongs to the deepest table the inner call walked through, not
      to `entry`, unless the inner location has one element. A `None` or a
      pair reached this way has no `get_location`: `AttributeError`. */
  function FollowLoop<V>(entry: Entry<V>, key: string, location: seq<nat>): (r: Result<seq<nat>>)
    requires entry.Table? ==> Valid(entry.child)
    ensures r.Ok? ==> |r.value| >= |location| && r.value[..|location|] == location
                      && (forall d :: |location| <= d < |r.value| ==> r.value[d] < TABLE_SIZE)
                      && (!(entry.Pair? && entry.key == key) ==> |r.value| > |location|)
    decreases entry
  {
    if entry.Pair? && entry.key == key then Ok(location)
    else if !entry.Table? then Err(AttributeError)
    else
      match Locate(entry.child, key)
      case Err(e) => Err(e)
      case Ok(sub) =>
        var next := entry.child.slots[sub[|sub| - 1]];
        var r := FollowLoop(next, key, location + sub);
        assert r.Ok? ==> r.value[..|location|] == (location + sub)[..|location|];
        r
  }

  /** One turn of the loop of `get_location` from a child table `c`. */
  lemma FollowStep<V>(c: Node<V>, key: string, location: seq<nat>)
    requires Valid(c)
    ensures Locate(c, key).Err? ==> FollowLoop(Table(c), key, location) == Err(Locate(c, key).error)
    ensures Locate(c, key).Ok? ==>
              var sub := Locate(c, key).value;
              FollowLoop(Table(c), key, location) == FollowLoop(c.slots[sub[|sub| - 1]], key, location + sub)
  {
  }

  /** A key that is not stored has no location either way. */
  lemma {:induction false} LocateAbsent<V>(n: Node<V>, key: string)
    requires Valid(n) && key !in Contents(n)
    ensures Locate(n, key) == Err(KeyError)
    decreases n
  {
    ContentsAt(n, key);
    var i := Hash(n.level, key);
    if n.slots[i].Table? {
      LocateAbsent(n.slots[i].child, key);
    }
  }

  /** For a key at most two levels down, the written loop finds the intended
      location. */
  lemma LocateShallow<V>(n: Node<V>, key: string)
    requires Valid(n) && Path(n, key).Ok? && |Path(n, key).value| <= 2
    ensures Locate(n, key) == Path(n, key)
  {
    var i := Hash(n.level, key);
    if n.slots[i].Table? {
      var c := n.slots[i].child;
      var j := Hash(c.level, key);
      assert c.slots[j].Pair? && c.slots[j].key == key;
      assert Locate(c, key) == Ok([j]);
      assert FollowLoop(n.slots[i], key, [i]) == FollowLoop(c.slots[j], key, [i] + [j]);
    }
  }

  /** For a key exactly three levels down, the written loop never returns the
      intended location: the last inner index is looked up in the wrong
      table, giving `AttributeError` or a longer list. */
  lemma LocateDeepIsWrong<V>(n: Node<V>, key: string)
    requires Valid(n) && Path(n, key).Ok? && |Path(n, key).value| == 3
    ensures Locate(n, key) != Path(n, key)
  {
    var i := Hash(n.level, key);
    var c := n.slots[i].child;
    var p := Path(c, key).value;
    PathSpec(c, key);
    LocateShallow(c, key);
    var l := p[1];
    assert p[0] == Hash(c.level, key);
    var c2 := c.slots[p[0]].child;
    PathSpec(c2, key);
    assert l == Hash(c.level + 1, key);
    var next := c.slots[l];
    if l != p[0] {
      // slot `l` of `c` holds only keys hashing to `l`, and `key` hashes to `p[0]`
      assert key !in EntryContents(next);
    }
    assert !(next.Pair? && next.key == key);
    assert Locate(n, key) == FollowLoop(next, key, [i] + p);
  }

  /** `__len__` reports the counter, which only counts the slots of the top
      table: a new key that lands in an occupied slot adds one key but
      leaves the length as it was. */
  lemma LenMissesNestedKeys<V>(n: Node<V>, key: string, value: V)
    requires Valid(n) && Settable(n, key) && key !in Contents(n)
    requires !n.slots[Hash(n.level, key)].Vacant?
    ensures Set(n, key, value).count == n.count
    ensures |Contents(Set(n, key, value))| == |Contents(n)| + 1
  {
  }

  /** Deleting one of two pairs in a child whose slot 0 is empty leaves the
      child with counter 1 and an empty slot 0; unpacking it raises
      `TypeError`, although the key has been removed. */
  lemma CollapseReadsSlotZero<V>(n: Node<V>, key: string)
    requires Valid(n) && n.slots[Hash(n.level, key)].Table?
    requires var c := n.slots[Hash(n.level, key)].child;
             |c.slots| == TABLE_SIZE && c.count == 2 && c.slots[0].Vacant?
             && c.slots[Hash(c.level, key)].Pair? && c.slots[Hash(c.level, key)].key == key
    ensures Delete(n, key).1 == Fail(TypeError)
    ensures Contents(Delete(n, key).0) == Contents(n) - {key}
  {
    var c := n.slots[Hash(n.level, key)].child;
    var c2 := Delete(c, key).0;
    assert c2.slots[0].Vacant?;
  }
}
