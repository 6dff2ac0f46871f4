/** The infinite hash table as the source writes it: an object with a
    27-slot array whose slots are empty, hold a (key, value) pair, or hold a
    child table one level deeper, updated in place.

    Each table carries a ghost `Model`, the `Trie.Node` it represents, and
    every method is proved to do to the model what the corresponding
    function of `Trie` does; what those functions mean (map contents, the
    counter, the location list) is proved in `Trie`. */
module InfiniteHashing {
  import opened Errors
  import Trie

  /** One slot of the array: `None`, a `(key, value)` tuple, or a child table. */
  datatype Cell<V> = Empty | Leaf(key: string, value: V) | Sub(table: InfiniteHashTable<V>)

  /** The model entry a cell stands for. */
  ghost function Of<V>(c: Cell<V>): Trie.Entry<V>
    reads if c.Sub? then {c.table} else {}
  {
    match c
    case Empty => Trie.Vacant
    case Leaf(k, v) => Trie.Pair(k, v)
    case Sub(t) => Trie.Table(t.Model)
  }

  class InfiniteHashTable<V> {
    var cells: array<Cell<V>>  // the source's `array`
    var level: nat
    var count: int
    ghost var Model: Trie.Node<V>
    ghost var Repr: set<object>

    /** What the child table in slot `i`, if any, owns. */
    ghost function ChildRepr(i: nat): set<object>
      reads this, cells
      reads if i < cells.Length && cells[i].Sub? then {cells[i].table} else {}
    {
      if i < cells.Length && cells[i].Sub? then cells[i].table.Repr else {}
    }

    ghost predicate Valid()
      reads this, Repr
      decreases Repr
    {
      this in Repr && cells in Repr && cells.Length == Trie.TABLE_SIZE
      && Model.level == level && Model.count == count && |Model.slots| == Trie.TABLE_SIZE
      && Trie.Valid(Model)
      && (forall i :: 0 <= i < cells.Length && cells[i].Sub? ==>
            cells[i].table in Repr && cells[i].table.Repr <= Repr
            && this !in cells[i].table.Repr && cells !in cells[i].table.Repr
            && cells[i].table.Valid())
      && (forall i :: 0 <= i < cells.Length ==> Model.slots[i] == Of(cells[i]))
      && (forall i, j :: 0 <= i < j < cells.Length && cells[i].Sub? && cells[j].Sub? ==>
            cells[i].table.Repr !! cells[j].table.Repr)
    }

    /** `__init__`: an empty table at `level`. */
    constructor (level: nat)
      ensures Valid() && fresh(Repr) && this.level == level
      ensures Model == Trie.EmptyNode(level)
    {
      var a := new Cell<V>[Trie.TABLE_SIZE](_ => Empty);
      this.level := level;
      cells := a;
      count := 0;
      Model := Trie.EmptyNode(level);
      new;
      Repr := {this, cells};
      Trie.EmptyNodeValid<V>(level);
    }

    /** `__len__`: the counter, which is the number of non-empty slots of
        this table alone. */
    function Len(): (r: int)
      requires Valid()
      reads this, Repr
      ensures r == Trie.Occupied(Model.slots)
    {
      count
    }

    /** `__getitem__`. */
    method Get(key: string) returns (r: Result<V>)
      requires Valid()
      ensures r == Trie.Get(Model, key)
      decreases Repr
    {
      var index := Trie.Hash(level, key);
      match cells[index]
      case Empty =>
        return Err(KeyError);
      case Leaf(k, v) =>
        if k == key {
          return Ok(v);
        }
        return Err(KeyError);
      case Sub(t) =>
        r := t.Get(key);
    }

    /** `__contains__`: whether `__getitem__` succeeds. */
    method Contains(key: string) returns (b: bool)
      requires Valid()
      ensures b <==> key in Trie.Contents(Model)
    {
      var r := Get(key);
      b := r.Ok?;
    }

    /** `__setitem__`. */
    method Set(key: string, value: V)
      requires Valid() && Trie.Settable(Model, key)
      modifies Repr
      ensures Valid() && fresh(Repr - old(Repr)) && level == old(level)
      ensures Model == Trie.Set(old(Model), key, value)
      decreases Trie.Weight(Model), Trie.Remaining(key, level), 2
    {
      var index := Trie.Hash(level, key);
      match cells[index]
      case Empty =>
        Put(key, value);
      case Leaf(k, _) =>
        if k == key {
          Put(key, value);
        } else {
          Split(key, value);
        }
      case Sub(_) =>
        Descend(key, value);
    }

    /** The pair goes straight into its slot, which is empty or holds the
        same key; only an empty slot raises the counter. */
    method Put(key: string, value: V)
      requires Valid()
      requires !cells[Trie.Hash(level, key)].Sub?
      requires cells[Trie.Hash(level, key)].Leaf? ==> cells[Trie.Hash(level, key)].key == key
      modifies this, cells
      ensures Valid() && Repr == old(Repr) && level == old(level)
      ensures Model == Trie.SetSlot(old(Model), key, value, Trie.Pair(key, value))
    {
      var index := Trie.Hash(level, key);
      CellFacts(this, index);
      if cells[index].Empty? {
        count := count + 1;
      }
      cells[index] := Leaf(key, value);
      Model := Trie.SetSlot(Model, key, value, Trie.Pair(key, value));
      Rewritten(index);
    }

    /** The slot holds another key: both pairs move into a new child table
        one level deeper, which takes the slot. */
    method Split(key: string, value: V)
      requires Valid() && Trie.Settable(Model, key)
      requires cells[Trie.Hash(level, key)].Leaf? && cells[Trie.Hash(level, key)].key != key
      modifies this, cells
      ensures Valid() && fresh(Repr - old(Repr)) && level == old(level)
      ensures Model == Trie.Set(old(Model), key, value)
      decreases Trie.Weight(Model), Trie.Remaining(key, level), 1
    {
      var index := Trie.Hash(level, key);
      CellFacts(this, index);
      ghost var m := Model;
      var k, v := cells[index].key, cells[index].value;
      Trie.CollisionFacts(m, key);
      Trie.SplitSlot(m, key, value, k, v);
      ghost var child := Trie.Pairs(m.level + 1, k, v, key, value);
      var t := NewPair(k, v, key, value);
      assert Model == m && t.Model == child;
      Attach(key, value, t);
      assert Model == Trie.SetSlot(m, key, value, Trie.Table(child));
    }

    /** The new child table of a split: one level deeper than this table,
        holding the pair of `k` and then the pair of `key`. */
    method NewPair(k: string, v: V, key: string, value: V) returns (t: InfiniteHashTable<V>)
      requires Trie.LowerCase(k) && Trie.LowerCase(key) && Trie.Agree(k, key, level + 1) && k != key
      ensures fresh(t.Repr) && Usable(Sub(t)) && t.level == level + 1
      ensures t.Model == Trie.Pairs(level + 1, k, v, key, value)
      decreases 1, Trie.Remaining(key, level + 1), 3
    {
      t := new InfiniteHashTable<V>(level + 1);
      Trie.PairsSteps(level + 1, k, v, key, value);
      t.Set(k, v);
      t.Set(key, value);
    }

    /** A new child table `t`, holding what the slot of `key` held with `key`
        mapped to `value`, takes that slot. */
    method Attach(key: string, value: V, t: InfiniteHashTable<V>)
      requires Valid() && Usable(Sub(t)) && t.Repr !! Repr && cells[Trie.Hash(level, key)].Leaf?
      requires Trie.Hash(level, key) < Trie.TABLE_SIZE - 1 && t.Model.level == level + 1
      requires Trie.Contents(t.Model) == Trie.EntryContents(Model.slots[Trie.Hash(level, key)])[key := value]
      modifies this, cells
      ensures Valid() && Repr == old(Repr) + t.Repr && level == old(level)
      ensures Model == Trie.SetSlot(old(Model), key, value, Trie.Table(t.Model))
    {
      var index := Trie.Hash(level, key);
      CellFacts(this, index);
      cells[index] := Sub(t);
      Repr := Repr + t.Repr;
      Model := Trie.SetSlot(Model, key, value, Trie.Table(t.Model));
      StillValid(t);
      Rewritten(index);
    }

    /** The slot holds a child table: the child stores the pair. */
    method Descend(key: string, value: V)
      requires Valid() && Trie.Settable(Model, key)
      requires cells[Trie.Hash(level, key)].Sub?
      modifies Repr
      ensures Valid() && fresh(Repr - old(Repr)) && level == old(level)
      ensures Model == Trie.Set(old(Model), key, value)
      decreases Trie.Weight(Model), Trie.Remaining(key, level), 1
    {
      var index := Trie.Hash(level, key);
      CellFacts(this, index);
      var t := cells[index].table;
      ghost var m := Model;
      Trie.DescendFacts(m, key);
      Trie.SetBelow(m, key, value, t.Model);
      t.Set(key, value);
      label Stored:
      Repr := Repr + t.Repr;
      Model := Trie.SetSlot(Model, key, value, Trie.Table(t.Model));
      StillValid@Stored(t);
      Rewritten(index);
    }

    /** `__delitem__`, with the source's collapse of a child whose counter
        drops to 1 by unpacking the child's slot 0. */
    method Delete(key: string) returns (o: Outcome)
      requires Valid()
      modifies Repr
      ensures Valid() && fresh(Repr - old(Repr)) && level == old(level)
      ensures (Model, o) == Trie.Delete(old(Model), key)
      decreases Repr, 1
    {
      var index := Trie.Hash(level, key);
      match cells[index]
      case Empty =>
        return Fail(KeyError);
      case Leaf(k, _) =>
        if k != key {
          return Fail(KeyError);
        }
        Remove(key);
        return Pass;
      case Sub(_) =>
        o := DeleteBelow(key);
    }

    /** The slot holds the pair of `key`: it is emptied and the counter drops. */
    method Remove(key: string)
      requires Valid()
      requires cells[Trie.Hash(level, key)].Leaf? && cells[Trie.Hash(level, key)].key == key
      modifies this, cells
      ensures Valid() && Repr == old(Repr) && level == old(level)
      ensures Model == Trie.DeleteSlot(old(Model), key, Trie.Vacant)
    {
      var index := Trie.Hash(level, key);
      CellFacts(this, index);
      cells[index] := Empty;
      count := count - 1;
      Model := Trie.DeleteSlot(Model, key, Trie.Vacant);
      Rewritten(index);
    }

    /** The slot holds a child table: the child deletes the key, then the
        slot is collapsed. */
    method DeleteBelow(key: string) returns (o: Outcome)
      requires Valid()
      requires cells[Trie.Hash(level, key)].Sub?
      modifies Repr
      ensures Valid() && fresh(Repr - old(Repr)) && level == old(level)
      ensures (Model, o) == Trie.Delete(old(Model), key)
      decreases Repr, 0
    {
      var index := Trie.Hash(level, key);
      CellFacts(this, index);
      var t := cells[index].table;
      o := t.Delete(key);
      label Deleted:
      Repr := Repr + t.Repr;
      if o != Fail(KeyError) {
        Model := Trie.DeleteSlot(Model, key, Trie.Table(t.Model));
      }
      StillValid@Deleted(t);
      Rewritten(index);
      if o.Pass? {
        o := Collapse(key);
      }
    }

    /** A child table left with counter 1 gives way to the pair in its slot 0;
        anything else in that slot cannot be unpacked: `TypeError`. */
    method Collapse(key: string) returns (o: Outcome)
      requires Valid() && cells[Trie.Hash(level, key)].Sub? && key !in Trie.Contents(Model)
      modifies this, cells
      ensures Valid() && Repr == old(Repr) && level == old(level)
      ensures (Model, o) == Trie.Collapse(old(Model), key)
    {
      var index := Trie.Hash(level, key);
      CellFacts(this, index);
      var t := cells[index].table;
      if t.count != 1 {
        return Pass;
      }
      CellFacts(t, 0);
      match t.cells[0]
      case Leaf(k, v) =>
        Trie.ContentsAt(Model, key);
        Trie.SoleContents(t.Model);
        cells[index] := Leaf(k, v);
        Model := Trie.DeleteSlot(Model, key, Trie.Pair(k, v));
        Rewritten(index);
        return Pass;
      case _ =>
        return Fail(TypeError);
    }

    /** `get_location`, loop included. */
    method GetLocation(key: string) returns (r: Result<seq<nat>>)
      requires Valid()
      ensures r == Trie.Locate(Model, key)
      decreases Repr, 0
    {
      var index := Trie.Hash(level, key);
      var location := [index];
      var entry := cells[index];
      CellFacts(this, index);
      if entry.Empty? {
        return Err(KeyError);
      }
      if entry.Leaf? {
        if entry.key == key {
          return Ok(location);
        }
        return Err(KeyError);
      }
      r := Walk(entry, key, location);
    }

    /** The location `get_location` is meant to return, found table by table
        on the way down: this table's slot for `key`, then the location
        inside the child table that slot owns. */
    method PathTo(key: string) returns (r: Result<seq<nat>>)
      requires Valid()
      ensures r == Trie.Path(Model, key)
      decreases Repr
    {
      var index := Trie.Hash(level, key);
      CellFacts(this, index);
      match cells[index]
      case Empty =>
        return Err(KeyError);
      case Leaf(k, _) =>
        if k == key {
          return Ok([index]);
        }
        return Err(KeyError);
      case Sub(t) =>
        var sub := t.PathTo(key);
        if sub.Ok? {
          return Ok([index] + sub.value);
        }
        return sub;
    }

    /** One turn of the loop of `get_location` on this table, entered with
        the location `path` built so far: the location of `key` inside the
        table, and the cell of this table named by the last index of that
        location, where the loop goes on. */
    method Follow(key: string, ghost path: seq<nat>) returns (sub: Result<seq<nat>>, next: Cell<V>)
      requires Valid()
      ensures sub == Trie.Locate(Model, key)
      ensures sub.Ok? ==> Usable(next) && (next.Sub? ==> next.table.Repr < Repr)
      ensures sub.Err? ==> Trie.FollowLoop(Trie.Table(Model), key, path) == Err(sub.error)
      ensures sub.Ok? ==>
                Trie.FollowLoop(Trie.Table(Model), key, path) == Trie.FollowLoop(Of(next), key, path + sub.value)
      decreases Repr, 1
    {
      sub := GetLocation(key);
      Trie.FollowStep(Model, key, path);
      next := Empty;
      if sub.Ok? {
        var j := sub.value[|sub.value| - 1];
        CellFacts(this, j);
        next := cells[j];
      }
    }

    /** The invariant survives a change that rewrites slot `index` and its
        model entry alone: nothing else the table owned has changed, and a
        child table now in the slot owns nothing else the table owned. */
    twostate lemma Rewritten(index: nat)
      requires old(Valid()) && index < Trie.TABLE_SIZE
      requires cells == old(cells) && level == old(level) && old(Repr) <= Repr
      requires Model.level == level && Model.count == count && |Model.slots| == Trie.TABLE_SIZE
      requires Trie.Valid(Model) && Model.slots[index] == Of(cells[index])
      requires forall i :: 0 <= i < Trie.TABLE_SIZE && i != index ==>
                 cells[i] == old(cells[i]) && Model.slots[i] == old(Model.slots[i])
      requires unchanged(old(Repr - ChildRepr(index)) - {this, cells})
      requires cells[index].Sub? ==>
                 var u := cells[index].table;
                 u.Valid() && u in Repr && u.Repr <= Repr
                 && u.Repr !! old(Repr - ChildRepr(index))
      ensures Valid()
    {
      forall i | 0 <= i < Trie.TABLE_SIZE && i != index && cells[i].Sub?
        ensures cells[i].table.Valid() && unchanged(cells[i].table)
      {
        var u := cells[i].table;
        assert old(u.Repr) <= old(Repr - ChildRepr(index)) - {this, cells};
        StillValid(u);
      }
    }
  }

  /** A cell whose table, if it holds one, keeps its invariant. */
  ghost predicate Usable<V>(c: Cell<V>)
    reads if c.Sub? then {c.table} else {}, if c.Sub? then c.table.Repr else {}
  {
    c.Sub? ==> c.table.Valid()
  }

  /** The `while` loop of `get_location`, entered with the cell `entry` and
      the location built so far: while the cell is not the pair of `key`, ask
      its table for the location of `key`, append it, and move to the cell
      of that table named by the last index appended. */
  method Walk<V>(entry: Cell<V>, key: string, location: seq<nat>) returns (r: Result<seq<nat>>)
    requires Usable(entry)
    ensures r == Trie.FollowLoop(Of(entry), key, location)
    decreases if entry.Sub? then entry.table.Repr else {}, 2
  {
    ghost var goal := Trie.FollowLoop(Of(entry), key, location);
    ghost var e := Of(entry);
    var cell, path := entry, location;
    while !(cell.Leaf? && cell.key == key)
      invariant Usable(cell) && (cell.Sub? ==> entry.Sub? && cell.table.Repr <= entry.table.Repr)
      invariant e == Of(cell) && Trie.FollowLoop(e, key, path) == goal
      decreases if cell.Sub? then cell.table.Repr else {}
    {
      if !cell.Sub? {
        return Err(AttributeError);
      }
      var t := cell.table;
      var sub, next := t.Follow(key, path);
      if sub.Err? {
        return Err(sub.error);
      }
      ghost var e' := Of(next);
      path := path + sub.value;
      cell := next;
      e := e';
    }
    return Ok(path);
  }

  /** What `Valid` says about one slot. */
  lemma CellFacts<V>(t: InfiniteHashTable<V>, i: nat)
    requires t.Valid() && i < t.cells.Length
    ensures t.Model.slots[i] == Of(t.cells[i])
    ensures t.cells[i].Sub? ==>
              var c := t.cells[i].table;
              c.Valid() && c in t.Repr && c.Repr < t.Repr && t !in c.Repr && t.cells !in c.Repr
              && c.level == t.level + 1
  {
    if t.cells[i].Sub? {
      var c := t.cells[i].table;
      assert t.Model.slots[i] == Trie.Table(c.Model);
    }
  }

  /** A table's invariant and model depend only on the objects it owns. */
  twostate lemma StillValid<V>(u: InfiniteHashTable<V>)
    requires old(u.Valid()) && unchanged(old(u.Repr))
    ensures u.Valid() && unchanged(u)
  {
  }
}
