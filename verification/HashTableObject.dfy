/** The hash table as the object of common/hash_table.c, with its loops.  Every
    method is tied to the functions and the map of HashTable. */
module HashTableObject {
  import opened HashTable

  datatype GetResult = Missing | Value(value: nat) | Failed

  class Table {
    var entries: array<Entry>
    var capacity: nat
    var size: int

    ghost predicate Valid()
      reads this, entries
    {
      && entries.Length == capacity
      && (capacity == 0 || PowerOfTwo(capacity))
      && Well(entries[..])
    }

    ghost function Contents(): map<nat, nat>
      reads this, entries
    {
      ToMap(entries[..])
    }

    ghost function State(): Counters
      reads this, entries
    {
      Counters(capacity, size, Count(entries[..]))
    }

    /** hash_table_alloc. */
    method Alloc(cap: nat) returns (blank: array<Entry>)
      ensures fresh(blank) && blank[..] == Blank(cap)
    {
      blank := new Entry[cap](_ => FREE);
      var i := 0;
      while i < cap
        invariant 0 <= i <= cap
        invariant blank[..] == Blank(cap)
      {
        blank[i] := FREE;
        i := i + 1;
      }
    }

    /** hash_table_init: the smallest allowed power of two that is at least the capacity. */
    constructor (cap: nat)
      ensures Valid() && Contents() == map[] && State() == Counters(capacity, 0, 0) && fresh(entries)
      ensures capacity >= cap && capacity >= MIN_TABLE_SIZE && (capacity > MIN_TABLE_SIZE ==> capacity / 2 < cap)
    {
      var actual := MIN_TABLE_SIZE;
      while actual < cap
        invariant PowerOfTwo(actual) && actual >= MIN_TABLE_SIZE && (actual > MIN_TABLE_SIZE ==> actual / 2 < cap)
      {
        actual := 2 * actual;
      }
      entries := new Entry[actual](_ => FREE);
      capacity := actual;
      size := 0;
      new;
      BlankIsEmpty(actual);
      assert entries[..] == Blank(actual);
    }

    /** hash_table_find_entry on an array of entries: a slot, or -1 for NULL. */
    static method FindEntry(table: array<Entry>, key: nat) returns (slot: int)
      ensures slot == match Find(table[..], key) { case Some(j) => j case None => -1 }
      ensures -1 <= slot < table.Length
    {
      FindStops(table[..], key);
      if table.Length == 0 {
        return -1;
      }
      var start := Home(key, table.Length);
      var current: nat := start;
      ghost var left := table.Length - 1;
      while table[current].used
        invariant current < table.Length && 0 <= left < table.Length
        invariant left == table.Length - 1 - Dist(start, current, table.Length)
        invariant Find(table[..], key) == Walk(table[..], key, current, left)
        decreases left
      {
        if table[current].key == key {
          return current;
        }
        current := Next(current, table.Length);
        if current == start {
          return -1;
        }
        left := left - 1;
      }
      return current;
    }

    /** hash_table_resize; false is a write through NULL.  The size field restarts at 0. */
    method Resize(cap: nat) returns (ok: bool)
      requires Valid() && PowerOfTwo(cap)
      modifies this
      ensures Valid() && ok == (old(State().used) <= cap)
      ensures Contents() == old(Contents())
      ensures State() == if ok then Counters(cap, 0, old(State().used)) else old(State())
      ensures ok ==> fresh(entries)
      ensures !ok ==> entries == old(entries)
    {
      hide Find, Rehashed, Well, ToMap, Count, Represents, Unique, PowerOfTwo;
      var target := Alloc(cap);
      ghost var s := entries[..];
      WellIsUnique(s);
      RehashStart(s, cap);
      var i: nat := 0;
      while i < capacity
        invariant i <= capacity == |s| && capacity == old(capacity) && size == old(size)
        invariant entries == old(entries) && entries[..] == s && fresh(target)
        invariant Rehashed(s, i, cap) == Some(target[..])
      {
        RehashStep(s, i, cap, target[..]);
        if entries[i].used {
          var slot := FindEntry(target, entries[i].key);
          if slot == -1 {
            RehashFails(s, i + 1, cap);
            return false;
          }
          target[slot] := entries[i];
        }
        i := i + 1;
      }
      assert s[..i] == s;
      RehashKeepsMap(s, i, cap);
      WellIsUnique(target[..]);
      RepresentsToMap(target[..], ToMap(s));
      entries, capacity, size := target, cap, 0;
      return true;
    }

    /** hash_table_get: Failed is the failed assertion on a full table. */
    method Get(key: nat) returns (r: GetResult)
      requires Valid()
      ensures r == if key in Contents() then Value(Contents()[key]) else if capacity > 0 && State().used == capacity then Failed else Missing
    {
      hide Find, Reachable, Home;
      ToMapRepresents(entries[..]);
      FindInMap(entries[..], Contents(), key);
      if capacity == 0 {
        return Missing;
      }
      var slot := FindEntry(entries, key);
      if slot == -1 {
        return Failed;
      }
      return if entries[slot].used then Value(entries[slot].value) else Missing;
    }

    /** The second part of hash_table_set: the entry is found and written. */
    method Put(key: nat, value: nat) returns (ok: bool)
      requires Valid() && capacity > 0
      modifies this, entries
      ensures Valid() && ok == (key in old(Contents()) || old(State().used) < capacity)
      ensures ok ==> Contents() == old(Contents())[key := value]
      ensures capacity == old(capacity) && entries == old(entries)
      ensures ok ==> State() == if key in old(Contents()) then old(State()) else Counters(capacity, old(size) + 1, old(State().used) + 1)
      ensures !ok ==> Contents() == old(Contents()) && State() == old(State())
    {
      hide Find, Reachable, PowerOfTwo, ToMap, Count, Represents, Unique;
      ghost var s := entries[..];
      WellIsUnique(s);
      ToMapRepresents(s);
      FindInMap(s, ToMap(s), key);
      var slot := FindEntry(entries, key);
      if slot == -1 {
        return false;
      }
      PutInMap(s, ToMap(s), key, value);
      FreeSlot(s, slot);
      if !entries[slot].used {
        size := size + 1;
      }
      entries[slot] := Entry(true, key, value);
      assert entries[..] == s[slot := Entry(true, key, value)];
      WellIsUnique(entries[..]);
      RepresentsToMap(entries[..], ToMap(s)[key := value]);
      return true;
    }

    /** hash_table_set: false is the failed assertion. */
    method Set(key: nat, value: nat) returns (ok: bool)
      requires Valid()
      modifies this, entries
      ensures Valid() && ok == AfterSet(old(State()), key in old(Contents())).Some?
      ensures ok ==> Contents() == old(Contents())[key := value] && Some(State()) == AfterSet(old(State()), key in old(Contents()))
      ensures !ok ==> Contents() == old(Contents()) && State() == old(State())
      ensures entries == old(entries) || fresh(entries)
    {
      hide Well, ToMap, Count;
      CountBounded(entries[..]);
      if capacity == 0 {
        assert PowerOfTwo(16) by {
          assert PowerOfTwo(1) && PowerOfTwo(2) && PowerOfTwo(4) && PowerOfTwo(8);
        }
        ok := Resize(MIN_TABLE_SIZE);
      } else if capacity / 2 < size {
        ok := Resize(2 * capacity);
      }
      ok := Put(key, value);
    }

    /** hash_table_check_holes. */
    method CheckHoles(start: nat)
      requires start < entries.Length
      modifies entries
      ensures entries[..] == FillHoles(old(entries[..]), start, Next(start, entries.Length))
    {
      hide Find, Unique;
      var index: nat := Next(start, entries.Length);
      while start != index && entries[index].used
        invariant index < entries.Length
        invariant FillHoles(old(entries[..]), start, Next(start, entries.Length)) == FillHoles(entries[..], start, index)
        decreases Dist(index, start, entries.Length)
      {
        ghost var s := entries[..];
        FindsOwnKey(s, index);
        var slot := FindEntry(entries, entries[index].key);
        if slot != index {
          entries[slot] := entries[index];
          entries[index] := entries[index].(used := false);
        }
        assert entries[..] == Moved(s, index, slot);
        index := Next(index, entries.Length);
      }
    }

    /** The second part of hash_table_delete: the entry is found and removed. */
    method Remove(key: nat) returns (ok: bool)
      requires Valid() && capacity > 0
      modifies this, entries
      ensures Valid() && ok == (key in old(Contents()) || old(State().used) < capacity)
      ensures ok ==> Contents() == old(Contents()) - {key}
      ensures capacity == old(capacity) && entries == old(entries)
      ensures ok ==> State() == if key in old(Contents()) then Counters(capacity, old(size) - 1, old(State().used) - 1) else old(State())
      ensures !ok ==> Contents() == old(Contents()) && State() == old(State())
    {
      hide Find, Reachable, PowerOfTwo, ToMap, Count, Represents, FillHoles;
      ghost var s := entries[..];
      ToMapRepresents(s);
      FindInMap(s, ToMap(s), key);
      var slot := FindEntry(entries, key);
      if slot == -1 {
        return false;
      }
      FreeSlot(s, slot);
      if entries[slot].used {
        DeleteRemovesKey(s, ToMap(s), slot);
        entries[slot] := entries[slot].(used := false);
        size := size - 1;
        assert entries[..] == Removed(s, slot);
        CheckHoles(slot);
        RepresentsToMap(entries[..], ToMap(s) - {key});
      } else {
        assert ToMap(s) == ToMap(s) - {key};
      }
      return true;
    }

    /** hash_table_delete: false is a failed assertion, or a shrink that does not fit. */
    method Delete(key: nat) returns (ok: bool)
      requires Valid()
      modifies this, entries
      ensures Valid() && ok == AfterDelete(old(State()), key in old(Contents())).Some?
      ensures ok ==> Some(State()) == AfterDelete(old(State()), key in old(Contents()))
      ensures Contents() == if ok then old(Contents()) - {key} else old(Contents())
      ensures entries == old(entries) || fresh(entries)
    {
      hide Well, ToMap, Count;
      CountBounded(entries[..]);
      if capacity == 0 {
        EmptyMap(entries[..]);
        return true;
      }
      if capacity / 4 > size && capacity > MIN_TABLE_SIZE {
        ok := Resize(capacity / 2);
        if !ok {
          return false;
        }
      }
      ok := Remove(key);
    }

    /** Any sequence of calls: it fails exactly when the counters say so, and
        otherwise leaves and answers what a finite map does. */
    method Perform(calls: seq<Call>) returns (ok: bool, answers: seq<Option<nat>>)
      requires Valid()
      modifies this, entries
      ensures Valid() && ok == AfterCalls(old(State()), old(Contents()), calls).Some?
      ensures ok ==> Contents() == MapAfter(old(Contents()), calls) && answers == Answers(old(Contents()), calls)
      ensures ok ==> Some(State()) == AfterCalls(old(State()), old(Contents()), calls)
    {
      hide Well, ToMap, Count, PowerOfTwo, AfterSet, AfterDelete, AfterCalls, MapAfter, Answers;
      answers := [];
      var i: nat := 0;
      while i < |calls|
        invariant i <= |calls| && Valid() && (entries == old(entries) || fresh(entries))
        invariant AfterCalls(State(), Contents(), calls[i..]) == AfterCalls(old(State()), old(Contents()), calls)
        invariant MapAfter(Contents(), calls[i..]) == MapAfter(old(Contents()), calls)
        invariant answers + Answers(Contents(), calls[i..]) == Answers(old(Contents()), calls)
      {
        NextCall(State(), Contents(), calls, i);
        match calls[i] {
          case SetCall(key, value) =>
            ok := Set(key, value);
          case GetCall(key) =>
            var r := Get(key);
            CountBounded(entries[..]);
            ok := r != Failed;
            answers := answers + [if r.Value? then Some(r.value) else None];
          case DeleteCall(key) =>
            ok := Delete(key);
        }
        if !ok {
          return;
        }
        i := i + 1;
      }
      assert calls[i..] == [];
      NoCalls(State(), Contents());
      ok := true;
    }
  }

  lemma NoCalls(c: Counters, m: map<nat, nat>)
    ensures AfterCalls(c, m, []) == Some(c) && MapAfter(m, []) == m && Answers(m, []) == []
  {
  }

  lemma NextCall(c: Counters, m: map<nat, nat>, calls: seq<Call>, i: nat)
    requires i < |calls|
    ensures AfterCalls(c, m, calls[i..]) == match AfterCall(c, m, calls[i]) {
      case None => None
      case Some(d) => AfterCalls(d, MapAfterCall(m, calls[i]), calls[i + 1..])
    }
    ensures MapAfter(m, calls[i..]) == MapAfter(MapAfterCall(m, calls[i]), calls[i + 1..])
    ensures Answers(m, calls[i..]) ==
      (match calls[i] case GetCall(key) => [Lookup(m, key)] case _ => []) + Answers(MapAfterCall(m, calls[i]), calls[i + 1..])
  {
    assert calls[i..][1..] == calls[i + 1..];
  }

  lemma WellIsUnique(s: seq<Entry>)
    requires Well(s)
    ensures Unique(s)
  {
  }

  lemma CountBounded(s: seq<Entry>)
    ensures Count(s) <= |s|
  {
  }

  /** A free slot means that the table is not full. */
  lemma FreeSlot(s: seq<Entry>, i: nat)
    requires i < |s|
    ensures !s[i].used ==> Count(s) < |s|
    ensures Count(s) < |s| <==> !Full(s)
  {
  }

  lemma EmptyMap(s: seq<Entry>)
    requires s == []
    ensures ToMap(s) == map[]
  {
  }

  lemma RehashStart(s: seq<Entry>, cap: nat)
    ensures Rehashed(s, 0, cap) == Some(Blank(cap))
  {
  }

  lemma RehashStep(s: seq<Entry>, i: nat, cap: nat, t: seq<Entry>)
    requires i < |s| && Rehashed(s, i, cap) == Some(t)
    ensures !s[i].used ==> Rehashed(s, i + 1, cap) == Some(t)
    ensures s[i].used ==> match Find(t, s[i].key) {
      case None => Rehashed(s, i + 1, cap) == None
      case Some(j) => j < |t| && Rehashed(s, i + 1, cap) == Some(t[j := s[i]])
    }
  {
    hide Find;
    FindStops(t, s[i].key);
  }
}
