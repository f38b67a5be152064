/** The open-addressing hash table of common/hash_table.c: linear probing, and a
    deletion that re-places the rest of the probe cluster.

    A table is a sequence of entries.  It stands for a finite map, and every
    operation does to the table what it should do to the map. */
module HashTable {

  datatype Option<T> = None | Some(value: T)

  datatype Entry = Entry(used: bool, key: nat, value: nat)

  const LARGE_PRIME := 1048583
  const MIN_TABLE_SIZE := 16

  const FREE := Entry(false, 0, 0)

  // -------------------------------------------------------------- wrapping

  predicate PowerOfTwo(n: nat) {
    n == 1 || (n % 2 == 0 && n > 0 && PowerOfTwo(n / 2))
  }

  /** a & b. */
  function And(a: nat, b: nat): nat {
    if a == 0 || b == 0 then 0 else 2 * And(a / 2, b / 2) + (if a % 2 == 1 && b % 2 == 1 then 1 else 0)
  }

  /** Masking with capacity - 1 is the remainder, because capacities are powers of two. */
  lemma {:induction false} WrapIsRemainder(x: nat, capacity: nat)
    requires PowerOfTwo(capacity)
    ensures And(x, capacity - 1) == x % capacity
    decreases capacity
  {
    if capacity > 1 && x > 0 {
      var half := capacity / 2;
      WrapIsRemainder(x / 2, half);
      assert (capacity - 1) / 2 == half - 1;
      RemainderByHalves(x, half);
    }
  }

  lemma RemainderByHalves(x: nat, half: nat)
    requires half > 0
    ensures x % (2 * half) == 2 * (x / 2 % half) + x % 2
  {
    var y := x / 2;
    var q, r := y / half, y % half;
    assert y == q * half + r;
    assert x == 2 * (q * half + r) + x % 2;
    assert 2 * (q * half) == q * (2 * half);
    Remainder(q, 2 * r + x % 2, 2 * half);
  }

  lemma Spaced(q: nat, q': nat, n: nat)
    requires q < q'
    ensures q * n + n <= q' * n
  {
    assert q' * n == q * n + (q' - q) * n;
    assert (q' - q) * n == n + (q' - q - 1) * n;
  }

  lemma Remainder(q: nat, r: nat, n: nat)
    requires r < n
    ensures (q * n + r) % n == r
  {
    var x := q * n + r;
    var q', r' := x / n, x % n;
    assert x == q' * n + r';
    if q < q' {
      Spaced(q, q', n);
    } else if q' < q {
      Spaced(q', q, n);
    }
  }

  /** WRAP_INDEX(table, key * LARGE_PRIME). */
  function Home(key: nat, cap: nat): (h: nat)
    requires cap > 0
    ensures h < cap
  {
    key * LARGE_PRIME % cap
  }

  /** WRAP_INDEX(table, i + 1). */
  function Next(i: nat, cap: nat): (n: nat)
    requires i < cap
    ensures n < cap
  {
    if i + 1 == cap then 0 else i + 1
  }

  lemma NextWraps(i: nat, cap: nat)
    requires i < cap && PowerOfTwo(cap)
    ensures Next(i, cap) == And(i + 1, cap - 1)
  {
    WrapIsRemainder(i + 1, cap);
    if i + 1 == cap {
      Remainder(1, 0, cap);
    } else {
      Remainder(0, i + 1, cap);
    }
  }

  /** How many steps lead from one slot to another. */
  function Dist(from: nat, to: nat, cap: nat): (d: nat)
    requires from < cap && to < cap
    ensures d < cap
  {
    if from <= to then to - from else to + cap - from
  }

  // ---------------------------------------------------------------- finding

  /** hash_table_find_entry from slot i, with `left` more slots before its start. */
  function Walk(s: seq<Entry>, key: nat, i: nat, left: nat): Option<nat>
    requires i < |s|
    decreases left
  {
    if !s[i].used || s[i].key == key then Some(i)
    else if left == 0 then None
    else Walk(s, key, Next(i, |s|), left - 1)
  }

  /** hash_table_find_entry; None is its NULL. */
  function Find(s: seq<Entry>, key: nat): Option<nat> {
    if s == [] then None else Walk(s, key, Home(key, |s|), |s| - 1)
  }

  /** The key's slot, or the first free slot on its probe path. */
  ghost predicate IsStop(s: seq<Entry>, key: nat, j: nat) {
    && j < |s|
    && (!s[j].used || s[j].key == key)
    && forall x :: 0 <= x < |s| && Dist(Home(key, |s|), x, |s|) < Dist(Home(key, |s|), j, |s|) ==> s[x].used && s[x].key != key
  }

  ghost predicate Full(s: seq<Entry>) { forall i :: 0 <= i < |s| ==> s[i].used }

  ghost predicate HasKey(s: seq<Entry>, i: nat, key: nat) { i < |s| && s[i].used && s[i].key == key }

  lemma {:induction false} WalkStops(s: seq<Entry>, key: nat, i: nat, left: nat)
    requires i < |s| && left < |s| && Dist(Home(key, |s|), i, |s|) == |s| - 1 - left
    requires forall x :: 0 <= x < |s| && Dist(Home(key, |s|), x, |s|) < Dist(Home(key, |s|), i, |s|) ==> s[x].used && s[x].key != key
    ensures match Walk(s, key, i, left) {
      case Some(j) => IsStop(s, key, j)
      case None => forall x :: 0 <= x < |s| ==> s[x].used && s[x].key != key
    }
    decreases left
  {
    hide Home;
    var cap, h := |s|, Home(key, |s|);
    if s[i].used && s[i].key != key {
      forall x | 0 <= x < cap && Dist(h, x, cap) <= Dist(h, i, cap) ensures s[x].used && s[x].key != key {
        if x != i {
          assert Dist(h, x, cap) < Dist(h, i, cap);
        }
      }
      if left > 0 {
        WalkStops(s, key, Next(i, cap), left - 1);
      } else {
        forall x | 0 <= x < cap ensures s[x].used && s[x].key != key {
          assert Dist(h, x, cap) <= Dist(h, i, cap);
        }
      }
    }
  }

  /** Find stops at the key's slot or the first free slot of its probe path, and
      fails exactly when the table is full of other keys. */
  lemma FindStops(s: seq<Entry>, key: nat)
    ensures match Find(s, key) {
      case Some(j) => IsStop(s, key, j)
      case None => forall x :: 0 <= x < |s| ==> s[x].used && s[x].key != key
    }
  {
    hide Home;
    if s != [] {
      WalkStops(s, key, Home(key, |s|), |s| - 1);
    }
  }

  lemma StopIsFound(s: seq<Entry>, key: nat, j: nat)
    requires IsStop(s, key, j)
    ensures Find(s, key) == Some(j)
  {
    hide Home, Find;
    FindStops(s, key);
    if Find(s, key).Some? {
      var k := Find(s, key).value;
      var h := Home(key, |s|);
      if Dist(h, k, |s|) < Dist(h, j, |s|) {
        assert false;
      } else if Dist(h, j, |s|) < Dist(h, k, |s|) {
        assert false;
      }
    }
  }

  // --------------------------------------------------------- representation

  /** No two slots hold the same key. */
  ghost predicate Unique(s: seq<Entry>) {
    forall i, j :: 0 <= i < |s| && 0 <= j < |s| && s[i].used && s[j].used && s[i].key == s[j].key ==> i == j
  }

  /** Slot j is on the probe path to the entry in slot i. */
  ghost predicate Before(s: seq<Entry>, i: nat, j: nat)
    requires i < |s| && j < |s|
  {
    var h := Home(s[i].key, |s|);
    Dist(h, j, |s|) < Dist(h, i, |s|)
  }

  /** No free slot lies between an entry and its home. */
  ghost predicate Reachable(s: seq<Entry>) {
    forall i, j :: 0 <= i < |s| && 0 <= j < |s| && s[i].used && Before(s, i, j) ==> s[j].used
  }

  /** Places counted from just after slot e, which comes last. */
  function Pos(e: nat, i: nat, cap: nat): (p: nat)
    requires e < cap && i < cap
    ensures p < cap
  {
    if i > e then i - e - 1 else i + cap - e - 1
  }

  /** No probe path goes on past slot e. */
  ghost predicate HomesBefore(s: seq<Entry>, e: nat)
    requires e < |s|
  {
    forall i :: 0 <= i < |s| && s[i].used ==> Pos(e, Home(s[i].key, |s|), |s|) <= Pos(e, i, |s|)
  }

  /** The probe paths do not chase each other all the way round: a free slot
      stops them, and so does the slot that was filled last when none is free. */
  ghost predicate Anchored(s: seq<Entry>) { s == [] || exists e :: 0 <= e < |s| && HomesBefore(s, e) }

  ghost predicate Well(s: seq<Entry>) { Unique(s) && Reachable(s) && Anchored(s) }

  /** The table holds the entries of the map and no others. */
  ghost predicate Represents(s: seq<Entry>, m: map<nat, nat>) {
    && (forall i :: 0 <= i < |s| && s[i].used ==> s[i].key in m && m[s[i].key] == s[i].value)
    && (forall k :: k in m ==> exists i :: HasKey(s, i, k))
  }

  /** The map that the table stands for. */
  ghost function ToMap(s: seq<Entry>): map<nat, nat> {
    if s == [] then map[]
    else
      var n := |s| - 1;
      if s[n].used then ToMap(s[..n])[s[n].key := s[n].value] else ToMap(s[..n])
  }

  lemma {:induction false} ToMapRepresents(s: seq<Entry>)
    requires Unique(s)
    ensures Represents(s, ToMap(s))
  {
    if s != [] {
      var n := |s| - 1;
      var t := s[..n];
      ToMapRepresents(t);
      forall i | 0 <= i < |s| && s[i].used ensures s[i].key in ToMap(s) && ToMap(s)[s[i].key] == s[i].value {
        if i < n {
          assert t[i] == s[i];
        }
      }
      forall k | k in ToMap(s) ensures exists i :: HasKey(s, i, k) {
        if s[n].used && k == s[n].key {
          assert HasKey(s, n, k);
        } else {
          var i :| HasKey(t, i, k);
          assert HasKey(s, i, k);
        }
      }
    }
  }

  lemma RepresentsOne(s: seq<Entry>, m: map<nat, nat>, m': map<nat, nat>)
    requires Represents(s, m) && Represents(s, m')
    ensures m == m'
  {
    assert m.Keys == m'.Keys by {
      forall k | k in m ensures k in m' {
        var i :| HasKey(s, i, k);
      }
      forall k | k in m' ensures k in m {
        var i :| HasKey(s, i, k);
      }
    }
    forall k | k in m ensures m[k] == m'[k] {
      var i :| HasKey(s, i, k);
    }
  }

  lemma RepresentsToMap(s: seq<Entry>, m: map<nat, nat>)
    requires Unique(s) && Represents(s, m)
    ensures ToMap(s) == m
  {
    ToMapRepresents(s);
    RepresentsOne(s, ToMap(s), m);
  }

  /** The number of entries. */
  ghost function Count(s: seq<Entry>): (n: nat)
    ensures n <= |s|
    ensures n == |s| <==> Full(s)
  {
    if s == [] then 0
    else
      var t := s[..|s| - 1];
      var n := Count(t) + (if s[|s| - 1].used then 1 else 0);
      assert Full(s) <==> Full(t) && s[|s| - 1].used by {
        assert forall i :: 0 <= i < |t| ==> t[i] == s[i];
      }
      n
  }

  lemma {:induction false} CountUpdated(s: seq<Entry>, i: nat, e: Entry)
    requires i < |s|
    ensures Count(s[i := e]) == Count(s) - (if s[i].used then 1 else 0) + (if e.used then 1 else 0)
  {
    var n := |s| - 1;
    if i < n {
      CountUpdated(s[..n], i, e);
      assert s[i := e][..n] == s[..n][i := e];
    } else {
      assert s[i := e][..n] == s[..n];
    }
  }

  // ------------------------------------------------------------ get and set

  /** Find on a table that stands for a map finds the map's entry, a free slot
      for a key outside the map, or that the table is full. */
  lemma FindInMap(s: seq<Entry>, m: map<nat, nat>, key: nat)
    requires Well(s) && Represents(s, m)
    ensures match Find(s, key) {
      case Some(j) => j < |s| && s[j].used == (key in m) && (key in m ==> s[j] == Entry(true, key, m[key]))
      case None => key !in m && Full(s)
    }
  {
    hide Home, Find;
    FindStops(s, key);
    if key in m {
      var i :| HasKey(s, i, key);
      assert IsStop(s, key, i);
      StopIsFound(s, key, i);
    }
  }

  lemma PathIsInterval(cap: nat, e: nat, h: nat, i: nat, j: nat)
    requires e < cap && h < cap && i < cap && j < cap && Pos(e, h, cap) <= Pos(e, i, cap)
    ensures Dist(h, j, cap) < Dist(h, i, cap) <==> Pos(e, h, cap) <= Pos(e, j, cap) < Pos(e, i, cap)
  {
  }

  /** No entry's probe path crosses a free slot. */
  lemma FreeIsAnchor(s: seq<Entry>, e: nat)
    requires e < |s| && Reachable(s) && !s[e].used
    ensures HomesBefore(s, e)
  {
    hide Home;
    forall i | 0 <= i < |s| && s[i].used ensures Pos(e, Home(s[i].key, |s|), |s|) <= Pos(e, i, |s|) {
      assert !Before(s, i, e);
    }
  }

  /** A slot that is filled last stops every path, its own included. */
  lemma PutAnchored(s: seq<Entry>, j: nat, e: Entry)
    requires Well(s) && j < |s| && e.used && (s[j].used ==> s[j].key == e.key)
    ensures Anchored(s[j := e])
  {
    hide Home;
    var t := s[j := e];
    if s[j].used {
      var a :| 0 <= a < |s| && HomesBefore(s, a);
      assert HomesBefore(t, a);
    } else {
      FreeIsAnchor(s, j);
      assert HomesBefore(t, j);
    }
  }

  lemma PutWell(s: seq<Entry>, j: nat, e: Entry)
    requires Well(s) && IsStop(s, e.key, j) && e.used
    requires !s[j].used ==> forall i :: 0 <= i < |s| && s[i].used ==> s[i].key != e.key
    ensures Well(s[j := e])
  {
    PutAnchored(s, j, e);
    hide Home, Dist, Anchored;
    var t := s[j := e];
    forall i, k | 0 <= i < |t| && 0 <= k < |t| && t[i].used && Before(t, i, k) ensures t[k].used {
      if i != j && k != j {
        assert Before(s, i, k);
      }
    }
  }

  lemma PutRepresents(s: seq<Entry>, m: map<nat, nat>, j: nat, key: nat, value: nat)
    requires Unique(s) && Represents(s, m) && j < |s| && s[j].used == (key in m) && (key in m ==> s[j].key == key)
    ensures Represents(s[j := Entry(true, key, value)], m[key := value])
  {
    var t := s[j := Entry(true, key, value)];
    assert HasKey(t, j, key);
    forall k | k in m ensures exists i :: HasKey(t, i, k) {
      if k != key {
        var i :| HasKey(s, i, k);
        assert HasKey(t, i, k);
      }
    }
  }

  /** The entry that hash_table_set writes. */
  lemma PutInMap(s: seq<Entry>, m: map<nat, nat>, key: nat, value: nat)
    requires Well(s) && Represents(s, m) && Find(s, key).Some?
    ensures Find(s, key).value < |s|
    ensures var t := s[Find(s, key).value := Entry(true, key, value)];
      Well(t) && Represents(t, m[key := value]) && Count(t) == Count(s) + (if key in m then 0 else 1)
  {
    hide Find, IsStop, Reachable;
    FindStops(s, key);
    FindInMap(s, m, key);
    var j := Find(s, key).value;
    CountUpdated(s, j, Entry(true, key, value));
    PutRepresents(s, m, j, key, value);
    PutWell(s, j, Entry(true, key, value));
  }

  // ---------------------------------------------------------------- resizing

  function Blank(cap: nat): (s: seq<Entry>)
    ensures |s| == cap
  {
    seq(cap, _ => FREE)
  }

  lemma {:induction false} BlankIsEmpty(cap: nat)
    ensures Well(Blank(cap)) && Represents(Blank(cap), map[]) && Count(Blank(cap)) == 0
    ensures ToMap(Blank(cap)) == map[]
  {
    if cap > 0 {
      BlankIsEmpty(cap - 1);
      assert Blank(cap)[..cap - 1] == Blank(cap - 1);
    }
    RepresentsToMap(Blank(cap), map[]);
    assert cap > 0 ==> HomesBefore(Blank(cap), 0);
  }

  /** The loop of hash_table_resize over the first n slots; None is a write through NULL. */
  function Rehashed(s: seq<Entry>, n: nat, cap: nat): (t: Option<seq<Entry>>)
    requires n <= |s|
    ensures t.Some? ==> |t.value| == cap
  {
    if n == 0 then Some(Blank(cap))
    else
      match Rehashed(s, n - 1, cap)
      case None => None
      case Some(t) =>
        if !s[n - 1].used then Some(t)
        else
          match Find(t, s[n - 1].key)
          case None => None
          case Some(j) =>
            FindStops(t, s[n - 1].key);
            Some(t[j := s[n - 1]])
  }

  /** Rehashing keeps the map, and succeeds exactly when the entries fit. */
  lemma {:induction false} RehashKeepsMap(s: seq<Entry>, n: nat, cap: nat)
    requires n <= |s| && Unique(s)
    ensures Rehashed(s, n, cap).Some? <==> Count(s[..n]) <= cap
    ensures Rehashed(s, n, cap).Some? ==>
      var t := Rehashed(s, n, cap).value; Well(t) && Represents(t, ToMap(s[..n])) && Count(t) == Count(s[..n])
  {
    hide Home, Find, Reachable;
    if n == 0 {
      BlankIsEmpty(cap);
    } else {
      var e := s[n - 1];
      assert s[..n][..n - 1] == s[..n - 1];
      RehashKeepsMap(s, n - 1, cap);
      ToMapRepresents(s[..n - 1]);
      if Rehashed(s, n - 1, cap).Some? && e.used {
        var t := Rehashed(s, n - 1, cap).value;
        FreshKey(s, n);
        FindInMap(t, ToMap(s[..n - 1]), e.key);
        if Find(t, e.key).Some? {
          PutInMap(t, ToMap(s[..n - 1]), e.key, e.value);
        }
      }
    }
  }

  lemma FreshKey(s: seq<Entry>, n: nat)
    requires 0 < n <= |s| && Unique(s) && s[n - 1].used
    ensures s[n - 1].key !in ToMap(s[..n - 1])
  {
    var t := s[..n - 1];
    ToMapRepresents(t);
    forall i | 0 <= i < n - 1 && t[i].used ensures t[i].key != s[n - 1].key {
      assert t[i] == s[i];
    }
  }

  lemma {:induction false} RehashFails(s: seq<Entry>, n: nat, cap: nat)
    requires n <= |s| && Unique(s) && Rehashed(s, n, cap).None?
    ensures Count(s) > cap
    decreases |s| - n
  {
    if n < |s| {
      RehashFails(s, n + 1, cap);
    } else {
      assert s[..n] == s;
      RehashKeepsMap(s, n, cap);
    }
  }

  // ---------------------------------------------------------------- deleting

  lemma FindsOwnKey(s: seq<Entry>, i: nat)
    requires i < |s| && s[i].used
    ensures Find(s, s[i].key).Some? && Find(s, s[i].key).value < |s|
    ensures Unique(s) && Find(s, s[i].key).value != i ==> !s[Find(s, s[i].key).value].used
  {
    hide Home, Find;
    FindStops(s, s[i].key);
  }

  /** The entry of one slot moved to another, as hash_table_check_holes does. */
  function Moved(s: seq<Entry>, from: nat, to: nat): (t: seq<Entry>)
    requires from < |s| && to < |s|
    ensures |t| == |s|
  {
    if to == from then s else s[to := s[from]][from := s[from].(used := false)]
  }

  /** The loop of hash_table_check_holes. */
  function FillHoles(s: seq<Entry>, start: nat, index: nat): (t: seq<Entry>)
    requires start < |s| && index < |s|
    ensures |t| == |s|
    decreases Dist(index, start, |s|)
  {
    if index == start || !s[index].used then s
    else
      FindsOwnKey(s, index);
      FillHoles(Moved(s, index, Find(s, s[index].key).value), start, Next(index, |s|))
  }

  /** Slot j is between the home of slot i's entry and slot i, counting from e. */
  ghost predicate OnPath(s: seq<Entry>, e: nat, i: nat, j: nat)
    requires e < |s| && i < |s| && j < |s|
  {
    Pos(e, Home(s[i].key, |s|), |s|) <= Pos(e, j, |s|) < Pos(e, i, |s|)
  }

  lemma LinkedIsReachable(s: seq<Entry>, e: nat)
    requires e < |s| && HomesBefore(s, e)
    requires forall i, j :: 0 <= i < |s| && 0 <= j < |s| && s[i].used && OnPath(s, e, i, j) ==> s[j].used
    ensures Reachable(s) && Anchored(s)
  {
    hide Home, Pos, Dist;
    forall i, j | 0 <= i < |s| && 0 <= j < |s| && s[i].used && Before(s, i, j) ensures s[j].used {
      PathIsInterval(|s|, e, Home(s[i].key, |s|), i, j);
      assert OnPath(s, e, i, j);
    }
  }

  /** Between its home and its slot, an entry's path is used. */
  lemma ReachableIsLinked(s: seq<Entry>, e: nat)
    requires e < |s| && Reachable(s) && HomesBefore(s, e)
    ensures forall i, j :: 0 <= i < |s| && 0 <= j < |s| && s[i].used && OnPath(s, e, i, j) ==> s[j].used
  {
    hide Home;
    forall i, j | 0 <= i < |s| && 0 <= j < |s| && s[i].used && OnPath(s, e, i, j) ensures s[j].used {
      PathIsInterval(|s|, e, Home(s[i].key, |s|), i, j);
      assert Before(s, i, j);
    }
  }

  /** The state of the loop at slot q: there is one hole before q, and the probe
      paths of the entries from q on may cross it, but no other path crosses a hole. */
  ghost predicate Filling(s: seq<Entry>, e: nat, q: nat, hole: nat) {
    && e < |s| && q < |s| && hole < |s|
    && !s[hole].used && Pos(e, hole, |s|) < Pos(e, q, |s|)
    && Unique(s) && HomesBefore(s, e)
    && forall i, j :: 0 <= i < |s| && 0 <= j < |s| && s[i].used && OnPath(s, e, i, j) ==>
         s[j].used || (j == hole && Pos(e, i, |s|) >= Pos(e, q, |s|))
  }

  /** The entry at q is found where it is, or at the hole if its path crosses it. */
  lemma FoundAtHole(s: seq<Entry>, e: nat, q: nat, hole: nat)
    requires Filling(s, e, q, hole) && s[q].used
    ensures Find(s, s[q].key) == Some(if OnPath(s, e, q, hole) then hole else q)
  {
    hide Home, Find, Pos, Dist;
    var j := if OnPath(s, e, q, hole) then hole else q;
    var h := Home(s[q].key, |s|);
    forall x | 0 <= x < |s| && Dist(h, x, |s|) < Dist(h, j, |s|) ensures s[x].used && s[x].key != s[q].key {
      PathIsInterval(|s|, e, h, j, x);
      assert OnPath(s, e, q, x);
    }
    assert IsStop(s, s[q].key, j);
    StopIsFound(s, s[q].key, j);
  }

  lemma MoveKeepsFilling(s: seq<Entry>, e: nat, q: nat, hole: nat)
    requires Filling(s, e, q, hole) && s[q].used && q != e
    ensures var crosses := OnPath(s, e, q, hole);
      Filling(Moved(s, q, if crosses then hole else q), e, Next(q, |s|), if crosses then q else hole)
  {
    var crosses := OnPath(s, e, q, hole);
    var t := Moved(s, q, if crosses then hole else q);
    assert Pos(e, Next(q, |s|), |s|) == Pos(e, q, |s|) + 1;
    PosInjective(|s|, e);
    hide Home, Pos, Dist, Next;
    forall i, j | 0 <= i < |t| && 0 <= j < |t| && t[i].used && OnPath(t, e, i, j)
      ensures t[j].used || (j == (if crosses then q else hole) && Pos(e, i, |s|) > Pos(e, q, |s|))
    {
      if crosses && i == hole {
        assert OnPath(s, e, q, j);
      } else {
        assert OnPath(s, e, i, j);
      }
    }
  }

  /** The turn at the last slot leaves no path across a hole. */
  lemma LastMoveRestores(s: seq<Entry>, e: nat, hole: nat)
    requires Filling(s, e, e, hole) && s[e].used
    ensures Well(Moved(s, e, if OnPath(s, e, e, hole) then hole else e))
  {
    var crosses := OnPath(s, e, e, hole);
    var t := Moved(s, e, if crosses then hole else e);
    assert Pos(e, e, |s|) == |s| - 1;
    PosInjective(|s|, e);
    hide Home, Pos, Dist, Anchored, Reachable;
    forall i, j | 0 <= i < |t| && 0 <= j < |t| && t[i].used && OnPath(t, e, i, j) ensures t[j].used {
      if crosses && i == hole {
        assert OnPath(s, e, e, j);
      } else {
        assert OnPath(s, e, i, j);
      }
    }
    LinkedIsReachable(t, e);
  }

  lemma PosInjective(cap: nat, e: nat)
    requires e < cap
    ensures forall i, j :: 0 <= i < cap && 0 <= j < cap && Pos(e, i, cap) == Pos(e, j, cap) ==> i == j
  {
  }

  lemma MoveKeepsUnique(s: seq<Entry>, from: nat, to: nat)
    requires from < |s| && to < |s| && s[from].used && (from == to || !s[to].used) && Unique(s)
    ensures Unique(Moved(s, from, to))
  {
    var t := Moved(s, from, to);
    forall i, j | 0 <= i < |t| && 0 <= j < |t| && t[i].used && t[j].used && t[i].key == t[j].key ensures i == j {
      assert s[if i == to then from else i] == t[i] && s[if j == to then from else j] == t[j];
    }
  }

  lemma MoveKeepsMap(s: seq<Entry>, m: map<nat, nat>, from: nat, to: nat)
    requires from < |s| && to < |s| && s[from].used && (from == to || !s[to].used) && Represents(s, m)
    ensures Represents(Moved(s, from, to), m)
  {
    var t := Moved(s, from, to);
    forall k | k in m ensures exists i :: HasKey(t, i, k) {
      var i :| HasKey(s, i, k);
      assert HasKey(t, if i == from then to else i, k);
    }
  }

  lemma MoveKeepsCount(s: seq<Entry>, from: nat, to: nat)
    requires from < |s| && to < |s| && s[from].used && (from == to || !s[to].used)
    ensures Count(Moved(s, from, to)) == Count(s)
  {
    hide Count;
    if from != to {
      CountUpdated(s, to, s[from]);
      CountUpdated(s[to := s[from]], from, s[from].(used := false));
    }
  }

  /** Whatever the table, the loop loses no entry and invents none. */
  lemma {:induction false} FillHolesKeepsEntries(s: seq<Entry>, m: map<nat, nat>, start: nat, index: nat)
    requires start < |s| && index < |s| && Unique(s) && Represents(s, m)
    ensures var t := FillHoles(s, start, index); Unique(t) && Represents(t, m) && Count(t) == Count(s)
    decreases Dist(index, start, |s|)
  {
    hide Find, Home, Represents, Unique, Moved, Count;
    if index != start && s[index].used {
      FindsOwnKey(s, index);
      var to := Find(s, s[index].key).value;
      MoveKeepsUnique(s, index, to);
      MoveKeepsMap(s, m, index, to);
      MoveKeepsCount(s, index, to);
      FillHolesKeepsEntries(Moved(s, index, to), m, start, Next(index, |s|));
    }
  }

  lemma FillingBounds(s: seq<Entry>, e: nat, q: nat, hole: nat)
    requires Filling(s, e, q, hole)
    ensures e < |s| && q < |s| && hole < |s|
  {
  }

  /** A table without unreachable entries is left as it is. */
  lemma {:induction false} FillHolesIdle(s: seq<Entry>, start: nat, index: nat)
    requires Unique(s) && Reachable(s) && start < |s| && index < |s|
    ensures FillHoles(s, start, index) == s
    decreases Dist(index, start, |s|)
  {
    if index != start && s[index].used {
      OwnSlotFound(s, index);
      hide Find, Home, Reachable, Unique;
      FillHolesIdle(s, start, Next(index, |s|));
    }
  }

  lemma OwnSlotFound(s: seq<Entry>, i: nat)
    requires Unique(s) && Reachable(s) && i < |s| && s[i].used
    ensures Find(s, s[i].key) == Some(i)
  {
    hide Home, Find;
    forall x | 0 <= x < |s| && Dist(Home(s[i].key, |s|), x, |s|) < Dist(Home(s[i].key, |s|), i, |s|) ensures s[x].used && s[x].key != s[i].key {
      assert Before(s, i, x);
    }
    StopIsFound(s, s[i].key, i);
  }

  lemma NextPos(cap: nat, e: nat, start: nat, q: nat)
    requires e < cap && start < cap && q < cap && q != e && q != start
    ensures Pos(e, Next(q, cap), cap) == Pos(e, q, cap) + 1
    ensures Dist(Next(q, cap), start, cap) < Dist(q, start, cap)
  {
  }

  /** The loop closes the hole: every remaining entry is reachable again. */
  lemma {:induction false} FillHolesRestores(s: seq<Entry>, e: nat, start: nat, q: nat, hole: nat)
    requires Filling(s, e, q, hole) && start < |s| && Pos(e, start, |s|) < Pos(e, q, |s|)
    ensures Well(FillHoles(s, start, q))
    decreases Dist(q, start, |s|)
  {
    FillingBounds(s, e, q, hole);
    hide Find, Home, Filling, OnPath, Moved, Next, Dist, Pos, Unique, Reachable, Anchored;
    if !s[q].used {
      FillingEnds(s, e, q, hole);
    } else {
      FoundAtHole(s, e, q, hole);
      FindsOwnKey(s, q);
      var t := Moved(s, q, Find(s, s[q].key).value);
      if q == e {
        LastMoveRestores(s, e, hole);
        FillHolesIdle(t, start, Next(q, |s|));
      } else {
        MoveKeepsFilling(s, e, q, hole);
        NextPos(|s|, e, start, q);
        FillHolesRestores(t, e, start, Next(q, |s|), if OnPath(s, e, q, hole) then q else hole);
      }
    }
  }

  lemma FillingEnds(s: seq<Entry>, e: nat, q: nat, hole: nat)
    requires Filling(s, e, q, hole) && !s[q].used
    ensures Well(s)
  {
    PosInjective(|s|, e);
    hide Home, Pos, Dist;
    forall i, j | 0 <= i < |s| && 0 <= j < |s| && s[i].used && OnPath(s, e, i, j) ensures s[j].used {
      assert j == hole && Pos(e, i, |s|) >= Pos(e, q, |s|) ==> OnPath(s, e, i, q);
    }
    LinkedIsReachable(s, e);
  }

  function Removed(s: seq<Entry>, p: nat): (t: seq<Entry>)
    requires p < |s|
    ensures |t| == |s|
  {
    s[p := s[p].(used := false)]
  }

  lemma RemoveKeepsOthers(s: seq<Entry>, m: map<nat, nat>, p: nat)
    requires p < |s| && s[p].used && Unique(s) && Represents(s, m)
    ensures Unique(Removed(s, p)) && Represents(Removed(s, p), m - {s[p].key}) && Count(Removed(s, p)) == Count(s) - 1
  {
    var t := Removed(s, p);
    CountUpdated(s, p, s[p].(used := false));
    forall k | k in m && k != s[p].key ensures exists i :: HasKey(t, i, k) {
      var i :| HasKey(s, i, k);
      assert HasKey(t, i, k);
    }
  }

  /** Removing the entry at the anchor leaves no hole in a path. */
  lemma RemoveAnchor(s: seq<Entry>, e: nat)
    requires Well(s) && e < |s| && HomesBefore(s, e)
    ensures Well(Removed(s, e))
  {
    ReachableIsLinked(s, e);
    var t := Removed(s, e);
    assert Pos(e, e, |s|) == |s| - 1;
    hide Home, Pos, Dist, Anchored, Reachable;
    forall i, j | 0 <= i < |t| && 0 <= j < |t| && t[i].used && OnPath(t, e, i, j) ensures t[j].used {
      assert OnPath(s, e, i, j);
    }
    LinkedIsReachable(t, e);
  }

  lemma RemoveStartsFilling(s: seq<Entry>, e: nat, p: nat)
    requires Well(s) && e < |s| && p < |s| && HomesBefore(s, e) && s[p].used && p != e
    ensures Filling(Removed(s, p), e, Next(p, |s|), p) && Pos(e, p, |s|) < Pos(e, Next(p, |s|), |s|)
  {
    ReachableIsLinked(s, e);
    NextIsAfter(|s|, e, p);
    hide Home, Pos, Next, Reachable, Anchored;
    var t := Removed(s, p);
    PosInjective(|s|, e);
    forall i, j | 0 <= i < |t| && 0 <= j < |t| && t[i].used && OnPath(t, e, i, j)
      ensures t[j].used || (j == p && Pos(e, i, |s|) >= Pos(e, Next(p, |s|), |s|))
    {
      assert OnPath(s, e, i, j);
    }
  }

  lemma NextIsAfter(cap: nat, e: nat, p: nat)
    requires e < cap && p < cap && e != p
    ensures Pos(e, Next(p, cap), cap) == Pos(e, p, cap) + 1
  {
  }

  /** hash_table_delete without its resizing, for a key that is there. */
  function Deleted(s: seq<Entry>, p: nat): (t: seq<Entry>)
    requires p < |s|
    ensures |t| == |s|
  {
    FillHoles(Removed(s, p), p, Next(p, |s|))
  }

  /** Deleting removes exactly that entry, and every remaining entry stays
      reachable, wherever the cluster wraps and however full the table is. */
  lemma DeleteRemovesKey(s: seq<Entry>, m: map<nat, nat>, p: nat)
    requires p < |s| && s[p].used && Well(s) && Represents(s, m)
    ensures var t := Deleted(s, p); Well(t) && Represents(t, m - {s[p].key}) && Count(t) == Count(s) - 1
  {
    RemoveKeepsOthers(s, m, p);
    FillHolesKeepsEntries(Removed(s, p), m - {s[p].key}, p, Next(p, |s|));
    DeleteRestores(s, p);
  }

  lemma DeleteRestores(s: seq<Entry>, p: nat)
    requires p < |s| && s[p].used && Well(s)
    ensures Well(Deleted(s, p))
  {
    var e :| 0 <= e < |s| && HomesBefore(s, e);
    hide Unique, Reachable, Anchored, HomesBefore, Filling, FillHoles, Removed;
    if p == e {
      RemoveAnchor(s, e);
      WellParts(Removed(s, e));
      FillHolesIdle(Removed(s, e), p, Next(p, |s|));
    } else {
      RemoveStartsFilling(s, e, p);
      FillHolesRestores(Removed(s, p), e, p, Next(p, |s|), p);
    }
  }

  lemma WellParts(s: seq<Entry>)
    requires Well(s)
    ensures Unique(s) && Reachable(s)
  {
  }

  // ------------------------------------------------------- growth and shrinking

  /** What decides the resizing: the capacity, the size field, and the number of entries. */
  datatype Counters = Counters(capacity: nat, size: int, used: int)

  /** hash_table_set; None is a failed assertion. */
  function AfterSet(c: Counters, present: bool): Option<Counters> {
    var d :=
      if c.capacity == 0 then Counters(MIN_TABLE_SIZE, 0, 0)
      else if c.capacity / 2 < c.size then Counters(2 * c.capacity, 0, c.used)
      else c;
    if present then Some(d)
    else if d.used >= d.capacity then None
    else Some(d.(size := d.size + 1, used := d.used + 1))
  }

  /** hash_table_delete; None is a failed assertion, or a resize that does not fit. */
  function AfterDelete(c: Counters, present: bool): Option<Counters> {
    if c.capacity == 0 then Some(c)
    else
      var shrink := c.capacity / 4 > c.size && c.capacity > MIN_TABLE_SIZE;
      var d := if shrink then Counters(c.capacity / 2, 0, c.used) else c;
      if d.used > d.capacity then None
      else if present then Some(d.(size := d.size - 1, used := d.used - 1))
      else if d.used == d.capacity then None
      else Some(d)
  }

  /** n new keys set one after the other. */
  function Inserts(c: Counters, n: nat): Option<Counters> {
    if n == 0 then Some(c)
    else
      match Inserts(c, n - 1)
      case None => None
      case Some(d) => AfterSet(d, false)
  }

  lemma OneMore(c: Counters, n: nat, d: Counters)
    requires Inserts(c, n) == Some(d)
    ensures Inserts(c, n + 1) == AfterSet(d, false)
  {
  }

  lemma {:induction false} GrowWithin(c: Counters, n: nat, k: nat, d: Counters)
    requires Inserts(c, n) == Some(d)
    requires k > 0 ==> d.capacity > 0 && d.used + k <= d.capacity && d.size + k - 1 <= d.capacity / 2
    ensures Inserts(c, n + k) == Some(Counters(d.capacity, d.size + k, d.used + k))
  {
    hide Inserts;
    if k > 0 {
      GrowWithin(c, n, k - 1, d);
      OneMore(c, n + k - 1, Counters(d.capacity, d.size + k - 1, d.used + k - 1));
    }
  }

  /** A set that doubles the table, and the sets until the next doubling. */
  lemma Doubling(c: Counters, n: nat, d: Counters)
    requires Inserts(c, n) == Some(d) && d.capacity >= 2 && d.capacity / 2 < d.size && d.used <= d.capacity - 1
    ensures Inserts(c, n + d.capacity + 1) == Some(Counters(2 * d.capacity, d.capacity + 1, d.used + d.capacity + 1))
  {
    hide Inserts;
    var d1 := Counters(2 * d.capacity, 1, d.used + 1);
    OneMore(c, n, d);
    GrowWithin(c, n + 1, d.capacity, d1);
  }

  /** The size field restarts at every resize, so the table fills up: the 4097th new key fails. */
  lemma TableFillsUp()
    ensures Inserts(Counters(MIN_TABLE_SIZE, 0, 0), 4096) == Some(Counters(4096, 2048, 4096))
    ensures Inserts(Counters(MIN_TABLE_SIZE, 0, 0), 4097) == None
  {
    var c := Counters(MIN_TABLE_SIZE, 0, 0);
    assert Inserts(c, 0) == Some(c);
    hide Inserts;
    GrowWithin(c, 0, 9, c);
    Doubling(c, 9, Counters(16, 9, 9));
    Doubling(c, 26, Counters(32, 17, 26));
    Doubling(c, 59, Counters(64, 33, 59));
    Doubling(c, 124, Counters(128, 65, 124));
    Doubling(c, 253, Counters(256, 129, 253));
    Doubling(c, 510, Counters(512, 257, 510));
    Doubling(c, 1023, Counters(1024, 513, 1023));
    var d := Counters(2048, 1025, 2048);
    OneMore(c, 2048, d);
    GrowWithin(c, 2049, 2047, Counters(4096, 1, 2049));
    OneMore(c, 4096, Counters(4096, 2048, 4096));
  }

  /** 27 new keys leave the size field at 1, so two deletions shrink the table
      below its entries, and the second fails. */
  lemma ShrinkOverflows(keys: nat)
    requires keys == 27
    ensures Inserts(Counters(MIN_TABLE_SIZE, 0, 0), keys) == Some(Counters(64, 1, 27))
    ensures AfterDelete(Counters(64, 1, 27), true) == Some(Counters(32, -1, 26))
    ensures AfterDelete(Counters(32, -1, 26), true) == None
  {
    var c := Counters(MIN_TABLE_SIZE, 0, 0);
    assert Inserts(c, 0) == Some(c);
    hide Inserts;
    GrowWithin(c, 0, 9, c);
    Doubling(c, 9, Counters(16, 9, 9));
    OneMore(c, 26, Counters(32, 17, 26));
  }

  /** With a size field that counts the entries, no operation fails before the table is full. */
  lemma ExactSizeNeverFails(c: Counters, present: bool)
    requires 0 <= c.size == c.used < c.capacity
    ensures AfterSet(c, present).Some? && AfterDelete(c, present).Some?
  {
  }

  /** Sixteen new keys and one deletion of an ordinary table: the deletion shrinks
      the table to sixteen slots and empties a slot of a full one. */
  lemma DeletesFromFull(keys: nat)
    requires keys == 16
    ensures Inserts(Counters(MIN_TABLE_SIZE, 0, 0), keys) == Some(Counters(32, 7, 16))
    ensures AfterDelete(Counters(32, 7, 16), true) == Some(Counters(16, -1, 15))
  {
    var c := Counters(MIN_TABLE_SIZE, 0, 0);
    assert Inserts(c, 0) == Some(c);
    hide Inserts;
    GrowWithin(c, 0, 9, c);
    OneMore(c, 9, Counters(16, 9, 9));
    GrowWithin(c, 10, 6, Counters(32, 1, 10));
  }

  // -------------------------------------------------------- sequences of calls

  datatype Call = SetCall(key: nat, value: nat) | GetCall(key: nat) | DeleteCall(key: nat)

  /** hash_table_get; None is its failed assertion. */
  function AfterGet(c: Counters, present: bool): Option<Counters> {
    if c.capacity == 0 || present || c.used < c.capacity then Some(c) else None
  }

  function AfterCall(c: Counters, m: map<nat, nat>, call: Call): Option<Counters> {
    match call
    case SetCall(key, _) => AfterSet(c, key in m)
    case GetCall(key) => AfterGet(c, key in m)
    case DeleteCall(key) => AfterDelete(c, key in m)
  }

  function MapAfterCall(m: map<nat, nat>, call: Call): map<nat, nat> {
    match call
    case SetCall(key, value) => m[key := value]
    case GetCall(_) => m
    case DeleteCall(key) => m - {key}
  }

  function Lookup(m: map<nat, nat>, key: nat): Option<nat> { if key in m then Some(m[key]) else None }

  /** The counters after a sequence of calls; None when one of them fails. */
  function AfterCalls(c: Counters, m: map<nat, nat>, calls: seq<Call>): Option<Counters>
    decreases |calls|
  {
    if calls == [] then Some(c)
    else
      match AfterCall(c, m, calls[0])
      case None => None
      case Some(d) => AfterCalls(d, MapAfterCall(m, calls[0]), calls[1..])
  }

  /** What a finite map is after the calls, and what it answers to the lookups among them. */
  function MapAfter(m: map<nat, nat>, calls: seq<Call>): map<nat, nat>
    decreases |calls|
  {
    if calls == [] then m else MapAfter(MapAfterCall(m, calls[0]), calls[1..])
  }

  function Answers(m: map<nat, nat>, calls: seq<Call>): seq<Option<nat>>
    decreases |calls|
  {
    if calls == [] then []
    else
      (match calls[0]
       case GetCall(key) => [Lookup(m, key)]
       case _ => []) + Answers(MapAfterCall(m, calls[0]), calls[1..])
  }
}
