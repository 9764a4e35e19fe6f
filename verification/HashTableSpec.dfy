/** What the hash tables of JRTPLIB mean: the entries in order of insertion, and a cursor that is nowhere or
    on one of them. Keys are unique, so the entries also are a finite map. */
module HashTableSpec {
  import opened Bytes

  datatype Entry<K, E> = Entry(key: K, element: E)

  datatype Table<K, E> = Table(entries: seq<Entry<K, E>>, cursor: Option<nat>)

  /** Error codes of the tables; negative values in the source. */
  datatype Status = Ok | InvalidHashIndex | KeyAlreadyExists | KeyNotFound | NoCurrentElement

  ghost predicate UniqueKeys<K, E>(entries: seq<Entry<K, E>>) {
    forall i, j :: 0 <= i < j < |entries| ==> entries[i].key != entries[j].key
  }

  ghost predicate WellFormed<K, E>(t: Table<K, E>) {
    UniqueKeys(t.entries) && (t.cursor.Some? ==> t.cursor.value < |t.entries|)
  }

  /** Where a key is, or the number of entries. */
  function IndexOf<K(==), E>(entries: seq<Entry<K, E>>, k: K): (i: nat)
    ensures i <= |entries|
    ensures i < |entries| ==> entries[i].key == k
    ensures forall j :: 0 <= j < i ==> entries[j].key != k
  {
    if entries == [] || entries[0].key == k then 0 else 1 + IndexOf(entries[1..], k)
  }

  lemma {:induction false} NotFound<K, E>(entries: seq<Entry<K, E>>, k: K)
    requires forall i :: 0 <= i < |entries| ==> entries[i].key != k
    ensures IndexOf(entries, k) == |entries|
  {
    if entries != [] {
      NotFound(entries[1..], k);
    }
  }

  function Without<T>(s: seq<T>, i: nat): (r: seq<T>)
    requires i < |s|
    ensures |r| == |s| - 1
  {
    s[..i] + s[i + 1..]
  }

  function OnEntry(i: int, n: nat): Option<nat> {
    if 0 <= i < n then Some(i) else None
  }

  function Add<K(==), E>(t: Table<K, E>, k: K, e: E): Table<K, E> {
    if IndexOf(t.entries, k) < |t.entries| then t else Table(t.entries + [Entry(k, e)], t.cursor)
  }

  function Goto<K(==), E>(t: Table<K, E>, k: K): Table<K, E> {
    t.(cursor := OnEntry(IndexOf(t.entries, k), |t.entries|))
  }

  /** The entry under the cursor goes and the cursor moves to the one that followed it. */
  function DeleteCurrent<K, E>(t: Table<K, E>): Table<K, E>
    requires t.cursor.Some? ==> t.cursor.value < |t.entries|
  {
    match t.cursor
    case None => t
    case Some(i) => Table(Without(t.entries, i), OnEntry(i, |t.entries| - 1))
  }

  function DeleteKey<K(==), E>(t: Table<K, E>, k: K): Table<K, E> {
    DeleteCurrent(Goto(t, k))
  }

  function Next<K, E>(t: Table<K, E>): Table<K, E> {
    if t.cursor.None? then t else t.(cursor := OnEntry(t.cursor.value + 1, |t.entries|))
  }

  function Previous<K, E>(t: Table<K, E>): Table<K, E> {
    if t.cursor.None? then t else t.(cursor := OnEntry(t.cursor.value - 1, |t.entries|))
  }

  function AsMap<K, E>(entries: seq<Entry<K, E>>): (m: map<K, E>) {
    if entries == [] then map[]
    else AsMap(entries[..|entries| - 1])[entries[|entries| - 1].key := entries[|entries| - 1].element]
  }

  lemma FoundAt<K, E>(entries: seq<Entry<K, E>>, k: K, i: nat)
    requires i < |entries| && entries[i].key == k && forall j :: 0 <= j < i ==> entries[j].key != k
    ensures IndexOf(entries, k) == i
  {
  }

  lemma FoundUnique<K, E>(entries: seq<Entry<K, E>>, i: nat)
    requires UniqueKeys(entries) && i < |entries|
    ensures IndexOf(entries, entries[i].key) == i
  {
    FoundAt(entries, entries[i].key, i);
  }

  /** The map holds exactly the entries. */
  lemma {:induction false} MapLookup<K, E>(entries: seq<Entry<K, E>>, k: K)
    requires UniqueKeys(entries)
    ensures k in AsMap(entries) <==> IndexOf(entries, k) < |entries|
    ensures k in AsMap(entries) ==> AsMap(entries)[k] == entries[IndexOf(entries, k)].element
    decreases |entries|
  {
    if entries != [] {
      var n := |entries| - 1;
      var init := entries[..n];
      MapLookup(init, k);
      if entries[n].key == k {
        FoundUnique(entries, n);
      } else if IndexOf(init, k) < n {
        FoundAt(entries, k, IndexOf(init, k));
      } else if IndexOf(entries, k) < n {
        FoundAt(init, k, IndexOf(entries, k));
      }
    }
  }

  /** Adding a new key extends the map and puts the entry last; an old key leaves everything as it was. */
  lemma AddIsUpdate<K, E>(t: Table<K, E>, k: K, e: E)
    requires WellFormed(t)
    ensures WellFormed(Add(t, k, e)) && Add(t, k, e).cursor == t.cursor
    ensures AsMap(Add(t, k, e).entries)
            == if k in AsMap(t.entries) then AsMap(t.entries) else AsMap(t.entries)[k := e]
    ensures Add(t, k, e).entries == if k in AsMap(t.entries) then t.entries else t.entries + [Entry(k, e)]
  {
    MapLookup(t.entries, k);
    var a := t.entries + [Entry(k, e)];
    assert a[..|a| - 1] == t.entries;
  }

  lemma WithoutAt<T>(s: seq<T>, i: nat, j: nat)
    requires i < |s| && j < |s| - 1
    ensures Without(s, i)[j] == s[if j < i then j else j + 1]
  {
  }

  lemma WithoutUnique<K, E>(entries: seq<Entry<K, E>>, i: nat)
    requires UniqueKeys(entries) && i < |entries|
    ensures UniqueKeys(Without(entries, i))
  {
  }

  lemma LookupWithout<K, E>(entries: seq<Entry<K, E>>, i: nat, x: K)
    requires UniqueKeys(entries) && i < |entries|
    ensures var d := Without(entries, i);
            && UniqueKeys(d)
            && (x in AsMap(d) <==> x in AsMap(entries) && x != entries[i].key)
            && (x in AsMap(d) ==> AsMap(d)[x] == AsMap(entries)[x])
  {
    hide AsMap, Without;
    var d := Without(entries, i);
    WithoutUnique(entries, i);
    MapLookup(entries, x);
    MapLookup(d, x);
    var j, l := IndexOf(entries, x), IndexOf(d, x);
    if x != entries[i].key && j < |entries| {
      var m := if j < i then j else j - 1;
      WithoutAt(entries, i, m);
      FoundUnique(d, m);
    } else if l < |d| {
      WithoutAt(entries, i, l);
      FoundUnique(entries, if l < i then l else l + 1);
    }
  }

  lemma RemovedKey<K, E>(a: map<K, E>, b: map<K, E>, k: K)
    requires forall x :: x in a ==> x in b && x != k && a[x] == b[x]
    requires forall x :: x in b && x != k ==> x in a
    ensures a == b - {k}
  {
  }

  /** Going to a key and deleting there removes exactly that key and keeps the order of the others. */
  lemma DeleteIsRemoval<K, E>(t: Table<K, E>, k: K)
    requires WellFormed(t)
    ensures var d := DeleteKey(t, k);
            && WellFormed(d)
            && AsMap(d.entries) == AsMap(t.entries) - {k}
            && (k in AsMap(t.entries) <==> Goto(t, k).cursor.Some?)
            && (k !in AsMap(t.entries) ==> d.entries == t.entries)
            && forall i :: 0 <= i < |t.entries| && t.entries[i].key == k ==>
                 d.entries == t.entries[..i] + t.entries[i + 1..]
  {
    hide AsMap;
    var i := IndexOf(t.entries, k);
    MapLookup(t.entries, k);
    if i < |t.entries| {
      forall j | 0 <= j < |t.entries| && t.entries[j].key == k ensures j == i {
        FoundUnique(t.entries, j);
      }
      var a, b := AsMap(Without(t.entries, i)), AsMap(t.entries);
      forall x | x in a ensures x in b && x != k && a[x] == b[x] {
        LookupWithout(t.entries, i, x);
      }
      forall x | x in b && x != k ensures x in a {
        LookupWithout(t.entries, i, x);
      }
      RemovedKey(a, b, k);
      WithoutUnique(t.entries, i);
    }
  }

  // ----- the cursor -----

  /** The cursor goes one entry on or back, or off the end; going to a key puts it on its entry or nowhere;
      deleting the entry under it puts it on the one that followed. */
  lemma CursorMoves<K, E>(t: Table<K, E>, k: K)
    requires t.cursor.Some? ==> t.cursor.value < |t.entries|
    ensures Next(t).entries == t.entries == Previous(t).entries == Goto(t, k).entries
    ensures (exists i :: 0 <= i < |t.entries| && t.entries[i].key == k) <==> Goto(t, k).cursor.Some?
    ensures Goto(t, k).cursor.Some? ==>
              Goto(t, k).cursor.value < |t.entries| && t.entries[Goto(t, k).cursor.value].key == k
    ensures t.cursor.None? ==> Next(t).cursor.None? && Previous(t).cursor.None? && DeleteCurrent(t) == t
    ensures t.cursor.Some? ==>
              var i := t.cursor.value;
              && Next(t).cursor == (if i == |t.entries| - 1 then None else Some(i + 1))
              && Previous(t).cursor == (if i == 0 then None else Some(i - 1))
              && DeleteCurrent(t).cursor == (if i == |t.entries| - 1 then None else Some(i))
  {
    if i :| 0 <= i < |t.entries| && t.entries[i].key == k {
      assert IndexOf(t.entries, k) < |t.entries|;
    }
  }

  /** One on and one back, or one back and one on, is where it was. */
  lemma ThereAndBack<K, E>(t: Table<K, E>)
    requires t.cursor.Some? ==> t.cursor.value < |t.entries|
    ensures Next(t).cursor.Some? ==> Previous(Next(t)) == t
    ensures Previous(t).cursor.Some? ==> Next(Previous(t)) == t
  {
  }

  // ----- one pass over the table that deletes some of the entries it visits -----

  function Kept<K, E>(entries: seq<Entry<K, E>>, doomed: Entry<K, E> -> bool): (r: seq<Entry<K, E>>) {
    if entries == [] then []
    else (if doomed(entries[0]) then [] else [entries[0]]) + Kept(entries[1..], doomed)
  }

  /** What one visit leaves. */
  function Turn<K, E>(t: Table<K, E>, doomed: Entry<K, E> -> bool): Table<K, E>
    requires t.cursor.Some? && t.cursor.value < |t.entries|
  {
    if doomed(t.entries[t.cursor.value]) then DeleteCurrent(t) else Next(t)
  }

  /** The table and the entries seen when such a pass is at the cursor of t, with n steps to go at most. */
  function Pass<K, E>(t: Table<K, E>, doomed: Entry<K, E> -> bool, n: nat): (Table<K, E>, seq<Entry<K, E>>)
    requires t.cursor.Some? ==> t.cursor.value < |t.entries|
    decreases n
  {
    if n == 0 || t.cursor.None? then (t, [])
    else
      var (end, seen) := Pass(Turn(t, doomed), doomed, n - 1);
      (end, [t.entries[t.cursor.value]] + seen)
  }

  lemma PassStep<K, E>(t: Table<K, E>, doomed: Entry<K, E> -> bool, n: nat)
    requires t.cursor.Some? && t.cursor.value < |t.entries| && n > 0
    ensures var (end, seen) := Pass(Turn(t, doomed), doomed, n - 1);
            Pass(t, doomed, n) == (end, [t.entries[t.cursor.value]] + seen)
  {
  }

  lemma PassOver<K, E>(t: Table<K, E>, doomed: Entry<K, E> -> bool, n: nat)
    requires t.cursor.Some? ==> t.cursor.value < |t.entries|
    ensures n == 0 || t.cursor.None? ==> Pass(t, doomed, n) == (t, [])
  {
  }

  lemma TurnAt<K, E>(t: Table<K, E>, i: nat, doomed: Entry<K, E> -> bool)
    requires i < |t.entries| && t.cursor == Some(i)
    ensures var d := Turn(t, doomed);
            if doomed(t.entries[i]) then
              && |d.entries| == |t.entries| - 1 && d.cursor == OnEntry(i, |d.entries|)
              && d.entries[..i] == t.entries[..i] && d.entries[i..] == t.entries[i + 1..]
            else d.entries == t.entries && d.cursor == OnEntry(i + 1, |d.entries|)
  {
  }

  lemma {:induction false} PassFrom<K, E>(t: Table<K, E>, i: nat, doomed: Entry<K, E> -> bool)
    requires i <= |t.entries| && t.cursor == OnEntry(i, |t.entries|)
    ensures Pass(t, doomed, |t.entries| - i)
            == (Table(t.entries[..i] + Kept(t.entries[i..], doomed), None), t.entries[i..])
    decreases |t.entries| - i
  {
    hide Turn, Pass;
    if i < |t.entries| {
      var here, rest := t.entries[i], t.entries[i + 1..];
      assert t.entries[i..] == [here] + rest;
      TurnAt(t, i, doomed);
      PassStep(t, doomed, |t.entries| - i);
      if doomed(here) {
        PassFrom(Turn(t, doomed), i, doomed);
        assert [] + Kept(rest, doomed) == Kept(rest, doomed);
      } else {
        PassFrom(Turn(t, doomed), i + 1, doomed);
        assert t.entries[..i + 1] == t.entries[..i] + [here];
        ConcatAssoc(t.entries[..i], [here], Kept(rest, doomed));
      }
    } else {
      PassOver(t, doomed, 0);
      assert t.entries[..i] + [] == t.entries;
    }
  }

  /** Deleting while iterating visits every entry exactly once, in order, and removes exactly the doomed. */
  lemma PassVisitsAll<K, E>(t: Table<K, E>, doomed: Entry<K, E> -> bool)
    requires t.cursor == OnEntry(0, |t.entries|)
    ensures Pass(t, doomed, |t.entries|) == (Table(Kept(t.entries, doomed), None), t.entries)
  {
    PassFrom(t, 0, doomed);
    assert t.entries[0..] == t.entries;
    assert t.entries[..0] + Kept(t.entries, doomed) == Kept(t.entries, doomed);
  }
}
