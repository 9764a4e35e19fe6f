/** The key hash table of JRTPLIB (rtpkeyhashtable.h): every entry is a node in two linked structures at
    once, the chain of its hash bucket and the doubly linked list of all entries. The class is proved to
    behave as HashTableSpec says. */
module HashTable {
  import opened Bytes
  import opened HashTableSpec

  class HashElement<K, E> {
    const key: K
    const element: E
    const hashindex: nat
    var hashprev: HashElement?<K, E>
    var hashnext: HashElement?<K, E>
    var listprev: HashElement?<K, E>
    var listnext: HashElement?<K, E>

    constructor (k: K, e: E, index: nat)
      ensures key == k && element == e && hashindex == index
      ensures hashprev == null && hashnext == null && listnext == null && listprev == null
    {
      key, element, hashindex := k, e, index;
      hashprev, hashnext, listnext, listprev := null, null, null, null;
    }
  }

  /** p points to the node at position i of s, and is null when i lies beyond either end. */
  ghost predicate Is<K, E>(p: HashElement?<K, E>, s: seq<HashElement<K, E>>, i: int) {
    p == if 0 <= i < |s| then s[i] else null
  }

  ghost predicate Distinct<T>(s: seq<T>) {
    forall i, j :: 0 <= i < j < |s| ==> s[i] != s[j]
  }

  /** The list links of s run through s in both directions. */
  ghost predicate ListLinked<K, E>(s: seq<HashElement<K, E>>)
    reads s`listprev, s`listnext
  {
    && (forall i {:trigger s[i].listprev} :: 0 <= i < |s| ==> Is(s[i].listprev, s, i - 1))
    && (forall i {:trigger s[i].listnext} :: 0 <= i < |s| ==> Is(s[i].listnext, s, i + 1))
  }

  ghost predicate ChainLinked<K, E>(s: seq<HashElement<K, E>>)
    reads s`hashprev, s`hashnext
  {
    && (forall i {:trigger s[i].hashprev} :: 0 <= i < |s| ==> Is(s[i].hashprev, s, i - 1))
    && (forall i {:trigger s[i].hashnext} :: 0 <= i < |s| ==> Is(s[i].hashnext, s, i + 1))
  }

  function EntriesOf<K, E>(s: seq<HashElement<K, E>>): (r: seq<Entry<K, E>>)
    ensures |r| == |s|
    ensures forall i :: 0 <= i < |s| ==> r[i] == Entry(s[i].key, s[i].element)
  {
    seq(|s|, i requires 0 <= i < |s| => Entry(s[i].key, s[i].element))
  }

  ghost function PositionOf<K, E>(s: seq<HashElement<K, E>>, n: HashElement<K, E>): (i: nat)
    requires n in s
    ensures i < |s| && s[i] == n
  {
    var i: nat :| i < |s| && s[i] == n; i
  }

  ghost function ContentsOf<K, E>(order: seq<HashElement<K, E>>, cur: HashElement?<K, E>): (t: Table<K, E>)
    requires cur != null ==> cur in order
    ensures |t.entries| == |order| && (t.cursor.Some? ==> t.cursor.value < |t.entries|)
    ensures t.cursor.None? <==> cur == null
  {
    Table(EntriesOf(order), if cur == null then None else Some(PositionOf(order, cur)))
  }

  lemma PositionIs<K, E>(s: seq<HashElement<K, E>>, i: nat)
    requires Distinct(s) && i < |s|
    ensures PositionOf(s, s[i]) == i
  {
  }

  /** A cursor on the node with a key, or nowhere when there is none, is where Goto puts it. */
  lemma ContentsFound<K, E>(order: seq<HashElement<K, E>>, before: HashElement?<K, E>, cur: HashElement?<K, E>, k: K)
    requires (before != null ==> before in order) && (cur != null ==> cur in order && cur.key == k)
    requires cur == null ==> forall x :: x in order ==> x.key != k
    requires UniqueKeys(EntriesOf(order))
    ensures ContentsOf(order, cur) == Goto(ContentsOf(order, before), k)
    ensures cur != null <==> IndexOf(EntriesOf(order), k) < |order|
  {
    if cur == null {
      AbsentKey(order, k);
    } else {
      PositionIsIndex(order, cur);
    }
  }

  /** A cursor moved to position i. */
  lemma ContentsMoved<K, E>(order: seq<HashElement<K, E>>, cur: HashElement?<K, E>, i: int)
    requires Distinct(order) && Is(cur, order, i)
    ensures (cur != null ==> cur in order) && ContentsOf(order, cur) == Table(EntriesOf(order), OnEntry(i, |order|))
  {
    if cur != null {
      PositionIs(order, i);
    }
  }

  lemma ContentsWithout<K, E>(order: seq<HashElement<K, E>>, i: nat, next: HashElement?<K, E>)
    requires Distinct(order) && i < |order| && Is(next, order, i + 1)
    ensures next != null ==> next in Without(order, i)
    ensures ContentsOf(Without(order, i), next) == DeleteCurrent(ContentsOf(order, order[i]))
  {
    var r := Without(order, i);
    InWithout(order, i);
    PositionIs(order, i);
    assert EntriesOf(r) == Without(EntriesOf(order), i);
    assert Is(next, r, i);
    ContentsMoved(r, next, i);
  }

  lemma ContentsWith<K, E>(order: seq<HashElement<K, E>>, cur: HashElement?<K, E>, n: HashElement<K, E>)
    requires (cur != null ==> cur in order) && Distinct(order + [n])
    requires forall x :: x in order ==> x.key != n.key
    ensures ContentsOf(order + [n], cur) == Add(ContentsOf(order, cur), n.key, n.element)
  {
    AbsentKey(order, n.key);
    assert EntriesOf(order + [n]) == EntriesOf(order) + [Entry(n.key, n.element)];
    if cur != null {
      var i := PositionOf(order, cur);
      assert (order + [n])[i] == cur;
      PositionIs(order + [n], i);
    }
  }

  /** Every node lies in the chain of its own bucket and in no other, and keys are unique. */
  ghost predicate PlacedIn<K, E>(order: seq<HashElement<K, E>>, chains: seq<seq<HashElement<K, E>>>,
                                 getIndex: K -> nat) {
    && (forall i, j :: 0 <= i < j < |order| ==> order[i].key != order[j].key)
    && (forall n :: n in order ==> n.hashindex == getIndex(n.key) < |chains| && n in chains[n.hashindex])
    && (forall b :: 0 <= b < |chains| ==> Distinct(chains[b]))
    && (forall b, n :: 0 <= b < |chains| && n in chains[b] ==> n in order && n.hashindex == b)
  }

  lemma PlacedWith<K, E>(order: seq<HashElement<K, E>>, chains: seq<seq<HashElement<K, E>>>, getIndex: K -> nat,
                         n: HashElement<K, E>)
    requires PlacedIn(order, chains, getIndex) && n !in order && n.hashindex == getIndex(n.key) < |chains|
    requires forall x :: x in order ==> x.key != n.key
    ensures PlacedIn(order + [n], chains[n.hashindex := [n] + chains[n.hashindex]], getIndex)
  {
    var i := n.hashindex;
    var c := [n] + chains[i];
    assert n in c && forall x :: x in chains[i] ==> x in c;
  }

  lemma PlacedWithout<K, E>(order: seq<HashElement<K, E>>, chains: seq<seq<HashElement<K, E>>>, getIndex: K -> nat,
                            i: nat, b: nat, j: nat)
    requires PlacedIn(order, chains, getIndex) && i < |order| && b < |chains| && j < |chains[b]|
    requires order[i] == chains[b][j]
    ensures PlacedIn(Without(order, i), chains[b := Without(chains[b], j)], getIndex)
  {
    var n, r, c := order[i], Without(order, i), Without(chains[b], j);
    var cs := chains[b := c];
    InWithout(chains[b], j);
    assert n in chains[b];
    assert Distinct(order) by {
      KeysUnique(order, chains, getIndex);
    }
    InWithout(order, i);
    forall x | x in r ensures x.hashindex == getIndex(x.key) < |cs| && x in cs[x.hashindex] {
      assert x in chains[x.hashindex];
    }
    forall d, x | 0 <= d < |cs| && x in cs[d] ensures x in r && x.hashindex == d {
      assert x in chains[d];
    }
  }

  lemma InWithout<T>(s: seq<T>, i: nat)
    requires i < |s| && Distinct(s)
    ensures Distinct(Without(s, i))
    ensures forall x :: x in Without(s, i) <==> x in s && x != s[i]
  {
    forall x | x in s && x != s[i] ensures x in Without(s, i) {
      var k :| 0 <= k < |s| && s[k] == x;
      assert Without(s, i)[if k < i then k else k - 1] == x;
    }
  }

  lemma KeysUnique<K, E>(order: seq<HashElement<K, E>>, chains: seq<seq<HashElement<K, E>>>, getIndex: K -> nat)
    requires PlacedIn(order, chains, getIndex)
    ensures Distinct(order) && UniqueKeys(EntriesOf(order))
  {
    forall i, j | 0 <= i < j < |order| ensures order[i] != order[j] {
      assert order[i].key != order[j].key;
    }
  }

  lemma PositionIsIndex<K, E>(order: seq<HashElement<K, E>>, n: HashElement<K, E>)
    requires UniqueKeys(EntriesOf(order)) && n in order
    ensures IndexOf(EntriesOf(order), n.key) == PositionOf(order, n) < |order|
  {
    FoundUnique(EntriesOf(order), PositionOf(order, n));
  }

  lemma AbsentKey<K, E>(order: seq<HashElement<K, E>>, k: K)
    requires forall n :: n in order ==> n.key != k
    ensures IndexOf(EntriesOf(order), k) == |order|
  {
    forall j | 0 <= j < |order| ensures EntriesOf(order)[j].key != k {
      assert order[j] in order;
    }
    NotFound(EntriesOf(order), k);
  }

  lemma ChainOf<K, E>(order: seq<HashElement<K, E>>, chains: seq<seq<HashElement<K, E>>>, getIndex: K -> nat, b: nat)
    requires PlacedIn(order, chains, getIndex) && b < |chains|
    ensures Distinct(chains[b])
    ensures forall i :: 0 <= i < |chains[b]| ==> chains[b][i].hashindex == b && chains[b][i] in order
  {
    forall i | 0 <= i < |chains[b]| ensures chains[b][i].hashindex == b && chains[b][i] in order {
      assert chains[b][i] in chains[b];
    }
  }

  lemma FrontIs<K, E>(n: HashElement<K, E>, c: seq<HashElement<K, E>>)
    ensures Is(n, [n] + c, 0)
  {
  }

  /** The new node goes to the front of a chain that starts at e. */
  method PushFront<K, E>(ghost c: seq<HashElement<K, E>>, e: HashElement?<K, E>, n: HashElement<K, E>)
    requires ChainLinked(c) && Distinct(c) && Is(e, c, 0) && n !in c && n.hashprev == null
    modifies c`hashprev, n`hashnext
    ensures ChainLinked([n] + c)
  {
    n.hashnext := e;
    if e != null {
      assert e == c[0];
      e.hashprev := n;
    }
  }

  lemma NodeInChain<K, E>(order: seq<HashElement<K, E>>, chains: seq<seq<HashElement<K, E>>>, getIndex: K -> nat,
                          n: HashElement<K, E>)
    requires PlacedIn(order, chains, getIndex) && n in order
    ensures n.hashindex < |chains| && n in chains[n.hashindex]
  {
  }

  lemma NowhereToDelete<K, E>(order: seq<HashElement<K, E>>)
    ensures DeleteCurrent(ContentsOf(order, null)) == ContentsOf(order, null)
  {
  }

  /** A node leaves the chain whose first node is table[index]. */
  method RemoveFromChain<K, E>(ghost c: seq<HashElement<K, E>>, ghost j: nat, n: HashElement<K, E>,
                               table: array<HashElement?<K, E>>, index: nat)
    requires j < |c| && c[j] == n && ChainLinked(c) && Distinct(c)
    requires index < table.Length && Is(table[index], c, 0)
    modifies c`hashprev, c`hashnext, table
    ensures ChainLinked(Without(c, j)) && Is(table[index], Without(c, j), 0)
    ensures forall b :: 0 <= b < table.Length && b != index ==> table[b] == old(table[b])
  {
    var tmp1, tmp2 := n.hashprev, n.hashnext;
    assert Is(tmp1, c, j - 1) && Is(tmp2, c, j + 1);
    ghost var r := Without(c, j);
    assert r != [] ==> r[0] == if j == 0 then c[1] else c[0];
    if tmp1 == null {
      table[index] := tmp2;
      if tmp2 != null {
        tmp2.hashprev := null;
      }
    } else {
      tmp1.hashnext := tmp2;
      if tmp2 != null {
        tmp2.hashprev := tmp1;
      }
    }
  }

  class RTPKeyHashTable<K(==), E> {
    const getIndex: K -> nat
    const table: array<HashElement?<K, E>>
    var firsthashelem: HashElement?<K, E>
    var lasthashelem: HashElement?<K, E>
    var curhashelem: HashElement?<K, E>

    /** All nodes in list order, and the nodes of each bucket in chain order. */
    ghost var order: seq<HashElement<K, E>>
    ghost var chains: seq<seq<HashElement<K, E>>>

    ghost predicate Placed()
      reads `order, `chains
    {
      |chains| == table.Length && PlacedIn(order, chains, getIndex)
    }

    ghost predicate BucketsLinked()
      requires Placed()
      reads `order, `chains, table, order`hashprev, order`hashnext
    {
      forall b :: 0 <= b < |chains| ==>
        && (forall i :: 0 <= i < |chains[b]| ==> chains[b][i] in order)
        && ChainLinked(chains[b]) && Is(table[b], chains[b], 0)
    }

    ghost predicate Listed()
      reads `order, `firsthashelem, `lasthashelem, order`listprev, order`listnext
    {
      ListLinked(order) && Is(firsthashelem, order, 0) && Is(lasthashelem, order, |order| - 1)
    }

    ghost predicate Valid()
      reads this, table, order
    {
      && Placed() && BucketsLinked() && Listed()
      && (curhashelem != null ==> curhashelem in order)
    }

    /** The table as HashTableSpec sees it. */
    ghost function Contents(): (t: Table<K, E>)
      requires curhashelem != null ==> curhashelem in order
      reads `order, `curhashelem
    {
      ContentsOf(order, curhashelem)
    }

    constructor (hashsize: nat, getIndex: K -> nat)
      ensures Valid() && Contents() == Table([], None)
      ensures this.getIndex == getIndex && table.Length == hashsize && fresh(table)
    {
      this.getIndex := getIndex;
      table := new HashElement?<K, E>[hashsize](i => null);
      firsthashelem, lasthashelem, curhashelem := null, null, null;
      order := [];
      chains := seq(hashsize, i => []);
    }

    /** A bucket search looks at every node that could hold the key. */
    method Find(k: K, index: nat) returns (e: HashElement?<K, E>)
      requires Valid() && index == getIndex(k) < table.Length
      ensures e != null ==> e in order && e.key == k
      ensures e == null ==> forall n :: n in order ==> n.key != k
    {
      e := table[index];
      ghost var j := 0;
      while e != null && e.key != k
        invariant 0 <= j <= |chains[index]|
        invariant Is(e, chains[index], j)
        invariant forall l :: 0 <= l < j ==> chains[index][l].key != k
        decreases |chains[index]| - j
      {
        assert e == chains[index][j];
        e := e.hashnext;
        j := j + 1;
      }
      if e == null {
        forall n | n in order && n.hashindex == index ensures n.key != k {
          assert n in chains[index];
        }
      }
    }

    method HasElement(k: K) returns (found: bool)
      requires Valid()
      ensures found <==> getIndex(k) < table.Length && IndexOf(EntriesOf(order), k) < |order|
    {
      var index := getIndex(k);
      if index >= table.Length {
        return false;
      }
      KeysUnique(order, chains, getIndex);
      var tmp := Find(k, index);
      if tmp == null {
        AbsentKey(order, k);
      } else {
        PositionIsIndex(order, tmp);
      }
      return tmp != null;
    }

    method GotoElement(k: K) returns (status: Status)
      requires Valid()
      modifies this`curhashelem
      ensures Valid()
      ensures status == if getIndex(k) >= table.Length then InvalidHashIndex
                        else if IndexOf(EntriesOf(order), k) < |order| then Ok else KeyNotFound
      ensures Contents() == if status.InvalidHashIndex? then old(Contents()) else Goto(old(Contents()), k)
    {
      hide PlacedIn, Is, ListLinked, ChainLinked, Distinct, IndexOf, ContentsOf, Goto, EntriesOf, UniqueKeys;
      var index := getIndex(k);
      if index >= table.Length {
        return InvalidHashIndex;
      }
      KeysUnique(order, chains, getIndex);
      ghost var before := curhashelem;
      curhashelem := Find(k, index);
      ContentsFound(order, before, curhashelem, k);
      return if curhashelem == null then KeyNotFound else Ok;
    }

    /** The new node goes to the front of its bucket's chain. */
    method LinkIntoBucket(n: HashElement<K, E>)
      requires Placed() && BucketsLinked() && n !in order && n.hashindex == getIndex(n.key) < table.Length
      requires n.hashprev == null && n.hashnext == null
      requires forall x :: x in order ==> x.key != n.key
      modifies this`chains, this`order, table, order`hashprev, n`hashnext
      ensures order == old(order) + [n] && Placed() && BucketsLinked()
    {
      hide PlacedIn, Is;
      var index := n.hashindex;
      ghost var was, c := chains, chains[index];
      forall b | 0 <= b < |chains| ensures Distinct(chains[b])
        ensures forall i :: 0 <= i < |chains[b]| ==> chains[b][i].hashindex == b && chains[b][i] in order
      {
        ChainOf(order, chains, getIndex, b);
      }
      PlacedWith(order, chains, getIndex, n);
      var e := table[index];
      PushFront(c, e, n);
      table[index] := n;
      order := order + [n];
      chains := chains[index := [n] + c];
      FrontIs(n, c);
      forall b | 0 <= b < |chains|
        ensures (forall i :: 0 <= i < |chains[b]| ==> chains[b][i] in order) && ChainLinked(chains[b])
                && Is(table[b], chains[b], 0)
      {
        if b != index {
          assert chains[b] == was[b] && table[b] == old(table[b]);
          assert old(ChainLinked(was[b]));
          assert forall i :: 0 <= i < |was[b]| ==> was[b][i] !in c && was[b][i] != n;
        }
      }
    }

    /** The new node goes to the end of the list. */
    method LinkIntoList(n: HashElement<K, E>, ghost s: seq<HashElement<K, E>>)
      requires order == s + [n] && n !in s && Distinct(s) && ListLinked(s)
      requires Is(firsthashelem, s, 0) && Is(lasthashelem, s, |s| - 1)
      requires n.listprev == null && n.listnext == null
      modifies this`firsthashelem, this`lasthashelem, order`listprev, order`listnext
      ensures Listed()
    {
      assert n == order[|s|] && n in order;
      assert lasthashelem != null ==> lasthashelem == order[|s| - 1] && lasthashelem in order;
      if firsthashelem == null {
        firsthashelem, lasthashelem := n, n;
      } else {
        lasthashelem.listnext := n;
        n.listprev := lasthashelem;
        lasthashelem := n;
      }
    }

    method AddElement(k: K, elem: E) returns (status: Status)
      requires Valid()
      modifies this, table, order
      ensures Valid() && forall n :: n in order ==> n in old(order) || fresh(n)
      ensures status == if getIndex(k) >= table.Length then InvalidHashIndex
                        else if IndexOf(EntriesOf(old(order)), k) < |old(order)| then KeyAlreadyExists else Ok
      ensures Contents() == if status.Ok? then Add(old(Contents()), k, elem) else old(Contents())
    {
      hide PlacedIn, Is, ListLinked, ChainLinked, ContentsOf, IndexOf, Distinct;
      var index := getIndex(k);
      if index >= table.Length {
        return InvalidHashIndex;
      }
      KeysUnique(order, chains, getIndex);
      var e := Find(k, index);
      if e != null {
        PositionIsIndex(order, e);
        return KeyAlreadyExists;
      }
      AbsentKey(order, k);
      ghost var was := order;
      var newelem := new HashElement(k, elem, index);
      LinkIntoBucket(newelem);
      LinkIntoList(newelem, was);
      KeysUnique(order, chains, getIndex);
      ContentsWith(was, curhashelem, newelem);
      status := Ok;
    }

    method UnlinkFromBucket(n: HashElement<K, E>, ghost i: nat)
      requires Placed() && BucketsLinked() && i < |order| && order[i] == n
      modifies `chains, `order, table, order`hashprev, order`hashnext
      ensures order == Without(old(order), i) && Placed() && BucketsLinked()
    {
      hide PlacedIn, Is;
      var index := n.hashindex;
      NodeInChain(order, chains, getIndex, n);
      ghost var was, c := chains, chains[index];
      ghost var j := PositionOf(c, n);
      forall b | 0 <= b < |chains| ensures Distinct(chains[b])
        ensures forall l :: 0 <= l < |chains[b]| ==> chains[b][l].hashindex == b && chains[b][l] in order
      {
        ChainOf(order, chains, getIndex, b);
      }
      PlacedWithout(order, chains, getIndex, i, index, j);
      RemoveFromChain(c, j, n, table, index);
      order := Without(order, i);
      chains := chains[index := Without(c, j)];
      forall b | 0 <= b < |chains|
        ensures (forall l :: 0 <= l < |chains[b]| ==> chains[b][l] in order) && ChainLinked(chains[b])
                && Is(table[b], chains[b], 0)
      {
        ChainOf(order, chains, getIndex, b);
        if b != index {
          assert chains[b] == was[b] && table[b] == old(table[b]);
          assert old(ChainLinked(was[b]));
          assert forall l :: 0 <= l < |was[b]| ==> was[b][l] !in c;
        }
      }
    }

    method UnlinkFromList(n: HashElement<K, E>, ghost s: seq<HashElement<K, E>>, ghost i: nat)
      returns (next: HashElement?<K, E>)
      requires i < |s| && s[i] == n && order == Without(s, i) && Distinct(s) && ListLinked(s)
      requires Is(firsthashelem, s, 0) && Is(lasthashelem, s, |s| - 1)
      modifies `firsthashelem, `lasthashelem, s`listprev, s`listnext
      ensures Listed() && Is(next, s, i + 1)
    {
      var tmp1, tmp2 := n.listprev, n.listnext;
      assert Is(tmp1, s, i - 1) && Is(tmp2, s, i + 1);
      if tmp1 == null {
        firsthashelem := tmp2;
        if tmp2 != null {
          tmp2.listprev := null;
        } else {
          lasthashelem := null;
        }
      } else {
        tmp1.listnext := tmp2;
        if tmp2 != null {
          tmp2.listprev := tmp1;
        } else {
          lasthashelem := tmp1;
        }
      }
      next := tmp2;
    }

    method DeleteCurrentElement() returns (status: Status)
      requires Valid()
      modifies this, table, order
      ensures Valid() && forall i :: 0 <= i < |order| ==> order[i] in old(order)
      ensures status == if old(curhashelem) == null then NoCurrentElement else Ok
      ensures Contents() == DeleteCurrent(old(Contents()))
    {
      hide PlacedIn, BucketsLinked, Is, ListLinked, ContentsOf, Distinct, DeleteCurrent;
      if curhashelem == null {
        NowhereToDelete(order);
        return NoCurrentElement;
      }
      ghost var was, i := order, PositionOf(order, curhashelem);
      KeysUnique(order, chains, getIndex);
      InWithout(order, i);
      var n := curhashelem;
      UnlinkFromBucket(n, i);
      var tmp2 := UnlinkFromList(n, was, i);
      ContentsWithout(was, i, tmp2);
      curhashelem := tmp2;
      status := Ok;
    }

    method DeleteElement(k: K) returns (status: Status)
      requires Valid()
      modifies this, table, order
      ensures Valid() && forall i :: 0 <= i < |order| ==> order[i] in old(order)
      ensures status == if getIndex(k) >= table.Length then InvalidHashIndex
                        else if IndexOf(EntriesOf(old(order)), k) < |old(order)| then Ok else KeyNotFound
      ensures Contents() == if status.InvalidHashIndex? then old(Contents()) else DeleteKey(old(Contents()), k)
    {
      status := GotoElement(k);
      if status != Ok {
        return;
      }
      status := DeleteCurrentElement();
    }

    method GotoFirstElement()
      requires Valid()
      modifies `curhashelem
      ensures Valid() && Contents() == Table(EntriesOf(order), OnEntry(0, |order|))
    {
      hide PlacedIn, Is, ListLinked, ChainLinked, ContentsOf, EntriesOf, Distinct;
      KeysUnique(order, chains, getIndex);
      ContentsMoved(order, firsthashelem, 0);
      curhashelem := firsthashelem;
    }

    method GotoLastElement()
      requires Valid()
      modifies `curhashelem
      ensures Valid() && Contents() == Table(EntriesOf(order), OnEntry(|order| - 1, |order|))
    {
      hide PlacedIn, Is, ListLinked, ChainLinked, ContentsOf, EntriesOf, Distinct;
      KeysUnique(order, chains, getIndex);
      ContentsMoved(order, lasthashelem, |order| - 1);
      curhashelem := lasthashelem;
    }

    lemma Neighbours(n: HashElement<K, E>)
      requires Placed() && Listed() && n in order
      ensures var o := ContentsOf(order, n);
              && (n.listnext != null ==> n.listnext in order) && ContentsOf(order, n.listnext) == Next(o)
              && (n.listprev != null ==> n.listprev in order) && ContentsOf(order, n.listprev) == Previous(o)
    {
      hide PlacedIn, ContentsOf, EntriesOf;
      KeysUnique(order, chains, getIndex);
      var i := PositionOf(order, n);
      assert order[i] == n;
      ContentsMoved(order, n, i);
      ContentsMoved(order, n.listnext, i + 1);
      ContentsMoved(order, n.listprev, i as int - 1);
    }

    method GotoNextElement()
      requires Valid()
      modifies `curhashelem
      ensures Valid() && Contents() == Next(old(Contents()))
    {
      hide PlacedIn, Is, ListLinked, ChainLinked;
      if curhashelem != null {
        Neighbours(curhashelem);
        curhashelem := curhashelem.listnext;
      }
    }

    method GotoPreviousElement()
      requires Valid()
      modifies `curhashelem
      ensures Valid() && Contents() == Previous(old(Contents()))
    {
      hide PlacedIn, Is, ListLinked, ChainLinked;
      if curhashelem != null {
        Neighbours(curhashelem);
        curhashelem := curhashelem.listprev;
      }
    }

    /** Frees every node exactly once, following the list. The source leaves the cursor dangling here, as it
        does in its constructor; the model makes it null. */
    method Clear() returns (ghost freed: seq<HashElement<K, E>>)
      requires Valid()
      modifies this, table
      ensures Valid() && Contents() == Table([], None)
      ensures freed == old(order)
    {
      hide PlacedIn, ChainLinked;
      for i := 0 to table.Length
        modifies table
        invariant forall b :: 0 <= b < i ==> table[b] == null
      {
        table[i] := null;
      }
      var tmp1 := firsthashelem;
      freed := [];
      while tmp1 != null
        invariant |freed| <= |order| && freed == order[..|freed|] && Is(tmp1, order, |freed|)
        decreases |order| - |freed|
      {
        assert tmp1 == order[|freed|];
        freed := freed + [tmp1];
        tmp1 := tmp1.listnext;
      }
      Emptied();
    }

    method Emptied()
      requires forall b :: 0 <= b < table.Length ==> table[b] == null
      modifies this
      ensures Valid() && Contents() == Table([], None)
    {
      firsthashelem, lasthashelem, curhashelem := null, null, null;
      order := [];
      chains := seq(table.Length, i => []);
    }

    method GetCurrentElement() returns (here: Entry<K, E>)
      requires Valid() && curhashelem != null
      ensures Contents().cursor.Some? && Contents().cursor.value < |Contents().entries|
      ensures here == Contents().entries[Contents().cursor.value]
    {
      here := Entry(curhashelem.key, curhashelem.element);
    }
  }

  /** One turn of the loop below. */
  method Visit<K(==), E>(sourcelist: RTPKeyHashTable<K, E>, expired: Entry<K, E> -> bool) returns (here: Entry<K, E>)
    requires sourcelist.Valid() && sourcelist.curhashelem != null
    modifies sourcelist, sourcelist.table, sourcelist.order
    ensures sourcelist.Valid()
    ensures forall i :: 0 <= i < |sourcelist.order| ==> sourcelist.order[i] in old(sourcelist.order)
    ensures var t := old(sourcelist.Contents());
            && t.cursor.Some? && t.cursor.value < |t.entries| && here == t.entries[t.cursor.value]
            && sourcelist.Contents() == Turn(t, expired)
  {
    hide PlacedIn, Is, ListLinked, ChainLinked, ContentsOf, EntriesOf, DeleteCurrent, Next;
    here := sourcelist.GetCurrentElement();
    if expired(here) {
      var _ := sourcelist.DeleteCurrentElement();
    } else {
      sourcelist.GotoNextElement();
    }
  }

  /** The loop the timeouts of the source table run: every entry is visited once, in order, and exactly the
      expired ones are gone afterwards. */
  method Timeout<K(==), E>(sourcelist: RTPKeyHashTable<K, E>, expired: Entry<K, E> -> bool)
    returns (visited: seq<Entry<K, E>>)
    requires sourcelist.Valid()
    modifies sourcelist, sourcelist.table, sourcelist.order
    ensures sourcelist.Valid()
    ensures visited == EntriesOf(old(sourcelist.order))
    ensures sourcelist.Contents() == Table(Kept(visited, expired), None)
  {
    hide Pass, Turn, EntriesOf, ContentsOf, Kept;
    hide RTPKeyHashTable.Placed, RTPKeyHashTable.BucketsLinked, RTPKeyHashTable.Listed;
    sourcelist.GotoFirstElement();
    ghost var was, nodes := sourcelist.Contents(), sourcelist.order;
    PassVisitsAll(was, expired);
    visited := [];
    ghost var left := |was.entries|;
    while sourcelist.curhashelem != null
      modifies sourcelist, sourcelist.table, nodes
      invariant 0 <= left && sourcelist.Valid()
      invariant forall i :: 0 <= i < |sourcelist.order| ==> sourcelist.order[i] in nodes
      invariant Pass(sourcelist.Contents(), expired, left).0 == Table(Kept(was.entries, expired), None)
      invariant visited + Pass(sourcelist.Contents(), expired, left).1 == was.entries
      decreases left
    {
      ghost var t := sourcelist.Contents();
      PassOver(t, expired, left);
      PassStep(t, expired, left);
      var here := Visit(sourcelist, expired);
      ConcatAssoc(visited, [here], Pass(sourcelist.Contents(), expired, left - 1).1);
      visited := visited + [here];
      left := left - 1;
    }
    PassOver(sourcelist.Contents(), expired, left);
  }
}
