/** The hash table as a value: a sequence of chains. The heap structure of module HashTables is proved
    against these functions, and what the table promises is proved here about them. */
module Chains {
  import opened Store
  import opened Text

  datatype Cell = Cell(key: string, value: string, expiresAt: int)

  type Chain = seq<Cell>
  type Buckets = seq<Chain>

  /** hash * 31 + byte, in 64-bit arithmetic. */
  function Hash(key: string): nat {
    if key == [] then 0
    else
      var n := |key| - 1;
      (Hash(key[..n]) * 31 + key[n] as int % 256) % SIZE_MODULUS
  }

  function Home(key: string, size: nat): (i: nat)
    requires size > 0
    ensures i < size
  {
    Hash(key) % size
  }

  /** Where key is in the chain; the length of the chain when it is not there. */
  function Find(chain: Chain, key: string): (j: nat)
    ensures j <= |chain|
    ensures j < |chain| ==> chain[j].key == key
    ensures forall i :: 0 <= i < j ==> chain[i].key != key
  {
    if chain == [] || chain[0].key == key then 0 else 1 + Find(chain[1..], key)
  }

  function ValueOf(c: Cell): Timed {
    Timed(c.value, c.expiresAt)
  }

  function FindValue(chain: Chain, key: string): Option<Timed> {
    var j := Find(chain, key);
    if j < |chain| then Some(ValueOf(chain[j])) else None
  }

  function Lookup(b: Buckets, key: string): Option<Timed>
    requires |b| > 0
  {
    FindValue(b[Home(key, |b|)], key)
  }

  ghost predicate DistinctKeys(chain: Chain) {
    forall j, j' :: 0 <= j < j' < |chain| ==> chain[j].key != chain[j'].key
  }

  ghost predicate AtHome(chain: Chain, size: nat, i: nat)
    requires size > 0
  {
    forall j :: 0 <= j < |chain| ==> Home(chain[j].key, size) == i
  }

  /** Every entry is in its hash bucket and no key occurs twice. */
  ghost predicate WellFormed(b: Buckets) {
    |b| > 0 && forall i :: 0 <= i < |b| ==> AtHome(b[i], |b|, i) && DistinctKeys(b[i])
  }

  /** b holds exactly the entries of m. */
  ghost predicate Represents(b: Buckets, m: Table) {
    WellFormed(b) && forall k :: Lookup(b, k) == Get(m, k)
  }

  lemma RepresentsGet(b: Buckets, m: Table, k: string)
    requires Represents(b, m)
    ensures |b| > 0 && Lookup(b, k) == Get(m, k)
  {}

  function Total(b: Buckets): nat {
    if b == [] then 0 else Total(b[..|b| - 1]) + |b[|b| - 1]|
  }

  function Empty(size: nat): (b: Buckets)
    ensures |b| == size && forall i :: 0 <= i < size ==> b[i] == []
  {
    seq(size, i => [])
  }

  lemma EmptyRepresents(size: nat)
    requires size > 0
    ensures Represents(Empty(size), map[]) && Total(Empty(size)) == 0
  {
    TotalOfEmpty(Empty(size));
  }

  lemma {:induction false} TotalOfEmpty(b: Buckets)
    requires forall i :: 0 <= i < |b| ==> b[i] == []
    ensures Total(b) == 0
  {
    if b != [] { TotalOfEmpty(b[..|b| - 1]); }
  }

  lemma {:induction false} TotalUpdate(b: Buckets, i: nat, chain: Chain)
    requires i < |b|
    ensures Total(b[i := chain]) == Total(b) - |b[i]| + |chain|
  {
    var n := |b| - 1;
    if i < n {
      assert b[i := chain][..n] == b[..n][i := chain];
      TotalUpdate(b[..n], i, chain);
    } else {
      assert b[i := chain][..n] == b[..n];
    }
  }

  lemma FindFirst(chain: Chain, key: string, j: nat)
    requires j <= |chain| && (forall x :: 0 <= x < j ==> chain[x].key != key)
    requires j < |chain| ==> chain[j].key == key
    ensures Find(chain, key) == j
  {}

  lemma FindIs(chain: Chain, key: string, j: nat)
    requires DistinctKeys(chain) && j < |chain| && chain[j].key == key
    ensures Find(chain, key) == j
  {}

  // ---------- set ----------

  /** Update in place when the key is there, else a new entry at the front of its chain. */
  function PutIn(chain: Chain, c: Cell): Chain {
    var j := Find(chain, c.key);
    if j < |chain| then chain[j := c] else [c] + chain
  }

  function Put(b: Buckets, c: Cell): (r: Buckets)
    requires |b| > 0
    ensures |r| == |b|
  {
    var i := Home(c.key, |b|);
    b[i := PutIn(b[i], c)]
  }

  lemma PutInFinds(chain: Chain, c: Cell, k: string)
    requires DistinctKeys(chain)
    ensures DistinctKeys(PutIn(chain, c))
    ensures FindValue(PutIn(chain, c), k) == if k == c.key then Some(ValueOf(c)) else FindValue(chain, k)
    ensures |PutIn(chain, c)| == |chain| + (if FindValue(chain, c.key) == None then 1 else 0)
  {
    var r := PutIn(chain, c);
    var j, x := Find(chain, c.key), Find(chain, k);
    if j == |chain| {
      assert r[1..] == chain;
    } else {
      FindFirst(r, k, x);
    }
  }

  lemma PutRepresents(b: Buckets, m: Table, c: Cell)
    requires Represents(b, m)
    ensures Represents(Put(b, c), m[c.key := ValueOf(c)])
    ensures Total(Put(b, c)) == Total(b) + if c.key in m then 0 else 1
  {
    hide Find, FindValue, PutIn, Home;
    var i := Home(c.key, |b|);
    var r := Put(b, c);
    assert Lookup(b, c.key) == FindValue(b[i], c.key);
    PutInFinds(b[i], c, c.key);
    TotalUpdate(b, i, PutIn(b[i], c));
    PutInAtHome(b[i], c, |b|, i);
    forall k ensures Lookup(r, k) == Get(m[c.key := ValueOf(c)], k) {
      PutInFinds(b[i], c, k);
      assert Lookup(b, k) == Get(m, k);
    }
  }

  lemma PutInAtHome(chain: Chain, c: Cell, size: nat, i: nat)
    requires size > 0 && AtHome(chain, size, i) && Home(c.key, size) == i
    ensures AtHome(PutIn(chain, c), size, i)
  {
    hide Home;
  }

  lemma PutExisting(b: Buckets, m: Table, c: Cell, j: nat)
    requires Represents(b, m) && j < |b[Home(c.key, |b|)]| && b[Home(c.key, |b|)][j].key == c.key
    ensures var i := Home(c.key, |b|); Put(b, c) == b[i := b[i][j := c]]
    ensures c.key in m && |m[c.key := ValueOf(c)]| == |m|
    ensures Represents(Put(b, c), m[c.key := ValueOf(c)]) && Total(Put(b, c)) == Total(b)
  {
    hide Hash, Find;
    var i := Home(c.key, |b|);
    assert AtHome(b[i], |b|, i) && DistinctKeys(b[i]);
    FindIs(b[i], c.key, j);
    assert Lookup(b, c.key) == Get(m, c.key);
    PutRepresents(b, m, c);
    assert m[c.key := ValueOf(c)].Keys == m.Keys;
  }

  lemma PutNew(b: Buckets, m: Table, c: Cell)
    requires Represents(b, m) && c.key !in m
    ensures Put(b, c) == Push(b, c) && |m[c.key := ValueOf(c)]| == |m| + 1
    ensures Represents(Put(b, c), m[c.key := ValueOf(c)]) && Total(Put(b, c)) == Total(b) + 1
    ensures Lookup(b, c.key) == None
  {
    hide Hash, Find;
    assert Lookup(b, c.key) == Get(m, c.key);
    PutRepresents(b, m, c);
    assert m[c.key := ValueOf(c)].Keys == m.Keys + {c.key};
  }

  // ---------- delete ----------

  function Without<T>(s: seq<T>, j: nat): seq<T>
    requires j < |s|
  {
    s[..j] + s[j + 1..]
  }

  function RemoveFrom(chain: Chain, k: string): Chain {
    var j := Find(chain, k);
    if j < |chain| then Without(chain, j) else chain
  }

  function Remove(b: Buckets, k: string): (r: Buckets)
    requires |b| > 0
    ensures |r| == |b|
  {
    var i := Home(k, |b|);
    b[i := RemoveFrom(b[i], k)]
  }

  lemma RemoveFromFinds(chain: Chain, key: string, k: string)
    requires DistinctKeys(chain)
    ensures DistinctKeys(RemoveFrom(chain, key))
    ensures FindValue(RemoveFrom(chain, key), k) == if k == key then None else FindValue(chain, k)
    ensures |RemoveFrom(chain, key)| == |chain| - (if FindValue(chain, key) == None then 0 else 1)
  {
    var j := Find(chain, key);
    if j < |chain| { WithoutFinds(chain, j, k); }
  }

  lemma WithoutFinds(chain: Chain, j: nat, k: string)
    requires DistinctKeys(chain) && j < |chain|
    ensures DistinctKeys(Without(chain, j))
    ensures FindValue(Without(chain, j), k) == if k == chain[j].key then None else FindValue(chain, k)
  {
    var r, x := Without(chain, j), Find(chain, k);
    forall y | 0 <= y < |r| ensures r[y] == chain[if y < j then y else y + 1] {}
    if k == chain[j].key || x == |chain| {
      FindFirst(r, k, |r|);
    } else {
      FindFirst(r, k, if x < j then x else x - 1);
    }
  }

  lemma RemoveRepresents(b: Buckets, m: Table, key: string)
    requires Represents(b, m)
    ensures Represents(Remove(b, key), m - {key})
    ensures Total(Remove(b, key)) == Total(b) - if key in m then 1 else 0
  {
    hide Find, FindValue, RemoveFrom, Home;
    var i := Home(key, |b|);
    var r := Remove(b, key);
    assert Lookup(b, key) == FindValue(b[i], key);
    RemoveFromFinds(b[i], key, key);
    TotalUpdate(b, i, RemoveFrom(b[i], key));
    RemoveFromAtHome(b[i], key, |b|, i);
    forall k ensures Lookup(r, k) == Get(m - {key}, k) {
      RemoveFromFinds(b[i], key, k);
      assert Lookup(b, k) == Get(m, k);
    }
  }

  lemma RemoveFromAtHome(chain: Chain, key: string, size: nat, i: nat)
    requires size > 0 && AtHome(chain, size, i)
    ensures AtHome(RemoveFrom(chain, key), size, i)
  {
    hide Home;
  }

  lemma RemoveExisting(b: Buckets, m: Table, k: string, j: nat)
    requires Represents(b, m) && j < |b[Home(k, |b|)]| && b[Home(k, |b|)][j].key == k
    ensures var i := Home(k, |b|); Remove(b, k) == b[i := Without(b[i], j)]
    ensures k in m && |m - {k}| == |m| - 1
    ensures Represents(Remove(b, k), m - {k}) && Total(Remove(b, k)) == Total(b) - 1
  {
    hide Hash, Find;
    var i := Home(k, |b|);
    assert AtHome(b[i], |b|, i) && DistinctKeys(b[i]);
    FindIs(b[i], k, j);
    assert Lookup(b, k) == Get(m, k);
    RemoveRepresents(b, m, k);
    assert (m - {k}).Keys == m.Keys - {k};
  }

  lemma RemoveMissing(b: Buckets, m: Table, k: string)
    requires Represents(b, m) && k !in m
    ensures Remove(b, k) == b && m - {k} == m
  {
    hide Hash, Find;
    assert Lookup(b, k) == Get(m, k);
    assert b[Home(k, |b|) := b[Home(k, |b|)]] == b;
  }

  // ---------- resize ----------

  /** Relinking puts a cell at the front of its new chain. */
  function Push(b: Buckets, c: Cell): (r: Buckets)
    requires |b| > 0
    ensures |r| == |b|
  {
    var i := Home(c.key, |b|);
    b[i := [c] + b[i]]
  }

  function Relink(cells: Chain, b: Buckets): (r: Buckets)
    requires |b| > 0
    ensures |r| == |b|
  {
    if cells == [] then b else Push(Relink(cells[..|cells| - 1], b), cells[|cells| - 1])
  }

  function Flatten(b: Buckets): Chain {
    if b == [] then [] else Flatten(b[..|b| - 1]) + b[|b| - 1]
  }

  function Rehash(b: Buckets, size: nat): (r: Buckets)
    requires size > 0
    ensures |r| == size
  {
    Relink(Flatten(b), Empty(size))
  }

  /** The cells before place (i, j), in the order in which a resize visits them. */
  function Prefix(b: Buckets, i: nat, j: nat): Chain
    requires i <= |b| && (i < |b| ==> j <= |b[i]|)
  {
    if i == |b| then Flatten(b) else Flatten(b[..i]) + b[i][..j]
  }

  /** A table with only those cells relinked into it. */
  function Relinked(b: Buckets, i: nat, j: nat, size: nat): (r: Buckets)
    requires i <= |b| && (i < |b| ==> j <= |b[i]|) && size > 0
    ensures |r| == size
  {
    Relink(Prefix(b, i, j), Empty(size))
  }

  lemma RelinkedNext(b: Buckets, i: nat, j: nat, size: nat)
    requires i < |b| && j < |b[i]| && size > 0
    ensures Relinked(b, i, j + 1, size) == Push(Relinked(b, i, j, size), b[i][j])
    ensures |Prefix(b, i, j + 1)| == |Prefix(b, i, j)| + 1
  {
    hide Flatten, Home;
    assert Prefix(b, i, j + 1)[..|Prefix(b, i, j)|] == Prefix(b, i, j);
  }

  lemma PrefixNextChain(b: Buckets, i: nat)
    requires i < |b|
    ensures Prefix(b, i + 1, 0) == Prefix(b, i, |b[i]|)
  {
    assert b[..i + 1][..i] == b[..i];
    if i + 1 == |b| { assert b[..i + 1] == b; }
  }

  lemma RelinkedEnds(b: Buckets, size: nat)
    requires |b| > 0 && size > 0
    ensures Relinked(b, 0, 0, size) == Empty(size) && Prefix(b, 0, 0) == []
    ensures Relinked(b, |b|, 0, size) == Rehash(b, size) && |Prefix(b, |b|, 0)| == Total(b)
  {}

  /** The value of the last cell with key k. */
  function LastValue(cells: Chain, k: string): Option<Timed> {
    if cells == [] then None
    else
      var n := |cells| - 1;
      if cells[n].key == k then Some(ValueOf(cells[n])) else LastValue(cells[..n], k)
  }

  lemma PushFinds(b: Buckets, c: Cell, k: string)
    requires |b| > 0
    ensures Lookup(Push(b, c), k) == if k == c.key then Some(ValueOf(c)) else Lookup(b, k)
  {
    hide Home;
  }

  lemma {:induction false} RelinkFinds(cells: Chain, size: nat, k: string)
    requires size > 0
    ensures Lookup(Relink(cells, Empty(size)), k) == LastValue(cells, k)
  {
    hide Lookup, Push;
    if cells == [] {
      NothingInEmpty(size, k);
    } else {
      var n := |cells| - 1;
      RelinkFinds(cells[..n], size, k);
      PushFinds(Relink(cells[..n], Empty(size)), cells[n], k);
    }
  }

  lemma NothingInEmpty(size: nat, k: string)
    requires size > 0
    ensures Lookup(Empty(size), k) == None
  {}

  lemma {:induction false} LastValueConcat(a: Chain, b: Chain, k: string)
    ensures LastValue(a + b, k) == if LastValue(b, k) == None then LastValue(a, k) else LastValue(b, k)
  {
    if b == [] {
      assert a + b == a;
    } else {
      var n := |b| - 1;
      assert (a + b)[..|a| + n] == a + b[..n];
      LastValueConcat(a, b[..n], k);
    }
  }

  lemma {:induction false} LastValueOfChain(chain: Chain, k: string)
    requires DistinctKeys(chain)
    ensures LastValue(chain, k) == FindValue(chain, k)
  {
    if chain != [] {
      var n := |chain| - 1;
      LastValueOfChain(chain[..n], k);
      var x := Find(chain[..n], k);
      if chain[n].key == k {
        FindIs(chain, k, n);
      } else if x < n {
        FindIs(chain, k, x);
      }
    }
  }

  /** The first n chains hold exactly the values whose home is among the first n. */
  lemma {:induction false} FlattenFinds(b: Buckets, n: nat, k: string)
    requires WellFormed(b) && n <= |b|
    ensures LastValue(Flatten(b[..n]), k) == if Home(k, |b|) < n then Lookup(b, k) else None
  {
    hide Home;
    if n > 0 {
      assert b[..n][..n - 1] == b[..n - 1];
      FlattenFinds(b, n - 1, k);
      LastValueConcat(Flatten(b[..n - 1]), b[n - 1], k);
      LastValueOfChain(b[n - 1], k);
      assert AtHome(b[n - 1], |b|, n - 1);
    }
  }

  lemma {:induction false} NoValueNoKey(cells: Chain, k: string)
    ensures LastValue(cells, k) == None <==> forall i :: 0 <= i < |cells| ==> cells[i].key != k
  {
    if cells != [] { NoValueNoKey(cells[..|cells| - 1], k); }
  }

  lemma PushWellFormed(b: Buckets, c: Cell)
    requires WellFormed(b) && Lookup(b, c.key) == None
    ensures WellFormed(Push(b, c))
  {
    hide Home;
  }

  lemma {:induction false} RelinkWellFormed(cells: Chain, size: nat)
    requires size > 0 && DistinctKeys(cells)
    ensures WellFormed(Relink(cells, Empty(size)))
  {
    hide Push, Lookup;
    if cells != [] {
      var n := |cells| - 1;
      RelinkWellFormed(cells[..n], size);
      NoValueNoKey(cells[..n], cells[n].key);
      RelinkFinds(cells[..n], size, cells[n].key);
      PushWellFormed(Relink(cells[..n], Empty(size)), cells[n]);
    }
  }

  /** No key occurs twice in the whole table. */
  lemma {:induction false} FlattenDistinct(b: Buckets, n: nat)
    requires WellFormed(b) && n <= |b|
    ensures DistinctKeys(Flatten(b[..n]))
  {
    hide Home, Lookup;
    if n > 0 {
      assert b[..n][..n - 1] == b[..n - 1];
      FlattenDistinct(b, n - 1);
      var pre, chain := Flatten(b[..n - 1]), b[n - 1];
      assert AtHome(chain, |b|, n - 1) && DistinctKeys(chain);
      forall j | 0 <= j < |chain| ensures forall i :: 0 <= i < |pre| ==> pre[i].key != chain[j].key {
        FlattenFinds(b, n - 1, chain[j].key);
        NoValueNoKey(pre, chain[j].key);
      }
    }
  }

  /** The cells of a table are exactly the entries of the map it represents. */
  lemma FlattenHolds(b: Buckets, m: Table)
    requires Represents(b, m)
    ensures DistinctKeys(Flatten(b))
    ensures forall x :: 0 <= x < |Flatten(b)| ==> Get(m, Flatten(b)[x].key) == Some(ValueOf(Flatten(b)[x]))
    ensures forall k :: k in m ==> exists x :: 0 <= x < |Flatten(b)| && Flatten(b)[x].key == k
  {
    hide Flatten, Lookup, Home, Find, Represents, WellFormed;
    RepresentsWellFormed(b, m);
    var f := Flatten(b);
    assert b[..|b|] == b;
    FlattenDistinct(b, |b|);
    forall k ensures LastValue(f, k) == Get(m, k) {
      RepresentsGet(b, m, k);
      FlattenFinds(b, |b|, k);
    }
    forall x | 0 <= x < |f| ensures Get(m, f[x].key) == Some(ValueOf(f[x])) {
      LastValueOfChain(f, f[x].key);
      FindIs(f, f[x].key, x);
    }
    forall k | k in m ensures exists x :: 0 <= x < |f| && f[x].key == k {
      NoValueNoKey(f, k);
    }
  }

  lemma RepresentsWellFormed(b: Buckets, m: Table)
    requires Represents(b, m)
    ensures WellFormed(b)
  {}

  /** Resizing to any size keeps the key map. */
  lemma RehashRepresents(b: Buckets, m: Table, size: nat)
    requires Represents(b, m) && size > 0
    ensures Represents(Rehash(b, size), m)
  {
    hide Relink, Flatten, Lookup, Home;
    assert b[..|b|] == b;
    FlattenDistinct(b, |b|);
    RelinkWellFormed(Flatten(b), size);
    forall k ensures Lookup(Rehash(b, size), k) == Get(m, k) {
      RelinkFinds(Flatten(b), size, k);
      FlattenFinds(b, |b|, k);
    }
  }

  /** Resizing moves every cell exactly once: the cells are a permutation of what they were. */
  lemma RehashPermutes(b: Buckets, size: nat)
    requires size > 0
    ensures multiset(Flatten(Rehash(b, size))) == multiset(Flatten(b))
    ensures Total(Rehash(b, size)) == Total(b)
  {
    RelinkPermutes(Flatten(b), size);
    FlattenLength(b);
    FlattenLength(Rehash(b, size));
    assert |multiset(Flatten(b))| == |Flatten(b)|;
    assert |multiset(Flatten(Rehash(b, size)))| == |Flatten(Rehash(b, size))|;
  }

  lemma {:induction false} FlattenLength(b: Buckets)
    ensures |Flatten(b)| == Total(b)
  {
    if b != [] { FlattenLength(b[..|b| - 1]); }
  }

  lemma {:induction false} FlattenUpdate(b: Buckets, i: nat, c: Cell)
    requires i < |b|
    ensures multiset(Flatten(b[i := [c] + b[i]])) == multiset(Flatten(b)) + multiset{c}
  {
    hide Home;
    var n := |b| - 1;
    var r := b[i := [c] + b[i]];
    if i < n {
      var pre := b[..n][i := [c] + b[..n][i]];
      assert r[..n] == pre && r[n] == b[n];
      FlattenUpdate(b[..n], i, c);
      assert multiset(Flatten(pre) + b[n]) == multiset(Flatten(pre)) + multiset(b[n]);
    } else {
      assert r[..n] == b[..n] && r[n] == [c] + b[n];
    }
  }

  lemma {:induction false} RelinkPermutes(cells: Chain, size: nat)
    requires size > 0
    ensures multiset(Flatten(Relink(cells, Empty(size)))) == multiset(cells)
  {
    hide Home, Flatten;
    if cells == [] {
      FlattenLength(Empty(size));
      TotalOfEmpty(Empty(size));
      assert Flatten(Empty(size)) == [];
    } else {
      var n := |cells| - 1;
      RelinkPermutes(cells[..n], size);
      FlattenUpdate(Relink(cells[..n], Empty(size)), Home(cells[n].key, size), cells[n]);
      assert cells == cells[..n] + [cells[n]];
    }
  }

  // ---------- what doubling does to each chain ----------

  function Reversed<T>(s: seq<T>): seq<T> {
    if s == [] then [] else Reversed(s[1..]) + [s[0]]
  }

  lemma {:induction false} ReversedAppend<T>(s: seq<T>, x: T)
    ensures Reversed(s + [x]) == [x] + Reversed(s)
  {
    if s == [] {
      assert Reversed([x]) == Reversed([]) + [x];
    } else {
      assert (s + [x])[1..] == s[1..] + [x];
      ReversedAppend(s[1..], x);
    }
  }

  /** The cells that belong in bucket j of a table of the given size, in order. */
  function Belonging(cells: Chain, size: nat, j: nat): Chain
    requires size > 0
  {
    if cells == [] then []
    else (if Home(cells[0].key, size) == j then [cells[0]] else []) + Belonging(cells[1..], size, j)
  }

  lemma {:induction false} BelongingConcat(a: Chain, b: Chain, size: nat, j: nat)
    requires size > 0
    ensures Belonging(a + b, size, j) == Belonging(a, size, j) + Belonging(b, size, j)
  {
    hide Home;
    if a == [] {
      assert a + b == b;
    } else {
      assert (a + b)[1..] == a[1..] + b && (a + b)[0] == a[0];
      BelongingConcat(a[1..], b, size, j);
      Assoc(if Home(a[0].key, size) == j then [a[0]] else [], Belonging(a[1..], size, j), Belonging(b, size, j));
    }
  }

  /** Each new chain is the reversal of the cells that belong in it. */
  lemma {:induction false} RelinkReverses(cells: Chain, size: nat, j: nat)
    requires j < size
    ensures Relink(cells, Empty(size))[j] == Reversed(Belonging(cells, size, j))
  {
    hide Home;
    if cells != [] {
      var n := |cells| - 1;
      var c := cells[n];
      assert cells == cells[..n] + [c];
      RelinkReverses(cells[..n], size, j);
      BelongingConcat(cells[..n], [c], size, j);
      assert Belonging(cells, size, j) == Belonging(cells[..n], size, j) + Belonging([c], size, j);
      assert Relink(cells, Empty(size)) == Push(Relink(cells[..n], Empty(size)), c);
      assert Belonging([c], size, j) == if Home(c.key, size) == j then [c] else [] by { assert [c][1..] == []; }
      ReversedAppend(Belonging(cells[..n], size, j), c);
      assert Belonging(cells[..n], size, j) + [] == Belonging(cells[..n], size, j);
    }
  }

  lemma ModOfDouble(h: nat, size: nat)
    requires size > 0
    ensures (h % (2 * size)) % size == h % size
  {
    var m, r := DivideByDouble(h, size);
    ModPlus(h, m, r, size);
  }

  lemma DivideByDouble(h: nat, size: nat) returns (m: nat, r: nat)
    requires size > 0
    ensures h == m * size + r && r == h % (2 * size)
  {
    var q;
    q, r := DivMod(h, 2 * size);
    m := 2 * q;
    Twice(q, size);
  }

  lemma DivMod(h: nat, d: nat) returns (q: nat, r: nat)
    requires d > 0
    ensures h == q * d + r && r == h % d
  {
    q, r := h / d, h % d;
  }

  lemma Twice(q: nat, size: nat)
    ensures q * (2 * size) == (2 * q) * size
  {}

  lemma {:induction false} ModPlus(h: nat, q: nat, r: nat, size: nat)
    requires size > 0 && h == q * size + r
    ensures h % size == r % size
  {
    if q > 0 {
      assert h - size == (q - 1) * size + r && h >= size;
      ModPlus(h - size, q - 1, r, size);
      ModStep(h - size, size);
    }
  }

  lemma ModStep(x: nat, size: nat)
    requires size > 0
    ensures (x + size) % size == x % size
  {
    var q, r := x / size, x % size;
    assert x + size == (q + 1) * size + r;
    ModUnique(x + size, q + 1, r, size);
  }

  lemma ModUnique(x: nat, q: nat, r: nat, size: nat)
    requires r < size && x == q * size + r
    ensures x % size == r
  {
    var q', r' := x / size, x % size;
    assert x == q' * size + r';
    if q > q' { Multiples(q, q', size); }
    if q < q' { Multiples(q', q, size); }
  }

  lemma {:induction false} Multiples(a: nat, b: nat, size: nat)
    requires a > b
    ensures a * size >= b * size + size
  {
    assert a * size == (a - 1) * size + size;
    if a - 1 > b { Multiples(a - 1, b, size); }
  }

  lemma {:induction false} NoneBelongs(chain: Chain, size: nat, i: nat, j: nat)
    requires size > 0 && AtHome(chain, size, i) && j % size != i
    ensures Belonging(chain, 2 * size, j) == []
  {
    if chain != [] {
      ModOfDouble(Hash(chain[0].key), size);
      assert Home(chain[0].key, size) == i;
      NoneBelongs(chain[1..], size, i, j);
    }
  }

  lemma {:induction false} BelongingOfFlatten(b: Buckets, n: nat, j: nat)
    requires WellFormed(b) && n <= |b|
    ensures Belonging(Flatten(b[..n]), 2 * |b|, j)
            == if j % |b| < n then Belonging(b[j % |b|], 2 * |b|, j) else []
  {
    hide Home;
    if n > 0 {
      assert b[..n][..n - 1] == b[..n - 1];
      BelongingOfFlatten(b, n - 1, j);
      BelongingConcat(Flatten(b[..n - 1]), b[n - 1], 2 * |b|, j);
      assert AtHome(b[n - 1], |b|, n - 1);
      if j % |b| != n - 1 { NoneBelongs(b[n - 1], |b|, n - 1, j); }
    }
  }

  /** Doubling splits each chain in two: new chains j and j + size are the reversed filters of old chain j alone. */
  lemma DoublingSplitsChains(b: Buckets, j: nat)
    requires WellFormed(b) && j < |b|
    ensures Rehash(b, 2 * |b|)[j] == Reversed(Belonging(b[j], 2 * |b|, j))
    ensures Rehash(b, 2 * |b|)[j + |b|] == Reversed(Belonging(b[j], 2 * |b|, j + |b|))
  {
    hide Home, Relink, Belonging, Flatten;
    assert b[..|b|] == b;
    RelinkReverses(Flatten(b), 2 * |b|, j);
    RelinkReverses(Flatten(b), 2 * |b|, j + |b|);
    BelongingOfFlatten(b, |b|, j);
    BelongingOfFlatten(b, |b|, j + |b|);
    ModUnique(j, 0, j, |b|);
    ModUnique(j + |b|, 1, j, |b|);
  }

  // ---------- set with growth ----------

  /** count / size > 0.75; sizes are integers, so the test is exact. */
  predicate Crowded(count: nat, size: nat) {
    4 * count > 3 * size
  }

  predicate Grows(b: Buckets, c: Cell)
    requires |b| > 0
  {
    Lookup(b, c.key) == None && Crowded(Total(b) + 1, |b|)
  }

  /** Put, and double the table when a new entry made it too crowded; canResize is false when the
      allocation of the larger bucket array fails. */
  function Insert(b: Buckets, c: Cell, canResize: bool): (r: Buckets)
    requires |b| > 0
    ensures |r| == if Grows(b, c) && canResize then 2 * |b| else |b|
  {
    if Grows(b, c) && canResize then Rehash(Put(b, c), 2 * |b|) else Put(b, c)
  }

  /** Setting an entry refines map update, whether or not the table grows and the resize succeeds. */
  lemma InsertRepresents(b: Buckets, m: Table, c: Cell, canResize: bool)
    requires Represents(b, m)
    ensures Represents(Insert(b, c, canResize), m[c.key := ValueOf(c)])
    ensures Total(Insert(b, c, canResize)) == Total(b) + if c.key in m then 0 else 1
  {
    hide Put, Rehash, Lookup;
    PutRepresents(b, m, c);
    if Grows(b, c) && canResize {
      RehashRepresents(Put(b, c), m[c.key := ValueOf(c)], 2 * |b|);
      RehashPermutes(Put(b, c), 2 * |b|);
    }
  }

  // ---------- what the hash is ----------

  function Power31(n: nat): nat {
    if n == 0 then 1 else 31 * Power31(n - 1)
  }

  /** The bytes of the key as the coefficients of a polynomial in 31, the first byte the highest. */
  function Polynomial(key: string): nat {
    if key == [] then 0 else (key[0] as int % 256) * Power31(|key| - 1) + Polynomial(key[1..])
  }

  lemma {:induction false} PolynomialAppend(key: string, c: char)
    ensures Polynomial(key + [c]) == 31 * Polynomial(key) + c as int % 256
  {
    if key == [] {
      assert Polynomial([c]) == (c as int % 256) * Power31(0) + Polynomial([]);
    } else {
      var b, n := key[0] as int % 256, |key| - 1;
      assert (key + [c])[1..] == key[1..] + [c];
      PolynomialAppend(key[1..], c);
      assert b * (31 * Power31(n)) == 31 * (b * Power31(n));
    }
  }

  /** hash_key is that polynomial modulo 2 to the 64. */
  lemma {:induction false} HashIsPolynomial(key: string)
    ensures Hash(key) == Polynomial(key) % 0x1_0000_0000_0000_0000
  {
    if key != [] {
      var n := |key| - 1;
      assert key == key[..n] + [key[n]];
      HashIsPolynomial(key[..n]);
      PolynomialAppend(key[..n], key[n]);
      HornerStep(Polynomial(key[..n]), key[n] as int % 256, SIZE_MODULUS);
    }
  }

  lemma HornerStep(x: nat, c: nat, m: nat)
    requires m > 0
    ensures ((x % m) * 31 + c) % m == (31 * x + c) % m
  {
    var q, r := DivMod(x, m);
    assert 31 * x + c == (31 * q) * m + (r * 31 + c);
    ModPlus(31 * x + c, 31 * q, r * 31 + c, m);
  }

  /** hash_key, byte by byte. */
  method HashKey(key: string) returns (hash: nat)
    ensures hash == Hash(key)
  {
    hash := 0;
    for i := 0 to |key|
      invariant hash == Hash(key[..i])
    {
      assert key[..i + 1][..i] == key[..i];
      hash := (hash * 31 + key[i] as int % 256) % SIZE_MODULUS;
    }
    assert key[..|key|] == key;
  }
}
