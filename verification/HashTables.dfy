/** The chained hash table on the heap: linked entries, an array of chain heads, and resizing that
    relinks the entries in place. Every method is proved against the functions of module Chains. */
module HashTables {
  import opened Store
  import opened Text
  import opened Chains

  class Entry {
    const key: string
    var value: string
    var expiresAt: int
    var next: Entry?

    constructor (key: string, value: string, expiresAt: int)
      ensures this.key == key && this.value == value && this.expiresAt == expiresAt
    {
      this.key, this.value, this.expiresAt, next := key, value, expiresAt, null;
    }
  }

  ghost function Nth(chain: seq<Entry>, j: nat): Entry? {
    if j < |chain| then chain[j] else null
  }

  /** The entries of chain are linked in order and hold the cells. */
  ghost predicate Linked(chain: seq<Entry>, cells: Chain)
    reads chain
  {
    && |chain| == |cells|
    && forall j :: 0 <= j < |chain| ==>
         && chain[j].next == Nth(chain, j + 1)
         && Cell(chain[j].key, chain[j].value, chain[j].expiresAt) == cells[j]
  }

  ghost predicate Within(chains: seq<seq<Entry>>, nodes: set<Entry>) {
    forall i, j :: 0 <= i < |chains| && 0 <= j < |chains[i]| ==> chains[i][j] in nodes
  }

  /** Bucket i of the array is the head of chain i, and chain i holds bucket i of the table. */
  ghost predicate Structure(heads: array<Entry?>, chains: seq<seq<Entry>>, cells: Buckets, nodes: set<Entry>)
    reads heads, nodes
  {
    && heads.Length == |chains| == |cells| > 0
    && Within(chains, nodes)
    && forall i :: 0 <= i < |chains| ==> heads[i] == Nth(chains[i], 0) && Linked(chains[i], cells[i])
  }

  function CellOf(e: Entry): Cell
    reads e
  {
    Cell(e.key, e.value, e.expiresAt)
  }

  /** Put an entry at the front of chain index, as insertion and resizing both do. */
  method PushEntry(entry: Entry, heads: array<Entry?>, index: nat,
                   ghost chains: seq<seq<Entry>>, ghost cells: Buckets, ghost nodes: set<Entry>)
    requires Structure(heads, chains, cells, nodes)
    requires index < heads.Length && entry !in nodes
    modifies entry`next, heads
    ensures Structure(heads, chains[index := [entry] + chains[index]],
                      cells[index := [CellOf(entry)] + cells[index]], nodes + {entry})
  {
    hide CellOf;
    entry.next := heads[index];
    heads[index] := entry;
    ghost var chains' := chains[index := [entry] + chains[index]];
    ghost var cells' := cells[index := [CellOf(entry)] + cells[index]];
    forall i | 0 <= i < |chains| ensures Linked(chains[i], cells[i]) {
      assert old(Linked(chains[i], cells[i]));
      assert forall j :: 0 <= j < |chains[i]| ==> chains[i][j] in nodes;
    }
    PushedChain(entry, chains[index], cells[index]);
  }

  lemma PushedChain(entry: Entry, chain: seq<Entry>, cells: Chain)
    requires Linked(chain, cells) && entry.next == Nth(chain, 0)
    ensures Linked([entry] + chain, [CellOf(entry)] + cells)
  {}

  /** Each entry occurs at one place only. */
  ghost predicate Separate(chains: seq<seq<Entry>>) {
    forall x, y, i, j ::
      (0 <= x < |chains| && 0 <= y < |chains[x]| && 0 <= i < |chains| && 0 <= j < |chains[i]|
       && chains[x][y] == chains[i][j]) ==> x == i && y == j
  }

  /** Keys are unique, so chains share no entry. */
  lemma SeparateChains(chains: seq<seq<Entry>>, cells: Buckets, m: Table)
    requires |chains| == |cells| && Represents(cells, m)
    requires forall x :: 0 <= x < |chains| ==> Linked(chains[x], cells[x])
    ensures Separate(chains)
  {
    hide Home;
  }

  /** Overwrite the value and expiry of entry j of chain i. */
  method WriteEntry(entry: Entry, heads: array<Entry?>, value: string, expiresAt: int,
                    ghost chains: seq<seq<Entry>>, ghost cells: Buckets, ghost nodes: set<Entry>,
                    ghost m: Table, ghost i: nat, ghost j: nat)
    requires Structure(heads, chains, cells, nodes) && Represents(cells, m)
    requires i < |chains| && j < |chains[i]| && entry == chains[i][j]
    modifies entry`value, entry`expiresAt
    ensures Structure(heads, chains, cells[i := cells[i][j := Cell(entry.key, value, expiresAt)]], nodes)
    ensures entry.value == value && entry.expiresAt == expiresAt
  {
    hide Represents;
    SeparateChains(chains, cells, m);
    entry.value, entry.expiresAt := value, expiresAt;
    ghost var cells' := cells[i := cells[i][j := CellOf(entry)]];
    forall x | 0 <= x < |chains| ensures Linked(chains[x], cells'[x]) {
      assert old(Linked(chains[x], cells[x]));
      assert forall y :: 0 <= y < |chains[x]| ==> chains[x][y] in nodes;
    }
  }

  /** Take the first entry out of its chain. */
  method UnlinkFirst(entry: Entry, heads: array<Entry?>, index: nat,
                     ghost chains: seq<seq<Entry>>, ghost cells: Buckets, ghost nodes: set<Entry>)
    requires Structure(heads, chains, cells, nodes)
    requires index < |chains| && chains[index] != [] && entry == chains[index][0]
    modifies heads
    ensures Structure(heads, chains[index := Without(chains[index], 0)], cells[index := Without(cells[index], 0)], nodes)
  {
    heads[index] := entry.next;
    ghost var chains' := chains[index := Without(chains[index], 0)];
    ghost var cells' := cells[index := Without(cells[index], 0)];
    forall x | 0 <= x < |chains| ensures Linked(chains'[x], cells'[x]) {
      assert old(Linked(chains[x], cells[x]));
    }
  }

  /** Take entry j > 0 out of its chain by relinking the entry before it. */
  method UnlinkLater(entry: Entry, previous: Entry, heads: array<Entry?>, ghost index: nat,
                     ghost chains: seq<seq<Entry>>, ghost cells: Buckets, ghost nodes: set<Entry>, ghost m: Table, ghost j: nat)
    requires Structure(heads, chains, cells, nodes) && Represents(cells, m)
    requires index < |chains| && 0 < j < |chains[index]|
    requires entry == chains[index][j] && previous == chains[index][j - 1]
    modifies previous`next
    ensures Structure(heads, chains[index := Without(chains[index], j)], cells[index := Without(cells[index], j)], nodes)
  {
    hide Represents, Separate, Without;
    assert forall x, y :: (0 <= x < |chains| && 0 <= y < |chains[x]| && chains[x][y] == previous)
                          ==> x == index && y == j - 1 by {
      SeparateChains(chains, cells, m);
      OnlyPlace(chains, index, j - 1);
    }
    previous.next := entry.next;
    ghost var chains' := chains[index := Without(chains[index], j)];
    ghost var cells' := cells[index := Without(cells[index], j)];
    assert old(Linked(chains[index], cells[index]));
    UnlinkedChain(chains[index], cells[index], j);
    WithinWithout(chains, nodes, index, j);
    forall x | 0 <= x < |chains| && x != index ensures Linked(chains'[x], cells'[x]) {
      assert old(Linked(chains[x], cells[x]));
      assert forall y :: 0 <= y < |chains[x]| ==> chains[x][y] != previous;
    }
  }

  lemma WithinWithout(chains: seq<seq<Entry>>, nodes: set<Entry>, i: nat, j: nat)
    requires Within(chains, nodes) && i < |chains| && j < |chains[i]|
    ensures Within(chains[i := Without(chains[i], j)], nodes)
    ensures j > 0 ==> Nth(Without(chains[i], j), 0) == Nth(chains[i], 0)
  {}

  /** The chain without entry j, once the entry before j points past it. */
  lemma UnlinkedChain(chain: seq<Entry>, cells: Chain, j: nat)
    requires |chain| == |cells| && j < |chain|
    requires forall y :: 0 <= y < |chain| ==> CellOf(chain[y]) == cells[y]
    requires forall y :: 0 <= y < |chain| ==> chain[y].next == Nth(chain, if y == j - 1 then j + 1 else y + 1)
    ensures Linked(Without(chain, j), Without(cells, j))
  {}

  /** From place (i, j) on, the old chains are still as they were. */
  ghost predicate Waiting(heads: array<Entry?>, chains: seq<seq<Entry>>, cells: Buckets, nodes: set<Entry>,
                          moved: set<Entry>, i: nat, j: nat)
    reads heads, nodes
  {
    && heads.Length == |chains| == |cells|
    && Within(chains, nodes)
    && (forall x :: 0 <= x < |chains| ==> |chains[x]| == |cells[x]|)
    && (forall x :: i <= x < |chains| ==> heads[x] == Nth(chains[x], 0))
    && (forall x, y :: i <= x < |chains| && 0 <= y < |chains[x]| && (x == i ==> j <= y) ==>
          && chains[x][y] !in moved
          && chains[x][y].next == Nth(chains[x], y + 1)
          && CellOf(chains[x][y]) == cells[x][y])
  }

  /** A resize that has relinked the cells before place (i, j) and nothing else. */
  ghost predicate Halfway(heads: array<Entry?>, chains: seq<seq<Entry>>, cells: Buckets, nodes: set<Entry>,
                          newHeads: array<Entry?>, newChains: seq<seq<Entry>>, moved: set<Entry>, i: nat, j: nat)
    reads heads, newHeads, nodes
  {
    && heads != newHeads && newHeads.Length > 0
    && i <= |cells| && (i < |cells| ==> j <= |cells[i]|)
    && Waiting(heads, chains, cells, nodes, moved, i, j) && Separate(chains) && moved <= nodes
    && Structure(newHeads, newChains, Relinked(cells, i, j, newHeads.Length), moved)
  }

  /** Relink the entry at place (i, j) of the old chains into the new ones. */
  method MoveEntry(entry: Entry, heads: array<Entry?>, newHeads: array<Entry?>,
                   ghost chains: seq<seq<Entry>>, ghost cells: Buckets, ghost nodes: set<Entry>,
                   ghost newChains: seq<seq<Entry>>, ghost moved: set<Entry>, ghost i: nat, ghost j: nat)
    returns (next: Entry?, ghost newChains': seq<seq<Entry>>)
    requires Halfway(heads, chains, cells, nodes, newHeads, newChains, moved, i, j)
    requires i < |chains| && j < |chains[i]| && entry == chains[i][j]
    modifies newHeads, nodes
    ensures Halfway(heads, chains, cells, nodes, newHeads, newChains', moved + {entry}, i, j + 1)
    ensures next == Nth(chains[i], j + 1)
    ensures |Prefix(cells, i, j + 1)| == |Prefix(cells, i, j)| + 1
  {
    hide Structure, Relinked, Home, Separate, Prefix, Within;
    StructureAt(newHeads, newChains, Relinked(cells, i, j, newHeads.Length), moved, 0);
    WithinAt(chains, nodes, i, j);
    OnlyPlace(chains, i, j);
    RelinkedNext(cells, i, j, newHeads.Length);
    next := entry.next;
    var newIndex := Home(entry.key, newHeads.Length);
    newChains' := newChains[newIndex := [entry] + newChains[newIndex]];
    PushEntry(entry, newHeads, newIndex, newChains, Relinked(cells, i, j, newHeads.Length), moved);
  }

  lemma WithinAt(chains: seq<seq<Entry>>, nodes: set<Entry>, i: nat, j: nat)
    requires Within(chains, nodes) && i < |chains| && j < |chains[i]|
    ensures chains[i][j] in nodes
  {}

  lemma OnlyPlace(chains: seq<seq<Entry>>, i: nat, j: nat)
    requires Separate(chains) && i < |chains| && j < |chains[i]|
    ensures forall x, y :: (0 <= x < |chains| && 0 <= y < |chains[x]| && chains[x][y] == chains[i][j]) ==> x == i && y == j
  {}

  lemma HalfwayHere(heads: array<Entry?>, chains: seq<seq<Entry>>, cells: Buckets, nodes: set<Entry>,
                    newHeads: array<Entry?>, newChains: seq<seq<Entry>>, moved: set<Entry>, i: nat, j: nat)
    requires Halfway(heads, chains, cells, nodes, newHeads, newChains, moved, i, j) && i < |cells|
    ensures |cells| == |chains| == heads.Length && |chains[i]| == |cells[i]|
    ensures j == 0 ==> heads[i] == Nth(chains[i], 0)
    ensures j < |chains[i]| ==> chains[i][j].next == Nth(chains[i], j + 1) && chains[i][j] in nodes
    ensures j == |chains[i]| ==> Halfway(heads, chains, cells, nodes, newHeads, newChains, moved, i + 1, 0)
  {
    hide Structure, Relink;
    PrefixNextChain(cells, i);
  }

  /** The inner loop of a resize: relink every entry of old chain i, in order. */
  method MoveChain(heads: array<Entry?>, newHeads: array<Entry?>, i: nat,
                   ghost chains: seq<seq<Entry>>, ghost cells: Buckets, ghost nodes: set<Entry>,
                   ghost newChains: seq<seq<Entry>>, ghost moved: set<Entry>)
    returns (ghost newChains': seq<seq<Entry>>, ghost moved': set<Entry>, ghost moves: nat)
    requires i < |cells| && Halfway(heads, chains, cells, nodes, newHeads, newChains, moved, i, 0)
    modifies newHeads, nodes
    ensures Halfway(heads, chains, cells, nodes, newHeads, newChains', moved', i + 1, 0)
    ensures |Prefix(cells, i + 1, 0)| == |Prefix(cells, i, 0)| + moves
  {
    hide Halfway, Prefix;
    HalfwayHere(heads, chains, cells, nodes, newHeads, newChains, moved, i, 0);
    newChains', moved', moves := newChains, moved, 0;
    var current := heads[i];
    while current != null
      invariant moves <= |chains[i]| && current == Nth(chains[i], moves)
      invariant |Prefix(cells, i, moves)| == |Prefix(cells, i, 0)| + moves
      invariant Halfway(heads, chains, cells, nodes, newHeads, newChains', moved', i, moves)
      decreases |chains[i]| - moves
    {
      var entry: Entry := current;
      current, newChains' := MoveEntry(entry, heads, newHeads, chains, cells, nodes, newChains', moved', i, moves);
      moved', moves := moved' + {entry}, moves + 1;
    }
    HalfwayHere(heads, chains, cells, nodes, newHeads, newChains', moved', i, moves);
    PrefixNextChain(cells, i);
  }

  /** The outer loop of a resize: every old chain, in order. */
  method RelinkAll(heads: array<Entry?>, newHeads: array<Entry?>,
                   ghost chains: seq<seq<Entry>>, ghost cells: Buckets, ghost nodes: set<Entry>,
                   ghost newChains: seq<seq<Entry>>)
    returns (ghost newChains': seq<seq<Entry>>, ghost moved: set<Entry>, ghost moves: nat)
    requires Halfway(heads, chains, cells, nodes, newHeads, newChains, {}, 0, 0)
    requires |cells| == heads.Length > 0 && newHeads.Length > 0
    modifies newHeads, nodes
    ensures Halfway(heads, chains, cells, nodes, newHeads, newChains', moved, |cells|, 0)
    ensures moves == Total(cells)
  {
    hide Halfway, Prefix, Total;
    RelinkedEnds(cells, newHeads.Length);
    newChains', moved, moves := newChains, {}, 0;
    for i := 0 to heads.Length
      invariant moves == |Prefix(cells, i, 0)|
      invariant Halfway(heads, chains, cells, nodes, newHeads, newChains', moved, i, 0)
    {
      ghost var n;
      newChains', moved, n := MoveChain(heads, newHeads, i, chains, cells, nodes, newChains', moved);
      moves := moves + n;
    }
  }

  lemma StartResize(t: HashTable, newHeads: array<Entry?>, newChains: seq<seq<Entry>>)
    requires t.Valid() && newHeads.Length == |newChains| > 0 && newHeads != t.buckets
    requires forall i :: 0 <= i < newHeads.Length ==> newHeads[i] == null && newChains[i] == []
    ensures Halfway(t.buckets, t.chains, t.cells, t.nodes, newHeads, newChains, {}, 0, 0)
    ensures |t.cells| == t.buckets.Length > 0
  {
    SeparateChains(t.chains, t.cells, t.view);
    RelinkedEnds(t.cells, newHeads.Length);
    forall x, y | 0 <= x < |t.chains| && 0 <= y < |t.chains[x]|
      ensures t.chains[x][y].next == Nth(t.chains[x], y + 1) && CellOf(t.chains[x][y]) == t.cells[x][y]
    {
      assert Linked(t.chains[x], t.cells[x]);
    }
  }

  lemma FinishResize(heads: array<Entry?>, chains: seq<seq<Entry>>, cells: Buckets, nodes: set<Entry>,
                     newHeads: array<Entry?>, newChains: seq<seq<Entry>>, moved: set<Entry>)
    requires |cells| > 0 && Halfway(heads, chains, cells, nodes, newHeads, newChains, moved, |cells|, 0)
    ensures Structure(newHeads, newChains, Rehash(cells, newHeads.Length), nodes)
  {}

  lemma NotStored(b: Buckets, m: Table, k: string)
    requires Represents(b, m)
    requires forall x :: 0 <= x < |b[Home(k, |b|)]| ==> b[Home(k, |b|)][x].key != k
    ensures k !in m
  {
    hide Home;
    assert Lookup(b, k) == Get(m, k);
  }

  lemma StructureAt(heads: array<Entry?>, chains: seq<seq<Entry>>, cells: Buckets, nodes: set<Entry>, i: nat)
    requires Structure(heads, chains, cells, nodes)
    ensures heads.Length == |chains| == |cells| > 0
    ensures i < |chains| ==> heads[i] == Nth(chains[i], 0) && Linked(chains[i], cells[i])
    ensures i < |chains| ==> forall j :: 0 <= j < |chains[i]| ==> chains[i][j] in nodes
  {}

  lemma EntryAt(heads: array<Entry?>, chains: seq<seq<Entry>>, cells: Buckets, nodes: set<Entry>, i: nat, j: nat)
    requires Structure(heads, chains, cells, nodes)
    requires i < |chains| && j < |chains[i]|
    ensures heads.Length == |chains| == |cells| > 0 && |chains[i]| == |cells[i]|
    ensures chains[i][j] in nodes && CellOf(chains[i][j]) == cells[i][j]
    ensures j > 0 ==> chains[i][j - 1] in nodes
  {}

  lemma EntryFound(heads: array<Entry?>, chains: seq<seq<Entry>>, cells: Buckets, nodes: set<Entry>, i: nat, j: nat)
    requires Structure(heads, chains, cells, nodes) && i < |chains| && Nth(chains[i], j) != null
    ensures j < |chains[i]| && Nth(chains[i], j) in nodes
  {}

  class HashTable {
    var buckets: array<Entry?>
    var size: nat
    var count: nat

    ghost var chains: seq<seq<Entry>>
    ghost var nodes: set<Entry>
    ghost var cells: Buckets
    ghost var view: Table
    ghost var relinked: nat

    ghost predicate Valid()
      reads this, buckets, nodes
    {
      && size == buckets.Length
      && Structure(buckets, chains, cells, nodes)
      && Represents(cells, view)
      && count == Total(cells) == |view|
    }

    constructor (size: nat)
      requires size > 0
      ensures Valid() && fresh(buckets) && nodes == {}
      ensures cells == Empty(size) && view == map[] && relinked == 0
    {
      buckets := new Entry?[size](i => null);
      this.size, count := size, 0;
      chains, nodes := seq(size, i => []), {};
      cells, view, relinked := Empty(size), map[], 0;
      EmptyRepresents(size);
    }

    /** find_entry: the entry with this key, and where it is. */
    method FindEntry(key: string) returns (entry: Entry?, ghost i: nat, ghost j: nat)
      requires Valid()
      ensures i == Home(key, size) && j == Find(cells[i], key)
      ensures entry == Nth(chains[i], j)
      ensures entry == null <==> key !in view
      ensures entry != null ==> entry in nodes && entry.key == key && view[key] == Timed(entry.value, entry.expiresAt)
    {
      hide Hash, Total;
      var index := Home(key, size);
      entry, i, j := buckets[index], index, 0;
      ghost var chain, cs := chains[index], cells[index];
      while entry != null && entry.key != key
        invariant 0 <= j <= |chain| && entry == Nth(chain, j)
        invariant forall x :: 0 <= x < j ==> cs[x].key != key
        decreases |chain| - j
      {
        entry, j := entry.next, j + 1;
      }
      FindFirst(cs, key, j);
      assert Lookup(cells, key) == Get(view, key);
    }

    /** hash_table_get: the value of a live key. */
    method GetLive(key: string, now: int) returns (r: Option<string>)
      requires Valid()
      ensures r == if key in Live(view, now) then Some(view[key].value) else None
    {
      var entry, i, j := FindEntry(key);
      if entry == null || Expired(Timed(entry.value, entry.expiresAt), now) { return None; }
      return Some(entry.value);
    }

    /** hash_table_ttl: -2 for a key that is not live, -1 for one that never expires, else the seconds left. */
    method Ttl(key: string, now: int) returns (r: int)
      requires Valid()
      ensures key !in Live(view, now) ==> r == -2
      ensures key in Live(view, now) && view[key].expiresAt == 0 ==> r == -1
      ensures key in Live(view, now) && view[key].expiresAt != 0 ==> 0 < r && now + r == view[key].expiresAt
    {
      var entry, i, j := FindEntry(key);
      if entry == null { return -2; }
      if entry.expiresAt == 0 { return -1; }
      if now >= entry.expiresAt { return -2; }
      return entry.expiresAt - now;
    }

    /** Write an entry's value and expiry in place. */
    method UpdateEntry(entry: Entry, ghost i: nat, ghost j: nat, value: string, expiresAt: int)
      requires Valid() && i == Home(entry.key, size) && j < |chains[i]| && entry == chains[i][j]
      modifies this, entry
      ensures Valid()
      ensures unchanged(`buckets) && unchanged(`size) && unchanged(`count)
      ensures chains == old(chains) && nodes == old(nodes) && relinked == old(relinked)
      ensures cells == Put(old(cells), Cell(entry.key, value, expiresAt))
      ensures view == old(view)[entry.key := Timed(value, expiresAt)]
      ensures entry.next == old(entry.next)
    {
      hide Hash, Total, Represents, Home, Put, Find, Structure, Linked, Within;
      StructureAt(buckets, chains, cells, nodes, 0);
      EntryAt(buckets, chains, cells, nodes, i, j);
      ghost var c := Cell(entry.key, value, expiresAt);
      PutExisting(cells, view, c, j);
      WriteEntry(entry, buckets, value, expiresAt, chains, cells, nodes, view, i, j);
      cells, view := Put(cells, c), view[c.key := ValueOf(c)];
    }

    /** A new entry at the front of its chain. */
    method Prepend(key: string, value: string, expiresAt: int)
      requires Valid() && key !in view
      modifies this, buckets
      ensures Valid()
      ensures buckets == old(buckets) && size == old(size) && relinked == old(relinked)
      ensures nodes >= old(nodes) && fresh(nodes - old(nodes))
      ensures count == old(count) + 1
      ensures cells == Put(old(cells), Cell(key, value, expiresAt))
      ensures view == old(view)[key := Timed(value, expiresAt)]
    {
      hide Hash, Total, Represents, Find, Home, Structure;
      StructureAt(buckets, chains, cells, nodes, 0);
      ghost var c := Cell(key, value, expiresAt);
      PutNew(cells, view, c);
      var index := Home(key, size);
      var entry := new Entry(key, value, expiresAt);
      PushEntry(entry, buckets, index, chains, cells, nodes);
      count := count + 1;
      chains := chains[index := [entry] + chains[index]];
      nodes := nodes + {entry};
      cells, view := Put(cells, c), view[key := ValueOf(c)];
    }

    /** hash_table_set_with_expiry: update in place or insert, and double the table when it gets too full.
        A resize that cannot allocate is ignored, as in the original. */
    method SetWithExpiry(key: string, value: string, expiresAt: int, canResize: bool)
      requires Valid()
      modifies this, buckets, nodes
      ensures Valid()
      ensures (buckets == old(buckets) || fresh(buckets)) && fresh(nodes - old(nodes))
      ensures cells == Insert(old(cells), Cell(key, value, expiresAt), canResize)
      ensures view == old(view)[key := Timed(value, expiresAt)]
      ensures relinked == old(relinked)
                          + if Grows(old(cells), Cell(key, value, expiresAt)) && canResize then count else 0
    {
      hide Hash, Total, Represents, Find, Home, Structure, Put, Rehash, Lookup;
      StructureAt(buckets, chains, cells, nodes, 0);
      RepresentsGet(cells, view, key);
      var entry, i, j := FindEntry(key);
      if entry != null {
        EntryFound(buckets, chains, cells, nodes, i, j);
        UpdateEntry(entry, i, j, value, expiresAt);
        return;
      }
      Prepend(key, value, expiresAt);
      if Crowded(count, size) {
        var ok := Resize(size * 2, canResize);
      }
    }

    /** Find an entry and overwrite its expiry only. */
    method ChangeExpiry(key: string, expiresAt: int) returns (found: bool)
      requires Valid()
      modifies this, nodes
      ensures Valid() && buckets == old(buckets) && nodes == old(nodes)
      ensures found == (key in old(view))
      ensures view == if found then old(view)[key := Timed(old(view)[key].value, expiresAt)] else old(view)
    {
      hide Hash, Total, Represents, Find, Home, Structure, Put;
      StructureAt(buckets, chains, cells, nodes, 0);
      var entry, i, j := FindEntry(key);
      if entry == null { return false; }
      EntryFound(buckets, chains, cells, nodes, i, j);
      UpdateEntry(entry, i, j, entry.value, expiresAt);
      return true;
    }

    method RemoveEntry(entry: Entry, previous: Entry?, index: nat, ghost j: nat)
      requires Valid() && index == Home(entry.key, size) && j < |chains[index]| && entry == chains[index][j]
      requires previous == if j == 0 then null else chains[index][j - 1]
      modifies this, buckets, nodes
      ensures Valid()
      ensures buckets == old(buckets) && size == old(size) && nodes == old(nodes) && relinked == old(relinked)
      ensures entry.key in old(view) && count == old(count) - 1
      ensures cells == Remove(old(cells), entry.key) && view == old(view) - {entry.key}
    {
      hide Hash, Total, Represents, Home, Remove, Find, Structure, Without, Linked, Within;
      StructureAt(buckets, chains, cells, nodes, 0);
      EntryAt(buckets, chains, cells, nodes, index, j);
      RemoveExisting(cells, view, entry.key, j);
      ghost var oldChains, oldCells, oldView := chains, cells, view;
      count := count - 1;
      chains := chains[index := Without(chains[index], j)];
      cells, view := cells[index := Without(cells[index], j)], view - {entry.key};
      assert cells == Remove(oldCells, entry.key) && Represents(cells, view);
      if previous == null {
        UnlinkFirst(entry, buckets, index, oldChains, oldCells, nodes);
      } else {
        UnlinkLater(entry, previous, buckets, index, oldChains, oldCells, nodes, oldView, j);
      }
    }

    /** hash_table_delete: unlink the entry with this key. */
    method Delete(key: string) returns (found: bool)
      requires Valid()
      modifies this, buckets, nodes
      ensures Valid()
      ensures buckets == old(buckets) && size == old(size) && nodes == old(nodes) && relinked == old(relinked)
      ensures found == (key in old(view))
      ensures count == old(count) - if found then 1 else 0
      ensures cells == Remove(old(cells), key)
      ensures view == old(view) - {key}
    {
      hide Hash, Total, Represents, Home, Remove, Structure;
      StructureAt(buckets, chains, cells, nodes, 0);
      var index := Home(key, size);
      StructureAt(buckets, chains, cells, nodes, index);
      ghost var chain, cs, j := chains[index], cells[index], 0;
      var previous, current := null, buckets[index];
      while current != null
        invariant 0 <= j <= |chain| && current == Nth(chain, j)
        invariant previous == if j == 0 then null else chain[j - 1]
        invariant forall x :: 0 <= x < j ==> cs[x].key != key
        decreases |chain| - j
      {
        if current.key == key {
          RemoveEntry(current, previous, index, j);
          return true;
        }
        previous, current, j := current, current.next, j + 1;
      }
      NotStored(cells, view, key);
      RemoveMissing(cells, view, key);
      return false;
    }

    /** hash_table_resize: relink every entry, one by one, into a new bucket array. */
    method Resize(newSize: nat, canAllocate: bool) returns (ok: bool)
      requires Valid()
      modifies this, nodes
      ensures Valid()
      ensures ok == (newSize > 0 && canAllocate)
      ensures nodes == old(nodes) && count == old(count) && view == old(view)
      ensures !ok ==> buckets == old(buckets) && size == old(size) && cells == old(cells) && relinked == old(relinked)
      ensures ok ==> fresh(buckets) && size == newSize
      ensures ok ==> cells == Rehash(old(cells), newSize)
      ensures ok ==> relinked == old(relinked) + count
    {
      hide Hash, Total, Represents, Home, Structure, Rehash, Halfway, Flatten;
      if newSize == 0 || !canAllocate { return false; }
      var newBuckets := new Entry?[newSize](i => null);
      ghost var newChains: seq<seq<Entry>> := seq(newSize, i => []);
      StartResize(this, newBuckets, newChains);
      RehashRepresents(cells, view, newSize);
      RehashPermutes(cells, newSize);
      ghost var newChains', moved, moves := RelinkAll(buckets, newBuckets, chains, cells, nodes, newChains);
      FinishResize(buckets, chains, cells, nodes, newBuckets, newChains', moved);
      buckets, size := newBuckets, newSize;
      chains, cells := newChains', Rehash(cells, newSize);
      relinked := relinked + moves;
      return true;
    }
  }
}
