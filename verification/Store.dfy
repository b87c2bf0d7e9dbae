/** The abstract key-value store shared by every other module: timed values, the records of the
    append-only file, and what replaying a sequence of records at start-up means. */
module Store {

  datatype Option<+T> = None | Some(value: T)

  /** A stored value; expiresAt is a Unix time in seconds and 0 means "never". */
  datatype Timed = Timed(value: string, expiresAt: int)

  predicate Expired(e: Timed, now: int) {
    e.expiresAt != 0 && now >= e.expiresAt
  }

  type Table = map<string, Timed>

  function Get(m: Table, k: string): Option<Timed> {
    if k in m then Some(m[k]) else None
  }

  /** What a client can observe of m at time now. */
  function Live(m: Table, now: int): Table {
    map k | k in m && !Expired(m[k], now) :: m[k]
  }

  datatype Record = Set(key: string, value: string, expiresAt: int) | Del(key: string)

  /** clock(i) is the i-th time that the running code reads the wall clock. */
  type Clock = nat -> int

  ghost predicate Monotone(clock: Clock) {
    forall i: nat, j: nat :: i <= j ==> clock(i) <= clock(j)
  }

  /** The loader drops a SET that has expired when it is read. */
  predicate Skipped(r: Record, now: int) {
    r.Set? && Expired(Timed(r.value, r.expiresAt), now)
  }

  function Restore(m: Table, r: Record, now: int): Table {
    if Skipped(r, now) then m
    else match r
      case Set(k, v, e) => m[k := Timed(v, e)]
      case Del(k) => m - {k}
  }

  /** What the loader makes of a table; record i is read at time clock(i). */
  function ReplayOnto(m: Table, log: seq<Record>, clock: Clock): Table {
    if log == [] then m
    else
      var n := |log| - 1;
      Restore(ReplayOnto(m, log[..n], clock), log[n], clock(n))
  }

  /** At start-up the loader is given an empty table. */
  function Replay(log: seq<Record>, clock: Clock): Table {
    ReplayOnto(map[], log, clock)
  }

  // ---------- the exact meaning of a replay ----------

  /** Record i is the last record of k that the loader does not skip. */
  ghost predicate Decides(log: seq<Record>, clock: Clock, k: string, i: nat) {
    && i < |log| && log[i].key == k && !Skipped(log[i], clock(i))
    && forall j :: i < j < |log| && log[j].key == k ==> Skipped(log[j], clock(j))
  }

  /** The loaded entry of k is exactly what the last non-skipped record of k says. */
  lemma {:induction false} ReplayExact(log: seq<Record>, clock: Clock, k: string)
    ensures forall i: nat :: Decides(log, clock, k, i) ==>
              Get(Replay(log, clock), k) ==
              if log[i].Set? then Some(Timed(log[i].value, log[i].expiresAt)) else None
    ensures (forall i: nat :: !Decides(log, clock, k, i)) ==> k !in Replay(log, clock)
    ensures k in Replay(log, clock) ==> exists i: nat :: Decides(log, clock, k, i) && log[i].Set?
  {
    if log != [] {
      var n := |log| - 1;
      ReplayExact(log[..n], clock, k);
      if log[n].key == k && !Skipped(log[n], clock(n)) {
        assert Decides(log, clock, k, n);
      } else {
        forall i: nat
          ensures Decides(log, clock, k, i) <==> Decides(log[..n], clock, k, i)
        {
          if Decides(log[..n], clock, k, i) {
            forall j | i < j < |log| && log[j].key == k ensures Skipped(log[j], clock(j)) {
              if j < n { assert log[..n][j] == log[j]; }
            }
          }
          if Decides(log, clock, k, i) {
            assert i < n;
          }
        }
      }
    }
  }

  lemma ReplayAppend(m: Table, log: seq<Record>, r: Record, clock: Clock)
    ensures ReplayOnto(m, log + [r], clock) == Restore(ReplayOnto(m, log, clock), r, clock(|log|))
  {}

  // ---------- replay against "last write wins, then drop what has expired" ----------

  /** Last write wins; nothing is skipped. */
  function LastWrites(log: seq<Record>): Table {
    if log == [] then map[]
    else
      var n := |log| - 1;
      match log[n]
      case Set(k, v, e) => LastWrites(log[..n])[k := Timed(v, e)]
      case Del(k) => LastWrites(log[..n]) - {k}
  }

  ghost predicate IsLast(log: seq<Record>, k: string, i: nat) {
    i < |log| && log[i].key == k && forall j :: i < j < |log| ==> log[j].key != k
  }

  lemma {:induction false} LastWritesExact(log: seq<Record>, k: string)
    ensures forall i: nat :: IsLast(log, k, i) ==>
              Get(LastWrites(log), k) ==
              if log[i].Set? then Some(Timed(log[i].value, log[i].expiresAt)) else None
    ensures k in LastWrites(log) ==> exists i: nat :: IsLast(log, k, i) && log[i].Set?
  {
    if log != [] {
      var n := |log| - 1;
      LastWritesExact(log[..n], k);
      if log[n].key == k {
        assert IsLast(log, k, n);
      } else {
        forall i: nat ensures IsLast(log, k, i) <==> IsLast(log[..n], k, i) {
          if IsLast(log[..n], k, i) {
            forall j | i < j < |log| ensures log[j].key != k {
              if j < n { assert log[..n][j] == log[j]; }
            }
          }
        }
      }
    }
  }

  function At(now: int): Clock {
    i => now
  }

  /** k's last record is an expired SET while an earlier SET of k, with no DEL of k after it, is not. */
  ghost predicate Resurrected(log: seq<Record>, now: int, k: string) {
    exists i: nat, j: nat :: IsLast(log, k, i) && Skipped(log[i], now) && Survivor(log, now, k, j)
  }

  ghost predicate Survivor(log: seq<Record>, now: int, k: string, j: nat) {
    && j < |log| && log[j].key == k && log[j].Set? && !Skipped(log[j], now)
    && forall d :: j < d < |log| && log[d].key == k ==> log[d].Set?
  }

  /** The loader agrees with "last write wins, then drop expired" on k exactly when k is not resurrected. */
  lemma ReplayAgreesWithLastWrites(log: seq<Record>, now: int, k: string)
    ensures Get(Replay(log, At(now)), k) == Get(Live(LastWrites(log), now), k)
            <==> !Resurrected(log, now, k)
  {
    ReplayExact(log, At(now), k);
    LastWritesExact(log, k);
    if exists d: nat :: Decides(log, At(now), k, d) {
      var d: nat :| Decides(log, At(now), k, d);
      var l := LastOf(log, k, d);
      if l != d {
        assert Skipped(log[l], At(now)(l));
        if log[d].Set? {
          assert Survivor(log, now, k, d);
        } else {
          assert forall j: nat :: j < |log| && Survivor(log, now, k, j) ==> j <= d;
        }
      }
    } else {
      forall i: nat, j: nat ensures !(IsLast(log, k, i) && Survivor(log, now, k, j)) {
        if IsLast(log, k, i) && Survivor(log, now, k, j) {
          NothingDecides(log, At(now), k, j);
        }
      }
      if k in LastWrites(log) {
        var i: nat :| IsLast(log, k, i) && log[i].Set?;
        NothingDecides(log, At(now), k, i);
      }
    }
  }

  lemma LastOf(log: seq<Record>, k: string, d: nat) returns (l: nat)
    requires d < |log| && log[d].key == k
    ensures d <= l && IsLast(log, k, l)
    decreases |log| - d
  {
    if IsLast(log, k, d) {
      l := d;
    } else {
      var j :| d < j < |log| && log[j].key == k;
      l := LastOf(log, k, j);
    }
  }

  /** If no record decides k then every record of k is skipped. */
  lemma NothingDecides(log: seq<Record>, clock: Clock, k: string, i: nat)
    requires forall d: nat :: !Decides(log, clock, k, d)
    requires i < |log| && log[i].key == k
    ensures Skipped(log[i], clock(i))
    decreases |log| - i
  {
    forall j | i < j < |log| && log[j].key == k ensures Skipped(log[j], clock(j)) {
      NothingDecides(log, clock, k, j);
    }
    assert !Decides(log, clock, k, i);
  }

  /** README.md:193 fails: the key's only later write has expired, and the older value comes back. */
  lemma ExpiredKeyCanComeBack()
    ensures var log := [Set("k", "old", 0), Set("k", "new", 10)];
            && Get(Live(LastWrites(log), 20), "k") == None
            && Get(Replay(log, At(20)), "k") == Some(Timed("old", 0))
  {}

  // ---------- durability: an invariant of (table, log, now) ----------

  /** The log has a SET of exactly this entry, and every later record of k is a SET expired by now. */
  ghost predicate Rooted(log: seq<Record>, k: string, e: Timed, now: int) {
    exists i: nat :: RootedAt(log, k, e, now, i)
  }

  ghost predicate RootedAt(log: seq<Record>, k: string, e: Timed, now: int, i: nat) {
    && i < |log| && log[i] == Set(k, e.value, e.expiresAt)
    && forall j :: i < j < |log| && log[j].key == k ==> Skipped(log[j], now)
  }

  ghost predicate Durable(m: Table, log: seq<Record>, now: int) {
    forall k :: k in m && !Expired(m[k], now) ==> Rooted(log, k, m[k], now)
  }

  ghost predicate ReadsWithin(clock: Clock, n: nat, lo: int, hi: int) {
    lo <= hi && forall i: nat :: i < n ==> lo <= clock(i) <= hi
  }

  /** Every entry still live when the load ends is rebuilt with the same value and expiry. */
  lemma DurableLoad(m: Table, log: seq<Record>, now: int, clock: Clock, end: int)
    requires Durable(m, log, now) && ReadsWithin(clock, |log|, now, end)
    ensures forall k :: k in Live(m, end) ==> Get(Replay(log, clock), k) == Some(m[k])
  {
    forall k | k in Live(m, end) ensures Get(Replay(log, clock), k) == Some(m[k]) {
      var i: nat :| RootedAt(log, k, m[k], now, i);
      assert Decides(log, clock, k, i);
      ReplayExact(log, clock, k);
    }
  }

  /** What a load builds is durable in the log it was built from: the invariant survives a restart. */
  lemma LoadIsDurable(log: seq<Record>, clock: Clock, now: int, end: int)
    requires ReadsWithin(clock, |log|, now, end)
    ensures Durable(Replay(log, clock), log, end)
  {
    var m := Replay(log, clock);
    forall k | k in m && !Expired(m[k], end) ensures Rooted(log, k, m[k], end) {
      ReplayExact(log, clock, k);
      var i: nat :| Decides(log, clock, k, i) && log[i].Set?;
      assert RootedAt(log, k, m[k], end, i);
    }
  }

  lemma DurableLater(m: Table, log: seq<Record>, now: int, later: int)
    requires Durable(m, log, now) && now <= later
    ensures Durable(m, log, later)
  {
    forall k | k in m && !Expired(m[k], later) ensures Rooted(log, k, m[k], later) {
      var i: nat :| RootedAt(log, k, m[k], now, i);
      assert RootedAt(log, k, m[k], later, i);
    }
  }

  lemma DurableSet(m: Table, log: seq<Record>, now: int, k: string, v: string, e: int)
    requires Durable(m, log, now)
    ensures Durable(m[k := Timed(v, e)], log + [Set(k, v, e)], now)
  {
    var m', log' := m[k := Timed(v, e)], log + [Set(k, v, e)];
    forall x | x in m' && !Expired(m'[x], now) ensures Rooted(log', x, m'[x], now) {
      if x == k {
        assert RootedAt(log', x, m'[x], now, |log|);
      } else {
        var i: nat :| RootedAt(log, x, m[x], now, i);
        assert RootedAt(log', x, m'[x], now, i);
      }
    }
  }

  lemma DurableDel(m: Table, log: seq<Record>, now: int, k: string)
    requires Durable(m, log, now)
    ensures Durable(m - {k}, log + [Del(k)], now)
  {
    var m', log' := m - {k}, log + [Del(k)];
    forall x | x in m' && !Expired(m'[x], now) ensures Rooted(log', x, m'[x], now) {
      var i: nat :| RootedAt(log, x, m[x], now, i);
      assert RootedAt(log', x, m'[x], now, i);
    }
  }

  // ---------- compaction ----------

  /** recs lists, once each and in any order, the entries of m found live at clock readings in lo..hi. */
  ghost predicate IsCompaction(recs: seq<Record>, m: Table, lo: int, hi: int) {
    && lo <= hi
    && (forall i :: 0 <= i < |recs| ==> Lists(recs[i], m, lo))
    && (forall i, j :: 0 <= i < j < |recs| ==> recs[i].key != recs[j].key)
    && (forall k :: k in m && !Expired(m[k], hi) ==> Listed(recs, k))
  }

  predicate Lists(r: Record, m: Table, now: int) {
    r.Set? && Get(m, r.key) == Some(Timed(r.value, r.expiresAt)) && !Skipped(r, now)
  }

  ghost predicate Listed(recs: seq<Record>, k: string) {
    exists i :: 0 <= i < |recs| && recs[i].key == k
  }

  /** A compacted log is durable for its table, so EXIT keeps the invariant. */
  lemma CompactionIsDurable(recs: seq<Record>, m: Table, lo: int, hi: int)
    requires IsCompaction(recs, m, lo, hi)
    ensures Durable(m, recs, hi)
  {
    forall k | k in m && !Expired(m[k], hi) ensures Rooted(recs, k, m[k], hi) {
      assert Listed(recs, k);
      var i: nat :| i < |recs| && recs[i].key == k;
      assert RootedAt(recs, k, m[k], hi, i);
    }
  }

  /** Loading a compacted log gives back exactly the entries live at the time of the load. */
  lemma CompactionExact(recs: seq<Record>, m: Table, lo: int, hi: int, now: int)
    requires IsCompaction(recs, m, lo, hi) && hi <= now
    ensures Replay(recs, At(now)) == Live(m, now)
  {
    var loaded := Replay(recs, At(now));
    forall k ensures Get(loaded, k) == Get(Live(m, now), k) {
      ReplayExact(recs, At(now), k);
      if k in m && !Expired(m[k], now) {
        assert Listed(recs, k);
        var i: nat :| i < |recs| && recs[i].key == k;
        assert Decides(recs, At(now), k, i);
      }
    }
    assert forall k :: k in loaded <==> Get(loaded, k).Some?;
    assert forall k :: k in Live(m, now) <==> Get(Live(m, now), k).Some?;
    assert forall k :: k in loaded ==> Get(loaded, k).value == loaded[k];
  }

  // ---------- exactness of recovery ----------

  ghost predicate HasSurvivor(log: seq<Record>, now: int, k: string) {
    exists j: nat :: Survivor(log, now, k, j)
  }

  /** A load at one instant rebuilds k exactly when some unexpired SET of k has no DEL of k after it. */
  lemma LoadedIffSurvivor(log: seq<Record>, now: int, k: string)
    ensures k in Replay(log, At(now)) <==> HasSurvivor(log, now, k)
  {
    var m := Replay(log, At(now));
    ReplayExact(log, At(now), k);
    if k in m {
      var i: nat :| Decides(log, At(now), k, i) && log[i].Set?;
      assert Survivor(log, now, k, i);
    }
    if j: nat :| Survivor(log, now, k, j) { SurvivorLoaded(log, At(now), now, k, j); }
  }

  lemma SurvivorLoaded(log: seq<Record>, clock: Clock, end: int, k: string, j: nat)
    requires Survivor(log, end, k, j) && forall i: nat :: i < |log| ==> clock(i) <= end
    ensures k in Replay(log, clock)
  {
    ReplayExact(log, clock, k);
    assert !Skipped(log[j], clock(j));
    if forall d: nat :: !Decides(log, clock, k, d) {
      NothingDecides(log, clock, k, j);
    } else {
      var d: nat :| Decides(log, clock, k, d);
      assert d >= j && log[d].Set?;
    }
  }

  /** The converse of Durable: a key that the table does not hold has nothing left in the log. */
  ghost predicate Covered(m: Table, log: seq<Record>, now: int) {
    forall k :: k !in m ==> !HasSurvivor(log, now, k)
  }

  lemma SurvivorEarlier(log: seq<Record>, now: int, later: int, k: string)
    requires HasSurvivor(log, later, k) && now <= later
    ensures HasSurvivor(log, now, k)
  {
    var j: nat :| Survivor(log, later, k, j);
    assert Survivor(log, now, k, j);
  }

  lemma CoveredLater(m: Table, log: seq<Record>, now: int, later: int)
    requires Covered(m, log, now) && now <= later
    ensures Covered(m, log, later)
  {
    forall k | k !in m ensures !HasSurvivor(log, later, k) {
      if HasSurvivor(log, later, k) { SurvivorEarlier(log, now, later, k); }
    }
  }

  lemma SurvivorBefore(log: seq<Record>, r: Record, now: int, k: string)
    requires HasSurvivor(log + [r], now, k) && (r.key != k || r.Del?)
    ensures HasSurvivor(log, now, k) && r.key != k
  {
    var log' := log + [r];
    var j: nat :| Survivor(log', now, k, j);
    assert log'[|log|] == r;
    forall d | j < d < |log| && log[d].key == k ensures log[d].Set? { assert log'[d] == log[d]; }
    assert Survivor(log, now, k, j);
  }

  lemma CoveredAppend(m: Table, log: seq<Record>, now: int, r: Record, m': Table)
    requires Covered(m, log, now)
    requires m' == match r case Set(k, v, e) => m[k := Timed(v, e)] case Del(k) => m - {k}
    ensures Covered(m', log + [r], now)
  {
    forall k | k !in m' ensures !HasSurvivor(log + [r], now, k) {
      if HasSurvivor(log + [r], now, k) { SurvivorBefore(log, r, now, k); }
    }
  }

  lemma CompactionCovers(recs: seq<Record>, m: Table, lo: int, hi: int)
    requires IsCompaction(recs, m, lo, hi)
    ensures Covered(m, recs, hi)
  {}

  lemma LoadCovers(log: seq<Record>, clock: Clock, now: int, end: int)
    requires ReadsWithin(clock, |log|, now, end)
    ensures Covered(Replay(log, clock), log, end)
  {
    forall k | k !in Replay(log, clock) ensures !HasSurvivor(log, end, k) {
      if j: nat :| Survivor(log, end, k, j) { SurvivorLoaded(log, clock, end, k, j); }
    }
  }

  /** A load at one instant rebuilds exactly the live entries if and only if no key that the table holds expired
      has an older unexpired SET, with no DEL since, in the log. */
  lemma RecoveryExact(m: Table, log: seq<Record>, now: int, t: int)
    requires Durable(m, log, now) && Covered(m, log, now) && now <= t
    ensures Replay(log, At(t)) == Live(m, t)
            <==> forall k :: k in m && Expired(m[k], t) ==> !HasSurvivor(log, t, k)
  {
    hide Replay, HasSurvivor, Durable, Covered;
    var loaded := Replay(log, At(t));
    CoveredLater(m, log, now, t);
    DurableLoad(m, log, now, At(t), t);
    forall k ensures k in loaded <==> HasSurvivor(log, t, k) { LoadedIffSurvivor(log, t, k); }
    forall k | k in Live(m, t) ensures k in loaded && loaded[k] == m[k] {
      assert Get(loaded, k) == Some(m[k]);
    }
    CoveredMeans(m, log, t);
  }

  lemma CoveredMeans(m: Table, log: seq<Record>, now: int)
    requires Covered(m, log, now)
    ensures forall k :: k !in m ==> !HasSurvivor(log, now, k)
  {}
}
