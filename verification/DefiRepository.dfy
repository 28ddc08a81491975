/**
 The stored reserves and snapshots: transactional upserts by natural key, and the tables as a
 fold over the datasets that were committed.
 */
module DefiRepository {
  import opened Wrappers
  import opened Identifiers
  import opened DefiDataset

  datatype Protocol = Protocol(id: string, slug: string, endpoint: string, demo: bool, enabled: bool)

  /** A reserve row: generated id, natural key, the columns an upsert overwrites, and bookkeeping times. */
  datatype Reserve = Reserve(id: string, protocolID: string, metric: ReserveMetric, createdAt: int, updatedAt: int)

  datatype Snapshot = Snapshot(id: string, reserveID: string, metric: SnapshotMetric, createdAt: int)

  type ReserveKey = (string, string)   // protocol id, market id
  type SnapshotKey = (string, int)     // reserve id, snapshot time

  /** Each map is a table under its unique index. */
  datatype Tables = Tables(
    protocols: map<string, Protocol>,
    reserves: map<ReserveKey, Reserve>,
    snapshots: map<SnapshotKey, Snapshot>)

  const EMPTY := Tables(map[], map[], map[])
  const SLUG := "aave-v3-ethereum"

  /** `id` is no row's id and no snapshot's reserve. */
  ghost predicate Fresh(t: Tables, id: string) {
    && (forall k :: k in t.protocols ==> t.protocols[k].id != id)
    && (forall k :: k in t.reserves ==> t.reserves[k].id != id)
    && (forall k :: k in t.snapshots ==> t.snapshots[k].id != id && k.0 != id)
  }

  ghost predicate IsIdSource(gen: Tables -> string) {
    forall t: Tables :: gen(t) != "" && Fresh(t, gen(t))
  }

  type IdSource = gen: Tables -> string | IsIdSource(gen) ghost witness UnusedId

  ghost function UnusedId(t: Tables): (id: string)
    ensures id != "" && Fresh(t, id)
  {
    LongerThanAll(
      (set k | k in t.protocols :: t.protocols[k].id) + (set k | k in t.reserves :: t.reserves[k].id)
      + (set k | k in t.snapshots :: t.snapshots[k].id) + (set k | k in t.snapshots :: k.0))
  }

  // ----- the protocol row -----

  function EnsureProtocol(t: Tables, endpoint: string, demo: bool, gen: IdSource): (Tables, Protocol) {
    if SLUG in t.protocols then (t, t.protocols[SLUG])
    else
      var p := Protocol(gen(t), SLUG, endpoint, demo, true);
      (t.(protocols := t.protocols[SLUG := p]), p)
  }

  /** Whoever asks later, with whatever arguments, gets the row of the first call. */
  lemma EnsureProtocolOnce(
      t: Tables, endpoint: string, demo: bool, gen: IdSource, endpoint': string, demo': bool, gen': IdSource)
    ensures var (t1, p) := EnsureProtocol(t, endpoint, demo, gen);
            EnsureProtocol(t1, endpoint', demo', gen') == (t1, p)
  {
  }

  // ----- one dataset -----

  /** `upsertReserve`: an existing row keeps its id and creation time, and takes every other column. */
  function UpsertReserve(t: Tables, protocolID: string, m: ReserveMetric, gen: IdSource, now: int): Tables {
    var key := (protocolID, m.marketID);
    var row := if key in t.reserves then t.reserves[key].(metric := m, updatedAt := now)
               else Reserve(gen(t), protocolID, m, now, now);
    t.(reserves := t.reserves[key := row])
  }

  /** `upsertSnapshot`. */
  function UpsertSnapshot(t: Tables, reserveID: string, m: SnapshotMetric, gen: IdSource, now: int): Tables {
    var key := (reserveID, m.snapshotAt);
    var row := if key in t.snapshots then t.snapshots[key].(metric := m)
               else Snapshot(gen(t), reserveID, m, now);
    t.(snapshots := t.snapshots[key := row])
  }

  /** The reserves of a dataset in order, with the id of each market's row as `reserveIDs` collects it. */
  function UpsertReserves(t: Tables, protocolID: string, ms: seq<ReserveMetric>, gen: IdSource, now: int)
    : (Tables, map<string, string>)
  {
    if ms == [] then (t, map[])
    else
      var last := |ms| - 1;
      var (t', ids) := UpsertReserves(t, protocolID, ms[..last], gen, now);
      var t'' := UpsertReserve(t', protocolID, ms[last], gen, now);
      (t'', ids[ms[last].marketID := t''.reserves[(protocolID, ms[last].marketID)].id])
  }

  /** Snapshots of markets that the dataset has no reserve for are passed over. */
  function UpsertSnapshots(
      t: Tables, ids: map<string, string>, ms: seq<SnapshotMetric>, gen: IdSource, now: int): Tables {
    if ms == [] then t
    else
      var last := |ms| - 1;
      var t' := UpsertSnapshots(t, ids, ms[..last], gen, now);
      if ms[last].marketID in ids then UpsertSnapshot(t', ids[ms[last].marketID], ms[last], gen, now) else t'
  }

  function ApplyDataset(t: Tables, protocolID: string, d: Dataset, gen: IdSource, now: int): Tables {
    var (t1, ids) := UpsertReserves(t, protocolID, d.reserves, gen, now);
    UpsertSnapshots(t1, ids, d.snapshots, gen, now)
  }

  // ----- the transaction -----

  /** How many of the first `n` statements are accepted before one is rejected. */
  function BeforeFault(fails: nat -> bool, n: nat): (accepted: nat)
    ensures accepted <= n && forall i :: 0 <= i < accepted ==> !fails(i)
    ensures accepted < n ==> fails(accepted)
  {
    if n == 0 then 0
    else
      var before := BeforeFault(fails, n - 1);
      if before < n - 1 || fails(n - 1) then before else n
  }

  predicate Listed(d: Dataset, marketID: string) {
    exists i :: 0 <= i < |d.reserves| && d.reserves[i].marketID == marketID
  }

  /**
   The database accepts every statement that the transaction executes: one per reserve, one per snapshot whose
   market has a reserve, and the commit.
   */
  ghost predicate Accepted(d: Dataset, fails: nat -> bool) {
    && (forall i :: 0 <= i < |d.reserves| ==> !fails(i))
    && SnapshotsAccepted(d, fails)
    && !fails(|d.reserves| + |d.snapshots|)
  }

  ghost predicate SnapshotsAccepted(d: Dataset, fails: nat -> bool) {
    forall i :: 0 <= i < |d.snapshots| && Listed(d, d.snapshots[i].marketID) ==> !fails(|d.reserves| + i)
  }

  /** The same with the map of ids to go by, statements numbered from `first`. */
  ghost predicate SnapshotsWritten(ids: map<string, string>, ms: seq<SnapshotMetric>, first: nat, fails: nat -> bool) {
    forall i :: 0 <= i < |ms| && ms[i].marketID in ids ==> !fails(first + i)
  }

  class Repository {
    var tables: Tables

    constructor ()
      ensures tables == EMPTY
    {
      tables := EMPTY;
    }

    method EnsureProtocolRow(endpoint: string, demo: bool, gen: IdSource) returns (p: Protocol)
      modifies this
      ensures (tables, p) == EnsureProtocol(old(tables), endpoint, demo, gen)
      ensures "aave-v3-ethereum" in old(tables).protocols ==>
                tables == old(tables) && p == old(tables).protocols["aave-v3-ethereum"]
      ensures "aave-v3-ethereum" !in old(tables).protocols ==>
                && p.slug == "aave-v3-ethereum" && p.endpoint == endpoint && p.demo == demo && p.enabled
                && Fresh(old(tables), p.id)
                && tables == old(tables).(protocols := old(tables).protocols["aave-v3-ethereum" := p])
    {
      if SLUG in tables.protocols { return tables.protocols[SLUG]; }
      p := Protocol(gen(tables), SLUG, endpoint, demo, true);
      tables := tables.(protocols := tables.protocols[SLUG := p]);
    }

    /**
     The transaction. `fails` says which of its statements the database rejects, numbered in the order
     reserves, snapshots, commit; a rejected statement ends it and puts everything back.
     */
    method Apply(protocolID: string, d: Dataset, gen: IdSource, now: int, fails: nat -> bool)
      returns (written: nat, ok: bool)
      modifies this
      ensures ok <==> Accepted(d, fails)
      ensures ok <==>
                && (forall i :: 0 <= i < |d.reserves| ==> !fails(i))
                && (forall i, j :: 0 <= i < |d.snapshots| && 0 <= j < |d.reserves| ==>
                      (d.reserves[j].marketID == d.snapshots[i].marketID ==> !fails(|d.reserves| + i)))
                && !fails(|d.reserves| + |d.snapshots|)
      ensures tables == if ok then ApplyDataset(old(tables), protocolID, d, gen, now) else old(tables)
      ensures written == BeforeFault(fails, |d.reserves|)
    {
      var saved := tables;
      var reserveIDs;
      reserveIDs, written, ok := WriteReserves(protocolID, d.reserves, gen, now, fails);
      if ok {
        ListedSnapshots(saved, protocolID, d, gen, now, fails);
        ok := WriteSnapshots(reserveIDs, d.snapshots, |d.reserves|, gen, now, fails);
      }
      ok := ok && !fails(|d.reserves| + |d.snapshots|);
      if !ok { tables := saved; }
      AcceptedSays(d, fails);
    }

    method WriteReserves(protocolID: string, ms: seq<ReserveMetric>, gen: IdSource, now: int, fails: nat -> bool)
      returns (reserveIDs: map<string, string>, written: nat, ok: bool)
      modifies this
      ensures ok <==> forall n: nat :: n < |ms| ==> !fails(n)
      ensures ok ==> (tables, reserveIDs) == UpsertReserves(old(tables), protocolID, ms, gen, now)
      ensures written == BeforeFault(fails, |ms|)
    {
      reserveIDs, written := map[], 0;
      for i := 0 to |ms|
        invariant written == i && forall n: nat :: n < i ==> !fails(n)
        invariant (tables, reserveIDs) == UpsertReserves(old(tables), protocolID, ms[..i], gen, now)
      {
        if fails(i) { return reserveIDs, written, false; }
        assert ms[..i + 1][..i] == ms[..i];
        tables := UpsertReserve(tables, protocolID, ms[i], gen, now);
        reserveIDs := reserveIDs[ms[i].marketID := tables.reserves[(protocolID, ms[i].marketID)].id];
        written := written + 1;
      }
      assert ms[..|ms|] == ms;
      ok := true;
    }

    method WriteSnapshots(
        ids: map<string, string>, ms: seq<SnapshotMetric>, first: nat, gen: IdSource, now: int, fails: nat -> bool)
      returns (ok: bool)
      modifies this
      ensures ok <==> SnapshotsWritten(ids, ms, first, fails)
      ensures ok ==> tables == UpsertSnapshots(old(tables), ids, ms, gen, now)
    {
      for i := 0 to |ms|
        invariant tables == UpsertSnapshots(old(tables), ids, ms[..i], gen, now)
        invariant forall n :: 0 <= n < i && ms[n].marketID in ids ==> !fails(first + n)
      {
        assert ms[..i + 1][..i] == ms[..i];
        if ms[i].marketID !in ids { continue; }
        if fails(first + i) { return false; }
        tables := UpsertSnapshot(tables, ids[ms[i].marketID], ms[i], gen, now);
      }
      assert ms[..|ms|] == ms;
      ok := true;
    }
  }

  // ----- what one dataset does to each row -----

  /** The last metric for a market in a list. */
  function LastFor(ms: seq<ReserveMetric>, marketID: string): Option<ReserveMetric> {
    if ms == [] then None
    else if ms[|ms| - 1].marketID == marketID then Some(ms[|ms| - 1])
    else LastFor(ms[..|ms| - 1], marketID)
  }

  /** What is last in a list: an entry for the market with none for it behind, or nothing if there is none at all. */
  lemma {:induction false} LastForSays(ms: seq<ReserveMetric>, marketID: string)
    ensures match LastFor(ms, marketID)
            case None => forall i :: 0 <= i < |ms| ==> ms[i].marketID != marketID
            case Some(m) => exists i :: 0 <= i < |ms| && ms[i] == m && m.marketID == marketID
                                        && forall j :: i < j < |ms| ==> ms[j].marketID != marketID
  {
    if ms != [] && ms[|ms| - 1].marketID != marketID {
      var init := ms[..|ms| - 1];
      LastForSays(init, marketID);
      assert forall i :: 0 <= i < |init| ==> init[i] == ms[i];
      if m: ReserveMetric :| LastFor(init, marketID) == Some(m) {
        var i :| 0 <= i < |init| && init[i] == m && m.marketID == marketID
                 && forall j :: i < j < |init| ==> init[j].marketID != marketID;
        assert ms[i] == m;
      }
    }
  }

  predicate IsAt(m: SnapshotMetric, marketID: string, at: int) {
    m.marketID == marketID && m.snapshotAt == at
  }

  ghost predicate LastIs(ms: seq<SnapshotMetric>, i: nat, marketID: string, at: int) {
    i < |ms| && IsAt(ms[i], marketID, at) && forall j :: i < j < |ms| ==> !IsAt(ms[j], marketID, at)
  }

  lemma {:induction false} LastSnapshotForSays(ms: seq<SnapshotMetric>, marketID: string, at: int)
    ensures match LastSnapshotFor(ms, marketID, at)
            case None => forall i :: 0 <= i < |ms| ==> !IsAt(ms[i], marketID, at)
            case Some(m) => exists i: nat :: LastIs(ms, i, marketID, at) && ms[i] == m
  {
    if ms != [] {
      var init := ms[..|ms| - 1];
      if IsAt(ms[|ms| - 1], marketID, at) {
        assert LastIs(ms, |ms| - 1, marketID, at);
      } else {
        LastSnapshotForSays(init, marketID, at);
        assert forall i :: 0 <= i < |init| ==> init[i] == ms[i];
        if LastSnapshotFor(init, marketID, at).Some? {
          var i: nat :| LastIs(init, i, marketID, at) && init[i] == LastSnapshotFor(init, marketID, at).value;
          assert LastIs(ms, i, marketID, at);
        }
      }
    }
  }

  /** Every upserted row gets the time of the call, and a new one has it as its creation time too. */
  lemma {:induction false} UpsertTimes(
      t: Tables, protocolID: string, ms: seq<ReserveMetric>, gen: IdSource, now: int, marketID: string)
    requires LastFor(ms, marketID).Some?
    ensures var k, t' := (protocolID, marketID), UpsertReserves(t, protocolID, ms, gen, now).0;
            && k in t'.reserves && t'.reserves[k].updatedAt == now
            && (k !in t.reserves ==> t'.reserves[k].createdAt == now && t'.reserves[k].protocolID == protocolID)
  {
    var last := |ms| - 1;
    if LastFor(ms[..last], marketID).Some? {
      UpsertTimes(t, protocolID, ms[..last], gen, now, marketID);
    } else {
      UpsertReservesAt(t, protocolID, ms[..last], gen, now, (protocolID, marketID));
    }
  }

  lemma {:induction false} LastForListed(ms: seq<ReserveMetric>, marketID: string)
    ensures LastFor(ms, marketID).Some? <==> exists i :: 0 <= i < |ms| && ms[i].marketID == marketID
  {
    if ms != [] {
      var last := |ms| - 1;
      LastForListed(ms[..last], marketID);
      if i :| 0 <= i < |ms| && ms[i].marketID == marketID {
        if i < last { assert ms[..last][i] == ms[i]; }
      }
      if i :| 0 <= i < |ms[..last]| && ms[..last][i].marketID == marketID { assert ms[i] == ms[..last][i]; }
    }
  }

  /** Once the reserves are written, exactly the listed markets have an id for their snapshots. */
  lemma ListedHaveIDs(t: Tables, protocolID: string, d: Dataset, gen: IdSource, now: int)
    ensures forall market :: market in UpsertReserves(t, protocolID, d.reserves, gen, now).1 <==> Listed(d, market)
  {
    forall market ensures market in UpsertReserves(t, protocolID, d.reserves, gen, now).1 <==> Listed(d, market) {
      UpsertReservesAt(t, protocolID, d.reserves, gen, now, (protocolID, market));
      LastForListed(d.reserves, market);
    }
  }

  lemma AcceptedSays(d: Dataset, fails: nat -> bool)
    ensures Accepted(d, fails) <==>
              && (forall i :: 0 <= i < |d.reserves| ==> !fails(i))
              && (forall i, j :: 0 <= i < |d.snapshots| && 0 <= j < |d.reserves| ==>
                    (d.reserves[j].marketID == d.snapshots[i].marketID ==> !fails(|d.reserves| + i)))
              && !fails(|d.reserves| + |d.snapshots|)
  {
  }

  lemma ListedSnapshots(t: Tables, protocolID: string, d: Dataset, gen: IdSource, now: int, fails: nat -> bool)
    ensures SnapshotsWritten(UpsertReserves(t, protocolID, d.reserves, gen, now).1, d.snapshots, |d.reserves|, fails)
       <==> SnapshotsAccepted(d, fails)
  {
    ListedHaveIDs(t, protocolID, d, gen, now);
  }

  /** Row `k` after some upserts: same id and creation time as before, and the given metric if there was one. */
  ghost predicate RowAfter(t: Tables, t': Tables, k: ReserveKey, m: Option<ReserveMetric>) {
    && (k in t'.reserves <==> k in t.reserves || m.Some?)
    && (k in t.reserves ==>
          t'.reserves[k].id == t.reserves[k].id && t'.reserves[k].createdAt == t.reserves[k].createdAt)
    && (k in t.reserves && m.None? ==> t'.reserves[k] == t.reserves[k])
    && (m.Some? ==> t'.reserves[k].metric == m.value)
  }

  lemma {:induction false} UpsertReservesAt(
      t: Tables, protocolID: string, ms: seq<ReserveMetric>, gen: IdSource, now: int, k: ReserveKey)
    ensures var (t', ids) := UpsertReserves(t, protocolID, ms, gen, now);
            && t' == t.(reserves := t'.reserves)
            && RowAfter(t, t', k, if k.0 == protocolID then LastFor(ms, k.1) else None)
            && (k.1 in ids <==> LastFor(ms, k.1).Some?)
            && (k.0 == protocolID && k.1 in ids ==> k in t'.reserves && ids[k.1] == t'.reserves[k].id)
  {
    if ms != [] {
      UpsertReservesAt(t, protocolID, ms[..|ms| - 1], gen, now, k);
    }
  }

  /**
   Rows are stored under their natural key, ids are non-empty, distinct, and snapshots hang on reserves that exist.
   */
  ghost predicate Inv(t: Tables) {
    && (forall k :: k in t.reserves ==>
          t.reserves[k].id != "" && t.reserves[k].protocolID == k.0 && t.reserves[k].metric.marketID == k.1)
    && (forall k, l :: k in t.reserves && l in t.reserves && t.reserves[k].id == t.reserves[l].id ==> k == l)
    && (forall k :: k in t.snapshots ==>
          t.snapshots[k].reserveID == k.0 && t.snapshots[k].metric.snapshotAt == k.1
          && exists r :: r in t.reserves && t.reserves[r].id == k.0 && t.snapshots[k].metric.marketID == r.1)
  }

  lemma UpsertReserveKeepsInv(t: Tables, protocolID: string, m: ReserveMetric, gen: IdSource, now: int)
    requires Inv(t)
    ensures Inv(UpsertReserve(t, protocolID, m, gen, now))
  {
    assert Fresh(t, gen(t));
    SnapshotsStayAttached(t, UpsertReserve(t, protocolID, m, gen, now));
  }

  lemma SnapshotsStayAttached(t: Tables, t': Tables)
    requires Inv(t) && t'.snapshots == t.snapshots
    requires forall r :: r in t.reserves ==> r in t'.reserves && t'.reserves[r].id == t.reserves[r].id
    ensures forall k :: k in t'.snapshots ==>
              exists r :: r in t'.reserves && t'.reserves[r].id == k.0 && t'.snapshots[k].metric.marketID == r.1
  {
    forall k | k in t'.snapshots
      ensures exists r :: r in t'.reserves && t'.reserves[r].id == k.0 && t'.snapshots[k].metric.marketID == r.1
    {
      var r :| r in t.reserves && t.reserves[r].id == k.0 && t.snapshots[k].metric.marketID == r.1;
      assert t'.reserves[r].id == k.0;
    }
  }

  lemma {:induction false} UpsertReservesKeepInv(
      t: Tables, protocolID: string, ms: seq<ReserveMetric>, gen: IdSource, now: int)
    requires Inv(t)
    ensures Inv(UpsertReserves(t, protocolID, ms, gen, now).0)
  {
    if ms != [] {
      UpsertReservesKeepInv(t, protocolID, ms[..|ms| - 1], gen, now);
      var t' := UpsertReserves(t, protocolID, ms[..|ms| - 1], gen, now).0;
      UpsertReserveKeepsInv(t', protocolID, ms[|ms| - 1], gen, now);
    }
  }

  /** The last metric for a market and time in a list. */
  function LastSnapshotFor(ms: seq<SnapshotMetric>, marketID: string, at: int): Option<SnapshotMetric> {
    if ms == [] then None
    else if ms[|ms| - 1].marketID == marketID && ms[|ms| - 1].snapshotAt == at then Some(ms[|ms| - 1])
    else LastSnapshotFor(ms[..|ms| - 1], marketID, at)
  }

  /** `ids` maps markets to the ids of their rows under `protocolID`. */
  ghost predicate IdsOfRows(t: Tables, protocolID: string, ids: map<string, string>) {
    forall market :: market in ids ==>
      (protocolID, market) in t.reserves && ids[market] == t.reserves[(protocolID, market)].id
  }

  ghost predicate SnapshotAfter(t: Tables, t': Tables, k: SnapshotKey, m: Option<SnapshotMetric>) {
    && (k in t'.snapshots <==> k in t.snapshots || m.Some?)
    && (k in t.snapshots ==>
          t'.snapshots[k].id == t.snapshots[k].id && t'.snapshots[k].createdAt == t.snapshots[k].createdAt)
    && (k in t.snapshots && m.None? ==> t'.snapshots[k] == t.snapshots[k])
    && (m.Some? ==> t'.snapshots[k].metric == m.value)
  }

  lemma SnapshotKeepsInv(t: Tables, r: ReserveKey, m: SnapshotMetric, gen: IdSource, now: int)
    requires Inv(t) && r in t.reserves && r.1 == m.marketID
    ensures Inv(UpsertSnapshot(t, t.reserves[r].id, m, gen, now))
  {
  }

  lemma {:induction false} UpsertSnapshotsKeepInv(
      t: Tables, protocolID: string, ids: map<string, string>, ms: seq<SnapshotMetric>, gen: IdSource, now: int)
    requires Inv(t) && IdsOfRows(t, protocolID, ids)
    ensures var t' := UpsertSnapshots(t, ids, ms, gen, now);
            t' == t.(snapshots := t'.snapshots) && Inv(t')
  {
    if ms != [] {
      var last := |ms| - 1;
      UpsertSnapshotsKeepInv(t, protocolID, ids, ms[..last], gen, now);
      if ms[last].marketID in ids {
        var t' := UpsertSnapshots(t, ids, ms[..last], gen, now);
        SnapshotKeepsInv(t', (protocolID, ms[last].marketID), ms[last], gen, now);
      }
    }
  }

  /** The snapshot row of reserve `r` at a time, after a list of snapshots. */
  lemma {:induction false} UpsertSnapshotsAt(
      t: Tables, protocolID: string, ids: map<string, string>, ms: seq<SnapshotMetric>, gen: IdSource, now: int,
      r: ReserveKey, at: int)
    requires Inv(t) && IdsOfRows(t, protocolID, ids) && r in t.reserves
    ensures SnapshotAfter(t, UpsertSnapshots(t, ids, ms, gen, now), (t.reserves[r].id, at),
                          if r.0 == protocolID && r.1 in ids then LastSnapshotFor(ms, r.1, at) else None)
  {
    if ms != [] {
      var last := |ms| - 1;
      UpsertSnapshotsAt(t, protocolID, ids, ms[..last], gen, now, r, at);
      if ms[last].marketID in ids {
        var t' := UpsertSnapshots(t, ids, ms[..last], gen, now);
        var hit: ReserveKey := (protocolID, ms[last].marketID);
        assert ids[ms[last].marketID] == t.reserves[hit].id;
        assert t.reserves[hit].id == t.reserves[r].id <==> r == hit;
        UpsertSnapshotAt(t, t', t.reserves[hit].id, ms[last], gen, now, (t.reserves[r].id, at),
                         if r.0 == protocolID && r.1 in ids then LastSnapshotFor(ms[..last], r.1, at) else None);
      }
    }
  }

  /** One more snapshot. */
  lemma UpsertSnapshotAt(
      t: Tables, t': Tables, reserveID: string, m: SnapshotMetric, gen: IdSource, now: int, k: SnapshotKey,
      before: Option<SnapshotMetric>)
    requires SnapshotAfter(t, t', k, before)
    ensures SnapshotAfter(t, UpsertSnapshot(t', reserveID, m, gen, now), k, if k
        == (reserveID, m.snapshotAt) then Some(m) else before)
  {
  }

  /** `t'` is `t` after a dataset, as far as reserve `r` and its snapshot at a time go. */
  ghost predicate DatasetSeen(t: Tables, t': Tables, protocolID: string, d: Dataset, r: ReserveKey, at: int) {
    && Inv(t) && Inv(t') && t'.protocols == t.protocols
    && RowAfter(t, t', r, if r.0 == protocolID then LastFor(d.reserves, r.1) else None)
    && (r in t'.reserves ==>
          SnapshotAfter(t, t', (t'.reserves[r].id, at),
                        if r.0 == protocolID && LastFor(d.reserves, r.1).Some?
                        then LastSnapshotFor(d.snapshots, r.1, at) else None))
  }

  /** One whole dataset: what it does to a reserve row and to a snapshot row. */
  lemma DatasetAt(t: Tables, protocolID: string, d: Dataset, gen: IdSource, now: int, r: ReserveKey, at: int)
    requires Inv(t)
    ensures DatasetSeen(t, ApplyDataset(t, protocolID, d, gen, now), protocolID, d, r, at)
  {
    var (t1, ids) := UpsertReserves(t, protocolID, d.reserves, gen, now);
    UpsertReservesAt(t, protocolID, d.reserves, gen, now, r);
    UpsertReservesKeepInv(t, protocolID, d.reserves, gen, now);
    forall market | market in ids ensures (protocolID, market) in t1.reserves
        && ids[market] == t1.reserves[(protocolID, market)].id {
      UpsertReservesAt(t, protocolID, d.reserves, gen, now, (protocolID, market));
    }
    UpsertSnapshotsKeepInv(t1, protocolID, ids, d.snapshots, gen, now);
    if r in t1.reserves {
      UpsertSnapshotsAt(t1, protocolID, ids, d.snapshots, gen, now, r, at);
    }
  }

  // ----- runs -----

  datatype Run = Run(protocolID: string, dataset: Dataset, committed: bool, gen: IdSource, now: int)

  type Protocols = map<string, Protocol>

  /**
   The tables after a sequence of runs, beside the given protocol rows; a transaction that failed contributes
   nothing.
   */
  function Replay(runs: seq<Run>, ps: Protocols): Tables {
    if |runs| == 0 then EMPTY.(protocols := ps)
    else
      var run := runs[|runs| - 1];
      var t := Replay(runs[..|runs| - 1], ps);
      if run.committed then ApplyDataset(t, run.protocolID, run.dataset, run.gen, run.now) else t
  }

  /** The last metric for a market over all committed datasets, in order. */
  function LastMetric(runs: seq<Run>, r: ReserveKey): Option<ReserveMetric> {
    if |runs| == 0 then None
    else
      var run := runs[|runs| - 1];
      if run.committed && run.protocolID == r.0 && LastFor(run.dataset.reserves, r.1).Some?
      then LastFor(run.dataset.reserves, r.1)
      else LastMetric(runs[..|runs| - 1], r)
  }

  /** The last snapshot for a market and time over all committed datasets that list the market. */
  function LastSnapshot(runs: seq<Run>, r: ReserveKey, at: int): Option<SnapshotMetric> {
    if |runs| == 0 then None
    else
      var run := runs[|runs| - 1];
      if run.committed && run.protocolID == r.0 && LastFor(run.dataset.reserves, r.1).Some?
         && LastSnapshotFor(run.dataset.snapshots, r.1, at).Some?
      then LastSnapshotFor(run.dataset.snapshots, r.1, at)
      else LastSnapshot(runs[..|runs| - 1], r, at)
  }

  ghost predicate LastListed(runs: seq<Run>, n: nat, r: ReserveKey) {
    n < |runs| && Lists(runs[n], r) && forall l :: n < l < |runs| ==> !Lists(runs[l], r)
  }

  /** What is last over runs: the last metric of a committed run for the market, with none committed for it behind. */
  lemma {:induction false} LastMetricSays(runs: seq<Run>, r: ReserveKey)
    ensures match LastMetric(runs, r)
            case None => forall n :: 0 <= n < |runs| ==> !Lists(runs[n], r)
            case Some(m) =>
              exists n: nat :: LastListed(runs, n, r) && LastFor(runs[n].dataset.reserves, r.1) == Some(m)
  {
    if |runs| != 0 {
      var last, init := |runs| - 1, runs[..|runs| - 1];
      LastForListed(runs[last].dataset.reserves, r.1);
      if Lists(runs[last], r) {
        assert LastListed(runs, last, r);
      } else {
        LastMetricSays(init, r);
        assert forall n :: 0 <= n < |init| ==> init[n] == runs[n];
        if LastMetric(init, r).Some? {
          var n: nat :| LastListed(init, n, r) && LastFor(init[n].dataset.reserves, r.1) == LastMetric(init, r);
          assert LastListed(runs, n, r);
        }
      }
    }
  }

  /** A run that committed a metric for the market. */
  predicate Lists(run: Run, r: ReserveKey) {
    run.committed && run.protocolID == r.0
    && exists i :: 0 <= i < |run.dataset.reserves| && run.dataset.reserves[i].marketID == r.1
  }

  /** One row per market, holding the last committed metric. */
  lemma {:induction false} ReservesAreLast(runs: seq<Run>, ps: Protocols, r: ReserveKey)
    ensures var t := Replay(runs, ps);
            && Inv(t)
            && (r in t.reserves <==> LastMetric(runs, r).Some?)
            && (r in t.reserves ==>
                  t.reserves[r].metric == LastMetric(runs, r).value && t.reserves[r].protocolID == r.0)
  {
    if |runs| != 0 {
      var run := runs[|runs| - 1];
      ReservesAreLast(runs[..|runs| - 1], ps, r);
      if run.committed {
        DatasetAt(Replay(runs[..|runs| - 1], ps), run.protocolID, run.dataset, run.gen, run.now, r, 0);
      }
    }
  }

  /** The id of a row is the one from its first insertion. */
  lemma {:induction false} IdsAreStable(runs: seq<Run>, ps: Protocols, n: nat, r: ReserveKey)
    requires n <= |runs| && r in Replay(runs[..n], ps).reserves
    ensures r in Replay(runs, ps).reserves
    ensures Replay(runs, ps).reserves[r].id == Replay(runs[..n], ps).reserves[r].id
    ensures Replay(runs, ps).reserves[r].createdAt == Replay(runs[..n], ps).reserves[r].createdAt
    decreases |runs| - n
  {
    if n == |runs| {
      assert runs[..n] == runs;
    } else {
      assert runs[..n + 1][..n] == runs[..n];
      ReservesAreLast(runs[..n], ps, r);
      if runs[n].committed {
        DatasetAt(Replay(runs[..n], ps), runs[n].protocolID, runs[n].dataset, runs[n].gen, runs[n].now, r, 0);
      }
      IdsAreStable(runs, ps, n + 1, r);
    }
  }

  /** No snapshot hangs on an id that no reserve has. */
  lemma NoSnapshotYet(t: Tables, k: SnapshotKey)
    requires Inv(t) && forall r :: r in t.reserves ==> t.reserves[r].id != k.0
    ensures k !in t.snapshots
  {
  }

  /** One row per reserve and time, holding the last committed value, under the reserve's id. */
  lemma {:induction false} SnapshotsAreLast(runs: seq<Run>, ps: Protocols, r: ReserveKey, at: int)
    requires r in Replay(runs, ps).reserves
    ensures var t := Replay(runs, ps);
            var k := (t.reserves[r].id, at);
            && (k in t.snapshots <==> LastSnapshot(runs, r, at).Some?)
            && (k in t.snapshots ==> t.snapshots[k].metric == LastSnapshot(runs, r, at).value)
  {
    if |runs| != 0 {
      var run := runs[|runs| - 1];
      var before, t := Replay(runs[..|runs| - 1], ps), Replay(runs, ps);
      ReservesAreLast(runs[..|runs| - 1], ps, r);
      if run.committed {
        DatasetAt(before, run.protocolID, run.dataset, run.gen, run.now, r, at);
        if r in before.reserves {
          SnapshotsAreLast(runs[..|runs| - 1], ps, r, at);
        } else {
          NewIdUnused(before, run, r);
          NoSnapshotYet(before, (t.reserves[r].id, at));
          NeverListed(runs[..|runs| - 1], r, at);
        }
      } else {
        SnapshotsAreLast(runs[..|runs| - 1], ps, r, at);
      }
    }
  }

  /** A reserve inserted by a run has an id that no earlier reserve had. */
  lemma NewIdUnused(before: Tables, run: Run, r: ReserveKey)
    requires Inv(before) && r !in before.reserves
    requires r in ApplyDataset(before, run.protocolID, run.dataset, run.gen, run.now).reserves
    ensures forall o :: o in before.reserves ==>
              before.reserves[o].id !=
                ApplyDataset(before, run.protocolID, run.dataset, run.gen, run.now).reserves[r].id
  {
    var t := ApplyDataset(before, run.protocolID, run.dataset, run.gen, run.now);
    forall o | o in before.reserves ensures before.reserves[o].id != t.reserves[r].id {
      DatasetAt(before, run.protocolID, run.dataset, run.gen, run.now, o, 0);
    }
  }

  lemma {:induction false} NeverListed(runs: seq<Run>, r: ReserveKey, at: int)
    requires LastMetric(runs, r).None?
    ensures LastSnapshot(runs, r, at).None?
  {
    if |runs| != 0 { NeverListed(runs[..|runs| - 1], r, at); }
  }

  /** Every stored snapshot belongs to a stored reserve of its own market, and no two reserves share an id. */
  lemma NoOrphans(runs: seq<Run>, ps: Protocols)
    ensures Inv(Replay(runs, ps))
  {
    ReservesAreLast(runs, ps, ("", ""));
  }

  /** The same rows under the same keys, up to the time of the last update of reserves. */
  ghost predicate SameButTimes(t: Tables, t': Tables) {
    && t'.protocols == t.protocols
    && t'.reserves.Keys == t.reserves.Keys
    && (forall r :: r in t.reserves ==> t'.reserves[r] == t.reserves[r].(updatedAt := t'.reserves[r].updatedAt))
    && t'.snapshots == t.snapshots
  }

  /** The two tables agree on reserve `r`, up to its last update, and on its snapshot at a time. */
  ghost predicate AgreeAt(t: Tables, t': Tables, r: ReserveKey, at: int) {
    && (r in t'.reserves <==> r in t.reserves)
    && (r in t.reserves ==>
          && t'.reserves[r] == t.reserves[r].(updatedAt := t'.reserves[r].updatedAt)
          && ((t.reserves[r].id, at) in t'.snapshots <==> (t.reserves[r].id, at) in t.snapshots)
          && ((t.reserves[r].id, at) in t.snapshots ==>
                t'.snapshots[(t.reserves[r].id, at)] == t.snapshots[(t.reserves[r].id, at)]))
  }

  lemma SeenTwice(t: Tables, t1: Tables, t2: Tables, protocolID: string, d: Dataset, r: ReserveKey, at: int)
    requires DatasetSeen(t, t1, protocolID, d, r, at) && DatasetSeen(t1, t2, protocolID, d, r, at)
    ensures AgreeAt(t1, t2, r, at)
  {
  }

  lemma SnapshotAgrees(t: Tables, t': Tables, k: SnapshotKey)
    requires Inv(t) && Inv(t') && forall r, at :: AgreeAt(t, t', r, at)
    ensures k in t'.snapshots <==> k in t.snapshots
    ensures k in t.snapshots ==> t'.snapshots[k] == t.snapshots[k]
  {
    if k in t.snapshots {
      var r :| r in t.reserves && t.reserves[r].id == k.0;
      assert AgreeAt(t, t', r, k.1);
    }
    if k in t'.snapshots {
      var r :| r in t'.reserves && t'.reserves[r].id == k.0;
      assert AgreeAt(t, t', r, k.1);
    }
  }

  lemma SnapshotsAgree(t: Tables, t': Tables)
    requires Inv(t) && Inv(t') && forall r, at :: AgreeAt(t, t', r, at)
    ensures t'.snapshots == t.snapshots
  {
    forall k ensures k in t'.snapshots <==> k in t.snapshots
             ensures k in t.snapshots ==> t'.snapshots[k] == t.snapshots[k]
    {
      SnapshotAgrees(t, t', k);
    }
  }

  lemma ReservesAgree(t: Tables, t': Tables)
    requires forall r, at :: AgreeAt(t, t', r, at)
    ensures t'.reserves.Keys == t.reserves.Keys
    ensures forall r :: r in t.reserves ==> t'.reserves[r] == t.reserves[r].(updatedAt := t'.reserves[r].updatedAt)
  {
    forall r
      ensures r in t'.reserves <==> r in t.reserves
      ensures r in t.reserves ==> t'.reserves[r] == t.reserves[r].(updatedAt := t'.reserves[r].updatedAt)
    {
      assert AgreeAt(t, t', r, 0);
    }
  }

  /** Applying the same dataset again leaves every row as it is, up to the time of its last update. */
  lemma ReapplyChangesOnlyTimes(
      t: Tables, protocolID: string, d: Dataset, gen: IdSource, now: int, gen': IdSource, now': int)
    requires Inv(t)
    ensures SameButTimes(ApplyDataset(t, protocolID, d, gen, now),
                         ApplyDataset(ApplyDataset(t, protocolID, d, gen, now), protocolID, d, gen', now'))
  {
    var t1 := ApplyDataset(t, protocolID, d, gen, now);
    var t2 := ApplyDataset(t1, protocolID, d, gen', now');
    DatasetAt(t, protocolID, d, gen, now, ("", ""), 0);
    DatasetAt(t1, protocolID, d, gen', now', ("", ""), 0);
    forall r, at ensures AgreeAt(t1, t2, r, at) {
      DatasetAt(t, protocolID, d, gen, now, r, at);
      DatasetAt(t1, protocolID, d, gen', now', r, at);
      SeenTwice(t, t1, t2, protocolID, d, r, at);
    }
    ReservesAgree(t1, t2);
    SnapshotsAgree(t1, t2);
  }
}
