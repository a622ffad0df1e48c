/** `MVCCController` (src/mvcc/controller.rs): a version counter, the snapshots
    kept per version, and the ids of the transactions still running. */
module Mvcc {
  import opened Base
  import opened Types

  datatype IsolationLevel = ReadCommitted | RepeatableRead | Serializable

  /** `Snapshot`; the creation time is left out and the deleted-document bitmap is
      the set of its members. */
  datatype Snapshot = Snapshot(version: U64, segments: seq<Segment>, docCount: nat, deletedDocs: set<U32>)

  /** `Snapshot::default()`. */
  const EmptySnapshot := Snapshot(0, [], 0, {})

  /** The write operations of the controller's own transaction record. */
  datatype Operation = AddDocument(doc: Document) | DeleteDocument(id: DocId) | UpdateDocument(id: DocId, doc: Document)

  /** The transaction record `begin_transaction` hands out. */
  datatype MvccTransaction = MvccTransaction(id: U64, snapshot: Snapshot, operations: seq<Operation>,
                                             isolationLevel: IsolationLevel)

  /** `max_versions` of a new controller. */
  const MAX_VERSIONS: nat := 100

  /** `fetch_add(1)` on an `AtomicU64`: wraps to 0 after the maximum. */
  function NextVersion(v: U64): (r: U64)
    ensures v < U64_MAX ==> r == v + 1
    ensures v == U64_MAX ==> r == 0
  {
    (v + 1) % U64_MOD
  }

  /** The sum of the segments' document counts. */
  function DocCountSum(segments: seq<Segment>): nat
  {
    if segments == [] then 0 else DocCountSum(segments[..|segments| - 1]) + segments[|segments| - 1].docCount
  }

  /** The `map(..).sum()` over the segments' document counts. */
  method SumDocCounts(segments: seq<Segment>) returns (total: nat)
    ensures total == DocCountSum(segments)
  {
    total := 0;
    for i := 0 to |segments|
      invariant total == DocCountSum(segments[..i])
    {
      assert segments[..i + 1][..i] == segments[..i];
      total := total + segments[i].docCount;
    }
    assert segments[..|segments|] == segments;
  }

  /** The smallest element of a non-empty set of ids. */
  ghost function MinOf(s: set<U64>): (m: U64)
    requires s != {}
    ensures m in s && forall x :: x in s ==> m <= x
    decreases s
  {
    var x :| x in s;
    var rest := s - {x};
    assert s == rest + {x};
    if rest == {} then x
    else
      var m := MinOf(rest);
      if x <= m then x else m
  }

  /** `min()` over the active ids, `u64::MAX` when there are none. */
  ghost function MinActive(active: set<U64>): U64
  {
    if active == {} then U64_MAX else MinOf(active)
  }

  /** `gc_old_versions`: above `maxVersions` entries, keep the versions at or after the
      oldest active transaction (or every version if there are at most half of
      `maxVersions`, which cannot hold at that point). */
  ghost function Gc(versions: map<U64, Snapshot>, active: set<U64>, maxVersions: nat): map<U64, Snapshot>
  {
    if |versions| > maxVersions then
      var minActive := MinActive(active);
      var currentLen := |versions|;
      map v | v in versions && (v >= minActive || currentLen <= maxVersions / 2) :: versions[v]
    else versions
  }

  /** At or below the limit nothing is collected. */
  lemma GcBelowLimit(versions: map<U64, Snapshot>, active: set<U64>, maxVersions: nat)
    requires |versions| <= maxVersions
    ensures Gc(versions, active, maxVersions) == versions
  {
  }

  /** Above the limit, while some transaction is active, exactly the versions at or
      after the oldest active transaction stay, with their snapshots; the "at most
      half" escape never applies. */
  lemma GcAboveLimit(versions: map<U64, Snapshot>, active: set<U64>, maxVersions: nat)
    requires |versions| > maxVersions && active != {}
    ensures forall v :: v in Gc(versions, active, maxVersions) <==>
              v in versions && exists t :: t in active && t <= v
    ensures forall v :: v in Gc(versions, active, maxVersions) ==> Gc(versions, active, maxVersions)[v] == versions[v]
  {
    assert !(|versions| <= maxVersions / 2);
    var kept := Gc(versions, active, maxVersions);
    var m := MinOf(active);
    forall v
      ensures v in kept <==> v in versions && exists t :: t in active && t <= v
    {
      if v in kept {
        assert m in active && m <= v;
      }
    }
  }

  /** With no transaction running, a collection leaves at most version `u64::MAX`. */
  lemma GcNoActive(versions: map<U64, Snapshot>, maxVersions: nat)
    requires |versions| > maxVersions
    ensures Gc(versions, {}, maxVersions).Keys <= {U64_MAX}
  {
    assert !(|versions| <= maxVersions / 2);
  }

  /** With no transaction running, a collection removes every version below
      `u64::MAX`, so the current snapshot falls back to the empty default. */
  lemma GcIdleEmpties(versions: map<U64, Snapshot>, maxVersions: nat, counter: U64)
    requires |versions| > maxVersions && U64_MAX !in versions
    ensures Gc(versions, {}, maxVersions) == map[]
    ensures CurrentIn(Gc(versions, {}, maxVersions), counter) == EmptySnapshot
  {
    GcNoActive(versions, maxVersions);
    assert Gc(versions, {}, maxVersions).Keys == {};
  }

  /** Every stored snapshot sits under its own version. */
  ghost predicate Consistent(versions: map<U64, Snapshot>)
  {
    forall v :: v in versions ==> versions[v].version == v
  }

  /** `current_snapshot` over a version map and counter: the snapshot one below the
      counter (version 0 while the counter is 0), or the empty snapshot. */
  function CurrentIn(versions: map<U64, Snapshot>, counter: U64): Snapshot
  {
    var v := if counter > 0 then counter - 1 else 0;
    if v in versions then versions[v] else EmptySnapshot
  }

  class MvccController {
    var versions: map<U64, Snapshot>
    var activeTxns: set<U64>
    var currentVersion: U64
    const maxVersions: nat

    ghost predicate Valid()
      reads this
    {
      Consistent(versions)
    }

    /** `MVCCController::new`. */
    constructor()
      ensures Valid()
      ensures versions == map[] && activeTxns == {} && currentVersion == 0
      ensures maxVersions == MAX_VERSIONS
    {
      versions := map[];
      activeTxns := {};
      currentVersion := 0;
      maxVersions := MAX_VERSIONS;
    }

    /** `current_snapshot`. */
    function CurrentSnapshot(): (r: Snapshot)
      reads this
      ensures Valid() ==> r == EmptySnapshot || r.version == (if currentVersion > 0 then currentVersion - 1 else 0)
      ensures r == EmptySnapshot || r in versions.Values
    {
      CurrentIn(versions, currentVersion)
    }

    /** `create_snapshot_with_deletes`: takes the counter as the new version and bumps
        it, stores the snapshot under that version, then collects old versions. */
    method CreateSnapshotWithDeletes(segments: seq<Segment>, deletedDocs: set<U32>) returns (s: Snapshot)
      modifies this
      requires Valid()
      ensures Valid()
      ensures s == Snapshot(old(currentVersion), segments, DocCountSum(segments), deletedDocs)
      ensures currentVersion == NextVersion(old(currentVersion))
      ensures versions == Gc(old(versions)[s.version := s], old(activeTxns), maxVersions)
      ensures activeTxns == old(activeTxns)
      ensures (exists t :: t in activeTxns && t <= s.version) ==>
                s.version in versions && versions[s.version] == s
      ensures old(currentVersion) < U64_MAX && s.version in versions ==> CurrentSnapshot() == s
    {
      var version := currentVersion;
      currentVersion := NextVersion(currentVersion);
      var docCount := SumDocCounts(segments);
      s := Snapshot(version, segments, docCount, deletedDocs);
      versions := versions[version := s];
      ghost var stored := versions;
      GcOldVersions();
      if |stored| > maxVersions && activeTxns != {} {
        GcAboveLimit(stored, activeTxns, maxVersions);
      }
    }

    /** `gc_old_versions`. */
    method GcOldVersions()
      modifies this`versions
      requires Valid()
      ensures Valid()
      ensures versions == Gc(old(versions), activeTxns, maxVersions)
    {
      if |versions| > maxVersions {
        var minActive := MinActiveTxn();
        var minKeep := maxVersions / 2;
        var currentLen := |versions|;
        versions := map v | v in versions && (v >= minActive || currentLen <= minKeep) :: versions[v];
      }
    }

    /** The oldest active transaction id, `u64::MAX` when none is active. */
    method MinActiveTxn() returns (m: U64)
      ensures m == MinActive(activeTxns)
    {
      m := U64_MAX;
      var remaining := activeTxns;
      ghost var seen: set<U64> := {};
      while remaining != {}
        invariant remaining + seen == activeTxns
        invariant forall t :: t in seen ==> m <= t
        invariant m == U64_MAX || m in seen
        decreases remaining
      {
        var t :| t in remaining;
        if t < m {
          m := t;
        }
        remaining := remaining - {t};
        seen := seen + {t};
      }
      if activeTxns != {} {
        MinUnique(activeTxns, m);
      }
    }

    /** `begin_transaction`: registers the counter's value as the transaction id. */
    method BeginTransaction(isolation: IsolationLevel) returns (tx: MvccTransaction)
      modifies this`activeTxns
      ensures tx.id == currentVersion && tx.operations == [] && tx.isolationLevel == isolation
      ensures tx.snapshot == CurrentSnapshot()
      ensures activeTxns == old(activeTxns) + {tx.id}
    {
      var id := currentVersion;
      activeTxns := activeTxns + {id};
      tx := MvccTransaction(id, CurrentSnapshot(), [], isolation);
    }

    /** `commit_transaction`: forgets the transaction's id; it never fails. */
    method CommitTransaction(tx: MvccTransaction) returns (r: Result<()>)
      modifies this`activeTxns
      ensures r.Ok? && activeTxns == old(activeTxns) - {tx.id}
    {
      activeTxns := activeTxns - {tx.id};
      return Ok(());
    }
  }

  /** An element below or equal to every element of a set is its minimum. */
  lemma MinUnique(s: set<U64>, m: U64)
    requires m in s && forall x :: x in s ==> m <= x
    ensures m == MinOf(s)
  {
  }
}
