/** `Transaction` and `TransactionManager` (src/core/transaction.rs): a
    transaction buffers its writes in a write set and an operation log, records the
    snapshot version of what it reads, and validates those reads when it commits. */
module Transactions {
  import opened Base
  import opened Types
  import opened Mvcc

  datatype TransactionState = Active | Preparing | Committed | Aborted

  /** `TransactionOp`: the operation log's entries. */
  datatype TransactionOp = Insert(doc: Document) | Update(id: DocId, doc: Document) | Delete(id: DocId)

  const NOT_ACTIVE := Error(InvalidState, "Transaction is not active")
  const VALIDATION_FAILED := Error(InvalidState, "Transaction validation failed")

  /** What one logged operation does to the write set. */
  function Apply(writes: map<DocId, Document>, op: TransactionOp): map<DocId, Document>
  {
    match op
    case Insert(doc) => writes[doc.id := doc]
    case Update(id, doc) => writes[id := doc]
    case Delete(id) => writes - {id}
  }

  /** The write set an operation log leaves behind, replayed from empty. */
  function WriteSetOf(ops: seq<TransactionOp>): map<DocId, Document>
  {
    if ops == [] then map[] else Apply(WriteSetOf(ops[..|ops| - 1]), ops[|ops| - 1])
  }

  /** A document is in the replayed write set exactly when the last operation on its
      id wrote it, and then it is the document of that operation. */
  lemma {:induction false} WriteSetLastWrite(ops: seq<TransactionOp>, id: DocId)
    ensures id in WriteSetOf(ops) <==> exists k :: 0 <= k < |ops| && Writes(ops[k], id) && NoLaterOp(ops, k, id)
    ensures forall k :: 0 <= k < |ops| && Writes(ops[k], id) && NoLaterOp(ops, k, id) ==>
              WriteSetOf(ops)[id] == ops[k].doc
    decreases |ops|
  {
    if ops != [] {
      var init := ops[..|ops| - 1];
      var last := ops[|ops| - 1];
      WriteSetLastWrite(init, id);
      if TargetOf(last) == id {
        forall k | 0 <= k < |ops| - 1
          ensures !NoLaterOp(ops, k, id)
        {
          assert k < |ops| - 1 && TargetOf(ops[|ops| - 1]) == id;
        }
        if Writes(last, id) {
          assert NoLaterOp(ops, |ops| - 1, id);
        }
      } else {
        forall k | 0 <= k < |ops| - 1
          ensures NoLaterOp(ops, k, id) <==> NoLaterOp(init, k, id)
        {
          if NoLaterOp(init, k, id) {
            forall j | k < j < |ops|
              ensures TargetOf(ops[j]) != id
            {
              if j < |ops| - 1 {
                assert ops[j] == init[j];
              }
            }
          }
          if NoLaterOp(ops, k, id) {
            forall j | k < j < |init|
              ensures TargetOf(init[j]) != id
            {
              assert init[j] == ops[j];
            }
          }
        }
        forall k | 0 <= k < |ops| - 1
          ensures ops[k] == init[k]
        {
        }
      }
    }
  }

  /** The document id an operation touches. */
  function TargetOf(op: TransactionOp): DocId
  {
    match op
    case Insert(doc) => doc.id
    case Update(id, _) => id
    case Delete(id) => id
  }

  /** The operation puts a document under `id`. */
  predicate Writes(op: TransactionOp, id: DocId)
  {
    !op.Delete? && TargetOf(op) == id
  }

  /** No operation after index `k` touches `id`. */
  predicate NoLaterOp(ops: seq<TransactionOp>, k: nat, id: DocId)
  {
    forall j :: k < j < |ops| ==> TargetOf(ops[j]) != id
  }

  class Transaction {
    const id: U64
    const isolationLevel: IsolationLevel
    var state: TransactionState
    var operations: seq<TransactionOp>
    const snapshot: Snapshot
    var readSet: map<DocId, U64>
    var writeSet: map<DocId, Document>
    const mvcc: MvccController

    /** The write set is the replay of the operation log. */
    ghost predicate Valid()
      reads this
    {
      writeSet == WriteSetOf(operations)
    }

    /** `Transaction::begin`. The process-wide id counter is outside the model: the
        caller passes the id it handed out. */
    constructor Begin(id: U64, mvcc: MvccController, isolationLevel: IsolationLevel)
      ensures Valid()
      ensures this.id == id && this.mvcc == mvcc && this.isolationLevel == isolationLevel
      ensures state == Active && operations == [] && readSet == map[] && writeSet == map[]
      ensures snapshot == mvcc.CurrentSnapshot()
    {
      this.id := id;
      this.isolationLevel := isolationLevel;
      this.mvcc := mvcc;
      state := Active;
      operations := [];
      snapshot := mvcc.CurrentSnapshot();
      readSet := map[];
      writeSet := map[];
    }

    /** `read`: a pending write of the transaction wins; otherwise the read is recorded
        against the snapshot's version. Documents are never found in segments, which
        the engine does not search yet, so the result is then `None`. */
    method Read(docId: DocId) returns (r: Result<Option<Document>>)
      modifies this`readSet
      ensures old(state) != Active ==> r == Err(NOT_ACTIVE) && readSet == old(readSet)
      ensures state == Active && docId in writeSet ==>
                r == Ok(Some(writeSet[docId])) && readSet == old(readSet)
      ensures state == Active && docId !in writeSet ==>
                r == Ok(None) && readSet == old(readSet)[docId := snapshot.version]
    {
      if state != Active {
        return Err(NOT_ACTIVE);
      }
      if docId in writeSet {
        return Ok(Some(writeSet[docId]));
      }
      readSet := readSet[docId := snapshot.version];
      return Ok(None);
    }

    /** `insert`: the document goes into the write set under its own id and is logged. */
    method Insert(doc: Document) returns (r: Result<()>)
      modifies this`writeSet, this`operations
      requires Valid()
      ensures Valid()
      ensures state != Active ==> r == Err(NOT_ACTIVE) && operations == old(operations)
      ensures state == Active ==> r.Ok? && operations == old(operations) + [TransactionOp.Insert(doc)]
                                  && writeSet == old(writeSet)[doc.id := doc]
    {
      if state != Active {
        return Err(NOT_ACTIVE);
      }
      Log(TransactionOp.Insert(doc));
      return Ok(());
    }

    /** `update`: the document goes into the write set under `docId` and is logged. */
    method Update(docId: DocId, doc: Document) returns (r: Result<()>)
      modifies this`writeSet, this`operations
      requires Valid()
      ensures Valid()
      ensures state != Active ==> r == Err(NOT_ACTIVE) && operations == old(operations)
      ensures state == Active ==> r.Ok? && operations == old(operations) + [TransactionOp.Update(docId, doc)]
                                  && writeSet == old(writeSet)[docId := doc]
    {
      if state != Active {
        return Err(NOT_ACTIVE);
      }
      Log(TransactionOp.Update(docId, doc));
      return Ok(());
    }

    /** `delete`: any pending write of the id is dropped and the delete is logged. */
    method Delete(docId: DocId) returns (r: Result<()>)
      modifies this`writeSet, this`operations
      requires Valid()
      ensures Valid()
      ensures state != Active ==> r == Err(NOT_ACTIVE) && operations == old(operations)
      ensures state == Active ==> r.Ok? && operations == old(operations) + [TransactionOp.Delete(docId)]
                                  && writeSet == old(writeSet) - {docId}
    {
      if state != Active {
        return Err(NOT_ACTIVE);
      }
      Log(TransactionOp.Delete(docId));
      return Ok(());
    }

    /** Applies an operation to the write set and appends it to the log. */
    method Log(op: TransactionOp)
      modifies this`writeSet, this`operations
      requires Valid()
      ensures Valid()
      ensures operations == old(operations) + [op] && writeSet == Apply(old(writeSet), op)
    {
      writeSet := Apply(writeSet, op);
      operations := operations + [op];
      assert operations[..|operations| - 1] == old(operations);
    }

    /** Every recorded read saw the version of the controller's current snapshot. */
    ghost predicate ReadsCurrent()
      reads this`readSet, mvcc
    {
      forall d :: d in readSet ==> readSet[d] == mvcc.CurrentSnapshot().version
    }

    /** `validate_reads`. */
    method ValidateReads() returns (ok: bool)
      ensures ok <==> ReadsCurrent()
    {
      var current := mvcc.CurrentSnapshot();
      var remaining := readSet.Keys;
      while remaining != {}
        invariant remaining <= readSet.Keys
        invariant forall d :: d in readSet && d !in remaining ==> readSet[d] == current.version
        decreases remaining
      {
        var d :| d in remaining;
        if readSet[d] != current.version {
          return false;
        }
        remaining := remaining - {d};
      }
      return true;
    }

    /** `commit`: only an active transaction commits. Outside `ReadCommitted` a read of
        an older version aborts it; otherwise the log is handed back and the state
        becomes `Committed`. */
    method Commit() returns (r: Result<seq<TransactionOp>>)
      modifies this
      requires Valid()
      ensures Valid()
      ensures old(state) != Active ==>
                r == Err(NOT_ACTIVE) && state == old(state) && operations == old(operations) &&
                readSet == old(readSet) && writeSet == old(writeSet)
      ensures old(state) == Active && isolationLevel != ReadCommitted && !old(ReadsCurrent()) ==>
                r == Err(VALIDATION_FAILED) && state == Aborted &&
                operations == [] && readSet == map[] && writeSet == map[]
      ensures old(state) == Active && (isolationLevel == ReadCommitted || old(ReadsCurrent())) ==>
                r == Ok(old(operations)) && state == Committed &&
                operations == old(operations) && readSet == old(readSet) && writeSet == old(writeSet)
    {
      if state != Active {
        return Err(NOT_ACTIVE);
      }
      state := Preparing;
      if isolationLevel != ReadCommitted {
        var valid := ValidateReads();
        if !valid {
          var _ := Abort();
          return Err(VALIDATION_FAILED);
        }
      }
      var ops := operations;
      state := Committed;
      return Ok(ops);
    }

    /** `rollback`. */
    method Rollback() returns (r: Result<()>)
      modifies this
      ensures Valid()
      ensures r.Ok? && state == Aborted && operations == [] && readSet == map[] && writeSet == map[]
    {
      r := Abort();
    }

    /** `abort`: whatever the state, the transaction becomes `Aborted` and forgets its
        log, reads and writes. */
    method Abort() returns (r: Result<()>)
      modifies this
      ensures Valid()
      ensures r.Ok? && state == Aborted && operations == [] && readSet == map[] && writeSet == map[]
    {
      state := Aborted;
      operations := [];
      readSet := map[];
      writeSet := map[];
      return Ok(());
    }
  }

  datatype TransactionStats = TransactionStats(total: nat, active: nat, preparing: nat)

  /** Still running: `Active` or `Preparing`. */
  predicate Live(s: TransactionState)
  {
    s == Active || s == Preparing
  }

  /** The ids among `ids` of transactions in state `s`. */
  ghost function InState(txs: map<U64, Transaction>, ids: set<U64>, s: TransactionState): set<U64>
    reads txs.Values
  {
    set id | id in ids && id in txs && txs[id].state == s
  }

  class TransactionManager {
    var activeTransactions: map<U64, Transaction>
    const mvcc: MvccController

    constructor(mvcc: MvccController)
      ensures activeTransactions == map[] && this.mvcc == mvcc
    {
      activeTransactions := map[];
      this.mvcc := mvcc;
    }

    /** `begin_transaction`: starts a transaction and registers it under its id. */
    method BeginTransaction(id: U64, isolation: IsolationLevel) returns (tx: Transaction)
      modifies this`activeTransactions
      ensures fresh(tx) && tx.Valid() && tx.id == id && tx.state == Active && tx.mvcc == mvcc
      ensures activeTransactions == old(activeTransactions)[id := tx]
    {
      tx := new Transaction.Begin(id, mvcc, isolation);
      activeTransactions := activeTransactions[id := tx];
    }

    /** `get_transaction`. */
    function GetTransaction(txId: U64): (r: Option<Transaction>)
      reads this
      ensures r.Some? <==> txId in activeTransactions
      ensures r.Some? ==> r.value == activeTransactions[txId]
    {
      if txId in activeTransactions then Some(activeTransactions[txId]) else None
    }

    /** `cleanup`: keeps only the transactions still running. */
    method Cleanup()
      modifies this`activeTransactions
      ensures activeTransactions ==
                map id | id in old(activeTransactions) && Live(old(activeTransactions)[id].state) ::
                  old(activeTransactions)[id]
      ensures forall id :: id in activeTransactions ==> Live(activeTransactions[id].state)
    {
      activeTransactions := map id | id in activeTransactions && Live(activeTransactions[id].state) ::
                              activeTransactions[id];
    }

    /** `stats`: the number of registered transactions and how many are in each
        running state. */
    method Stats() returns (s: TransactionStats)
      ensures s.total == |activeTransactions|
      ensures s.active == |InState(activeTransactions, activeTransactions.Keys, Active)|
      ensures s.preparing == |InState(activeTransactions, activeTransactions.Keys, Preparing)|
    {
      var txs := activeTransactions;
      var active, preparing := 0, 0;
      var remaining := txs.Keys;
      ghost var seen: set<U64> := {};
      while remaining != {}
        invariant remaining + seen == txs.Keys && remaining * seen == {}
        invariant active == |InState(txs, seen, Active)|
        invariant preparing == |InState(txs, seen, Preparing)|
        decreases remaining
      {
        var id :| id in remaining;
        CountStep(txs, seen, id, Active);
        CountStep(txs, seen, id, Preparing);
        match txs[id].state {
          case Active => active := active + 1;
          case Preparing => preparing := preparing + 1;
          case _ =>
        }
        remaining := remaining - {id};
        seen := seen + {id};
      }
      s := TransactionStats(|txs|, active, preparing);
    }
  }

  /** Taking one more id into the count. */
  lemma CountStep(txs: map<U64, Transaction>, seen: set<U64>, id: U64, s: TransactionState)
    requires id in txs && id !in seen
    ensures |InState(txs, seen + {id}, s)| ==
              |InState(txs, seen, s)| + (if txs[id].state == s then 1 else 0)
  {
    if txs[id].state == s {
      assert InState(txs, seen + {id}, s) == InState(txs, seen, s) + {id};
    } else {
      assert InState(txs, seen + {id}, s) == InState(txs, seen, s);
    }
  }

  /** After `cleanup` every registered transaction is counted as active or preparing. */
  lemma CleanedStats(txs: map<U64, Transaction>)
    requires forall id :: id in txs ==> Live(txs[id].state)
    ensures |InState(txs, txs.Keys, Active)| + |InState(txs, txs.Keys, Preparing)| == |txs|
  {
    var a := InState(txs, txs.Keys, Active);
    var p := InState(txs, txs.Keys, Preparing);
    assert a * p == {};
    assert a + p == txs.Keys;
    assert |a + p| == |a| + |p| - |a * p|;
    assert |txs.Keys| == |txs|;
  }
}
