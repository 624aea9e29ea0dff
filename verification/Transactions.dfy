/** The tracker of expected responses: which CAN IDs of the latest transaction have been received. */
module Transactions {

  class PendingTransaction {
    const expectedIds: set<int>
    const createdT: real
    const timeout: real
    var receivedIds: set<int>
    var event: bool

    constructor (expectedIds: set<int>, createdT: real, timeout: real)
      ensures this.expectedIds == expectedIds && this.createdT == createdT && this.timeout == timeout
      ensures receivedIds == {} && Valid()
    {
      this.expectedIds, this.createdT, this.timeout := expectedIds, createdT, timeout;
      receivedIds, event := {}, false;
    }

    /** The event is set exactly when everything expected has come, and something has. */
    ghost predicate Valid()
      reads this
    {
      event <==> expectedIds <= receivedIds && receivedIds != {}
    }
  }

  class TransactionManager {
    var pending: PendingTransaction?

    constructor ()
      ensures Valid() && pending == null
    {
      pending := null;
    }

    ghost predicate Valid()
      reads this, pending
    {
      pending != null ==> pending.Valid()
    }

    method StartTransaction(expectedIds: set<int>, timeout: real, now: real) returns (tx: PendingTransaction)
      modifies this
      ensures Valid() && pending == tx && fresh(tx)
      ensures tx.expectedIds == expectedIds && tx.timeout == timeout && tx.createdT == now && tx.receivedIds == {}
    {
      tx := new PendingTransaction(expectedIds, now, timeout);
      pending := tx;
    }

    /** A transaction that a later one has replaced no longer learns of receptions. */
    method MarkRx(canId: int)
      requires Valid()
      modifies pending
      ensures Valid() && pending == old(pending)
      ensures pending != null ==> pending.receivedIds == old(pending.receivedIds) + {canId}
    {
      if pending == null {
        return;
      }
      pending.receivedIds := pending.receivedIds + {canId};
      if pending.expectedIds <= pending.receivedIds {
        pending.event := true;
      }
    }

    /** The answer of `is_done` is the state of the event that `wait` waits for, except in a
        transaction that expects nothing and has received nothing: that one is done from the start,
        but a wait for it lasts until something arrives. */
    method IsDone() returns (done: bool)
      requires Valid()
      ensures pending == null ==> !done
      ensures pending != null ==>
                (done <==> pending.event || (pending.expectedIds == {} && pending.receivedIds == {}))
    {
      done := pending != null && pending.expectedIds <= pending.receivedIds;
    }

    method IsExpired(now: real) returns (expired: bool)
      ensures expired <==> pending != null && now - pending.createdT > pending.timeout
    {
      expired := pending != null && now - pending.createdT > pending.timeout;
    }

    method Clear()
      modifies this
      ensures Valid() && pending == null
    {
      pending := null;
    }
  }
}
