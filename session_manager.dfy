/** lib/utility/sessionManager.ts and the commit/abort steps the handlers
    apply to the session it returns. `hasTransaction()` from the
    configuration is a parameter. */
module SessionManager {
  import opened Documents
  import opened GeometrySpec
  import opened Store

  /** Whether `startSessionAndTransaction()` resolves: without transactions
      it always does; with them, unless `startSession()` rejects. */
  predicate SessionStarts(hasTransaction: bool, faults: set<Call>)
  {
    !hasTransaction || StartSession !in faults
  }

  /** Whether a commit drops the transaction's writes: only a session has a
      transaction, and its commit is neither awaited nor checked. */
  predicate CommitLost(hasTransaction: bool, faults: set<Call>)
  {
    hasTransaction && CommitTransaction in faults
  }

  /** `startSessionAndTransaction()`: with transactions configured, a new
      session whose transaction has already begun (it remembers the
      collections as they are now), or a rejection when `startSession()`
      fails; otherwise no session at all. */
  method StartSessionAndTransaction(s: DocumentStore, hasTransaction: bool, faults: set<Call>)
    returns (p: Promise<Session>)
    modifies s`openSessions
    ensures p.Resolved? <==> SessionStarts(hasTransaction, faults)
    ensures !p.Resolved? ==> p == Rejected(StoreError(StartSession)) && s.openSessions == old(s.openSessions)
    ensures p.Resolved? && hasTransaction ==> p.value == Active(s.Docs()) && s.openSessions == old(s.openSessions) + 1
    ensures p.Resolved? && !hasTransaction ==> p.value == NoSession && s.openSessions == old(s.openSessions)
  {
    if !hasTransaction {
      p := Resolved(NoSession);
    } else if StartSession in faults {
      p := Rejected(StoreError(StartSession));
    } else {
      s.openSessions := s.openSessions + 1;
      p := Resolved(Active(s.Docs()));
    }
  }

  /** `session.map(s => { s.commitTransaction(); s.endSession(); })`: the
      session ends; the writes stay unless the commit fails, in which case
      the transaction's writes are dropped and the collections are back to
      the snapshot. The caller does not wait for the commit. */
  method CommitAndEnd(s: DocumentStore, session: Session, faults: set<Call>)
    requires s.Valid()
    requires session.Active? ==> s.openSessions > 0 && Inv(session.snapshot, s.nextId)
    modifies s
    ensures session.Active? && CommitTransaction in faults ==> s.Docs() == session.snapshot
    ensures session.NoSession? || CommitTransaction !in faults ==> s.Docs() == old(s.Docs())
    ensures s.nextId == old(s.nextId)
    ensures s.openSessions == old(s.openSessions) - (if session.Active? then 1 else 0)
    ensures s.Valid()
  {
    if session.Active? {
      if CommitTransaction in faults {
        s.Restore(session.snapshot);
      }
      s.openSessions := s.openSessions - 1;
    }
  }

  /** `session.map(s => { s.abortTransaction(); s.endSession(); })`: under a
      session every collection goes back to what it held when the
      transaction began; without one, every write already made stays. */
  method AbortAndEnd(s: DocumentStore, session: Session)
    requires s.Valid()
    requires session.Active? ==> s.openSessions > 0 && Inv(session.snapshot, s.nextId)
    modifies s
    ensures session.Active? ==> s.Docs() == session.snapshot
    ensures session.NoSession? ==> s.Docs() == old(s.Docs())
    ensures s.nextId == old(s.nextId)
    ensures s.openSessions == old(s.openSessions) - (if session.Active? then 1 else 0)
    ensures s.Valid()
  {
    if session.Active? {
      s.Restore(session.snapshot);
      s.openSessions := s.openSessions - 1;
    }
  }
}
