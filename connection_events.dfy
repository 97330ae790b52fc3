/**
 * The event strategy that applies a "connection opened" event to the
 * persisted state of a connectivity connection.
 */
module ConnectionEvents {
  import opened Wrappers

  /** The status a connection can be in. */
  datatype ConnectivityStatus = Open | Closed | Failed | Unknown

  /**
   * A connection: its status plus everything else about it (id, type, URI,
   * sources, targets, ...), which the strategy only ever copies. The rest is
   * kept abstract as `details`.
   */
  datatype Connection<D> = Connection(status: ConnectivityStatus, details: D)

  /** The ConnectionOpened event; its payload is never read by the strategy. */
  datatype ConnectionOpened<P> = ConnectionOpened(payload: P)

  /**
   * `ConnectionOpenedStrategy.handle`: a null prior connection is rejected
   * with a NullPointerException naming "connection"; otherwise the result is
   * a copy of the prior connection with its status set to OPEN.
   */
  function Handle<P, D>(event: ConnectionOpened<P>, connection: Option<Connection<D>>, revision: int)
    : (r: Result<Connection<D>, NullArgument>)
    ensures r.Failure? <==> connection.None?
    ensures r.Failure? ==> r.error == NullArgument("connection")
    ensures r.Success? ==> r.value.status == Open
    ensures r.Success? ==> r.value.details == connection.value.details
  {
    match connection
    case None => Failure(NullArgument("connection"))
    case Some(c) => Success(c.(status := Open))
  }

  /** Neither the event's payload nor the revision has any influence on the result. */
  lemma HandleIgnoresEventAndRevision<P, D>(e1: ConnectionOpened<P>, e2: ConnectionOpened<P>,
                                            connection: Option<Connection<D>>, rev1: int, rev2: int)
    ensures Handle(e1, connection, rev1) == Handle(e2, connection, rev2)
  {
  }

  /** Only the status changes: the result differs from the prior connection exactly when that was not OPEN. */
  lemma HandleChangesOnlyStatus<P, D>(event: ConnectionOpened<P>, c: Connection<D>, revision: int)
    ensures Handle(event, Some(c), revision) == Success(Connection(Open, c.details))
    ensures Handle(event, Some(c), revision) == Success(c) <==> c.status == Open
  {
  }

  /** Applying the strategy to its own output yields an equal connection, whatever event and revision come next. */
  lemma HandleIdempotent<P, D>(event: ConnectionOpened<P>, next: ConnectionOpened<P>,
                               c: Connection<D>, revision: int, nextRevision: int)
    ensures Handle(event, Some(c), revision).Success?
    ensures Handle(next, Some(Handle(event, Some(c), revision).value), nextRevision)
         == Handle(event, Some(c), revision)
  {
  }
}
