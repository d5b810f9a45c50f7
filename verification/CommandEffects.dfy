/** What it means that a command, run on the store's objects, had its specified effect. */
module CommandEffects {
  import opened ReplyBuffers
  import opened Keyspace
  import opened YStores

  /** A command had an effect: on the current database only, with this result and these bytes appended to the reply. */
  twostate predicate Did(store: YStore, reply: ReplyBuffer, e: Effect, err: YError)
    reads store, store.heap, store.Objects, reply
  {
    && old(store.Valid()) && store.Valid() && store.m_nDbno == old(store.m_nDbno)
    && store.Current() == e.store && store.OtherDbs() == old(store.OtherDbs())
    && err == e.err
    && old(reply.Valid()) && reply.Valid() && reply.Contents() == old(reply.Contents()) + e.reply
  }
}
