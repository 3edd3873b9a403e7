/** The PostgreSQL responder driven through a whole connection, in whatever chunks it arrives. */
module PgConnections {
  import opened Delimiters
  import opened Streams
  import opened Wire
  import opened PgModel
  import opened PgSessions
  import opened PgHot
  import opened PgReplies
  import opened PgResponders

  /** Where a connection stands: what has been written, then what the rest of the chunks brings. */
  ghost predicate Served(chunks: seq<bytes>, s: Session, todo: seq<bytes>, written: bytes) {
    && Sane(s) && FeedAll(true, s, todo).0 == FeedAll(true, NEW, chunks).0
    && written + FeedAll(true, s, todo).1 == FeedAll(true, NEW, chunks).1
  }

  lemma ServedStart(chunks: seq<bytes>)
    ensures Served(chunks, NEW, chunks, []) == true
  {
    Nothing(FeedAll(true, NEW, chunks).1);
  }

  lemma ServedNext(chunks: seq<bytes>, s: Session, todo: seq<bytes>, written: bytes)
    requires Served(chunks, s, todo, written) && s.Live? && todo != [] && Sane(Feed(true, s, todo[0]).0)
    ensures var (t, out) := Feed(true, s, todo[0]); Served(chunks, t, todo[1..], written + out) == true
  {
    var (t, out) := Feed(true, s, todo[0]);
    FeedFirst(true, s, todo);
    Plus(written, out, FeedAll(true, t, todo[1..]).1);
  }

  lemma ServedEnd(chunks: seq<bytes>, s: Session, todo: seq<bytes>, written: bytes)
    requires Served(chunks, s, todo, written) && (todo == [] || s.Ended?)
    ensures FeedAll(true, NEW, chunks) == (s, written)
  {
    assert written + [] == written;
  }

  /** What a connection owes an orderly stream: what the general parser says to it in one piece, in whole
      frames with one ReadyForQuery for the startup and one for each Sync. */
  ghost predicate Owed(d: bytes, written: bytes) {
    && written == Open(d).1
    && (Begun(d) && !IsCancel(d) ==> Speaks(written, 1 + Syncs(Frames(d[Int32(d, 0)..]).0)))
  }

  lemma OwedHeard(chunks: seq<bytes>)
    requires Orderly(Concat(chunks))
    ensures Owed(Concat(chunks), FeedAll(true, NEW, chunks).1) == true
  {
    var d := Concat(chunks);
    HotRefinesGeneral(d, chunks, chunks);
    if Begun(d) && !IsCancel(d) { SessionSpeaks(d, chunks); }
  }

  /** One `data_received` for each chunk, until the session ends. */
  method Converse(chunks: seq<bytes>) returns (pg: PgResponder)
    ensures (pg.State(), pg.written) == FeedAll(true, NEW, chunks)
    ensures Orderly(Concat(chunks)) ==> Owed(Concat(chunks), pg.written)
  {
    pg := new PgResponder();
    var todo := chunks;
    ServedStart(chunks);
    while todo != [] && !pg.closed && !pg.failed
      invariant fresh(pg) && Sane(pg.State()) && Served(chunks, pg.State(), todo, pg.written) == true
      decreases |todo|
    {
      ghost var s, w := pg.State(), pg.written;
      pg.DataReceived(todo[0]);
      ServedNext(chunks, s, todo, w);
      todo := todo[1..];
    }
    ServedEnd(chunks, pg.State(), todo, pg.written);
    if Orderly(Concat(chunks)) { OwedHeard(chunks); }
  }
}
