/** The keep-alive HTTP/1.1 responder: one canned response for each request head it has seen whole. */
module HttpResponders {
  import opened Delimiters
  import opened Streams
  import opened Spelling

  /** Section 2.1 of RFC 9112: an empty line ends the head. */
  const HEAD_END: bytes := [13, 10, 13, 10]
  const MAX_TAIL: nat := 16384

  datatype Http = Http(buffer: bytes, closed: bool)

  const NEW := Http([], false)

  /** One `data_received`: the next state and how many canned responses were written. */
  function Feed(s: Http, data: bytes): (Http, nat) {
    var (n, rest) := Scan(s.buffer + data, HEAD_END);
    (Http(rest, |rest| > MAX_TAIL), n)
  }

  /** A closed transport delivers nothing more. */
  function FeedAll(s: Http, chunks: seq<bytes>): (Http, nat)
    decreases |chunks|
  {
    if chunks == [] || s.closed then (s, 0) else
    var (t, n) := Feed(s, chunks[0]);
    var (u, m) := FeedAll(t, chunks[1..]);
    (u, n + m)
  }

  /** The request heads of a stream, each with its terminator. */
  function Heads(s: bytes): seq<bytes>
    decreases |s|
  {
    var i := Find(s, HEAD_END);
    if i < 0 then [] else [s[..i + 4]] + Heads(s[i + 4..])
  }

  /** What follows the last whole head. */
  function Tail(s: bytes): bytes {
    Scan(s, HEAD_END).1
  }

  /** Every head, with its terminator, is at most 16385 bytes. */
  predicate ShortHeads(s: bytes) {
    forall h :: h in Heads(s) ==> |h| <= MAX_TAIL + 1
  }

  predicate Modest(s: bytes) {
    ShortHeads(s) && |Tail(s)| <= MAX_TAIL
  }

  lemma HeadsJoin(s: bytes, head: bytes, heads: seq<bytes>, tail: bytes)
    requires |head| <= |s| && s[..|head|] == head && s[|head|..] == Concat(heads) + tail
    ensures s == Concat([head] + heads) + tail
  {
    ConcatCons(head, heads);
    assert s == head + (Concat(heads) + tail);
  }

  lemma HeadsPast(s: bytes)
    requires Find(s, HEAD_END) >= 0
    ensures var k := Find(s, HEAD_END) + 4;
            k <= |s| && Heads(s) == [s[..k]] + Heads(s[k..]) && Tail(s) == Tail(s[k..])
            && Scan(s, HEAD_END).0 == Scan(s[k..], HEAD_END).0 + 1
  {
    ScanPast(s, HEAD_END);
  }

  /** The heads and the tail are the stream, and the terminators counted are the heads. */
  lemma {:induction false} HeadsSplit(s: bytes)
    ensures s == Concat(Heads(s)) + Tail(s)
    ensures |Heads(s)| == Scan(s, HEAD_END).0
    decreases |s|
  {
    var i := Find(s, HEAD_END);
    if i < 0 {
      assert Heads(s) == [] && Tail(s) == s;
      assert Concat([]) + s == s;
    } else {
      HeadsPast(s);
      HeadsSplit(s[i + 4..]);
      HeadsJoin(s, s[..i + 4], Heads(s[i + 4..]), Tail(s));
    }
  }

  /** While a session stays open it has answered every head seen so far, however they were cut. */
  lemma {:induction false} OpenAnswers(s: Http, chunks: seq<bytes>)
    requires Find(s.buffer, HEAD_END) < 0 && !FeedAll(s, chunks).0.closed
    ensures FeedAll(s, chunks).0 == Http(Tail(s.buffer + Concat(chunks)), false)
    ensures FeedAll(s, chunks).1 == Scan(s.buffer + Concat(chunks), HEAD_END).0
    decreases |chunks|
  {
    if chunks == [] {
      assert s.buffer + Concat(chunks) == s.buffer;
    } else {
      var now := s.buffer + chunks[0];
      assert s.buffer + Concat(chunks) == now + Concat(chunks[1..]);
      ScanRest(now, HEAD_END);
      ScanAppend(now, Concat(chunks[1..]), HEAD_END);
      OpenAnswers(Feed(s, chunks[0]).0, chunks[1..]);
    }
  }

  /** A prefix of a modest stream leaves a tail short enough to keep the connection. */
  lemma {:induction false} ShortTail(p: bytes, s: bytes)
    requires p <= s && Modest(s)
    ensures |Tail(p)| <= MAX_TAIL
    decreases |s|
  {
    var i, j := Find(s, HEAD_END), Find(p, HEAD_END);
    if j >= 0 {
      FindAppend(p, s[|p|..], HEAD_END);
      assert p + s[|p|..] == s;
      HeadsPast(s);
      HeadsPast(p);
      var later := s[i + 4..];
      assert Modest(later);
      assert p[i + 4..] <= later;
      ShortTail(p[i + 4..], later);
    } else if i >= 0 {
      assert s[..i + 4] in Heads(s);
      if i + 4 <= |p| {
        assert p + s[|p|..] == s;
        AtPrefix(p, s[|p|..], HEAD_END, i);
      }
    }
  }

  lemma {:induction false} StaysOpen(seen: bytes, s: Http, chunks: seq<bytes>)
    requires !s.closed && s.buffer == Tail(seen) && Modest(seen + Concat(chunks))
    ensures !FeedAll(s, chunks).0.closed
    decreases |chunks|
  {
    if chunks != [] {
      var now := seen + chunks[0];
      assert seen + Concat(chunks) == now + Concat(chunks[1..]);
      ScanAppend(seen, chunks[0], HEAD_END);
      ShortTail(now, now + Concat(chunks[1..]));
      StaysOpen(now, Feed(s, chunks[0]).0, chunks[1..]);
    }
  }

  lemma LaterHeads(s: bytes)
    requires 0 <= Find(s, HEAD_END) <= MAX_TAIL - 3 && !Modest(s)
    ensures !Modest(s[Find(s, HEAD_END) + 4..])
  {
    ScanPast(s, HEAD_END);
    var i := Find(s, HEAD_END);
    assert Heads(s) == [s[..i + 4]] + Heads(s[i + 4..]);
  }

  /** How far into an immodest stream to cut so that the tail outgrows the limit. */
  lemma {:induction false} LongTail(s: bytes) returns (k: nat)
    requires !Modest(s)
    ensures k <= |s| && |Tail(s[..k])| > MAX_TAIL
    decreases |s|
  {
    var i := Find(s, HEAD_END);
    if i < 0 {
      k := |s|;
      assert s[..k] == s;
    } else if i + 4 > MAX_TAIL + 1 {
      k := i + 3;
      NoneBefore(s, k);
    } else {
      LaterHeads(s);
      var m := LongTail(s[i + 4..]);
      k := i + 4 + m;
      HeadsBefore(s, k);
      assert s[..k][i + 4..] == s[i + 4..][..m];
    }
  }

  /** The responder outlives every way of cutting a stream exactly when each head, with its
      terminator, is at most 16385 bytes and the unfinished tail at most 16384; it then answers
      each head once and holds the tail. */
  lemma ChunkingIndependent(s: bytes)
    ensures (forall chunks :: Cuts(chunks, s) ==> !FeedAll(NEW, chunks).0.closed) <==> Modest(s)
    ensures Modest(s) ==> forall chunks :: Cuts(chunks, s) ==>
              FeedAll(NEW, chunks) == (Http(Tail(s), false), |Heads(s)|)
  {
    assert NEW.buffer + s == s && [] + s == s;
    HeadsSplit(s);
    if Modest(s) {
      forall chunks | Cuts(chunks, s)
        ensures !FeedAll(NEW, chunks).0.closed
        ensures FeedAll(NEW, chunks) == (Http(Tail(s), false), |Heads(s)|)
      {
        StaysOpen([], NEW, chunks);
        OpenAnswers(NEW, chunks);
      }
    } else {
      var k := LongTail(s);
      var a, b := s[..k], s[k..];
      TwoChunks(a, b);
      assert a + b == s;
      ClosedByFirst(a, b);
      assert Cuts([a, b], s);
    }
  }

  // ---- Answers, whether or not the connection survives ------------------------------------------

  lemma ShortLater(s: bytes)
    requires Find(s, HEAD_END) >= 0
    ensures var k := Find(s, HEAD_END) + 4;
            k <= |s| && (ShortHeads(s) <==> k <= MAX_TAIL + 1 && ShortHeads(s[k..]))
            && |Heads(s)| == 1 + |Heads(s[k..])|
  {
    HeadsPast(s);
    var k := Find(s, HEAD_END) + 4;
    assert |s[..k]| == k && s[..k] in Heads(s);
  }

  /** A prefix whose tail is over the limit has already shown every head of a stream of short heads. */
  lemma {:induction false} NoHeadBehind(p: bytes, s: bytes)
    requires p <= s && ShortHeads(s) && |Tail(p)| > MAX_TAIL
    ensures |Heads(p)| == |Heads(s)|
    decreases |s|
  {
    var i, j := Find(s, HEAD_END), Find(p, HEAD_END);
    assert p + s[|p|..] == s;
    if j >= 0 {
      FindAppend(p, s[|p|..], HEAD_END);
      ShortLater(s);
      ShortLater(p);
      HeadsPast(p);
      assert p[i + 4..] <= s[i + 4..];
      NoHeadBehind(p[i + 4..], s[i + 4..]);
    } else if i >= 0 {
      ShortLater(s);
      AtPrefix(p, s[|p|..], HEAD_END, i);
    }
  }

  /** Of a stream of short heads every chunking answers each head, even one that closes the connection
      on what follows the last. */
  lemma {:induction false} AllAnswered(seen: bytes, s: Http, chunks: seq<bytes>)
    requires !s.closed && s.buffer == Tail(seen) && ShortHeads(seen + Concat(chunks))
    ensures |Heads(seen)| + FeedAll(s, chunks).1 == |Heads(seen + Concat(chunks))|
    decreases |chunks|
  {
    if chunks == [] {
      assert seen + Concat(chunks) == seen;
    } else {
      var now := seen + chunks[0];
      var t := Feed(s, chunks[0]).0;
      ConcatFirst(seen, chunks);
      ScanAppend(seen, chunks[0], HEAD_END);
      HeadsSplit(seen);
      HeadsSplit(now);
      if t.closed {
        NoHeadBehind(now, now + Concat(chunks[1..]));
      } else {
        AllAnswered(now, t, chunks[1..]);
      }
    }
  }

  /** Where to cut inside the first head that is too long. */
  lemma {:induction false} CutLongHead(s: bytes) returns (k: nat)
    requires !ShortHeads(s)
    ensures k <= |s| && |Tail(s[..k])| > MAX_TAIL && |Heads(s[..k])| < |Heads(s)|
    decreases |s|
  {
    var i := Find(s, HEAD_END);
    ShortLater(s);
    if i + 4 > MAX_TAIL + 1 {
      k := i + 3;
      NoneBefore(s, k);
    } else {
      var m := CutLongHead(s[i + 4..]);
      k := i + 4 + m;
      HeadsBefore(s, k);
      assert s[..k][i + 4..] == s[i + 4..][..m];
    }
  }

  lemma NoneBefore(s: bytes, k: nat)
    requires 0 <= Find(s, HEAD_END) && k < Find(s, HEAD_END) + 4 && k <= |s|
    ensures Tail(s[..k]) == s[..k] && Heads(s[..k]) == []
  {
    var j := Find(s[..k], HEAD_END);
    assert s[..k] + s[k..] == s;
    if j >= 0 { AtAppend(s[..k], s[k..], HEAD_END, j); }
  }

  lemma HeadsBefore(s: bytes, k: nat)
    requires Find(s, HEAD_END) >= 0 && Find(s, HEAD_END) + 4 <= k <= |s|
    ensures var n := Find(s, HEAD_END) + 4;
            Tail(s[..k]) == Tail(s[..k][n..]) && |Heads(s[..k])| == 1 + |Heads(s[..k][n..])|
  {
    var i, p := Find(s, HEAD_END), s[..k];
    assert p + s[k..] == s;
    AtPrefix(p, s[k..], HEAD_END, i);
    FindAppend(p, s[k..], HEAD_END);
    HeadsPast(p);
  }

  lemma Unanswered(s: bytes) returns (chunks: seq<bytes>)
    requires !ShortHeads(s)
    ensures Cuts(chunks, s) && FeedAll(NEW, chunks).1 < |Heads(s)|
  {
    var k := CutLongHead(s);
    var a, b := s[..k], s[k..];
    chunks := [a, b];
    assert Cuts(chunks, s) by {
      TwoChunks(a, b);
      assert a + b == s;
    }
    ClosedByFirst(a, b);
    HeadsSplit(a);
  }

  lemma ClosedByFirst(a: bytes, b: bytes)
    requires |Tail(a)| > MAX_TAIL
    ensures FeedAll(NEW, [a, b]).0.closed && FeedAll(NEW, [a, b]).1 == Scan(a, HEAD_END).0
  {
    assert NEW.buffer + a == a;
    assert FeedAll(Feed(NEW, a).0, [a, b][1..]).1 == 0;
  }

  /** Every chunking writes one response for each head if and only if every head, with its terminator, is
      at most 16385 bytes, whatever follows the last one. */
  lemma AnswersExactly(s: bytes)
    ensures (forall chunks :: Cuts(chunks, s) ==> FeedAll(NEW, chunks).1 == |Heads(s)|) <==> ShortHeads(s)
  {
    assert [] + s == s;
    if ShortHeads(s) {
      forall chunks | Cuts(chunks, s) ensures FeedAll(NEW, chunks).1 == |Heads(s)| {
        AllAnswered([], NEW, chunks);
      }
    } else {
      var chunks := Unanswered(s);
    }
  }

  /** The terminator is two line ends, and the limit 16384 bytes. */
  lemma Limits()
    ensures HEAD_END == Text("\r\n\r\n") && MAX_TAIL == 16384
  {
  }

  // ---- Streams beyond the limits ------------------------------------------------------------------

  function Letters(n: nat): bytes {
    seq(n, _ => 65)
  }

  lemma LettersHead(n: nat)
    ensures Find(Letters(n), HEAD_END) < 0 && Find(Letters(n) + HEAD_END, HEAD_END) == n
  {
    var s, t := Letters(n), Letters(n) + HEAD_END;
    forall k | 0 <= k < n ensures !At(s, HEAD_END, k) && !At(t, HEAD_END, k) {
      assert HEAD_END[0] != 65;
      assert t[k] == s[k] == 65;
    }
    assert t[n..n + 4] == HEAD_END;
    assert At(t, HEAD_END, n);
  }

  /** One head of more than 16385 bytes: in one piece it is answered, cut at that length it is not. */
  lemma LongHead(n: nat)
    requires n + 4 > MAX_TAIL + 1
    ensures var s := Letters(n) + HEAD_END;
            && Heads(s) == [s] && !ShortHeads(s) && FeedAll(NEW, [s]).1 == 1
            && FeedAll(NEW, [s[..MAX_TAIL + 1], s[MAX_TAIL + 1..]]).1 == 0
  {
    var s := Letters(n) + HEAD_END;
    var a, b := s[..MAX_TAIL + 1], s[MAX_TAIL + 1..];
    LettersHead(n);
    OnlyHead(s);
    assert a + b == s;
    if Find(a, HEAD_END) >= 0 { FindAppend(a, b, HEAD_END); }
    ClosedByFirst(a, b);
  }

  lemma OnlyHead(s: bytes)
    requires Find(s, HEAD_END) >= 0 && Find(s, HEAD_END) + 4 == |s|
    ensures Heads(s) == [s] && FeedAll(NEW, [s]).1 == 1 && s in Heads(s)
  {
    HeadsPast(s);
    assert s[..|s|] == s && s[|s|..] == [];
    assert Find([], HEAD_END) < 0;
    assert NEW.buffer + s == s;
  }

  /** More than 16384 bytes without a terminator hold no head, and close the connection. */
  lemma EndlessHead(n: nat)
    requires n > MAX_TAIL
    ensures var s := Letters(n);
            Heads(s) == [] && ShortHeads(s) && !Modest(s) && FeedAll(NEW, [s]).0.closed
  {
    LettersHead(n);
    assert NEW.buffer + Letters(n) == Letters(n);
  }

  /** Whatever the cut, a session that is still open has answered exactly the heads of the stream. */
  lemma OpenSession(s: bytes, chunks: seq<bytes>)
    requires Cuts(chunks, s) && !FeedAll(NEW, chunks).0.closed
    ensures FeedAll(NEW, chunks) == (Http(Tail(s), false), |Heads(s)|)
  {
    assert NEW.buffer + s == s;
    HeadsSplit(s);
    OpenAnswers(NEW, chunks);
  }

  /** After `n` answers the rest of the buffer still holds what the whole held. */
  ghost predicate Answered(all: bytes, buffer: bytes, n: nat) {
    Scan(all, HEAD_END).0 == n + Scan(buffer, HEAD_END).0 && Tail(all) == Tail(buffer)
  }

  lemma AnswerNext(all: bytes, buffer: bytes, n: nat)
    requires Answered(all, buffer, n)
    ensures var k := Find(buffer, HEAD_END);
            if k < 0 then Scan(all, HEAD_END) == (n, buffer)
            else k + 4 <= |buffer| && Answered(all, buffer[k + 4..], n + 1)
  {
    if Find(buffer, HEAD_END) >= 0 { ScanPast(buffer, HEAD_END); }
  }

  class HttpResponder {
    var buffer: bytes
    var closed: bool
    /** How many canned responses the transport has been given. */
    var written: nat

    ghost function State(): Http
      reads this
    {
      Http(buffer, closed)
    }

    constructor ()
      ensures State() == NEW && written == 0
    {
      buffer, closed, written := [], false, 0;
    }

    method DataReceived(data: bytes)
      requires !closed
      modifies this
      ensures (State(), written - old(written)) == Feed(old(State()), data)
    {
      buffer := buffer + data;
      ghost var all := buffer;
      var responses := 0;
      while true
        invariant !closed && written == old(written) + responses
        invariant Answered(all, buffer, responses)
        decreases |buffer|
      {
        var end := Find(buffer, HEAD_END);
        AnswerNext(all, buffer, responses);
        if end < 0 {
          if |buffer| > MAX_TAIL {
            closed := true;
          }
          return;
        }
        buffer := buffer[end + 4..];
        responses := responses + 1;
        written := written + 1;
        if responses == 1 && buffer == [] {
          return;
        }
      }
    }
  }

  /** A whole connection: one `data_received` for each chunk, until the transport is closed. */
  method Serve(chunks: seq<bytes>) returns (h: HttpResponder)
    ensures (h.State(), h.written) == FeedAll(NEW, chunks)
    ensures ShortHeads(Concat(chunks)) ==> h.written == |Heads(Concat(chunks))|
    ensures Modest(Concat(chunks)) ==> !h.closed && h.buffer == Tail(Concat(chunks))
  {
    h := new HttpResponder();
    var todo := chunks;
    while todo != [] && !h.closed
      invariant fresh(h) && h.written + FeedAll(h.State(), todo).1 == FeedAll(NEW, chunks).1
      invariant FeedAll(h.State(), todo).0 == FeedAll(NEW, chunks).0
      decreases |todo|
    {
      h.DataReceived(todo[0]);
      todo := todo[1..];
    }
    AnswersExactly(Concat(chunks));
    ChunkingIndependent(Concat(chunks));
  }
}
