/** The request loop of internal/server/conn.go, run against a connection that may misbehave at will. */
module HandleConn {
  import opened Bytes
  import opened Options
  import opened Net
  import opened Frame
  import opened Handler
  import opened Stream

  const READ_BUF_SIZE := 1024
  const SHORTEST_FRAME := HEADER_LEN + 1

  // The bytes a handler can hold that are in no finished frame: a full buffer, and of the frame under
  // way no more than its header, since at least one byte of that is still to come.
  const MAX_PENDING := READ_BUF_SIZE + HEADER_LEN

  // How many more frames a handler can finish once its socket is closed: MAX_PENDING / SHORTEST_FRAME.
  const FRAMES_AFTER_CLOSE := 128

  datatype Ending = ReadFailed | BadHeader | WriteFailed

  /** A frame cut short, or headed by an invalid header, adds nothing to the output. */
  lemma OutputOfCut(setup: Setup, frames: seq<Adu>, s: bytes, cut: bytes)
    requires AllWellFormed(frames) && s == Serialize(frames) + cut && Next(cut) == None
    ensures Output(setup, s) == Serialize(Responses(setup, frames)) && Parse(s) == frames
  {
    OutputOfFrames(setup, frames, cut);
    ParseSerialize(frames, cut);
  }

  lemma NoFrames(setup: Setup)
    ensures AllWellFormed([]) && Serialize([]) == [] && Responses(setup, []) == []
  {
  }

  lemma OneMoreFrame(setup: Setup, frames: seq<Adu>, f: Adu)
    requires AllWellFormed(frames) && f.WellFormed()
    ensures AllWellFormed(frames + [f])
    ensures Serialize(frames + [f]) == Serialize(frames) + f.Octets()
    ensures Serialize(Responses(setup, frames + [f])) == Serialize(Responses(setup, frames)) + Answer(setup, f)
  {
    hide Adu.WellFormed, Adu.Octets, Response;
    SerializeAppend(frames, [f]);
    SerializeOne([f]);
    assert AllWellFormed([f]);
    ResponsesAppend(setup, frames, [f]);
    var last := Responses(setup, [f]);
    SerializeAppend(Responses(setup, frames), last);
    assert [f][1..] == [];
    assert last == if setup.Accepts(f.header.unitId) then [Response(setup, f)] else [];
    SerializeOne(last);
  }

  lemma BadHeaderSeen(setup: Setup, frames: seq<Adu>, peer: bytes, start: nat, end: nat, octets: bytes)
    requires AllWellFormed(frames) && start + HEADER_LEN <= end <= |peer|
    requires Serialize(frames) == peer[..start] && octets == peer[start..start + HEADER_LEN]
    requires !DecodeHeader(octets).Valid()
    ensures Output(setup, peer[..end]) == Output(setup, peer) == Serialize(Responses(setup, frames))
    ensures Parse(peer[..end]) == frames
  {
    hide Responses, Serialize;
    DecodeOfPrefix(peer[start..end], octets);
    DecodeOfPrefix(peer[start..], octets);
    assert peer[..end] == Serialize(frames) + peer[start..end];
    OutputOfCut(setup, frames, peer[..end], peer[start..end]);
    assert peer == Serialize(frames) + peer[start..];
    OutputOfCut(setup, frames, peer, peer[start..]);
  }

  lemma CutFrame(setup: Setup, frames: seq<Adu>, peer: bytes, start: nat, end: nat, octets: bytes)
    requires AllWellFormed(frames) && start + HEADER_LEN <= end <= |peer|
    requires Serialize(frames) == peer[..start] && octets == peer[start..start + HEADER_LEN]
    requires end - start < HEADER_LEN + DecodeHeader(octets).PduLen()
    ensures Output(setup, peer[..end]) == Serialize(Responses(setup, frames)) && Parse(peer[..end]) == frames
  {
    hide Responses, Serialize;
    DecodeOfPrefix(peer[start..end], octets);
    assert peer[..end] == Serialize(frames) + peer[start..end];
    OutputOfCut(setup, frames, peer[..end], peer[start..end]);
  }

  lemma HeaderCut(setup: Setup, frames: seq<Adu>, peer: bytes, start: nat, end: nat)
    requires AllWellFormed(frames) && start <= end <= |peer| && end - start < HEADER_LEN
    requires Serialize(frames) == peer[..start]
    ensures Output(setup, peer[..end]) == Serialize(Responses(setup, frames)) && Parse(peer[..end]) == frames
  {
    hide Responses, Serialize;
    assert peer[..end] == Serialize(frames) + peer[start..end];
    OutputOfCut(setup, frames, peer[..end], peer[start..end]);
  }

  // f has been received after frames; it ends at position pos of the peer's bytes.
  ghost predicate FrameRead(setup: Setup, frames: seq<Adu>, f: Adu, peer: bytes, pos: nat) {
    && pos <= |peer| && f.WellFormed()
    && AllWellFormed(frames) && AllWellFormed(frames + [f]) && Serialize(frames + [f]) == peer[..pos]
    && Serialize(Responses(setup, frames + [f])) == Serialize(Responses(setup, frames)) + Answer(setup, f)
  }

  lemma FrameSeen(setup: Setup, frames: seq<Adu>, peer: bytes, start: nat, end: nat, octets: bytes, f: Adu)
    requires AllWellFormed(frames) && start + HEADER_LEN <= end <= |peer|
    requires Serialize(frames) == peer[..start] && octets == peer[start..start + HEADER_LEN]
    requires f.WellFormed() && f.header == DecodeHeader(octets) && f.pdu == peer[start + HEADER_LEN..end]
    ensures FrameRead(setup, frames, f, peer, end)
  {
    hide Responses, Serialize, Answer, DecodeHeader, Header.Octets;
    EncodeDecode(octets);
    assert octets[..HEADER_LEN] == octets;
    OneMoreFrame(setup, frames, f);
    assert peer[..end] == peer[..start] + peer[start..start + HEADER_LEN] + peer[start + HEADER_LEN..end];
  }

  lemma WriteLost(setup: Setup, frames: seq<Adu>, f: Adu, peer: bytes, pos: nat, end: nat)
    requires pos <= end <= |peer| && AllWellFormed(frames + [f]) && Serialize(frames + [f]) == peer[..pos]
    ensures Serialize(Responses(setup, frames + [f])) <= Output(setup, peer[..end])
    ensures frames + [f] <= Parse(peer[..end])
  {
    hide Responses, Serialize;
    assert peer[..end] == peer[..pos] + peer[pos..end];
    OutputOfFrames(setup, frames + [f], peer[pos..end]);
    ParseSerialize(frames + [f], peer[pos..end]);
  }

  /** The second half of the loop body: one received frame, answered or ignored. */
  method AnswerFrame(setup: Setup, handler: Handler, c: Conn, h: Header, req: array<byte>, resp: array<byte>,
                     ghost f: Adu, ghost pos: nat) returns (ok: bool)
    requires handler.Valid() && handler.registers == setup.registers && handler.active == setup.active
    requires req != resp && MAX_PDU_LEN <= req.Length && resp.Length == MAX_ADU_LEN
    requires h.Valid() && f == Adu(h, req[..h.PduLen()])
    modifies c`sent, c`closed, c`closedAt, resp
    ensures c.ClosedOnlyByOthers() && (c.closedAt == old(c.closedAt) || c.closedAt == Some(pos))
    ensures ok ==> c.sent == old(c.sent) + Answer(setup, f)
    ensures !ok ==> (c.closed || !c.Reliable()) && old(c.sent) <= c.sent <= old(c.sent) + Answer(setup, f)
  {
    hide DecodeHeader, Header.Octets, Reply;
    if !setup.Accepts(h.unitId) {
      return true;
    }
    var len := handler.Handle(req, h.PduLen(), resp, HEADER_LEN);
    if len == None {
      return true;
    }
    var k := len.value;
    var out := Header(h.transactionId, 0, k + 1, h.unitId);
    ghost var body := resp[HEADER_LEN..HEADER_LEN + k];
    Encode(out, resp);
    assert resp[HEADER_LEN..HEADER_LEN + k] == resp[HEADER_LEN..][..k] == body;
    assert resp[..HEADER_LEN + k] == out.Octets() + body == Answer(setup, f);
    c.Interfere(pos);
    ok := c.Write(resp[..HEADER_LEN + k]);
  }

  // Between two frames: `frames` is what has been received, and it has been answered.
  ghost predicate InSync(setup: Setup, r: BufReader, frames: seq<Adu>)
    reads r, r.conn, r.buf
  {
    && r.Valid() && r.buf.Length == READ_BUF_SIZE && r.w - r.r < READ_BUF_SIZE
    && AllWellFormed(frames) && Serialize(frames) == r.conn.peer[..r.Pos()]
    && r.conn.sent == Serialize(Responses(setup, frames))
    && r.Marked() && (r.conn.closed <==> r.conn.closedAt.Some?)
  }

  // After the answers to frames, no more than a part of the answer to the next frame was written.
  ghost predicate BrokeOff(setup: Setup, c: Conn, frames: seq<Adu>)
    requires c.taken <= |c.peer| && AllWellFormed(frames)
    reads c
  {
    exists f: Adu :: f.WellFormed() && frames + [f] <= Parse(c.peer[..c.taken])
      && c.sent <= Serialize(Responses(setup, frames)) + Answer(setup, f)
  }

  // How what was written relates to what was received when the loop is left, having dealt with frames.
  ghost predicate Answered(setup: Setup, c: Conn, frames: seq<Adu>, why: Ending)
    reads c
  {
    && c.Valid() && AllWellFormed(frames)
    && (c.closed <==> c.closedAt.Some?) && (c.closed ==> c.taken <= c.closedAt.value + READ_BUF_SIZE)
    && frames <= Parse(c.peer[..c.taken])
    && Serialize(Responses(setup, frames)) <= c.sent <= Output(setup, c.peer[..c.taken])
    && (why != WriteFailed ==> frames == Parse(c.peer[..c.taken]) && c.sent == Output(setup, c.peer[..c.taken]))
    && (why == WriteFailed ==> BrokeOff(setup, c, frames))
    && (why == BadHeader || (c.Reliable() && !c.closed) ==> c.sent == Output(setup, c.peer))
  }

  // What one turn of the loop makes of the bytes buffered: it uses up a whole frame, and whatever it
  // reads off the socket it can only read if that was open at the start of the turn.
  predicate Turn(open: bool, before: int, after: int) {
    0 <= after < READ_BUF_SIZE && (!open ==> after + SHORTEST_FRAME <= before)
  }

  /** Reads the header of the next frame; the loop is left if there is none, or not a valid one. */
  method ReceiveHeader(setup: Setup, r: BufReader, hdr: array<byte>, ghost frames: seq<Adu>)
    returns (h: Header, end: Option<Ending>)
    requires InSync(setup, r, frames) && hdr.Length == HEADER_LEN && r.buf != hdr
    modifies r`r, r`w, r.buf, r.conn`taken, r.conn`closed, r.conn`closedAt, hdr
    ensures r.Valid() && r.conn.ClosedOnlyByOthers() && (old(r.conn.closed) ==> r.conn.taken == old(r.conn.taken))
    ensures r.Marked()
    ensures end.Some? ==> end.value != WriteFailed && Answered(setup, r.conn, frames, end.value)
    ensures end.None? ==> h.Valid() && r.Pos() == old(r.Pos()) + HEADER_LEN && r.w - r.r < READ_BUF_SIZE
    ensures end.None? ==> h == DecodeHeader(r.conn.peer[old(r.Pos())..r.Pos()])
  {
    hide Responses, Serialize, Output, DecodeHeader, Header.Octets, AllWellFormed, Header.Valid;
    ghost var start := r.Pos();
    h, end := Header(0, 0, 0, 0), None;
    r.conn.Interfere(r.Pos());
    var got := r.ReadFull(hdr, 0, HEADER_LEN);
    if !got {
      HeaderCut(setup, frames, r.conn.peer, start, r.conn.taken);
      assert r.conn.taken == |r.conn.peer| ==> r.conn.peer[..r.conn.taken] == r.conn.peer;
      return h, Some(ReadFailed);
    }
    assert hdr[..] == r.conn.peer[start..start + HEADER_LEN];
    h := DecodeHeader(hdr[..]);
    if !h.Valid() {
      BadHeaderSeen(setup, frames, r.conn.peer, start, r.conn.taken, hdr[..]);
      end := Some(BadHeader);
    }
  }

  /** Reads the PDU that the header announces; the loop is left if it does not arrive. */
  method ReceivePdu(setup: Setup, r: BufReader, h: Header, req: array<byte>, ghost frames: seq<Adu>, ghost start: nat)
    returns (got: bool)
    requires r.Valid() && r.buf.Length == READ_BUF_SIZE && r.w - r.r < READ_BUF_SIZE
    requires AllWellFormed(frames) && start + HEADER_LEN == r.Pos() && Serialize(frames) == r.conn.peer[..start]
    requires r.conn.sent == Serialize(Responses(setup, frames))
    requires r.Marked() && (r.conn.closed <==> r.conn.closedAt.Some?)
    requires h.Valid() && h == DecodeHeader(r.conn.peer[start..start + HEADER_LEN])
    requires req.Length == MAX_PDU_LEN && r.buf != req
    modifies r`r, r`w, r.buf, r.conn`taken, r.conn`closed, r.conn`closedAt, req
    ensures r.Valid() && r.conn.ClosedOnlyByOthers() && (old(r.conn.closed) ==> r.conn.taken == old(r.conn.taken))
    ensures r.Marked()
    ensures !got ==> Answered(setup, r.conn, frames, ReadFailed)
    ensures got ==> r.w - r.r < READ_BUF_SIZE && r.Pos() == start + HEADER_LEN + h.PduLen()
    ensures got ==> FrameRead(setup, frames, Adu(h, req[..h.PduLen()]), r.conn.peer, r.Pos())
  {
    hide Responses, Serialize, Output, Answer, DecodeHeader, Header.Octets, AllWellFormed;
    ghost var octets := r.conn.peer[start..start + HEADER_LEN];
    r.conn.Interfere(r.Pos());
    got := r.ReadFull(req, 0, h.PduLen());
    if got {
      FrameSeen(setup, frames, r.conn.peer, start, r.Pos(), octets, Adu(h, req[..h.PduLen()]));
    } else {
      CutFrame(setup, frames, r.conn.peer, start, r.conn.taken, octets);
      assert r.conn.taken == |r.conn.peer| ==> r.conn.peer[..r.conn.taken] == r.conn.peer;
    }
  }

  /** One turn of the loop: a frame received and dealt with, or the reason to leave. */
  method ServeFrame(setup: Setup, handler: Handler, r: BufReader, hdr: array<byte>, req: array<byte>,
                    resp: array<byte>, ghost frames: seq<Adu>)
    returns (end: Option<Ending>, ghost f: Adu)
    requires handler.Valid() && handler.registers == setup.registers && handler.active == setup.active
    requires InSync(setup, r, frames)
    requires hdr.Length == HEADER_LEN && req.Length == MAX_PDU_LEN && resp.Length == MAX_ADU_LEN
    requires r.buf != hdr && r.buf != req && r.buf != resp && hdr != req && req != resp
    modifies r`r, r`w, r.buf, r.conn, hdr, req, resp
    ensures end.Some? ==> Answered(setup, r.conn, frames, end.value)
    ensures end.None? ==> InSync(setup, r, frames + [f])
    ensures end.None? ==> |Serialize(frames)| < |Serialize(frames + [f])| <= |r.conn.peer|
    ensures end.None? ==> Turn(!old(r.conn.closed), old(r.w - r.r), r.w - r.r)
    ensures r.conn.ClosedOnlyByOthers()
  {
    hide Responses, Serialize, Output, Answer, DecodeHeader, Header.Octets, AllWellFormed, Adu.WellFormed;
    ghost var start := r.Pos();
    var h;
    h, end := ReceiveHeader(setup, r, hdr, frames);
    f := Adu(h, []);
    if end.Some? {
      return;
    }
    var got := ReceivePdu(setup, r, h, req, frames, start);
    if !got {
      return Some(ReadFailed), f;
    }
    f := Adu(h, req[..h.PduLen()]);
    var answered := AnswerFrame(setup, handler, r.conn, h, req, resp, f, r.Pos());
    if !answered {
      WriteLost(setup, frames, f, r.conn.peer, r.Pos(), r.conn.taken);
      end := Some(WriteFailed);
    }
  }

  // How many of the frames end beyond the first `mark` bytes.
  function EndingAfter(frames: seq<Adu>, mark: nat): nat {
    if frames == [] then 0
    else EndingAfter(frames[..|frames| - 1], mark) + if mark < |Serialize(frames)| then 1 else 0
  }

  lemma {:induction false} EndingAfterTakeBytes(frames: seq<Adu>, mark: nat)
    requires AllWellFormed(frames)
    ensures var n := EndingAfter(frames, mark); n == 0 || SHORTEST_FRAME * n <= |Serialize(frames)| - mark + HEADER_LEN
    decreases |frames|
  {
    hide Adu.Octets;
    if frames != [] {
      var head, f := frames[..|frames| - 1], frames[|frames| - 1];
      assert f.WellFormed() && |f.Octets()| >= SHORTEST_FRAME by { OctetsLength(f); }
      assert AllWellFormed(head);
      EndingAfterTakeBytes(head, mark);
      assert frames == head + [f];
      SerializeAppend(head, [f]);
      SerializeOne([f]);
    }
  }

  lemma OctetsLength(f: Adu)
    requires f.WellFormed()
    ensures |f.Octets()| >= SHORTEST_FRAME
  {
  }

  /** At most 128 frames end within a full buffer from any point of the stream. */
  lemma FewEndAfter(frames: seq<Adu>, mark: nat, peer: bytes, taken: nat)
    requires AllWellFormed(frames) && taken <= |peer| && frames <= Parse(peer[..taken])
    requires taken <= mark + READ_BUF_SIZE
    ensures EndingAfter(frames, mark) <= FRAMES_AFTER_CLOSE
  {
    var s := peer[..taken];
    SerializeParse(s);
    hide Serialize, Parse, AllWellFormed, Leftover, EndingAfter;
    assert Parse(s) == frames + Parse(s)[|frames|..];
    SerializeAppend(frames, Parse(s)[|frames|..]);
    EndingAfterTakeBytes(frames, mark);
  }

  lemma InSyncAtStart(setup: Setup, r: BufReader)
    requires r.Valid() && r.Pos() == 0 && r.buf.Length == READ_BUF_SIZE && r.w == r.r == 0 && r.conn.sent == []
    requires r.conn.closedAt == if r.conn.closed then Some(0) else None
    ensures InSync(setup, r, []) && |Serialize([])| <= |r.conn.peer|
  {
    NoFrames(setup);
  }

  /**
   Whatever the chunking, the failures and the moment somebody else closes the socket, what has been
   written is a prefix of the output for the bytes received, and all of it unless a write failed. The
   frames dealt with are the first that were received, and all that were unless a write failed; no
   more than 128 of them end beyond where the reader was when the socket was closed.
   */
  method HandleConn(setup: Setup, handler: Handler, c: Conn) returns (why: Ending, ghost frames: seq<Adu>)
    requires c.Valid() && c.taken == 0 && c.sent == []
    requires c.closedAt == if c.closed then Some(0) else None
    requires handler.Valid() && handler.registers == setup.registers && handler.active == setup.active
    modifies c
    ensures c.Valid() && c.closed && (old(c.closed) || !c.shared ==> c.closedAt == old(c.closedAt))
    ensures AllWellFormed(frames) && frames <= Parse(c.peer[..c.taken])
    ensures Serialize(Responses(setup, frames)) <= c.sent <= Output(setup, c.peer[..c.taken])
    ensures why != WriteFailed ==> frames == Parse(c.peer[..c.taken]) && c.sent == Output(setup, c.peer[..c.taken])
    ensures why == WriteFailed ==> BrokeOff(setup, c, frames)
    ensures why == BadHeader || (c.Reliable() && c.closedAt == None) ==> c.sent == Output(setup, c.peer)
    ensures c.closedAt.Some? ==>
      c.taken <= c.closedAt.value + READ_BUF_SIZE && EndingAfter(frames, c.closedAt.value) <= FRAMES_AFTER_CLOSE
  {
    hide Serialize, Output, InSync, BufReader.Valid, Turn, Responses, Parse, EndingAfter, Answer;
    var r := new BufReader(c, READ_BUF_SIZE);
    var hdr := new byte[HEADER_LEN];
    var req := new byte[MAX_PDU_LEN];
    var resp := new byte[MAX_ADU_LEN];
    frames := [];
    InSyncAtStart(setup, r);

    var end: Option<Ending> := None;
    while end == None
      invariant r.conn == c && r.buf != hdr && r.buf != req && r.buf != resp && handler.Valid()
      invariant end.None? ==> InSync(setup, r, frames) && |Serialize(frames)| <= |c.peer|
      invariant end.Some? ==> Answered(setup, c, frames, end.value)
      invariant old(c.closed) || !c.shared ==> c.closed == old(c.closed) && c.closedAt == old(c.closedAt)
      decreases end.None?, |c.peer| - |Serialize(frames)|
    {
      ghost var f;
      end, f := ServeFrame(setup, handler, r, hdr, req, resp, frames);
      if end.None? {
        frames := frames + [f];
      }
    }
    why := end.value;
    if c.closedAt.Some? {
      FewEndAfter(frames, c.closedAt.value, c.peer, c.taken);
    }
    c.Close();
  }

  /** A connection on which nothing fails: the whole output, for the whole input. */
  method ServeAll(setup: Setup, handler: Handler, peer: bytes) returns (sent: bytes)
    requires handler.Valid() && handler.registers == setup.registers && handler.active == setup.active
    ensures sent == Output(setup, peer)
  {
    var c := new Conn(peer, true, false);
    var _, _ := HandleConn(setup, handler, c);
    sent := c.sent;
  }
}
