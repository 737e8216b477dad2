/** The polling client of scripts/poll.go: how it cuts up the registers, and why it stays in step. */
module Poll {
  import opened Bytes
  import opened Net
  import opened Frame
  import opened Handler
  import opened Stream

  const MAX_QTY := 125

  datatype Chunk = Chunk(start: nat, quantity: nat)

  function ChunkAt(registers: int, k: nat): Chunk
    requires MAX_QTY * k < registers
  {
    Chunk(MAX_QTY * k, Min(MAX_QTY, registers - MAX_QTY * k))
  }

  // registers / MAX_QTY, rounded up.
  function ChunkCount(registers: int): nat {
    if registers <= 0 then 0 else (registers + MAX_QTY - 1) / MAX_QTY
  }

  predicate Cuts(chunks: seq<Chunk>, registers: int) {
    && |chunks| == ChunkCount(registers)
    && forall k :: 0 <= k < |chunks| ==> MAX_QTY * k < registers && chunks[k] == ChunkAt(registers, k)
  }

  predicate In(x: int, c: Chunk) {
    c.start <= x < c.start + c.quantity
  }

  method CutUp(registers: int) returns (chunks: seq<Chunk>)
    ensures Cuts(chunks, registers)
    ensures |chunks| == if registers <= 0 then 0 else (registers + 124) / 125
    ensures forall k :: 0 <= k < |chunks| - 1 ==> chunks[k] == Chunk(125 * k, 125)
    ensures chunks != [] ==> var k := |chunks| - 1; chunks[k] == Chunk(125 * k, registers - 125 * k)
  {
    chunks := [];
    var a := 0;
    while a < registers
      invariant a == MAX_QTY * |chunks| && |chunks| <= ChunkCount(registers)
      invariant forall k :: 0 <= k < |chunks| ==> MAX_QTY * k < registers && chunks[k] == ChunkAt(registers, k)
    {
      var q := registers - a;
      if q > MAX_QTY {
        q := MAX_QTY;
      }
      chunks := chunks + [Chunk(a, q)];
      a := a + MAX_QTY;
    }
  }

  /** Every register is in exactly one chunk, and every chunk is one the protocol can ask for. */
  lemma ChunksTile(chunks: seq<Chunk>, registers: int, x: int)
    requires Cuts(chunks, registers)
    ensures forall k :: 0 <= k < |chunks| ==> MIN_READ_QUANTITY <= chunks[k].quantity <= MAX_READ_QUANTITY
    ensures 0 <= x < registers <==> exists k :: 0 <= k < |chunks| && In(x, chunks[k])
    ensures forall j, k :: 0 <= j < |chunks| && 0 <= k < |chunks| && In(x, chunks[j]) && In(x, chunks[k]) ==> j == k
  {
    if 0 <= x < registers {
      var k := x / MAX_QTY;
      assert In(x, chunks[k]);
    }
  }

  // ---- One request and its reply ----

  function Request(c: Chunk): (a: Adu)
    ensures a.WellFormed()
  {
    var start, quantity := ToU16(c.start), ToU16(c.quantity);
    Adu(Header(0, 0, 6, 1), [3, Hi(start), Lo(start), Hi(quantity), Lo(quantity)])
  }

  function Requests(asked: seq<Chunk>): (frames: seq<Adu>)
    ensures AllWellFormed(frames) && |frames| == |asked|
    ensures forall k :: 0 <= k < |asked| ==> frames[k] == Request(asked[k])
  {
    seq(|asked|, k requires 0 <= k < |asked| => Request(asked[k]))
  }

  // The bytes written to ask for all of these.
  function Wire(asked: seq<Chunk>): bytes {
    Serialize(Requests(asked))
  }

  // What the client reads for one chunk.
  function ReplyLen(c: Chunk): nat {
    HEADER_LEN + 2 + c.quantity * 2
  }

  function ReplyLens(asked: seq<Chunk>): nat {
    if asked == [] then 0 else ReplyLens(asked[..|asked| - 1]) + ReplyLen(asked[|asked| - 1])
  }

  // A server for n registers that answers this client.
  predicate Serves(setup: Setup) {
    3 in setup.active && setup.Accepts(1) && setup.registers <= 0x1_0000
  }

  lemma RequestFields(c: Chunk)
    ensures Start(Request(c).pdu) == ToU16(c.start) && Quantity(Request(c).pdu) == ToU16(c.quantity)
  {
  }

  /** The server answers a chunk in the length the client reads exactly if it has all its registers. */
  lemma ChunkAnswered(setup: Setup, c: Chunk)
    requires Serves(setup) && c.start < 0x1_0000 && MIN_READ_QUANTITY <= c.quantity <= MAX_READ_QUANTITY
    ensures |Answer(setup, Request(c))| == ReplyLen(c) <==> c.start + c.quantity <= setup.registers
    ensures c.start + c.quantity <= setup.registers ==>
      Response(setup, Request(c)) == Adu(Header(0, 0, 3 + c.quantity * 2, 1), Normal(3, c.quantity))
  {
    RequestFields(c);
    hide Hi, Lo, U16;
  }

  // ---- Many requests on one connection ----

  predicate Within(setup: Setup, c: Chunk) {
    MIN_READ_QUANTITY <= c.quantity <= MAX_READ_QUANTITY && c.start + c.quantity <= setup.registers
  }

  lemma RequestsAppend(asked: seq<Chunk>, c: Chunk)
    ensures Requests(asked + [c]) == Requests(asked) + [Request(c)]
  {
  }

  /**
   However many chunks have been asked for, over however many scans, the server has written exactly
   the bytes the client reads for them: the two never drift apart.
   */
  lemma {:induction false} StaysInStep(setup: Setup, asked: seq<Chunk>)
    requires Serves(setup) && forall c :: c in asked ==> Within(setup, c)
    ensures |Output(setup, Wire(asked))| == ReplyLens(asked)
    decreases |asked|
  {
    hide Answer, Request, Wire, Output, ReplyLen;
    if asked == [] {
      NoRequests();
      NothingOut(setup);
    } else {
      var n := |asked| - 1;
      StaysInStep(setup, asked[..n]);
      OneMoreRequest(setup, asked[..n], asked[n]);
      assert asked[..n] + [asked[n]] == asked;
      assert Within(setup, asked[n]);
      ChunkAnswered(setup, asked[n]);
    }
  }

  // A normal reply, all registers zero.
  function NormalReply(c: Chunk): (r: bytes)
    requires c.quantity <= MAX_READ_QUANTITY
    ensures |r| == ReplyLen(c)
  {
    Header(0, 0, 3 + c.quantity * 2, 1).Octets() + Normal(3, c.quantity)
  }

  lemma AnswerIsNormal(setup: Setup, c: Chunk)
    requires Serves(setup) && Within(setup, c)
    ensures Answer(setup, Request(c)) == NormalReply(c)
  {
    hide Normal, Header.Octets, Response, Reply;
    assert Request(c).header.unitId == 1;
    ChunkAnswered(setup, c);
    hide Request;
  }

  lemma OutputExtends(setup: Setup, a: seq<Chunk>, b: seq<Chunk>)
    ensures Output(setup, Wire(a)) <= Output(setup, Wire(a + b))
  {
    hide Request, Serialize, Output;
    assert Requests(a + b) == Requests(a) + Requests(b);
    hide Requests, Adu.WellFormed;
    SerializeAppend(Requests(a), Requests(b));
    OutputGrows(setup, Wire(a), Wire(b));
  }

  /**
   What the client reads for a request, after it has read the replies to those before and whatever it
   asks later, is the normal reply to that request.
   */
  lemma WindowIsReply(setup: Setup, before: seq<Chunk>, c: Chunk, later: seq<Chunk>)
    requires Serves(setup) && (forall b :: b in before ==> Within(setup, b)) && Within(setup, c)
    ensures |Output(setup, Wire(before))| == ReplyLens(before)
    ensures Output(setup, Wire(before)) + NormalReply(c)
         <= Output(setup, Wire(before + [c] + later))
  {
    StaysInStep(setup, before);
    AnswerIsNormal(setup, c);
    hide Answer, Request, Wire, Output, NormalReply;
    OneMoreRequest(setup, before, c);
    OutputExtends(setup, before + [c], later);
  }

  lemma WireOfOneMore(asked: seq<Chunk>, c: Chunk)
    ensures Wire(asked + [c]) == Wire(asked) + Request(c).Octets()
  {
    hide Request, Adu.WellFormed, Adu.Octets;
    RequestsAppend(asked, c);
    hide Serialize, Requests;
    SerializeAppend(Requests(asked), [Request(c)]);
    SerializeOne([Request(c)]);
  }

  lemma OneMoreRequest(setup: Setup, asked: seq<Chunk>, c: Chunk)
    ensures Output(setup, Wire(asked + [c]))
         == Output(setup, Wire(asked)) + Answer(setup, Request(c))
  {
    hide Request, Answer, Adu.WellFormed, Adu.Octets, Serialize, Requests, Output;
    WireOfOneMore(asked, c);
    assert Request(c).Octets() + [] == Request(c).Octets();
    OutputOfFrames(setup, Requests(asked), Request(c).Octets());
    OutputOfFrames(setup, Requests(asked), []);
    OutputOfFrame(setup, Request(c), []);
    NothingOut(setup);
    assert Wire(asked) + [] == Wire(asked);
  }

  /**
   A whole scan of `registers` registers is answered chunk by chunk in the lengths the client reads
   exactly if the server has that many: for any register count at all, 16-bit wrap-around included.
   */
  lemma ScanFitsIff(setup: Setup, registers: int, chunks: seq<Chunk>)
    requires Serves(setup) && Cuts(chunks, registers)
    ensures (forall k :: 0 <= k < |chunks| ==> |Answer(setup, Request(chunks[k]))| == ReplyLen(chunks[k]))
      <==> registers <= setup.registers
  {
    if registers <= setup.registers {
      forall k | 0 <= k < |chunks|
        ensures |Answer(setup, Request(chunks[k]))| == ReplyLen(chunks[k])
      {
        ChunkAnswered(setup, chunks[k]);
      }
    } else {
      // The chunk that holds the first register the server does not have.
      var k := setup.registers / MAX_QTY;
      assert MAX_QTY * k <= setup.registers < MAX_QTY * k + MAX_QTY;
      if setup.registers == 0x1_0000 {
        assert k == 524 && chunks[k].start == 65500;
      }
      assert chunks[k].start < 0x1_0000 && chunks[k].start + chunks[k].quantity > setup.registers;
      ChunkAnswered(setup, chunks[k]);
    }
  }

  // ---- The client's loop ----

  /** The request buffer as it is before the first scan. */
  method NewRequest() returns (req: array<byte>)
    ensures fresh(req) && Patched(req[..])
  {
    req := new byte[12](_ => 0);
    req[4], req[5] := Hi(6), Lo(6);
    req[6] := 1;
    req[7] := 3;
  }

  // Everything in the buffer but the two fields that are patched for every chunk.
  predicate Patched(req: bytes) {
    |req| == 12 && req[..8] == [0, 0, 0, 0, 0, 6, 1, 3]
  }

  method Patch(req: array<byte>, c: Chunk)
    requires Patched(req[..])
    modifies req
    ensures Patched(req[..]) && req[..] == Request(c).Octets()
    ensures req[8] as int * 256 + req[9] as int == c.start % 65536
    ensures req[10] as int * 256 + req[11] as int == c.quantity % 65536
  {
    var start, quantity := ToU16(c.start), ToU16(c.quantity);
    req[8], req[9] := Hi(start), Lo(start);
    req[10], req[11] := Hi(quantity), Lo(quantity);
  }

  // Once the requests `asked` have been written after `sent`, the peer gives all the client reads for them.
  ghost predicate Given(c: Conn, sent: bytes, taken: nat, asked: seq<Chunk>) {
    taken + ReplyLens(asked) <= |c.peer| && taken + ReplyLens(asked) <= c.released(sent + Wire(asked))
  }

  // So it does for every chunk of a scan before the next is asked for.
  ghost predicate InTime(c: Conn, sent: bytes, taken: nat, chunks: seq<Chunk>) {
    forall i :: 0 < i <= |chunks| ==> Given(c, sent, taken, chunks[..i])
  }

  // The requests `asked` have been written, and the replies to them read.
  ghost predicate Asked(c: Conn, sent: bytes, taken: nat, asked: seq<Chunk>)
    reads c
  {
    c.Valid() && c.sent == sent + Wire(asked) && c.taken == taken + ReplyLens(asked)
  }

  /**
   One scan: writes a request per chunk and reads a reply per chunk, counting the replies. Over a
   steady connection it succeeds exactly if the peer gives every reply in time.
   */
  method Scan(c: Conn, req: array<byte>, buf: array<byte>, chunks: seq<Chunk>) returns (ok: bool, reqs: nat)
    requires c.Valid() && Patched(req[..]) && buf != req && buf.Length == HEADER_LEN + 2 + MAX_QTY * 2
    requires forall k :: 0 <= k < |chunks| ==> chunks[k].quantity <= MAX_QTY
    modifies c`taken, c`sent, req, buf
    ensures c.Valid() && Patched(req[..]) && reqs <= |chunks|
    ensures ok ==> reqs == |chunks| && Asked(c, old(c.sent), old(c.taken), chunks)
    ensures ok ==> InTime(c, old(c.sent), old(c.taken), chunks)
    ensures old(c.steady && !c.closed) && InTime(c, old(c.sent), old(c.taken), chunks) ==> ok
    ensures old(c.Reliable() && !c.closed && c.taken + ReplyLens(chunks) <= |c.peer|) ==> ok
  {
    ReliableInTime(c, c.sent, c.taken, chunks);
    NothingAsked(c, chunks);
    hide ReplyLens, Patched, Conn.Reliable, Conn.Valid, Given, Asked, Wire;
    reqs := 0;
    for i := 0 to |chunks|
      invariant c.Valid() && Patched(req[..]) && reqs == i && Asked(c, old(c.sent), old(c.taken), chunks[..i])
      invariant forall k :: 0 < k <= i ==> Given(c, old(c.sent), old(c.taken), chunks[..k])
    {
      var answered := AskNext(c, req, buf, chunks, i, old(c.sent), old(c.taken));
      if !answered {
        return false, reqs;
      }
      reqs := reqs + 1;
    }
    assert chunks[..|chunks|] == chunks;
    ok := true;
  }

  lemma NothingAsked(c: Conn, chunks: seq<Chunk>)
    requires c.Valid()
    ensures Asked(c, c.sent, c.taken, chunks[..0])
  {
    NoRequests();
  }

  method AskNext(c: Conn, req: array<byte>, buf: array<byte>, chunks: seq<Chunk>, i: nat, ghost sent: bytes,
                 ghost taken: nat) returns (ok: bool)
    requires Patched(req[..]) && buf != req && buf.Length == HEADER_LEN + 2 + MAX_QTY * 2
    requires i < |chunks| && chunks[i].quantity <= MAX_QTY && Asked(c, sent, taken, chunks[..i])
    modifies c`taken, c`sent, req, buf
    ensures c.Valid() && Patched(req[..])
    ensures ok ==> Asked(c, sent, taken, chunks[..i + 1]) && Given(c, sent, taken, chunks[..i + 1])
    ensures c.steady && !c.closed && Given(c, sent, taken, chunks[..i + 1]) ==> ok
  {
    GivenNext(c, sent, taken, chunks, i);
    hide Wire, ReplyLens, ReplyLen, Request, Patched, Given, Adu.Octets;
    ok := AskFor(c, req, buf, chunks[i]);
  }

  lemma ReliableInTime(c: Conn, sent: bytes, taken: nat, chunks: seq<Chunk>)
    ensures c.Reliable() ==> c.steady
    ensures c.Reliable() && taken + ReplyLens(chunks) <= |c.peer| ==> InTime(c, sent, taken, chunks)
  {
    hide Wire, ReplyLens;
    forall i | 0 < i <= |chunks|
      ensures ReplyLens(chunks[..i]) <= ReplyLens(chunks)
    {
      ReplyLensGrow(chunks, i);
    }
  }

  lemma GivenNext(c: Conn, sent: bytes, taken: nat, chunks: seq<Chunk>, i: nat)
    requires i < |chunks|
    ensures var s := sent + Wire(chunks[..i]) + Request(chunks[i]).Octets();
      var t := taken + ReplyLens(chunks[..i]) + ReplyLen(chunks[i]);
      && s == sent + Wire(chunks[..i + 1]) && t == taken + ReplyLens(chunks[..i + 1])
      && (Given(c, sent, taken, chunks[..i + 1]) <==> t <= |c.peer| && t <= c.released(s))
  {
    WireOfPrefix(chunks, i);
    ReplyLensOfOneMore(chunks, i);
    Regroup(sent, Wire(chunks[..i]), Request(chunks[i]).Octets());
    hide Wire, Request, ReplyLens, Adu.Octets;
  }

  lemma Regroup(a: bytes, b: bytes, c: bytes)
    ensures a + b + c == a + (b + c)
  {
  }

  /** One request and its reply. Over a steady connection it fails exactly if the peer holds back. */
  method AskFor(c: Conn, req: array<byte>, buf: array<byte>, chunk: Chunk) returns (ok: bool)
    requires c.Valid() && Patched(req[..]) && buf != req && buf.Length == HEADER_LEN + 2 + MAX_QTY * 2
    requires chunk.quantity <= MAX_QTY
    modifies c`taken, c`sent, req, buf
    ensures c.Valid() && Patched(req[..])
    ensures ok ==> c.sent == old(c.sent) + Request(chunk).Octets() && c.taken == old(c.taken) + ReplyLen(chunk)
    ensures var s := old(c.sent) + Request(chunk).Octets(); var t := old(c.taken) + ReplyLen(chunk);
      && (ok ==> t <= |c.peer| && t <= c.released(s))
      && (c.steady && !c.closed && t <= |c.peer| && t <= c.released(s) ==> ok)
  {
    hide Request, Patched, Header.Octets, Adu.Octets, Conn.Reliable;
    Patch(req, chunk);
    var data := req[..];
    ok := c.Write(data);
    if ok {
      ok := c.ReadFull(buf, 0, 7 + 2 + chunk.quantity * 2);
    }
  }

  lemma NoRequests()
    ensures Wire([]) == [] && ReplyLens([]) == 0
  {
  }

  lemma WireOfPrefix(chunks: seq<Chunk>, i: nat)
    requires i < |chunks|
    ensures Wire(chunks[..i + 1]) == Wire(chunks[..i]) + Request(chunks[i]).Octets()
  {
    hide Request, Wire, Adu.Octets;
    WireOfOneMore(chunks[..i], chunks[i]);
    assert chunks[..i + 1] == chunks[..i] + [chunks[i]];
  }

  lemma ReplyLensOfOneMore(chunks: seq<Chunk>, i: nat)
    requires i < |chunks|
    ensures ReplyLens(chunks[..i + 1]) == ReplyLens(chunks[..i]) + 7 + 2 + chunks[i].quantity * 2
  {
    assert chunks[..i + 1][..i] == chunks[..i];
  }

  lemma {:induction false} ReplyLensGrow(chunks: seq<Chunk>, i: nat)
    requires i <= |chunks|
    ensures ReplyLens(chunks[..i]) <= ReplyLens(chunks)
    decreases |chunks|
  {
    if i < |chunks| {
      assert chunks[..|chunks| - 1][..i] == chunks[..i];
      ReplyLensGrow(chunks[..|chunks| - 1], i);
    } else {
      assert chunks[..i] == chunks;
    }
  }

  // ---- Scan after scan ----

  function Repeat(chunks: seq<Chunk>, scans: nat): (asked: seq<Chunk>)
    ensures forall c :: c in asked ==> c in chunks
  {
    if scans == 0 then [] else Repeat(chunks, scans - 1) + chunks
  }

  lemma {:induction false} ReplyLensAppend(a: seq<Chunk>, b: seq<Chunk>)
    ensures ReplyLens(a + b) == ReplyLens(a) + ReplyLens(b)
  {
    hide ReplyLen;
    if b == [] {
      assert a + b == a;
    } else {
      assert (a + b)[..|a + b| - 1] == a + b[..|b| - 1];
      ReplyLensAppend(a, b[..|b| - 1]);
    }
  }

  lemma WireAppend(a: seq<Chunk>, b: seq<Chunk>)
    ensures Wire(a + b) == Wire(a) + Wire(b)
  {
    hide Request, Serialize;
    assert Requests(a + b) == Requests(a) + Requests(b);
    SerializeAppend(Requests(a), Requests(b));
  }

  // Scan number k is given its replies in time, if those before it were.
  ghost predicate ScanInTime(c: Conn, chunks: seq<Chunk>, k: nat) {
    InTime(c, Wire(Repeat(chunks, k)), ReplyLens(Repeat(chunks, k)), chunks)
  }

  ghost predicate AllInTime(c: Conn, chunks: seq<Chunk>, scans: nat) {
    forall k :: 0 <= k < scans ==> ScanInTime(c, chunks, k)
  }

  lemma ReliableAllInTime(c: Conn, chunks: seq<Chunk>, scans: nat)
    ensures c.Reliable() && ReplyLens(Repeat(chunks, scans)) <= |c.peer| ==> c.steady && AllInTime(c, chunks, scans)
  {
    hide Wire, ReplyLens, Repeat, InTime;
    forall k | 0 <= k < scans
      ensures c.Reliable() && ReplyLens(Repeat(chunks, scans)) <= |c.peer| ==> ScanInTime(c, chunks, k)
    {
      RepeatNext(chunks, k, scans);
      ReliableInTime(c, Wire(Repeat(chunks, k)), ReplyLens(Repeat(chunks, k)), chunks);
    }
  }

  // k scans have been finished over a new connection.
  ghost predicate Scanned(c: Conn, chunks: seq<Chunk>, k: nat)
    reads c
  {
    c.Valid() && c.sent == Wire(Repeat(chunks, k)) && c.taken == ReplyLens(Repeat(chunks, k))
  }

  /** The loop over the ticks, given up at the first error. */
  method RunScans(c: Conn, chunks: seq<Chunk>, scans: nat) returns (finished: nat)
    requires c.Valid() && c.taken == 0 && c.sent == [] && !c.closed
    requires forall k :: 0 <= k < |chunks| ==> chunks[k].quantity <= MAX_QTY
    modifies c`taken, c`sent
    ensures c.Valid() && finished <= scans
    ensures finished == scans ==> Scanned(c, chunks, scans)
    ensures 0 < finished ==> InTime(c, [], 0, chunks)
    ensures c.steady && AllInTime(c, chunks, scans) ==> finished == scans
    ensures c.Reliable() && ReplyLens(Repeat(chunks, scans)) <= |c.peer| ==> finished == scans
  {
    ReliableAllInTime(c, chunks, scans);
    NothingScanned(c, chunks);
    hide Wire, ReplyLens, Patched, InTime, ScanInTime, Conn.Reliable, Conn.Valid, Repeat, Scanned;
    var req := NewRequest();
    var buf := new byte[HEADER_LEN + 2 + MAX_QTY * 2];
    finished := 0;
    while finished < scans
      invariant 0 <= finished <= scans && c.Valid() && Scanned(c, chunks, finished) && Patched(req[..])
      invariant 0 < finished ==> InTime(c, [], 0, chunks)
    {
      var ok := NextScan(c, req, buf, chunks, finished);
      if !ok {
        return;
      }
      finished := finished + 1;
    }
  }

  method NextScan(c: Conn, req: array<byte>, buf: array<byte>, chunks: seq<Chunk>, ghost k: nat) returns (ok: bool)
    requires Scanned(c, chunks, k) && !c.closed
    requires Patched(req[..]) && buf != req && buf.Length == HEADER_LEN + 2 + MAX_QTY * 2
    requires forall i :: 0 <= i < |chunks| ==> chunks[i].quantity <= MAX_QTY
    modifies c`taken, c`sent, req, buf
    ensures c.Valid() && Patched(req[..]) && (ok ==> Scanned(c, chunks, k + 1) && ScanInTime(c, chunks, k))
    ensures ok && k == 0 ==> InTime(c, [], 0, chunks)
    ensures c.steady && ScanInTime(c, chunks, k) ==> ok
  {
    RepeatNext(chunks, k, k + 1);
    NothingScanned(c, chunks);
    hide Wire, ReplyLens, Patched, InTime, Conn.Reliable, Conn.Valid, Repeat;
    var reqs;
    ok, reqs := Scan(c, req, buf, chunks);
  }

  lemma NothingScanned(c: Conn, chunks: seq<Chunk>)
    ensures c.Valid() && c.taken == 0 && c.sent == [] ==> Scanned(c, chunks, 0)
    ensures ScanInTime(c, chunks, 0) <==> InTime(c, [], 0, chunks)
  {
    NoRequests();
    hide Wire, ReplyLens, InTime;
  }

  lemma RepeatNext(chunks: seq<Chunk>, k: nat, scans: nat)
    requires k < scans
    ensures Wire(Repeat(chunks, k + 1)) == Wire(Repeat(chunks, k)) + Wire(chunks)
    ensures ReplyLens(Repeat(chunks, k + 1)) == ReplyLens(Repeat(chunks, k)) + ReplyLens(chunks)
    ensures ReplyLens(Repeat(chunks, k + 1)) <= ReplyLens(Repeat(chunks, scans))
  {
    hide Wire, ReplyLens;
    WireAppend(Repeat(chunks, k), chunks);
    ReplyLensAppend(Repeat(chunks, k), chunks);
    RepeatGrows(chunks, k + 1, scans);
  }

  lemma {:induction false} RepeatGrows(chunks: seq<Chunk>, k: nat, scans: nat)
    requires k <= scans
    ensures ReplyLens(Repeat(chunks, k)) <= ReplyLens(Repeat(chunks, scans))
    decreases scans
  {
    hide ReplyLens;
    if k < scans {
      RepeatGrows(chunks, k, scans - 1);
      ReplyLensAppend(Repeat(chunks, scans - 1), chunks);
    }
  }

  /**
   Client and server together: if the server has the registers polled, it writes for any number of
   scans exactly as many bytes as RunScans reads.
   */
  lemma ScansAnswered(setup: Setup, registers: int, chunks: seq<Chunk>, scans: nat)
    requires Serves(setup) && Cuts(chunks, registers) && registers <= setup.registers
    ensures |Output(setup, Wire(Repeat(chunks, scans)))| == ReplyLens(Repeat(chunks, scans))
  {
    AllWithin(setup, registers, chunks, scans);
    StaysInStep(setup, Repeat(chunks, scans));
  }

  lemma NeverMoreThanRead(setup: Setup, c: Chunk)
    requires MIN_READ_QUANTITY <= c.quantity <= MAX_READ_QUANTITY
    ensures |Answer(setup, Request(c))| <= ReplyLen(c)
  {
    RequestFields(c);
    hide Hi, Lo, U16;
  }

  /** The server never writes more than the client reads, and less if one answer is too short. */
  lemma {:induction false} FallsBehind(setup: Setup, asked: seq<Chunk>)
    requires forall c :: c in asked ==> MIN_READ_QUANTITY <= c.quantity <= MAX_READ_QUANTITY
    ensures |Output(setup, Wire(asked))| <= ReplyLens(asked)
    ensures (exists c :: c in asked && |Answer(setup, Request(c))| != ReplyLen(c)) ==>
      |Output(setup, Wire(asked))| < ReplyLens(asked)
    decreases |asked|
  {
    hide Answer, Request, Wire, Output, ReplyLen;
    if asked == [] {
      NoRequests();
      NothingOut(setup);
    } else {
      var n := |asked| - 1;
      FallsBehind(setup, asked[..n]);
      OneMoreRequest(setup, asked[..n], asked[n]);
      assert asked[..n] + [asked[n]] == asked;
      NeverMoreThanRead(setup, asked[n]);
    }
  }

  lemma GivenByServer(setup: Setup, c: Conn, before: seq<Chunk>, now: seq<Chunk>, all: seq<Chunk>)
    requires Serves(setup) && Answers(c, setup, all) && ReplyLens(before) + ReplyLens(now) <= ReplyLens(all)
    requires forall x :: x in all ==> Within(setup, x)
    requires forall x :: x in before + now ==> Within(setup, x)
    ensures Given(c, Wire(before), ReplyLens(before), now)
  {
    hide Serves, Output, Wire, ReplyLens, Within;
    StaysInStep(setup, all);
    StaysInStep(setup, before + now);
    WireAppend(before, now);
    ReplyLensAppend(before, now);
  }

  lemma UpToChunk(chunks: seq<Chunk>, k: nat, i: nat, scans: nat)
    requires k < scans && i <= |chunks|
    ensures ReplyLens(Repeat(chunks, k)) + ReplyLens(chunks[..i]) <= ReplyLens(Repeat(chunks, scans))
    ensures forall x :: x in Repeat(chunks, k) + chunks[..i] ==> x in Repeat(chunks, k + 1)
  {
    hide ReplyLens;
    ReplyLensAppend(Repeat(chunks, k), chunks);
    ReplyLensGrow(chunks, i);
    RepeatGrows(chunks, k + 1, scans);
  }

  /** If the server has the registers, it has answered every chunk of every scan when that is waited for. */
  lemma ServerInTime(setup: Setup, registers: int, c: Conn, chunks: seq<Chunk>, scans: nat, k: nat)
    requires Serves(setup) && Cuts(chunks, registers) && registers <= setup.registers && k < scans
    requires Answers(c, setup, Repeat(chunks, scans))
    ensures ScanInTime(c, chunks, k)
  {
    AllWithin(setup, registers, chunks, k + 1);
    AllWithin(setup, registers, chunks, scans);
    hide Serves, Cuts, Answers, Given, Wire, ReplyLens, Repeat, Within;
    forall i | 0 < i <= |chunks|
      ensures Given(c, Wire(Repeat(chunks, k)), ReplyLens(Repeat(chunks, k)), chunks[..i])
    {
      UpToChunk(chunks, k, i, scans);
      GivenByServer(setup, c, Repeat(chunks, k), chunks[..i], Repeat(chunks, scans));
    }
  }

  // At the other end of c the server answers what it is sent, out of its answers to all of `asked`.
  ghost predicate Answers(c: Conn, setup: Setup, asked: seq<Chunk>) {
    && c.peer == Output(setup, Wire(asked))
    && forall sent :: c.released(sent) == |Output(setup, sent)|
  }

  lemma AllWithin(setup: Setup, registers: int, chunks: seq<Chunk>, scans: nat)
    requires Cuts(chunks, registers) && registers <= setup.registers
    ensures forall c :: c in Repeat(chunks, scans) ==> Within(setup, c)
  {
    forall c | c in Repeat(chunks, scans)
      ensures Within(setup, c)
    {
      var k :| 0 <= k < |chunks| && chunks[k] == c;
    }
  }

  /** If it has not, even the first scan waits for bytes that do not come. */
  lemma FirstScanFails(setup: Setup, registers: int, c: Conn, chunks: seq<Chunk>, scans: nat)
    requires Serves(setup) && Cuts(chunks, registers) && setup.registers < registers
    requires Answers(c, setup, Repeat(chunks, scans))
    ensures !InTime(c, [], 0, chunks)
  {
    ScanFitsIff(setup, registers, chunks);
    var k :| 0 <= k < |chunks| && |Answer(setup, Request(chunks[k]))| != ReplyLen(chunks[k]);
    assert chunks[k] in chunks;
    hide Answer, Request, Wire, Output, ReplyLen, ReplyLens, Repeat, Serves;
    FallsBehind(setup, chunks);
    assert chunks[..|chunks|] == chunks && [] + Wire(chunks) == Wire(chunks);
    assert !Given(c, [], 0, chunks[..|chunks|]);
  }

  /**
   The polling client against the server itself, which answers what it has been sent, over a connection
   that does not fail: all scans finish if the server has the registers polled, and none if it has not.
   */
  method PollServer(setup: Setup, registers: int, scans: nat) returns (finished: nat)
    requires Serves(setup)
    ensures finished == if registers <= setup.registers then scans else 0
  {
    hide Output, Wire, Repeat, ReplyLens, Serves, InTime, ScanInTime, Conn.Reliable;
    var chunks := CutUp(registers);
    var peer := Output(setup, Wire(Repeat(chunks, scans)));
    var c := new Conn.Answering(peer, sent => |Output(setup, sent)|);
    assert Answers(c, setup, Repeat(chunks, scans));
    finished := RunScans(c, chunks, scans);
    if registers <= setup.registers {
      forall k | 0 <= k < scans
        ensures ScanInTime(c, chunks, k)
      {
        ServerInTime(setup, registers, c, chunks, scans, k);
      }
    } else {
      FirstScanFails(setup, registers, c, chunks, scans);
    }
  }
}
