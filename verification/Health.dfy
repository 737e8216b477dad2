/** The self-check of internal/health/health.go, and what it says about the server it talks to. */
module Health {
  import opened Bytes
  import opened Options
  import opened Net
  import opened Frame
  import opened Handler
  import opened Stream
  import opened Config

  // The part of the state file that is read back.
  datatype Persisted = Persisted(port: int, unitId: byte, anyUnitId: bool, functionCodes: seq<int>)

  datatype Verdict =
    | Healthy | NoPort | DialFailed | SendFailed | NoHeader | BadHeader | NoBody | ExceptionReply

  // modbus.IsRead
  predicate IsRead(fc: byte) {
    fc == 1 || fc == 2 || fc == 3 || fc == 4
  }

  /** firstReadFC */
  method FirstReadFC(fcs: seq<byte>) returns (r: Option<byte>)
    ensures r == FirstRead(fcs)
  {
    for i := 0 to |fcs|
      invariant FirstRead(fcs[i..]) == FirstRead(fcs)
    {
      if IsRead(fcs[i]) {
        return Some(fcs[i]);
      }
      assert fcs[i..][1..] == fcs[i + 1..];
    }
    r := None;
  }

  function FirstRead(fcs: seq<byte>): (r: Option<byte>)
    ensures r.Some? ==> IsRead(r.value)
    ensures r.Some? ==> exists i :: 0 <= i < |fcs| && fcs[i] == r.value && forall j :: 0 <= j < i ==> !IsRead(fcs[j])
    ensures r.None? ==> forall fc :: fc in fcs ==> !IsRead(fc)
  {
    if fcs == [] then None else if IsRead(fcs[0]) then Some(fcs[0]) else FirstRead(fcs[1..])
  }

  // Go's byte(n)
  function ToByte(n: int): byte {
    (n % 256) as byte
  }

  // The codes restored from the state file.
  function Restored(codes: seq<int>): (fcs: seq<byte>)
    ensures |fcs| == |codes| && forall i :: 0 <= i < |codes| ==> fcs[i] as int == codes[i] % 256
  {
    seq(|codes|, i requires 0 <= i < |codes| => ToByte(codes[i]))
  }

  // Whom to ask and about what: unit and function codes, from the configuration or the state file.
  function Target(c: Config, st: Option<Persisted>): Option<(byte, seq<byte>)> {
    if c.port != 0 then Some((if c.anyUnitId then 1 else c.unitId, c.functionCodes))
    else
      match st
      case None => None
      case Some(p) =>
        if p.port == 0 then None
        else Some((if p.anyUnitId then 1 else p.unitId, Restored(p.functionCodes)))
  }

  // One register from address 0.
  function Request(unit: byte, fc: byte): (a: Adu)
    ensures a.WellFormed()
  {
    Adu(Header(1, 0, 6, unit), [fc, 0, 0, 0, 1])
  }

  // A reply that counts as healthy.
  predicate Accepted(peer: bytes, fc: byte) {
    match Next(peer)
    case Some((f, _)) => f.pdu != [] && f.pdu[0] == fc
    case None => false
  }

  // sent is the request, octet by octet, for the first read code of fcs; nothing if there is none.
  ghost predicate AskedFor(sent: bytes, unit: byte, fcs: seq<byte>) {
    if forall fc :: fc in fcs ==> !(1 <= fc <= 4) then sent == []
    else exists i: nat :: ReadFirstAt(fcs, i) && sent == [0, 1, 0, 0, 0, 6, unit, fcs[i], 0, 0, 0, 1]
  }

  predicate ReadFirstAt(fcs: seq<byte>, i: nat) {
    i < |fcs| && 1 <= fcs[i] <= 4 && forall j :: 0 <= j < i ==> !(1 <= fcs[j] <= 4)
  }

  // What v says of the bytes of the peer.
  predicate Judged(peer: bytes, fc: byte, v: Verdict) {
    match v
    case NoHeader => |peer| < HEADER_LEN
    case BadHeader => HEADER_LEN <= |peer| && !DecodeHeader(peer).Valid()
    case NoBody =>
      HEADER_LEN <= |peer| && DecodeHeader(peer).Valid() && |peer| < HEADER_LEN + DecodeHeader(peer).PduLen()
    case ExceptionReply => Next(peer).Some? && peer[HEADER_LEN] != fc
    case Healthy => Next(peer).Some? && peer[HEADER_LEN] == fc
    case _ => false
  }

  /**
   Run, over the connection that dialling gave, if any. A port that is given comes before the state
   file, whatever that says.
   */
  method Run(c: Config, st: Option<Persisted>, conn: Conn?) returns (v: Verdict)
    requires conn != null ==> conn.Valid() && conn.taken == 0 && conn.sent == [] && !conn.closed
    modifies conn
    ensures v == NoPort <==> Target(c, st) == None
    ensures v == DialFailed <==> Target(c, st).Some? && conn == null
    ensures v == Healthy ==> Target(c, st).Some? && conn != null && match FirstRead(Target(c, st).value.1)
      case None => conn.sent == []
      case Some(fc) => conn.sent == Request(Target(c, st).value.0, fc).Octets() && Accepted(conn.peer, fc)
    ensures Target(c, st).Some? && conn != null && conn.Reliable() ==> match FirstRead(Target(c, st).value.1)
      case None => v == Healthy
      case Some(fc) => v == Healthy <==> Accepted(conn.peer, fc)
    ensures v == NoPort <==> c.port == 0 && (st.None? || st.value.port == 0)
    ensures c.port != 0 && conn != null && conn.Reliable() ==>
      AskedFor(conn.sent, if c.anyUnitId then 1 else c.unitId, c.functionCodes)
    ensures c.port == 0 && v != NoPort && conn != null && conn.Reliable() ==>
      AskedFor(conn.sent, if st.value.anyUnitId then 1 else st.value.unitId, Restored(st.value.functionCodes))
  {
    hide Conn.Reliable, Accepted, Next;
    var port, unitId, anyUnit, fcs := c.port, c.unitId, c.anyUnitId, c.functionCodes;
    if port == 0 {
      if st.None? {
        return NoPort;
      }
      port, unitId, anyUnit := st.value.port, st.value.unitId, st.value.anyUnitId;
      fcs := [];
      for i := 0 to |st.value.functionCodes|
        invariant fcs == Restored(st.value.functionCodes[..i])
      {
        fcs := fcs + [ToByte(st.value.functionCodes[i])];
      }
      assert st.value.functionCodes[..|st.value.functionCodes|] == st.value.functionCodes;
    }
    if port == 0 {
      return NoPort;
    }
    if anyUnit {
      unitId := 1;
    }
    if conn == null {
      return DialFailed;
    }
    var fc := FirstReadFC(fcs);
    AskedForFirst(unitId, fcs);
    if fc.None? {
      return Healthy;
    }
    hide AskedFor, FirstRead, Request;
    v := Ask(unitId, fc.value, conn);
  }

  lemma AskedForFirst(unit: byte, fcs: seq<byte>)
    ensures match FirstRead(fcs)
      case None => AskedFor([], unit, fcs)
      case Some(fc) => AskedFor(Request(unit, fc).Octets(), unit, fcs)
  {
    if FirstRead(fcs).Some? {
      var fc := FirstRead(fcs).value;
      var i: nat :| i < |fcs| && fcs[i] == fc && forall j :: 0 <= j < i ==> !IsRead(fcs[j]);
      assert ReadFirstAt(fcs, i) && fcs[i] in fcs;
      assert Request(unit, fc).Octets() == [0, 1, 0, 0, 0, 6, unit, fc, 0, 0, 0, 1];
    }
  }

  method BuildRequest(unitId: byte, fc: byte) returns (req: array<byte>)
    ensures fresh(req) && req[..] == Request(unitId, fc).Octets()
  {
    hide DecodeHeader;
    req := new byte[HEADER_LEN + 5];
    Encode(Header(1, 0, 6, unitId), req);
    ghost var head := req[..HEADER_LEN];
    req[HEADER_LEN] := fc;
    req[HEADER_LEN + 1], req[HEADER_LEN + 2] := Hi(0), Lo(0);   // start address
    req[HEADER_LEN + 3], req[HEADER_LEN + 4] := Hi(1), Lo(1);   // quantity
    assert req[..HEADER_LEN] == head;
    hide Header.Octets;
    assert req[..] == head + [fc, 0, 0, 0, 1];
  }

  method Ask(unitId: byte, fc: byte, conn: Conn) returns (v: Verdict)
    requires conn.Valid() && conn.taken == 0 && conn.sent == [] && !conn.closed
    modifies conn
    ensures v != NoPort && v != DialFailed
    ensures v == Healthy ==> conn.sent == Request(unitId, fc).Octets() && Accepted(conn.peer, fc)
    ensures conn.Reliable() && Accepted(conn.peer, fc) ==> v == Healthy
    ensures conn.Reliable() ==> conn.sent == Request(unitId, fc).Octets() && Judged(conn.peer, fc, v)
  {
    assert conn.Reliable() ==> conn.steady;
    hide Request, Accepted, Judged, Conn.Reliable;
    var req := BuildRequest(unitId, fc);
    var data := req[..];
    var sent := conn.Write(data);
    if !sent {
      return SendFailed;
    }
    v := JudgeReply(fc, conn);
  }

  method JudgeReply(fc: byte, conn: Conn) returns (v: Verdict)
    requires conn.Valid() && conn.taken == 0 && !conn.closed
    modifies conn`taken
    ensures v in {Healthy, NoHeader, BadHeader, NoBody, ExceptionReply}
    ensures v == Healthy ==> Accepted(conn.peer, fc)
    ensures conn.Reliable() && Accepted(conn.peer, fc) ==> v == Healthy
    ensures conn.Reliable() || v.BadHeader? || v.ExceptionReply? ==> Judged(conn.peer, fc, v)
  {
    hide Hi, Lo, U16, Conn.Reliable;
    var hdr := new byte[HEADER_LEN];
    var ok := conn.ReadFull(hdr, 0, HEADER_LEN);
    if !ok {
      return NoHeader;
    }
    var h := DecodeHeader(hdr[..]);
    assert hdr[..] == hdr[0..HEADER_LEN] == conn.peer[0..HEADER_LEN];
    DecodeOfPrefix(hdr[..], conn.peer);
    if !h.Valid() {
      return BadHeader;
    }
    var body := new byte[h.PduLen()];
    ok := conn.ReadFull(body, 0, h.PduLen());
    if !ok {
      return NoBody;
    }
    assert body[0..h.PduLen()][0] == body[0];
    v := if body[0] != fc then ExceptionReply else Healthy;
  }

  lemma NormalIfActive(setup: Setup, unit: byte, fc: byte)
    requires 1 <= setup.registers && fc < 0x80
    ensures Response(setup, Request(unit, fc)).pdu != []
    ensures Response(setup, Request(unit, fc)).pdu[0] == fc <==> fc in setup.active
  {
  }

  /**
   A server with at least one register gives a healthy reply exactly if it answers for the unit asked
   and the function code asked for is active.
   */
  lemma HealthyIff(setup: Setup, unit: byte, fc: byte)
    requires 1 <= setup.registers && fc < 0x80
    ensures Accepted(Output(setup, Request(unit, fc).Octets()), fc) <==> setup.Accepts(unit) && fc in setup.active
  {
    var q := Request(unit, fc);
    assert q.header.unitId == unit;
    NormalIfActive(setup, unit, fc);
    assert Output(setup, []) == [];
    hide Adu.Octets, Response, Request, Output;
    assert q.Octets() + [] == q.Octets();
    OutputOfFrame(setup, q, []);
    hide Next;
    if setup.Accepts(unit) {
      NextOfFrame(Response(setup, q), []);
      assert Response(setup, q).Octets() + [] == Response(setup, q).Octets() == Answer(setup, q) + [];
    } else {
      NothingFromNothing();
    }
  }

  lemma NothingFromNothing()
    ensures Next([]) == None
  {
  }

  // What a server started with c leaves in the state file.
  function StateOf(c: Config): Persisted {
    Persisted(c.port, c.unitId, c.anyUnitId,
              seq(|c.functionCodes|, i requires 0 <= i < |c.functionCodes| => c.functionCodes[i] as int))
  }

  /**
   Every configuration that passes validation describes a server that its own self-check finds
   healthy, whether the check is given the same unit and codes or restores them from the state file.
   */
  lemma ValidatedServerIsHealthy(c: Config, check: Config)
    requires Sound(c) && c.port != 0
    requires check.port == 0 ||
      (check.unitId == c.unitId && check.anyUnitId == c.anyUnitId && check.functionCodes == c.functionCodes)
    ensures var t := Target(check, Some(StateOf(c)));
      && t == Some((if c.unitId == 0 then 1 else c.unitId, c.functionCodes)) && FirstRead(t.value.1).Some?
      && Accepted(Output(SetupOf(c), Request(t.value.0, FirstRead(t.value.1).value).Octets()), FirstRead(t.value.1).value)
  {
    var t := Target(check, Some(StateOf(c)));
    assert check.port == 0 ==> Restored(StateOf(c).functionCodes) == c.functionCodes;
    assert c.functionCodes[0] in c.functionCodes;
    var fc := FirstRead(t.value.1).value;
    HealthyIff(SetupOf(c), t.value.0, fc);
  }
}
