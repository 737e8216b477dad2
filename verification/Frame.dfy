/**
 MBAP framing (section 3.1.3 of the MODBUS Messaging on TCP/IP Implementation Guide V1.0b):
 the header codec of internal/modbus/frame.go and the frame stream it induces.
 */
module Frame {
  import opened Bytes
  import opened Options

  const HEADER_LEN := 7
  const MAX_PDU_LEN := 253
  const MAX_ADU_LEN := HEADER_LEN + MAX_PDU_LEN
  const MIN_LENGTH_FIELD := 1 + 1
  const MAX_LENGTH_FIELD := 1 + MAX_PDU_LEN

  datatype Header = Header(transactionId: u16, protocolId: u16, length: u16, unitId: byte) {
    predicate Valid() {
      protocolId == 0 && MIN_LENGTH_FIELD <= length <= MAX_LENGTH_FIELD
    }

    function PduLen(): int {
      length - 1
    }

    function Octets(): (b: bytes)
      ensures |b| == HEADER_LEN
    {
      [Hi(transactionId), Lo(transactionId), Hi(protocolId), Lo(protocolId), Hi(length), Lo(length), unitId]
    }
  }

  function DecodeHeader(b: bytes): Header
    requires HEADER_LEN <= |b|
  {
    Header(U16(b[0..2]), U16(b[2..4]), U16(b[4..6]), b[6])
  }

  lemma DecodeOfPrefix(b: bytes, c: bytes)
    requires HEADER_LEN <= |b| && HEADER_LEN <= |c| && b[..HEADER_LEN] == c[..HEADER_LEN]
    ensures DecodeHeader(b) == DecodeHeader(c)
  {
  }

  lemma DecodeEncode(h: Header, rest: bytes)
    ensures DecodeHeader(h.Octets() + rest) == h
  {
  }

  lemma EncodeDecode(b: bytes)
    requires HEADER_LEN <= |b|
    ensures DecodeHeader(b).Octets() == b[..HEADER_LEN]
  {
  }

  /** Header.Encode: overwrites the first seven bytes of dst and nothing else. */
  method Encode(h: Header, dst: array<byte>)
    requires HEADER_LEN <= dst.Length
    modifies dst
    ensures dst[..HEADER_LEN] == h.Octets() && DecodeHeader(dst[..HEADER_LEN]) == h
    ensures dst[HEADER_LEN..] == old(dst[HEADER_LEN..])
  {
    dst[0], dst[1] := Hi(h.transactionId), Lo(h.transactionId);
    dst[2], dst[3] := Hi(h.protocolId), Lo(h.protocolId);
    dst[4], dst[5] := Hi(h.length), Lo(h.length);
    dst[6] := h.unitId;
    DecodeEncode(h, []);
    assert dst[..HEADER_LEN] == h.Octets() == h.Octets() + [];
  }

  datatype Adu = Adu(header: Header, pdu: bytes) {
    predicate WellFormed() {
      header.Valid() && |pdu| == header.PduLen()
    }

    function Octets(): bytes {
      header.Octets() + pdu
    }
  }

  predicate AllWellFormed(frames: seq<Adu>) {
    forall f :: f in frames ==> f.WellFormed()
  }

  function Serialize(frames: seq<Adu>): bytes {
    if frames == [] then [] else frames[0].Octets() + Serialize(frames[1..])
  }

  // The frame s starts with and what follows it; None if s is cut short or its header is not valid.
  function Next(s: bytes): (r: Option<(Adu, bytes)>)
    ensures r.Some? ==> |r.value.1| + HEADER_LEN + 1 <= |s|
  {
    if |s| < HEADER_LEN then None
    else
      var h := DecodeHeader(s);
      if !h.Valid() || |s| < HEADER_LEN + h.PduLen() then None
      else Some((Adu(h, s[HEADER_LEN..HEADER_LEN + h.PduLen()]), s[HEADER_LEN + h.PduLen()..]))
  }

  /** When a stream has a next frame, and which it is, octet by octet. */
  lemma NextInOctets(s: bytes)
    ensures |s| < 7 ==> Next(s) == None
    ensures 7 <= |s| ==>
      var length := s[4] as int * 256 + s[5] as int;
      Next(s).Some? <==> s[2] == 0 && s[3] == 0 && 2 <= length <= 254 && 6 + length <= |s|
    ensures Next(s).Some? ==>
      var (f, rest) := Next(s).value; var end := 6 + s[4] as int * 256 + s[5] as int;
      && f.header.transactionId == s[0] as int * 256 + s[1] as int && f.header.unitId == s[6]
      && f.pdu == s[7..end] && rest == s[end..]
  {
  }

  lemma NextOfFrame(f: Adu, rest: bytes)
    requires f.WellFormed()
    ensures Next(f.Octets() + rest) == Some((f, rest))
  {
  }

  lemma FrameOfNext(s: bytes)
    requires Next(s).Some?
    ensures Next(s).value.0.WellFormed() && s == Next(s).value.0.Octets() + Next(s).value.1
  {
  }

  function Parse(s: bytes): (frames: seq<Adu>)
    decreases |s|
  {
    match Next(s)
    case None => []
    case Some((f, rest)) => [f] + Parse(rest)
  }

  function Leftover(s: bytes): bytes
    decreases |s|
  {
    match Next(s)
    case None => s
    case Some((_, rest)) => Leftover(rest)
  }

  /** Parsing undoes serialising, whatever follows. */
  lemma {:induction false} ParseSerialize(frames: seq<Adu>, rest: bytes)
    requires AllWellFormed(frames)
    ensures Parse(Serialize(frames) + rest) == frames + Parse(rest)
    ensures Leftover(Serialize(frames) + rest) == Leftover(rest)
  {
    hide Adu.Octets, Next, Header.Valid;
    if frames == [] {
      assert Serialize(frames) + rest == rest;
    } else {
      var more := Serialize(frames[1..]) + rest;
      assert Serialize(frames) + rest == frames[0].Octets() + more;
      NextOfFrame(frames[0], more);
      ParseSerialize(frames[1..], rest);
    }
  }

  /** Serialising undoes parsing: every byte string is whole frames and then something that is none. */
  lemma {:induction false} SerializeParse(s: bytes)
    ensures AllWellFormed(Parse(s)) && Next(Leftover(s)) == None
    ensures s == Serialize(Parse(s)) + Leftover(s)
    decreases |s|
  {
    hide Adu.Octets, Next, Header.Valid;
    if Next(s).Some? {
      FrameOfNext(s);
      var (f, rest) := Next(s).value;
      SerializeParse(rest);
      assert Parse(s)[1..] == Parse(rest);
    }
  }

  lemma {:induction false} SerializeAppend(a: seq<Adu>, b: seq<Adu>)
    ensures Serialize(a + b) == Serialize(a) + Serialize(b)
  {
    hide Adu.Octets;
    if a == [] {
      assert a + b == b;
    } else {
      SerializeAppend(a[1..], b);
      assert (a + b)[1..] == a[1..] + b;
      assert Serialize(a + b) == a[0].Octets() + (Serialize(a[1..]) + Serialize(b));
    }
  }
}
