/**
 What a connection's request bytes are turned into: the meaning of the loop in
 internal/server/conn.go, as a function from byte strings to byte strings.
 */
module Stream {
  import opened Bytes
  import opened Options
  import opened Frame
  import opened Handler

  // The part of a server's configuration that its answers depend on.
  datatype Setup = Setup(registers: nat, active: set<byte>, unitId: byte, anyUnit: bool) {
    predicate Accepts(unit: byte) {
      anyUnit || unit == unitId
    }
  }

  function Response(setup: Setup, request: Adu): (response: Adu)
    requires request.WellFormed()
    ensures response.WellFormed()
    ensures response.header.transactionId == request.header.transactionId
    ensures response.header.unitId == request.header.unitId
  {
    var pdu := Reply(setup.registers, setup.active, request.pdu);
    Adu(Header(request.header.transactionId, 0, |pdu| + 1, request.header.unitId), pdu)
  }

  // The bytes written for one request frame.
  function Answer(setup: Setup, request: Adu): bytes
    requires request.WellFormed()
  {
    if setup.Accepts(request.header.unitId) then Response(setup, request).Octets() else []
  }

  function Output(setup: Setup, s: bytes): bytes
    decreases |s|
  {
    match Next(s)
    case None => []
    case Some((f, rest)) => FrameOfNext(s); Answer(setup, f) + Output(setup, rest)
  }

  lemma NothingOut(setup: Setup)
    ensures Output(setup, []) == []
  {
  }

  // The responses to a list of frames, frame by frame.
  function Responses(setup: Setup, frames: seq<Adu>): (rs: seq<Adu>)
    requires AllWellFormed(frames)
    ensures AllWellFormed(rs)
  {
    if frames == [] then []
    else (if setup.Accepts(frames[0].header.unitId) then [Response(setup, frames[0])] else [])
         + Responses(setup, frames[1..])
  }

  // The positions of the frames meant for this unit.
  function Accepted(setup: Setup, frames: seq<Adu>): (at: seq<nat>)
    ensures forall k :: 0 <= k < |at| ==> at[k] < |frames| && setup.Accepts(frames[at[k]].header.unitId)
    ensures forall j, k :: 0 <= j < k < |at| ==> at[j] < at[k]
    ensures forall i :: 0 <= i < |frames| && setup.Accepts(frames[i].header.unitId) ==> i in at
  {
    if frames == [] then []
    else
      var n := |frames| - 1;
      assert forall i :: 0 <= i < n ==> frames[..n][i] == frames[i];
      Accepted(setup, frames[..n]) + if setup.Accepts(frames[n].header.unitId) then [n] else []
  }

  /** Responses correspond one to one and in order to the accepted frames, ids echoed. */
  lemma {:induction false} OneToOne(setup: Setup, frames: seq<Adu>)
    requires AllWellFormed(frames)
    ensures var rs := Responses(setup, frames); var at := Accepted(setup, frames);
      && |rs| == |at|
      && forall k :: 0 <= k < |at| ==> rs[k] == Response(setup, frames[at[k]])
  {
    hide Response, AllWellFormed, Responses;
    if frames == [] {
      NoResponses(setup);
    } else {
      var n := |frames| - 1;
      AllWellFormedSlices(frames, n);
      OneToOne(setup, frames[..n]);
      assert frames == frames[..n] + frames[n..];
      ResponsesAppend(setup, frames[..n], frames[n..]);
      ResponsesOfOne(setup, frames[n..]);
    }
  }

  lemma NoResponses(setup: Setup)
    ensures Responses(setup, []) == []
  {
  }

  lemma ResponsesOfOne(setup: Setup, frames: seq<Adu>)
    requires |frames| == 1 && AllWellFormed(frames)
    ensures Responses(setup, frames) ==
      if setup.Accepts(frames[0].header.unitId) then [Response(setup, frames[0])] else []
  {
    assert frames[1..] == [];
  }

  lemma AllWellFormedSlices(frames: seq<Adu>, n: nat)
    requires AllWellFormed(frames) && n <= |frames|
    ensures AllWellFormed(frames[..n]) && AllWellFormed(frames[n..])
  {
  }

  lemma {:induction false} ResponsesAppend(setup: Setup, a: seq<Adu>, b: seq<Adu>)
    requires AllWellFormed(a) && AllWellFormed(b)
    ensures AllWellFormed(a + b)
    ensures Responses(setup, a + b) == Responses(setup, a) + Responses(setup, b)
  {
    hide Response, Adu.WellFormed;
    if a == [] {
      assert a + b == b;
    } else {
      ResponsesAppend(setup, a[1..], b);
      assert (a + b)[1..] == a[1..] + b;
    }
  }

  lemma OutputOfFrame(setup: Setup, f: Adu, rest: bytes)
    requires f.WellFormed()
    ensures Output(setup, f.Octets() + rest) == Answer(setup, f) + Output(setup, rest)
  {
    hide Adu.WellFormed, Adu.Octets, Next, Answer;
    NextOfFrame(f, rest);
  }

  lemma AnswersAreResponses(setup: Setup, frames: seq<Adu>)
    requires AllWellFormed(frames) && frames != []
    ensures Serialize(Responses(setup, frames))
         == Answer(setup, frames[0]) + Serialize(Responses(setup, frames[1..]))
  {
    hide Adu.WellFormed, Adu.Octets, Response, Setup.Accepts;
    var head := if setup.Accepts(frames[0].header.unitId) then [Response(setup, frames[0])] else [];
    SerializeAppend(head, Responses(setup, frames[1..]));
    SerializeOne(head);
  }

  /** Whole frames in front of anything are answered first and leave no trace on what follows. */
  lemma {:induction false} OutputOfFrames(setup: Setup, frames: seq<Adu>, rest: bytes)
    requires AllWellFormed(frames)
    ensures Output(setup, Serialize(frames) + rest)
         == Serialize(Responses(setup, frames)) + Output(setup, rest)
  {
    hide Adu.WellFormed, Adu.Octets, Answer, Output;
    if frames == [] {
      assert Serialize(frames) + rest == rest;
    } else {
      var more := Serialize(frames[1..]) + rest;
      assert Serialize(frames) + rest == frames[0].Octets() + more;
      OutputOfFrame(setup, frames[0], more);
      AnswersAreResponses(setup, frames);
      OutputOfFrames(setup, frames[1..], rest);
    }
  }

  lemma SerializeOne(head: seq<Adu>)
    requires |head| <= 1
    ensures Serialize(head) == if head == [] then [] else head[0].Octets()
  {
  }

  /** A frame is left unanswered exactly if it is for another unit and not every unit is accepted. */
  lemma UnansweredIff(setup: Setup, f: Adu)
    requires f.WellFormed()
    ensures Output(setup, f.Octets()) == [] <==> !setup.anyUnit && f.header.unitId != setup.unitId
  {
    assert f.Octets() + [] == f.Octets() && Output(setup, []) == [];
    hide Adu.Octets, Output, Response;
    OutputOfFrame(setup, f, []);
    AnswerLength(setup, f);
  }

  lemma AnswerLength(setup: Setup, f: Adu)
    requires f.WellFormed()
    ensures |Answer(setup, f)| == if setup.anyUnit || f.header.unitId == setup.unitId
      then HEADER_LEN + |Reply(setup.registers, setup.active, f.pdu)| else 0
  {
    hide Reply, Header.Octets;
  }

  /** The answer octet by octet: transaction and unit echoed, protocol 0, and a length below 256. */
  lemma AnswerInOctets(setup: Setup, s: bytes)
    requires Next(s).Some? && (setup.anyUnit || s[6] == setup.unitId)
    ensures var (f, rest) := Next(s).value; var r := Reply(setup.registers, setup.active, f.pdu);
      Output(setup, s) == [s[0], s[1], 0, 0, 0, (|r| + 1) as byte, s[6]] + r + Output(setup, rest)
  {
    FrameOfNext(s);
    NextInOctets(s);
    var f := Next(s).value.0;
    hide Reply, Next;
    var r := Reply(setup.registers, setup.active, f.pdu);
    ResponseOctets(setup, f, s[0], s[1]);
    assert Output(setup, s) == Answer(setup, f) + Output(setup, Next(s).value.1);
  }

  lemma ResponseOctets(setup: Setup, f: Adu, hi: byte, lo: byte)
    requires f.WellFormed() && f.header.transactionId == hi as int * 256 + lo as int
    ensures var r := Reply(setup.registers, setup.active, f.pdu);
      Response(setup, f).Octets() == [hi, lo, 0, 0, 0, (|r| + 1) as byte, f.header.unitId] + r
  {
    hide Reply;
  }

  /** The output is the list of responses to the frames of the input, and nothing else. */
  lemma OutputIsResponses(setup: Setup, s: bytes)
    ensures AllWellFormed(Parse(s))
    ensures Output(setup, s) == Serialize(Responses(setup, Parse(s)))
  {
    SerializeParse(s);
    OutputOfFrames(setup, Parse(s), Leftover(s));
  }

  /** What the server writes is again a stream of whole frames: reading it back gives the responses. */
  lemma OutputReparses(setup: Setup, s: bytes)
    ensures AllWellFormed(Parse(s))
    ensures Parse(Output(setup, s)) == Responses(setup, Parse(s))
    ensures Leftover(Output(setup, s)) == []
  {
    OutputIsResponses(setup, s);
    var rs := Responses(setup, Parse(s));
    ParseSerialize(rs, []);
    assert Serialize(rs) + [] == Serialize(rs);
  }

  /** Nothing from the first invalid header on has any effect. */
  lemma OutputStopsAtBadHeader(setup: Setup, frames: seq<Adu>, bad: Header, rest: bytes)
    requires AllWellFormed(frames) && !bad.Valid()
    ensures Output(setup, Serialize(frames) + (bad.Octets() + rest)) == Serialize(Responses(setup, frames))
  {
    DecodeEncode(bad, rest);
    assert Next(bad.Octets() + rest) == None;
    OutputOfFrames(setup, frames, bad.Octets() + rest);
  }

  /** More input never changes what has already been written. */
  lemma {:induction false} OutputGrows(setup: Setup, a: bytes, b: bytes)
    ensures Output(setup, a) <= Output(setup, a + b)
    decreases |a|
  {
    hide Adu.WellFormed, Adu.Octets, Next, Answer;
    if Next(a).Some? {
      FrameOfNext(a);
      var (f, rest) := Next(a).value;
      assert a + b == f.Octets() + (rest + b);
      NextOfFrame(f, rest + b);
      OutputGrows(setup, rest, b);
    }
  }
}
