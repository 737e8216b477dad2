/** What internal/config/config.go lets through, and the server setup it stands for. */
module Config {
  import opened Bytes
  import opened Options
  import opened Frame
  import opened Handler
  import opened Stream

  // One comma-separated part of --function-code, trimmed and read by ParseUint(p, 0, 8).
  datatype Token = Blank | Unreadable | Code(n: byte)

  datatype Codes = Parsed(fcs: seq<byte>) | NotANumber | NotImplemented(fc: byte) | NoCodes

  predicate Usable(t: Token) {
    t.Blank? || (t.Code? && t.n in IMPLEMENTED)
  }

  function FirstAt(parts: seq<Token>, t: Token): (i: nat)
    requires t in parts
    ensures i < |parts| && parts[i] == t && t !in parts[..i]
  {
    if parts[0] == t then 0
    else
      assert t in parts[1..];
      var i := FirstAt(parts[1..], t);
      assert parts[..i + 1] == [parts[0]] + parts[1..][..i];
      i + 1
  }

  // fcs lists the codes named in parts, each once, in the order in which they are first named.
  ghost predicate Lists(fcs: seq<byte>, parts: seq<Token>) {
    && (forall c :: c in fcs <==> Code(c) in parts)
    && (forall i, j :: 0 <= i < j < |fcs| ==>
        Code(fcs[i]) in parts && Code(fcs[j]) in parts && FirstAt(parts, Code(fcs[i])) < FirstAt(parts, Code(fcs[j])))
  }

  lemma FirstAtIs(parts: seq<Token>, t: Token, i: nat)
    requires i < |parts| && parts[i] == t && t !in parts[..i]
    ensures FirstAt(parts, t) == i
  {
  }

  lemma FirstAtInPrefix(parts: seq<Token>, k: nat, t: Token)
    requires k <= |parts| && t in parts[..k]
    ensures t in parts && FirstAt(parts, t) == FirstAt(parts[..k], t)
  {
  }

  lemma ListsMore(fcs: seq<byte>, parts: seq<Token>, k: nat)
    requires k < |parts| && Lists(fcs, parts[..k])
    ensures parts[k].Blank? || (parts[k].Code? && parts[k].n in fcs) ==> Lists(fcs, parts[..k + 1])
    ensures parts[k].Code? && parts[k].n !in fcs ==> Lists(fcs + [parts[k].n], parts[..k + 1])
  {
    var head, more := parts[..k], parts[..k + 1];
    assert more == head + [parts[k]] && more[..k] == head;
    forall c | c in fcs
      ensures Code(c) in more && FirstAt(more, Code(c)) == FirstAt(head, Code(c)) < k
    {
      FirstAtInPrefix(more, k, Code(c));
    }
    if parts[k].Code? && parts[k].n !in fcs {
      var t := parts[k];
      FirstAtIs(more, t, k);
    }
  }

  // parts[i] is the first part that cannot be used.
  predicate FirstUnusable(parts: seq<Token>, i: nat) {
    i < |parts| && !Usable(parts[i]) && forall k :: 0 <= k < i ==> Usable(parts[k])
  }

  /**
   ParseFunctionCodes: unreadable and unimplemented codes are errors, and so is naming none. The error
   is that of the first part that cannot be used.
   */
  method ParseFunctionCodes(parts: seq<Token>) returns (r: Codes)
    ensures r.Parsed? <==> (forall t :: t in parts ==> Usable(t)) && exists t :: t in parts && t.Code?
    ensures r.Parsed? ==> r.fcs != [] && Lists(r.fcs, parts)
    ensures r.NotImplemented? ==> r.fc != 3 && r.fc != 4
    ensures r.NotImplemented? ==> exists i: nat :: FirstUnusable(parts, i) && parts[i] == Code(r.fc)
    ensures r.NotANumber? ==> exists i: nat :: FirstUnusable(parts, i) && parts[i] == Unreadable
    ensures r.NoCodes? ==> forall t :: t in parts ==> t.Blank?
  {
    var out: seq<byte> := [];
    var seen: set<byte> := {};
    for i := 0 to |parts|
      invariant forall t :: t in parts[..i] ==> Usable(t)
      invariant Lists(out, parts[..i]) && forall c :: c in seen <==> c in out
    {
      ListsMore(out, parts, i);
      assert parts[..i + 1] == parts[..i] + [parts[i]];
      assert parts[i] in parts;
      match parts[i] {
        case Blank =>
        case Unreadable =>
          assert FirstUnusable(parts, i);
          return NotANumber;
        case Code(fc) =>
          if fc !in IMPLEMENTED {
            assert FirstUnusable(parts, i);
            return NotImplemented(fc);
          }
          if fc !in seen {
            seen := seen + {fc};
            out := out + [fc];
          }
      }
    }
    assert parts[..|parts|] == parts;
    if |out| == 0 {
      return NoCodes;
    }
    assert Code(out[0]) in parts;
    r := Parsed(out);
  }

  const MAX_REGISTERS := 65536

  // The settings as flags and environment give them; times in nanoseconds.
  datatype Flags = Flags(port: int, registers: int, unitId: int, codes: seq<Token>, maxConns: int,
                         idleTimeout: int, logLevelKnown: bool, healthcheck: bool)

  datatype Config = Config(port: int, registers: int, unitId: byte, anyUnitId: bool, functionCodes: seq<byte>,
                           maxConns: int, idleTimeout: int, logLevelKnown: bool, healthcheck: bool)

  predicate Validate(c: Config) {
    && (c.healthcheck || c.port != 0)
    && 0 <= c.port <= 65535
    && 1 <= c.registers <= MAX_REGISTERS
    && 1 <= c.maxConns
    && 0 <= c.idleTimeout
    && c.logLevelKnown
  }

  // What everything downstream may rely on.
  predicate Sound(c: Config) {
    && Validate(c)
    && c.functionCodes != [] && (forall fc :: fc in c.functionCodes ==> fc in IMPLEMENTED)
    && (c.anyUnitId <==> c.unitId == 0)
  }

  method Parse(f: Flags) returns (r: Option<Config>)
    ensures r.Some? ==> Sound(r.value) && Lists(r.value.functionCodes, f.codes)
    ensures r.Some? ==> r.value.port == f.port && r.value.registers == f.registers && r.value.unitId as int == f.unitId
    ensures r.Some? ==> r.value.maxConns == f.maxConns && r.value.idleTimeout == f.idleTimeout
    ensures r.Some? ==> r.value.healthcheck == f.healthcheck
    ensures r.None? <==>
      || (exists t :: t in f.codes && !Usable(t)) || (forall t :: t in f.codes ==> !t.Code?)
      || !(0 <= f.unitId <= 255) || !(f.healthcheck || f.port != 0) || !(0 <= f.port <= 65535)
      || !(1 <= f.registers <= 65536) || f.maxConns < 1 || f.idleTimeout < 0 || !f.logLevelKnown
  {
    var fcs := ParseFunctionCodes(f.codes);
    if !fcs.Parsed? {
      return None;
    }
    if f.unitId < 0 || f.unitId > 255 {
      return None;
    }
    var c := Config(f.port, f.registers, f.unitId as byte, f.unitId == 0, fcs.fcs, f.maxConns,
                    f.idleTimeout, f.logLevelKnown, f.healthcheck);
    if !Validate(c) {
      return None;
    }
    forall fc | fc in c.functionCodes
      ensures fc in IMPLEMENTED
    {
      assert Usable(Code(fc));
    }
    r := Some(c);
  }

  // The server that server.New builds from c, as far as its answers go.
  function SetupOf(c: Config): Setup
    requires Sound(c)
  {
    Setup(c.registers, ActiveCodes(c.functionCodes), c.unitId, c.anyUnitId)
  }

  /**
   A server built from a validated configuration: to a read of a code it names, for the unit it
   answers, all registers zero if they are within those configured, and otherwise exception 02.
   */
  lemma ConfiguredServerAnswers(c: Config, s: bytes)
    requires Sound(c) && Next(s).Some? && (c.unitId == 0 || s[6] == c.unitId)
    requires |s| == 12 && s[4] == 0 && s[5] == 6 && s[7] in c.functionCodes
    requires 1 <= s[10] as int * 256 + s[11] as int <= 125
    ensures var start, quantity := s[8] as int * 256 + s[9] as int, s[10] as int * 256 + s[11] as int;
      var r := if start + quantity <= c.registers then [s[7], (2 * quantity) as byte] + Zeros(2 * quantity) else [s[7] + 0x80, 2];
      Output(SetupOf(c), s) == [s[0], s[1], 0, 0, 0, (|r| + 1) as byte, s[6]] + r
  {
    SingleAnswer(SetupOf(c), s);
    ReplyToRead(c, s[7..]);
    hide Output, Reply, Next, ActiveCodes, Zeros, Sound;
  }

  lemma SingleAnswer(setup: Setup, s: bytes)
    requires Next(s).Some? && |s| == 12 && s[4] == 0 && s[5] == 6 && (setup.anyUnit || s[6] == setup.unitId)
    ensures var r := Reply(setup.registers, setup.active, s[7..]);
      Output(setup, s) == [s[0], s[1], 0, 0, 0, (|r| + 1) as byte, s[6]] + r
  {
    SingleFrame(s);
    AnswerInOctets(setup, s);
    NothingOut(setup);
    hide Next, Output, Reply;
    PlusNothing(Output(setup, s), [s[0], s[1], 0, 0, 0, (|Reply(setup.registers, setup.active, s[7..])| + 1) as byte, s[6]],
      Reply(setup.registers, setup.active, s[7..]));
  }

  lemma SingleFrame(s: bytes)
    requires Next(s).Some? && |s| == 12 && s[4] == 0 && s[5] == 6
    ensures Next(s).value.0.pdu == s[7..] && Next(s).value.1 == []
  {
    NextInOctets(s);
  }

  lemma PlusNothing(whole: bytes, a: bytes, b: bytes)
    requires whole == a + b + []
    ensures whole == a + b
  {
  }

  lemma ReplyToRead(c: Config, pdu: bytes)
    requires Sound(c) && |pdu| == 5 && pdu[0] in c.functionCodes && 1 <= pdu[3] as int * 256 + pdu[4] as int <= 125
    ensures var start, quantity := pdu[1] as int * 256 + pdu[2] as int, pdu[3] as int * 256 + pdu[4] as int;
      Reply(c.registers, ActiveCodes(c.functionCodes), pdu) ==
        if start + quantity <= c.registers then [pdu[0], (2 * quantity) as byte] + Zeros(2 * quantity)
        else [pdu[0] + 0x80, 2]
  {
  }
}
