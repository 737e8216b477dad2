/**
 The function-code table of internal/modbus/handler.go against the state diagrams of sections 6.3,
 6.4 and 7 of the MODBUS Application Protocol Specification V1.1b3.
 */
module Handler {
  import opened Bytes
  import opened Options
  import opened Frame

  const FC_READ_HOLDING_REGISTERS: byte := 3
  const FC_READ_INPUT_REGISTERS: byte := 4
  const ILLEGAL_FUNCTION: byte := 1
  const ILLEGAL_DATA_ADDRESS: byte := 2
  const ILLEGAL_DATA_VALUE: byte := 3
  const MIN_READ_QUANTITY := 1
  const MAX_READ_QUANTITY := 125

  // The function codes a table entry other than illegalFunction exists for.
  const IMPLEMENTED: set<byte> := {FC_READ_HOLDING_REGISTERS, FC_READ_INPUT_REGISTERS}

  function ActiveCodes(fcs: seq<byte>): set<byte> {
    set c | c in fcs && c in IMPLEMENTED
  }

  // fc | 0x80
  function WithExceptionBit(fc: byte): byte {
    if fc < 0x80 then fc + 0x80 else fc
  }

  function Start(pdu: bytes): u16
    requires |pdu| == 5
  {
    U16(pdu[1..3])
  }

  function Quantity(pdu: bytes): u16
    requires |pdu| == 5
  {
    U16(pdu[3..5])
  }

  // A request whose quantity the specification allows.
  predicate Readable(pdu: bytes) {
    |pdu| == 5 && MIN_READ_QUANTITY <= Quantity(pdu) <= MAX_READ_QUANTITY
  }

  function Normal(fc: byte, quantity: nat): (r: bytes)
    requires quantity <= MAX_READ_QUANTITY
    ensures |r| == 2 + 2 * quantity
  {
    [fc, (2 * quantity) as byte] + Zeros(2 * quantity)
  }

  function Exception(fc: byte, code: byte): bytes {
    [WithExceptionBit(fc), code]
  }

  function Reply(registers: nat, active: set<byte>, pdu: bytes): (r: bytes)
    requires pdu != []
    ensures 2 <= |r| < MAX_PDU_LEN
  {
    if pdu[0] !in active then Exception(pdu[0], ILLEGAL_FUNCTION)
    else if !Readable(pdu) then Exception(pdu[0], ILLEGAL_DATA_VALUE)
    else if Start(pdu) + Quantity(pdu) > registers then Exception(pdu[0], ILLEGAL_DATA_ADDRESS)
    else Normal(pdu[0], Quantity(pdu))
  }

  // What sections 6.3, 6.4 and 7 ask of the reply r of a server configured with the codes fcs.
  ghost predicate Conforms(registers: nat, fcs: seq<byte>, pdu: bytes, r: bytes)
    requires pdu != []
  {
    var fc := pdu[0];
    var known := fc in fcs && fc in IMPLEMENTED;
    && (!known ==> r == Exception(fc, ILLEGAL_FUNCTION))
    && (known && !Readable(pdu) ==> r == Exception(fc, ILLEGAL_DATA_VALUE))
    && (known && Readable(pdu) && registers < Start(pdu) + Quantity(pdu) ==>
        r == Exception(fc, ILLEGAL_DATA_ADDRESS))
    && (known && Readable(pdu) && Start(pdu) + Quantity(pdu) <= registers ==>
        && |r| == 2 + 2 * Quantity(pdu)
        && r[0] == fc && r[1] as int == 2 * Quantity(pdu)
        && forall i :: 2 <= i < |r| ==> r[i] == 0)
  }

  /** The conforming reply is unique, and it is Reply: order and repetition of fcs do not matter. */
  lemma ReplyConforms(registers: nat, fcs: seq<byte>, pdu: bytes, r: bytes)
    requires pdu != []
    ensures Conforms(registers, fcs, pdu, r) <==> r == Reply(registers, ActiveCodes(fcs), pdu)
  {
  }

  /** The three exceptions exclude each other and come in the order 01, 03, 02. */
  lemma ExceptionPrecedence(registers: nat, fcs: seq<byte>, pdu: bytes)
    requires pdu != []
    ensures var r := Reply(registers, ActiveCodes(fcs), pdu);
      var fc := WithExceptionBit(pdu[0]);
      && (r == [fc, ILLEGAL_FUNCTION] <==> pdu[0] !in fcs || pdu[0] !in IMPLEMENTED)
      && (r == [fc, ILLEGAL_DATA_VALUE] <==> pdu[0] in ActiveCodes(fcs) && !Readable(pdu))
      && (r == [fc, ILLEGAL_DATA_ADDRESS] <==>
          pdu[0] in ActiveCodes(fcs) && Readable(pdu) && registers < Start(pdu) + Quantity(pdu))
  {
  }

  // r is the exception `code` to a request with function code fc.
  predicate IsException(r: bytes, fc: byte, code: byte) {
    |r| == 2 && r[0] >= 0x80 && r[0] % 0x80 == fc % 0x80 && r[1] == code
  }

  /** The reply in plain numbers, octet by octet. */
  lemma ReplyInNumbers(registers: nat, fcs: seq<byte>, pdu: bytes)
    requires pdu != []
    ensures var r := Reply(registers, ActiveCodes(fcs), pdu); var fc := pdu[0];
      if !((fc == 3 || fc == 4) && fc in fcs) then IsException(r, fc, 1)
      else if |pdu| != 5 then IsException(r, fc, 3)
      else
        var start, quantity := pdu[1] as int * 256 + pdu[2] as int, pdu[3] as int * 256 + pdu[4] as int;
        if quantity < 1 || 125 < quantity then IsException(r, fc, 3)
        else if registers < start + quantity then IsException(r, fc, 2)
        else |r| == 2 + 2 * quantity && r[0] == fc && r[1] as int == 2 * quantity && forall i :: 2 <= i < |r| ==> r[i] == 0
  {
  }

  /** To a code a client may send, the top bit of a reply says whether it is an exception. */
  lemma TopBitTells(registers: nat, fcs: seq<byte>, pdu: bytes)
    requires pdu != [] && pdu[0] < 0x80
    ensures var r := Reply(registers, ActiveCodes(fcs), pdu);
      r[0] >= 0x80 <==> IsException(r, pdu[0], 1) || IsException(r, pdu[0], 2) || IsException(r, pdu[0], 3)
  {
    ReplyInNumbers(registers, fcs, pdu);
  }

  datatype Entry = ReadRegisters | IllegalFunction

  class Handler {
    const registers: nat
    const table: array<Entry>
    ghost const active: set<byte>

    // The table says of each of the 256 codes whether it is active.
    ghost predicate Valid()
      reads table
    {
      && table.Length == 256 && active <= IMPLEMENTED
      && forall i :: 0 <= i < 256 ==> table[i] == if i as byte in active then ReadRegisters else IllegalFunction
    }

    constructor (registers: nat, fcs: seq<byte>)
      ensures Valid() && fresh(table)
      ensures this.registers == registers && active == ActiveCodes(fcs)
    {
      this.registers := registers;
      this.active := ActiveCodes(fcs);
      table := new Entry[256];
      new;
      for i := 0 to 256
        invariant forall k :: 0 <= k < i ==> table[k] == IllegalFunction
      {
        table[i] := IllegalFunction;
      }
      for i := 0 to |fcs|
        invariant forall k :: 0 <= k < 256 ==>
          table[k] == if k as byte in ActiveCodes(fcs[..i]) then ReadRegisters else IllegalFunction
      {
        assert fcs[..i + 1] == fcs[..i] + [fcs[i]];
        if fcs[i] == FC_READ_HOLDING_REGISTERS || fcs[i] == FC_READ_INPUT_REGISTERS {
          table[fcs[i] as int] := ReadRegisters;
        }
      }
      assert fcs[..|fcs|] == fcs;
    }

    /** Writes the reply to pdu[..n] into dst[at..] and returns its length; None for an empty PDU. */
    method Handle(pdu: array<byte>, n: nat, dst: array<byte>, at: nat) returns (len: Option<nat>)
      requires Valid() && pdu != dst && n <= pdu.Length && at + MAX_PDU_LEN <= dst.Length
      modifies dst
      ensures n == 0 <==> len == None
      ensures n == 0 ==> dst[..] == old(dst[..])
      ensures 0 < n ==> var reply := Reply(registers, active, pdu[..n]);
        && len == Some(|reply|) && dst[at..at + |reply|] == reply
        && dst[..at] == old(dst[..at]) && dst[at + |reply|..] == old(dst[at + |reply|..])
    {
      if n == 0 {
        return None;
      }
      match table[pdu[0] as int]
      case ReadRegisters =>
        var k := ReadInto(pdu, n, dst, at);
        len := Some(k);
      case IllegalFunction =>
        ExceptionInto(pdu[0], ILLEGAL_FUNCTION, dst, at);
        len := Some(2);
    }

    method ReadInto(pdu: array<byte>, n: nat, dst: array<byte>, at: nat) returns (len: nat)
      requires Valid() && pdu != dst && 0 < n <= pdu.Length && at + MAX_PDU_LEN <= dst.Length
      requires pdu[0] in active
      modifies dst
      ensures var reply := Reply(registers, active, pdu[..n]);
        && len == |reply| && dst[at..at + |reply|] == reply
        && dst[..at] == old(dst[..at]) && dst[at + |reply|..] == old(dst[at + |reply|..])
    {
      var fc := pdu[0];
      if n != 5 {
        ExceptionInto(fc, ILLEGAL_DATA_VALUE, dst, at);
        return 2;
      }
      var start := U16(pdu[1..3]);
      var qty := U16(pdu[3..5]);
      if qty < MIN_READ_QUANTITY || qty > MAX_READ_QUANTITY {
        ExceptionInto(fc, ILLEGAL_DATA_VALUE, dst, at);
        return 2;
      }
      if start + qty > registers {
        ExceptionInto(fc, ILLEGAL_DATA_ADDRESS, dst, at);
        return 2;
      }
      NormalInto(fc, qty, dst, at);
      len := 2 + qty * 2;
    }

    static method NormalInto(fc: byte, qty: nat, dst: array<byte>, at: nat)
      requires qty <= MAX_READ_QUANTITY && at + MAX_PDU_LEN <= dst.Length
      modifies dst
      ensures dst[at..at + 2 + qty * 2] == Normal(fc, qty)
      ensures dst[..at] == old(dst[..at]) && dst[at + 2 + qty * 2..] == old(dst[at + 2 + qty * 2..])
    {
      var n := qty * 2;
      dst[at] := fc;
      dst[at + 1] := n as byte;
      forall i | 0 <= i < n {
        dst[at + 2 + i] := 0;
      }
    }

    static method ExceptionInto(fc: byte, code: byte, dst: array<byte>, at: nat)
      requires at + 2 <= dst.Length
      modifies dst
      ensures dst[at..at + 2] == Exception(fc, code)
      ensures dst[..at] == old(dst[..at]) && dst[at + 2..] == old(dst[at + 2..])
    {
      dst[at] := WithExceptionBit(fc);
      dst[at + 1] := code;
    }
  }
}
