/**
 The RESP2 wire format of the Redis serialization protocol specification, as internal/redisc/redisc.go
 writes and reads it.
 */
module Resp {
  import opened Bytes
  import opened Options
  import opened Decimal

  const CR: byte := 13
  const LF: byte := 10
  const CRLF: bytes := [CR, LF]
  const SIMPLE: byte := 43    // +
  const ERROR: byte := 45     // -
  const INTEGER: byte := 58   // :
  const BULK: byte := 36      // $
  const ARRAY: byte := 42     // *

  datatype Value =
    | Simple(text: bytes)
    | Error(text: bytes)
    | Integer(n: int)
    | Bulk(data: bytes)
    | NilBulk
    | Array(items: seq<Value>)
    | NilArray

  predicate OneLine(text: bytes) {
    CR !in text && LF !in text
  }

  predicate WellFormed(v: Value) {
    match v
    case Simple(text) => OneLine(text)
    case Error(text) => OneLine(text)
    case Bulk(data) => |data| <= MAX_INT
    case Array(items) => |items| <= MAX_INT && forall i :: 0 <= i < |items| ==> WellFormed(items[i])
    case _ => true
  }

  function Line(kind: byte, text: bytes): bytes {
    [kind] + text + CRLF
  }

  function Print(v: Value): bytes {
    match v
    case Simple(text) => Line(SIMPLE, text)
    case Error(text) => Line(ERROR, text)
    case Integer(n) => Line(INTEGER, Itoa(n))
    case Bulk(data) => Line(BULK, Itoa(|data|)) + data + CRLF
    case NilBulk => Line(BULK, Itoa(-1))
    case Array(items) => Line(ARRAY, Itoa(|items|)) + PrintAll(items)
    case NilArray => Line(ARRAY, Itoa(-1))
  }

  function PrintAll(items: seq<Value>): bytes {
    if items == [] then [] else Print(items[0]) + PrintAll(items[1..])
  }

  // ---- What readReply makes of a byte string ----

  datatype Parsed =
    | Ok(text: bytes, rest: bytes)
    | Refused(text: bytes, rest: bytes)   // an error reply
    | Malformed(rest: bytes)
    | Short                               // the bytes end before the reply does

  function IndexOf(s: bytes, b: byte): (k: nat)
    ensures k <= |s| && b !in s[..k] && (k < |s| ==> s[k] == b)
  {
    if s == [] then 0
    else if s[0] == b then 0
    else
      var k := IndexOf(s[1..], b);
      assert s[..k + 1] == [s[0]] + s[1..][..k];
      k + 1
  }

  // strings.TrimRight(s, "\r\n")
  function TrimEol(s: bytes): (t: bytes)
    ensures t <= s
  {
    if s != [] && (s[|s| - 1] == CR || s[|s| - 1] == LF) then TrimEol(s[..|s| - 1]) else s
  }

  function Reply(s: bytes): (p: Parsed)
    ensures p.Ok? ==> |p.rest| < |s|
    decreases |s|, 0
  {
    var k := IndexOf(s, LF);
    if k == |s| then Short
    else AfterLine(TrimEol(s[..k + 1]), s[k + 1..])
  }

  function AfterLine(line: bytes, rest: bytes): (p: Parsed)
    ensures p.Ok? ==> |p.rest| <= |rest|
    decreases |rest|, 2
  {
    if line == [] then Malformed(rest)
    else if line[0] == SIMPLE || line[0] == INTEGER then Ok(line[1..], rest)
    else if line[0] == ERROR then Refused(line[1..], rest)
    else if line[0] == BULK then
      match Atoi(line[1..])
      case None => Malformed(rest)
      case Some(n) =>
        if n < 0 then Ok([], rest)
        else if |rest| < n + 2 then Short
        else Ok(rest[..n], rest[n + 2..])
    else if line[0] == ARRAY then
      match Atoi(line[1..])
      case None => Malformed(rest)
      case Some(n) => Elements(rest, n)
    else Malformed(rest)
  }

  function Elements(s: bytes, n: int): (p: Parsed)
    ensures p.Ok? ==> |p.rest| <= |s|
    decreases |s|, 1
  {
    if n <= 0 then Ok([], s)
    else
      match Reply(s)
      case Ok(_, rest) => Elements(rest, n - 1)
      case other => other
  }

  // The first line of s, without its ending.
  function FirstLine(s: bytes): bytes
    requires LF in s
  {
    TrimEol(s[..IndexOf(s, LF) + 1])
  }

  /**
   What the first line alone decides, for any bytes at all, in octets: `+` and `:` are the rest of the
   line, `-` refuses with it, a length that is not a number is malformed and a negative one is nil, an
   array of no items or fewer is empty; a blank line and every other first byte are malformed.
   */
  lemma DecidedByFirstLine(s: bytes)
    requires LF in s
    ensures var line, rest := FirstLine(s), s[IndexOf(s, LF) + 1..];
      if line == [] || line[0] !in {43, 58, 45, 36, 42} then Reply(s) == Malformed(rest)
      else if line[0] == 43 || line[0] == 58 then Reply(s) == Ok(line[1..], rest)
      else if line[0] == 45 then Reply(s) == Refused(line[1..], rest)
      else match Atoi(line[1..])
        case None => Reply(s) == Malformed(rest)
        case Some(n) =>
          && (n < 0 ==> Reply(s) == Ok([], rest))
          && (line[0] == 42 && n == 0 ==> Reply(s) == Ok([], rest))
          && (line[0] == 36 && 0 <= n ==> Reply(s) == if |rest| < n + 2 then Short else Ok(rest[..n], rest[n + 2..]))
  {
    assert IndexOf(s, LF) < |s|;
    var line, rest := FirstLine(s), s[IndexOf(s, LF) + 1..];
    assert Reply(s) == AfterLine(line, rest);
    hide TrimEol, Atoi, IndexOf, Reply, Elements;
    if line != [] && Atoi(line[1..]).Some? && Atoi(line[1..]).value <= 0 {
      NoElements(rest, Atoi(line[1..]).value);
    }
  }

  lemma NoElements(s: bytes, n: int)
    requires n <= 0
    ensures Elements(s, n) == Ok([], s)
  {
  }

  /** The wire format in octets. */
  lemma PrintInOctets(v: Value)
    ensures match v
      case Simple(text) => Print(v) == [43] + text + [13, 10]
      case Error(text) => Print(v) == [45] + text + [13, 10]
      case Integer(n) => Print(v) == [58] + Itoa(n) + [13, 10]
      case Bulk(data) => Print(v) == [36] + Itoa(|data|) + [13, 10] + data + [13, 10]
      case NilBulk => Print(v) == [36, 45, 49, 13, 10]
      case Array(items) => Print(v) == [42] + Itoa(|items|) + [13, 10] + PrintAll(items)
      case NilArray => Print(v) == [42, 45, 49, 13, 10]
  {
    assert Itoa(-1) == [45, 49];
    hide Itoa, PrintAll;
  }

  /** Without a line ending there is no reply yet. */
  lemma NoLineNoReply(s: bytes)
    ensures LF !in s <==> IndexOf(s, LF) == |s|
    ensures LF !in s ==> Reply(s) == Short
  {
  }

  /** FirstLine is what stands before the line feed, less any line endings at its end. */
  lemma {:induction false} TrimmedOfEndings(s: bytes)
    ensures var t := TrimEol(s);
      && t <= s && (t == [] || (t[|t| - 1] != 13 && t[|t| - 1] != 10))
      && forall i :: |t| <= i < |s| ==> s[i] == 13 || s[i] == 10
    decreases |s|
  {
    if s != [] && (s[|s| - 1] == CR || s[|s| - 1] == LF) {
      TrimmedOfEndings(s[..|s| - 1]);
    }
  }

  // ---- Reading back what was printed ----

  lemma IndexOfFirst(s: bytes, b: byte, k: nat)
    requires k < |s| && s[k] == b && b !in s[..k]
    ensures IndexOf(s, b) == k
  {
  }

  lemma TrimStep(s: bytes, b: byte)
    requires b == CR || b == LF
    ensures TrimEol(s + [b]) == TrimEol(s)
  {
  }

  lemma TrimLine(text: bytes)
    requires text == [] || (text[|text| - 1] != CR && text[|text| - 1] != LF)
    ensures TrimEol(text + CRLF) == text
  {
    TrimStep(text, CR);
    TrimStep(text + [CR], LF);
    assert text + CRLF == text + [CR] + [LF];
  }

  lemma ReplyOfLine(kind: byte, text: bytes, rest: bytes)
    requires OneLine(text) && kind != CR && kind != LF
    ensures Reply(Line(kind, text) + rest) == AfterLine([kind] + text, rest)
  {
    var s := Line(kind, text) + rest;
    var end := |text| + 2;
    assert s[..end] == [kind] + text + [CR] && s[end] == LF;
    IndexOfFirst(s, LF, end);
    assert s[..end + 1] == [kind] + text + CRLF && s[end + 1..] == rest;
    TrimLine([kind] + text);
  }

  // The first error reply inside v, and what follows it inside v.
  function FirstError(v: Value): Option<(bytes, bytes)> {
    match v
    case Error(text) => Some((text, []))
    case Array(items) => FirstErrorIn(items)
    case _ => None
  }

  function FirstErrorIn(items: seq<Value>): Option<(bytes, bytes)> {
    if items == [] then None
    else
      match FirstError(items[0])
      case Some((text, left)) => Some((text, left + PrintAll(items[1..])))
      case None => FirstErrorIn(items[1..])
  }

  function Text(v: Value): bytes {
    match v
    case Simple(text) => text
    case Integer(n) => Itoa(n)
    case Bulk(data) => data
    case _ => []
  }

  // readReply stops after the whole of v if v holds no error reply, else right after the first one.
  function Expected(v: Value, rest: bytes): Parsed {
    match FirstError(v)
    case None => Ok(Text(v), rest)
    case Some((text, left)) => Refused(text, left + rest)
  }

  lemma ItoaOneLine(n: int)
    ensures OneLine(Itoa(n))
  {
  }

  /** A printed value is consumed exactly, whatever it is nested in and whatever follows. */
  lemma {:induction false} ReplyOfValue(v: Value, rest: bytes)
    requires WellFormed(v)
    ensures Reply(Print(v) + rest) == Expected(v, rest)
    decreases v, 0
  {
    hide Reply, Line, Itoa, Atoi;
    match v {
      case Simple(text) =>
        ReplyOfLine(SIMPLE, text, rest);
      case Error(text) =>
        ReplyOfLine(ERROR, text, rest);
        assert [] + rest == rest;
      case Integer(n) =>
        ItoaOneLine(n);
        ReplyOfLine(INTEGER, Itoa(n), rest);
      case Bulk(data) =>
        ReplyOfBulk(data, rest);
      case NilBulk =>
        ReplyOfCount(BULK, -1, rest);
      case NilArray =>
        ReplyOfCount(ARRAY, -1, rest);
        assert Elements(rest, -1) == Ok([], rest);
      case Array(items) =>
        assert Print(v) + rest == Line(ARRAY, Itoa(|items|)) + (PrintAll(items) + rest);
        ReplyOfCount(ARRAY, |items|, PrintAll(items) + rest);
        ElementsOfValues(items, rest);
    }
  }

  lemma ReplyOfCount(kind: byte, n: int, rest: bytes)
    requires (kind == BULK || kind == ARRAY) && MIN_INT <= n <= MAX_INT
    ensures Reply(Line(kind, Itoa(n)) + rest) == AfterLine([kind] + Itoa(n), rest)
    ensures ([kind] + Itoa(n))[1..] == Itoa(n) && Atoi(Itoa(n)) == Some(n)
  {
    ItoaOneLine(n);
    ReplyOfLine(kind, Itoa(n), rest);
    AtoiItoa(n);
  }

  lemma ReplyOfBulk(data: bytes, rest: bytes)
    requires |data| <= MAX_INT
    ensures Reply(Print(Bulk(data)) + rest) == Ok(data, rest)
  {
    var body := data + CRLF + rest;
    assert Print(Bulk(data)) + rest == Line(BULK, Itoa(|data|)) + body;
    ReplyOfCount(BULK, |data|, body);
    assert body[..|data|] == data && body[|data| + 2..] == rest;
  }

  lemma {:induction false} ElementsOfValues(items: seq<Value>, rest: bytes)
    requires forall i :: 0 <= i < |items| ==> WellFormed(items[i])
    ensures Elements(PrintAll(items) + rest, |items|) == match FirstErrorIn(items)
      case None => Ok([], rest)
      case Some((text, left)) => Refused(text, left + rest)
    decreases items, 1
  {
    hide Reply, Print, FirstError, WellFormed;
    if items == [] {
      assert PrintAll(items) + rest == rest;
    } else {
      var more := PrintAll(items[1..]) + rest;
      assert PrintAll(items) + rest == Print(items[0]) + more;
      ReplyOfValue(items[0], more);
      ElementsOfValues(items[1..], rest);
      if FirstError(items[0]).Some? {
        var (_, left) := FirstError(items[0]).value;
        assert left + more == left + PrintAll(items[1..]) + rest;
      }
    }
  }

  // ---- The format is prefix-free ----

  lemma LineSplit(a: bytes, b: bytes, x: bytes, y: bytes)
    requires LF !in a && LF !in b && a + CRLF + x == b + CRLF + y
    ensures a == b && x == y
  {
    var s := a + CRLF + x;
    assert s[..|a| + 1] == a + [CR] && s[..|b| + 1] == b + [CR];
    IndexOfFirst(s, LF, |a| + 1);
    IndexOfFirst(s, LF, |b| + 1);
    assert a == s[..|a|] && x == s[|a| + 2..];
    assert b == s[..|b|] && y == s[|b| + 2..];
  }

  lemma SameLine(j: byte, k: byte, a: bytes, b: bytes, x: bytes, y: bytes)
    requires OneLine(a) && OneLine(b) && j != LF && k != LF && Line(j, a) + x == Line(k, b) + y
    ensures j == k && a == b && x == y
  {
    LineSplit([j] + a, [k] + b, x, y);
    assert ([j] + a)[0] == j && ([k] + b)[0] == k;
    assert a == ([j] + a)[1..] && b == ([k] + b)[1..];
  }

  function Kind(v: Value): byte {
    match v
    case Simple(_) => SIMPLE
    case Error(_) => ERROR
    case Integer(_) => INTEGER
    case Bulk(_) => BULK
    case NilBulk => BULK
    case Array(_) => ARRAY
    case NilArray => ARRAY
  }

  function Head(v: Value): bytes {
    match v
    case Simple(text) => text
    case Error(text) => text
    case Integer(n) => Itoa(n)
    case Bulk(data) => Itoa(|data|)
    case NilBulk => Itoa(-1)
    case Array(items) => Itoa(|items|)
    case NilArray => Itoa(-1)
  }

  function Body(v: Value): bytes {
    match v
    case Bulk(data) => data + CRLF
    case Array(items) => PrintAll(items)
    case _ => []
  }

  lemma PrintIsHeadAndBody(v: Value, x: bytes)
    ensures Print(v) + x == Line(Kind(v), Head(v)) + (Body(v) + x)
  {
  }

  /** No printed value is a proper prefix of another, and different values print differently. */
  lemma {:induction false} PrintPrefixFree(v: Value, w: Value, x: bytes, y: bytes)
    requires WellFormed(v) && WellFormed(w) && Print(v) + x == Print(w) + y
    ensures v == w && x == y
    decreases v, 0
  {
    PrintIsHeadAndBody(v, x);
    PrintIsHeadAndBody(w, y);
    SameLine(Kind(v), Kind(w), Head(v), Head(w), Body(v) + x, Body(w) + y);
    assert [] + x == x && [] + y == y;
    match v {
      case Integer(m) =>
        ItoaInjective(m, w.n);
      case Bulk(data) =>
        ItoaInjective(|data|, if w.Bulk? then |w.data| else -1);
        assert data == (Body(v) + x)[..|data|] && w.data == (Body(w) + y)[..|data|];
        assert x == (Body(v) + x)[|data| + 2..] && y == (Body(w) + y)[|data| + 2..];
      case NilBulk =>
        ItoaInjective(-1, if w.Bulk? then |w.data| else -1);
      case Array(items) =>
        ItoaInjective(|items|, if w.Array? then |w.items| else -1);
        PrintAllPrefixFree(items, w.items, x, y);
      case NilArray =>
        ItoaInjective(-1, if w.Array? then |w.items| else -1);
      case _ =>
    }
  }

  lemma {:induction false} PrintAllPrefixFree(vs: seq<Value>, ws: seq<Value>, x: bytes, y: bytes)
    requires |vs| == |ws| && PrintAll(vs) + x == PrintAll(ws) + y
    requires forall i :: 0 <= i < |vs| ==> WellFormed(vs[i]) && WellFormed(ws[i])
    ensures vs == ws && x == y
    decreases vs, 1
  {
    hide Print, WellFormed;
    if vs == [] {
      assert PrintAll(vs) + x == x && PrintAll(ws) + y == y;
    } else {
      assert PrintAll(vs) + x == Print(vs[0]) + (PrintAll(vs[1..]) + x);
      assert PrintAll(ws) + y == Print(ws[0]) + (PrintAll(ws[1..]) + y);
      PrintPrefixFree(vs[0], ws[0], PrintAll(vs[1..]) + x, PrintAll(ws[1..]) + y);
      PrintAllPrefixFree(vs[1..], ws[1..], x, y);
      assert vs == [vs[0]] + vs[1..] && ws == [ws[0]] + ws[1..];
    }
  }
}
