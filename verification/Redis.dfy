/** The Redis client of internal/redisc/redisc.go: encode, readReply, and the reconnecting session. */
module Redis {
  import opened Bytes
  import opened Options
  import opened Decimal
  import opened Net
  import opened Resp

  // ---- encode ----

  function Bulks(args: seq<bytes>): (vs: seq<Value>)
    ensures |vs| == |args| && forall i :: 0 <= i < |args| ==> vs[i] == Bulk(args[i])
  {
    if args == [] then [] else [Bulk(args[0])] + Bulks(args[1..])
  }

  // A command is an array of bulk strings.
  function Command(args: seq<bytes>): Value {
    Array(Bulks(args))
  }

  // Go's len is an int.
  predicate Sized(args: seq<bytes>) {
    |args| <= MAX_INT && forall i :: 0 <= i < |args| ==> |args[i]| <= MAX_INT
  }

  lemma {:induction false} PrintAllAppend(a: seq<Value>, b: seq<Value>)
    ensures PrintAll(a + b) == PrintAll(a) + PrintAll(b)
  {
    hide Print;
    if a == [] {
      assert a + b == b;
    } else {
      assert (a + b)[1..] == a[1..] + b;
      PrintAllAppend(a[1..], b);
      assert PrintAll(a + b) == Print(a[0]) + (PrintAll(a[1..]) + PrintAll(b));
    }
  }

  lemma PrintOne(v: Value)
    ensures PrintAll([v]) == Print(v)
  {
  }

  lemma OneMoreBulk(args: seq<bytes>, i: nat)
    requires i < |args|
    ensures PrintAll(Bulks(args[..i + 1])) == PrintAll(Bulks(args[..i])) + Print(Bulk(args[i]))
  {
    hide Print, PrintAll;
    assert Bulks(args[..i + 1]) == Bulks(args[..i]) + [Bulk(args[i])];
    PrintAllAppend(Bulks(args[..i]), [Bulk(args[i])]);
    PrintOne(Bulk(args[i]));
  }

  method Encode(w: bytes, args: seq<bytes>) returns (out: bytes)
    ensures out == w + Print(Command(args))
  {
    hide Line, PrintAll, Itoa;
    var head := Line(ARRAY, Itoa(|args|));
    out := w + head;
    assert PrintAll([]) == [] by { NothingToPrint(); }
    for i := 0 to |args|
      invariant out == w + (head + PrintAll(Bulks(args[..i])))
    {
      OneMoreBulk(args, i);
      out := out + (Line(BULK, Itoa(|args[i]|)) + args[i] + CRLF);
      assert out == w + (head + (PrintAll(Bulks(args[..i])) + Print(Bulk(args[i]))));
    }
    assert args[..|args|] == args;
  }

  lemma NothingToPrint()
    ensures PrintAll([]) == []
  {
  }

  /** An encoded command, CR and LF in its arguments or not, is read as one reply, to the byte. */
  lemma EncodedIsOneReply(args: seq<bytes>, rest: bytes)
    requires Sized(args)
    ensures Reply(Print(Command(args)) + rest) == Ok([], rest)
  {
    hide Reply, Print;
    assert WellFormed(Command(args));
    NoErrorInBulks(args);
    ReplyOfValue(Command(args), rest);
  }

  lemma {:induction false} NoErrorInBulks(args: seq<bytes>)
    ensures FirstErrorIn(Bulks(args)) == None
  {
    if args != [] {
      NoErrorInBulks(args[1..]);
    }
  }

  /** No command's encoding is a proper prefix of another's, and different commands differ. */
  lemma EncodePrefixFree(a: seq<bytes>, b: seq<bytes>)
    requires Sized(a) && Sized(b) && Print(Command(a)) <= Print(Command(b))
    ensures a == b
  {
    hide Print;
    var rest := Print(Command(b))[|Print(Command(a))|..];
    assert Print(Command(a)) + rest == Print(Command(b)) + [];
    PrintPrefixFree(Command(a), Command(b), rest, []);
    assert forall i :: 0 <= i < |a| ==> Bulks(a)[i] == Bulks(b)[i];
  }

  // ---- readReply ----

  datatype ReplyError = FromServer(text: bytes) | BadFormat | Network

  // Reading off r has come to what p says of the bytes that were unread.
  ghost predicate Outcome(p: Parsed, r: BufReader, text: bytes, err: Option<ReplyError>)
    requires r.Valid()
    reads r, r.conn, r.buf
  {
    match err
    case None => p == Ok(text, r.Unread())
    case Some(FromServer(msg)) => p == Refused(msg, r.Unread())
    case Some(BadFormat) => p == Malformed(r.Unread())
    case Some(Network) => r.conn.Reliable() && !r.conn.closed ==> p == Short
  }

  /** Consumes exactly what Reply says, for any chunking, or fails on the network. */
  method ReadReply(r: BufReader) returns (text: bytes, err: Option<ReplyError>)
    requires r.Valid()
    modifies r`r, r`w, r.buf, r.conn`taken, r.conn`closed, r.conn`closedAt
    ensures r.conn.ClosedOnlyByOthers()
    ensures r.Valid() && r.Pos() >= old(r.Pos())
    ensures Outcome(Reply(old(r.Unread())), r, text, err)
    ensures err.None? ==> r.Pos() > old(r.Pos())
    decreases |r.Unread()|, 0
  {
    ghost var s := r.Unread();
    var raw, ok := r.ReadString(LF);
    LineOf(s, raw, r.Unread(), ok, r.conn.peer, old(r.Pos()), r.Pos());
    if !ok {
      return [], Some(Network);
    }
    var line := TrimEol(raw);
    text, err := ReadRest(r, line);
  }

  // What the bytes up to the first LF tell about the reply.
  lemma LineOf(s: bytes, raw: bytes, rest: bytes, ok: bool, peer: bytes, p: nat, q: nat)
    requires p <= q <= |peer| && s == peer[p..] && rest == peer[q..] && raw == peer[p..q]
    requires ok ==> raw != [] && raw[|raw| - 1] == LF && LF !in raw[..|raw| - 1]
    requires !ok ==> LF !in raw
    ensures ok ==> Reply(s) == AfterLine(TrimEol(raw), rest)
    ensures !ok && q == |peer| ==> Reply(s) == Short
  {
    hide AfterLine, TrimEol;
    assert s == raw + rest;
    if ok {
      assert s[..|raw| - 1] == raw[..|raw| - 1];
      IndexOfFirst(s, LF, |raw| - 1);
      assert s[..|raw|] == raw && s[|raw|..] == rest;
    } else if q == |peer| {
      assert s == raw;
    }
  }

  /** The switch on the first byte of the line. */
  method ReadRest(r: BufReader, line: bytes) returns (text: bytes, err: Option<ReplyError>)
    requires r.Valid()
    modifies r`r, r`w, r.buf, r.conn`taken, r.conn`closed, r.conn`closedAt
    ensures r.conn.ClosedOnlyByOthers()
    ensures r.Valid() && r.Pos() >= old(r.Pos())
    ensures Outcome(AfterLine(line, old(r.Unread())), r, text, err)
    decreases |r.Unread()|, 2
  {
    if line == [] {
      return [], Some(BadFormat);
    }
    if line[0] == SIMPLE || line[0] == INTEGER {
      return line[1..], None;
    }
    if line[0] == ERROR {
      return [], Some(FromServer(line[1..]));
    }
    if line[0] == BULK {
      var n := Atoi(line[1..]);
      if n.None? {
        return [], Some(BadFormat);
      }
      if n.value < 0 {
        return [], None;
      }
      var ok;
      text, ok := ReadBulk(r, n.value);
      return text, if ok then None else Some(Network);
    }
    if line[0] == ARRAY {
      var n := Atoi(line[1..]);
      if n.None? {
        return [], Some(BadFormat);
      }
      err := ReadItems(r, n.value);
      return [], err;
    }
    return [], Some(BadFormat);
  }

  /** A bulk body and the two bytes after it, which are not looked at. */
  method ReadBulk(r: BufReader, n: nat) returns (text: bytes, ok: bool)
    requires r.Valid()
    modifies r`r, r`w, r.buf, r.conn`taken, r.conn`closed, r.conn`closedAt
    ensures r.conn.ClosedOnlyByOthers()
    ensures r.Valid() && r.Pos() >= old(r.Pos())
    ensures ok ==> var s := old(r.Unread()); n + 2 <= |s| && text == s[..n] && r.Unread() == s[n + 2..]
    ensures !ok && r.conn.Reliable() && !r.conn.closed ==> |old(r.Unread())| < n + 2
  {
    var buf := new byte[n + 2];
    ghost var p, peer := r.Pos(), r.conn.peer;
    ok := r.ReadFull(buf, 0, n + 2);
    if !ok {
      return [], false;
    }
    text := buf[..n];
    assert buf[..n] == buf[0..n + 2][..n] == peer[p..p + n + 2][..n] == peer[p..][..n];
    assert peer[p..][n + 2..] == peer[p + n + 2..];
  }

  method ReadItems(r: BufReader, n: int) returns (err: Option<ReplyError>)
    requires r.Valid()
    modifies r`r, r`w, r.buf, r.conn`taken, r.conn`closed, r.conn`closedAt
    ensures r.conn.ClosedOnlyByOthers()
    ensures r.Valid() && r.Pos() >= old(r.Pos())
    ensures Outcome(Elements(old(r.Unread()), n), r, [], err)
    decreases |r.Unread()|, 1
  {
    hide Reply, Conn.Reliable, BufReader.Valid;
    ghost var s := r.Unread();
    r.UnreadLength();
    var i := 0;
    while i < n
      invariant r.Valid() && r.Pos() >= old(r.Pos())
      invariant r.conn.ClosedOnlyByOthers()
      invariant 0 <= i && (0 < n ==> i <= n)
      invariant Elements(s, n) == Elements(r.Unread(), n - i)
    {
      r.UnreadLength();
      var _, e := ReadReply(r);
      if e.Some? {
        return e;
      }
      i := i + 1;
    }
    err := None;
  }
}
