/** The reconnecting client of internal/redisc/redisc.go: connect, Set, do and Close. */
module Session {
  import opened Bytes
  import opened Decimal
  import opened Net
  import opened Resp
  import opened Redis

  const AUTH: bytes := [65, 85, 84, 72]
  const SELECT: bytes := [83, 69, 76, 69, 67, 84]
  const PING: bytes := [80, 73, 78, 71]
  const SET: bytes := [83, 69, 84]
  const EX: bytes := [69, 88]

  const BUFIO_SIZE := 4096

  type Cmd = seq<bytes>

  function AuthPart(password: bytes): seq<Cmd> {
    if password != [] then [[AUTH, password]] else []
  }

  function SelectPart(db: int): seq<Cmd> {
    if db != 0 then [[SELECT, Itoa(db)]] else []
  }

  // What a new connection has to get through before it is used.
  function Handshake(password: bytes, db: int): seq<Cmd> {
    AuthPart(password) + SelectPart(db) + [[PING]]
  }

  // The handshake in octets: AUTH first, then SELECT, where they are configured, and PING at the end.
  ghost predicate LoggedIn(issued: seq<Cmd>, password: bytes, db: int) {
    && |issued| == (if password != [] then 1 else 0) + (if db != 0 then 1 else 0) + 1
    && (password != [] ==> issued[0] == [[65, 85, 84, 72], password])
    && (db != 0 ==> issued[|issued| - 2] == [[83, 69, 76, 69, 67, 84], Itoa(db)])
    && issued[|issued| - 1] == [[80, 73, 78, 71]]
  }

  lemma HandshakeLogsIn(password: bytes, db: int)
    ensures LoggedIn(Handshake(password, db), password, db)
  {
  }

  // ---- A server that requires a password ----

  const OK_TEXT: bytes := [79, 75]
  const NOAUTH_TEXT: bytes := [78, 79, 65, 85, 84, 72]

  // What it answers: an error to everything until it is given the password.
  function Replies(secret: bytes, cmds: seq<Cmd>, admitted: bool): (vs: seq<Value>)
    ensures |vs| == |cmds| && forall v :: v in vs ==> WellFormed(v)
  {
    if cmds == [] then []
    else
      var now := admitted || cmds[0] == [[65, 85, 84, 72], secret];
      [if now then Simple(OK_TEXT) else Error(NOAUTH_TEXT)] + Replies(secret, cmds[1..], now)
  }

  lemma {:induction false} AdmittedStays(secret: bytes, cmds: seq<Cmd>)
    ensures ErrorFree(Replies(secret, cmds, true))
  {
    if cmds != [] {
      AdmittedStays(secret, cmds[1..]);
    }
  }

  lemma {:induction false} NoneAfterShort(s: bytes, m: nat, n: nat)
    requires m <= n && AfterReplies(s, n).Ok?
    ensures AfterReplies(s, m).Ok?
    decreases n
  {
    hide Reply;
    if m < n {
      NoneAfterShort(s, m, n - 1);
    }
  }

  lemma Prefixes(s: bytes, n: nat)
    ensures forall m :: 0 <= m <= n && AfterReplies(s, n).Ok? ==> AfterReplies(s, m).Ok?
  {
    forall m | 0 <= m <= n && AfterReplies(s, n).Ok?
      ensures AfterReplies(s, m).Ok?
    {
      NoneAfterShort(s, m, n);
    }
  }

  lemma OneMoreReplyOrShort(s: bytes, n: nat, t: bytes)
    requires AfterReplies(s, n) == Ok([], t)
    ensures AfterReplies(s, n + 1).Ok? <==> Reply(t).Ok?
  {
    hide Reply;
  }

  // Replies that start with an error end there.
  lemma RefusedAtOnce(s: bytes, n: nat, text: bytes, rest: bytes)
    requires Reply(s) == Refused(text, rest) && 0 < n
    ensures AfterReplies(s, n) == Short
    decreases n
  {
    hide Reply;
    if 1 < n {
      RefusedAtOnce(s, n - 1, text, rest);
    }
  }

  /** All commands of the handshake are granted exactly if the password is the right one. */
  lemma GrantedIff(secret: bytes, password: bytes, db: int, rest: bytes)
    requires secret != []
    ensures var hs := Handshake(password, db);
      AfterReplies(PrintAll(Replies(secret, hs, false)) + rest, |hs|).Ok? <==> password == secret
  {
    var hs := Handshake(password, db);
    HandshakeLogsIn(password, db);
    var vs := Replies(secret, hs, false);
    if password == secret {
      AdmittedStays(secret, hs[1..]);
      assert ErrorFree(vs);
      hide Handshake, Replies, ErrorFree, AfterReplies;
      AfterRepliesOfValues(vs, rest);
    } else {
      assert hs[0] != [[65, 85, 84, 72], secret];
      assert vs[0] == Error(NOAUTH_TEXT);
      hide Handshake, Replies, AfterReplies, Reply, Print;
      var more := PrintAll(vs[1..]) + rest;
      assert PrintAll(vs) + rest == Print(vs[0]) + more;
      ReplyOfValue(vs[0], more);
      assert [] + more == more;
      RefusedAtOnce(PrintAll(vs) + rest, |hs|, NOAUTH_TEXT, more);
    }
  }

  predicate IsSet(c: Cmd) {
    |c| == 5 && c[0] == SET && c[3] == EX
  }

  // The handshake is complete and only SETs follow it.
  predicate InService(issued: seq<Cmd>, hs: seq<Cmd>) {
    hs <= issued && forall i :: |hs| <= i < |issued| ==> IsSet(issued[i])
  }

  lemma StaysInService(issued: seq<Cmd>, hs: seq<Cmd>, c: Cmd)
    requires InService(issued, hs) && IsSet(c)
    ensures InService(issued + [c], hs)
  {
  }

  lemma HandshakeIsInService(hs: seq<Cmd>)
    ensures InService(hs, hs)
  {
  }

  function Wire(issued: seq<Cmd>): bytes {
    if issued == [] then [] else Wire(issued[..|issued| - 1]) + Print(Command(issued[|issued| - 1]))
  }

  // What is left of a reply stream after n replies, none of them an error.
  function AfterReplies(s: bytes, n: nat): (r: Parsed)
    ensures r.Ok? || r == Short
  {
    if n == 0 then Ok([], s)
    else
      match AfterReplies(s, n - 1)
      case Ok(_, t) => (match Reply(t) case Ok(_, u) => Ok([], u) case _ => Short)
      case _ => Short
  }

  // A connection that is no longer used: the commands written to it, in order, and how many of them
  // had their reply read.
  datatype Spent = Spent(issued: seq<Cmd>, answered: nat) {
    predicate Disciplined(hs: seq<Cmd>) {
      && answered <= |issued| <= answered + 1
      && (issued <= hs || InService(issued, hs))
    }
  }

  lemma WireOfOneMore(issued: seq<Cmd>, c: Cmd)
    ensures Wire(issued + [c]) == Wire(issued) + Print(Command(c))
  {
  }

  lemma OneMoreReply(s: bytes, n: nat, t: bytes, text: bytes, u: bytes)
    requires AfterReplies(s, n) == Ok([], t) && Reply(t) == Ok(text, u)
    ensures AfterReplies(s, n + 1) == Ok([], u)
  {
  }

  lemma BeforeAnyReply(s: bytes)
    ensures AfterReplies(s, 0) == Ok([], s) && Wire([]) == []
  {
  }

  class Client {
    const password: bytes
    const db: int
    var conn: Conn?
    var r: BufReader?
    ghost var issued: seq<Cmd>     // written to the current connection
    ghost var answered: nat        // replies read off it
    ghost var spent: seq<Spent>    // earlier connections

    ghost function Hs(): seq<Cmd> {
      Handshake(password, db)
    }

    ghost function Footprint(): set<object>
      reads this
    {
      {this} + (if conn == null then {} else {conn}) + (if r == null then {} else {r, r.buf})
    }

    // Connected, and every command written has had its one reply read.
    ghost predicate InStep()
      reads Footprint()
    {
      && conn != null && r != null && r.conn == conn && r.Valid() && !conn.closed && !conn.shared
      && answered == |issued| && conn.sent == Wire(issued)
      && AfterReplies(conn.peer, |issued|) == Ok([], r.Unread())
    }

    ghost predicate Down()
      reads this
    {
      conn == null && r == null
    }

    ghost predicate AllDisciplined()
      reads this
    {
      forall k :: 0 <= k < |spent| ==> spent[k].Disciplined(Hs())
    }

    // What holds between calls.
    ghost predicate Valid()
      reads Footprint()
    {
      AllDisciplined() && (Down() || (InStep() && InService(issued, Hs())))
    }

    constructor (password: bytes, db: int)
      ensures Valid() && Down() && spent == [] && this.password == password && this.db == db
    {
      this.password, this.db := password, db;
      conn, r, issued, answered, spent := null, null, [], 0, [];
    }

    method Close()
      requires conn == null ==> r == null
      modifies this`conn, this`r, this`issued, this`answered, this`spent, conn
      ensures Down() && (old(conn) != null ==> old(conn).closed)
      ensures spent == old(spent) + if old(conn) == null then [] else [Spent(old(issued), old(answered))]
    {
      if conn != null {
        conn.Close();
        spent := spent + [Spent(issued, answered)];
        conn, r, issued, answered := null, null, [], 0;
      }
    }

    /** net.DialTimeout: nothing is known of whoever answers. */
    static method Dial() returns (c: Conn?)
      ensures c != null ==> fresh(c) && c.Valid() && c.taken == 0 && c.sent == [] && !c.closed && !c.shared
    {
      var fails: bool := *;
      if fails {
        return null;
      }
      var peer: bytes := *;
      var steady: bool := *;
      c := new Conn(peer, steady, false);
    }

    /** Writes one command. */
    method Send(args: Cmd) returns (ok: bool)
      requires InStep()
      modifies this`issued, conn`sent
      ensures issued == old(issued) + [args] && r.Valid() && r.Unread() == old(r.Unread()) && r.Pos() == old(r.Pos())
      ensures ok ==> conn.sent == Wire(issued)
      ensures conn.Reliable() ==> ok
    {
      hide Wire, AfterReplies, Reply, Print, Command;
      WireOfOneMore(issued, args);
      issued := issued + [args];
      var buf := Encode([], args);
      assert buf == Print(Command(args));
      ok := conn.Write(buf);
    }

    /** Writes one command and reads one reply. */
    method Do(args: Cmd) returns (ok: bool)
      requires InStep()
      modifies this`issued, this`answered, conn, r, r.buf
      ensures issued == old(issued) + [args] && (ok ==> InStep()) && (!ok ==> answered == old(answered))
      ensures old(conn.Reliable() && Reply(r.Unread()).Ok?) ==> ok
      ensures old(conn.Reliable()) ==> (ok <==> AfterReplies(conn.peer, |issued|).Ok?)
    {
      hide Wire, AfterReplies, Reply, Down, AllDisciplined, Conn.Reliable, BufReader.Valid, BufReader.Pos, BufReader.Unread;
      ghost var before := r.Unread();
      OneMoreReplyOrShort(conn.peer, |issued|, before);
      ok := Send(args);
      if !ok {
        return;
      }
      var text, err := ReadReply(r);
      ok := err.None?;
      if ok {
        OneMoreReply(conn.peer, answered, before, text, r.Unread());
        answered := answered + 1;
      }
    }

    /** Do, and Close if it fails: how every command is sent. */
    method DoOrClose(args: Cmd) returns (ok: bool)
      requires InStep() && AllDisciplined()
      requires issued + [args] <= Hs() || InService(issued + [args], Hs())
      modifies this`conn, this`r, this`issued, this`answered, this`spent, conn, r, r.buf
      ensures AllDisciplined() && old(spent) <= spent
      ensures ok ==> InStep() && conn == old(conn) && r == old(r) && issued == old(issued) + [args] && spent == old(spent)
      ensures !ok ==> Down() && old(conn).closed && |spent| == |old(spent)| + 1
      ensures old(conn.Reliable() && Reply(r.Unread()).Ok?) ==> ok
      ensures old(conn.Reliable()) ==> (ok <==> AfterReplies(old(conn.peer), old(|issued|) + 1).Ok?)
    {
      hide Reply, Handshake, InService, Wire, AfterReplies, BufReader.Valid, Conn.Reliable;
      ok := Do(args);
      if !ok {
        assert Spent(issued, answered).Disciplined(Hs());
        Close();
      }
    }

    /**
     AUTH and SELECT where they are configured, then PING. Over a reliable connection it succeeds exactly
     if the peer grants them all.
     */
    method LogIn() returns (ok: bool)
      requires InStep() && AllDisciplined() && issued == []
      modifies this`conn, this`r, this`issued, this`answered, this`spent, conn, r, r.buf
      ensures AllDisciplined() && old(spent) <= spent
      ensures ok ==> InStep() && conn == old(conn) && r == old(r) && issued == Hs() && LoggedIn(issued, password, db)
      ensures !ok ==> Down()
      ensures old(conn.Reliable()) ==> (ok <==> AfterReplies(old(conn.peer), |Hs()|).Ok?)
    {
      hide Reply, InService, Wire, AfterReplies, Itoa, BufReader.Valid, Conn.Reliable, LoggedIn;
      HandshakeLogsIn(password, db);
      ghost var peer := conn.peer;
      Prefixes(peer, |Hs()|);
      if password != [] {
        ok := DoOrClose([AUTH, password]);
        if !ok {
          return;
        }
      }
      assert issued == AuthPart(password);
      if db != 0 {
        ok := DoOrClose([SELECT, Itoa(db)]);
        if !ok {
          return;
        }
      }
      assert issued == AuthPart(password) + SelectPart(db);
      ok := DoOrClose([PING]);
    }

    /** A new connection comes with a new reader. */
    method Attach(c: Conn)
      requires Down() && c.Valid() && c.taken == 0 && c.sent == [] && !c.closed && !c.shared
      modifies this`conn, this`r, this`issued, this`answered
      ensures InStep() && issued == [] && conn == c && r != null && fresh(r) && fresh(r.buf)
    {
      hide Wire, AfterReplies, Reply, Handshake, InService, BufReader.Valid;
      var reader := new BufReader(c, BUFIO_SIZE);
      conn, r, issued, answered := c, reader, [], 0;
      BeforeAnyReply(c.peer);
      assert c.peer[0..] == c.peer;
    }

    /** The dialling half of connect. */
    method Open() returns (ok: bool)
      requires Down()
      modifies this`conn, this`r, this`issued, this`answered
      ensures ok ==> InStep() && issued == [] && fresh(conn) && fresh(r) && fresh(r.buf)
      ensures !ok ==> Down()
    {
      hide Wire, AfterReplies, Reply, Handshake, InService, Conn.Valid, BufReader.Valid, BufReader.Pos, BufReader.Unread;
      var c := Dial();
      if c == null {
        return false;
      }
      Attach(c);
      ok := true;
    }

    method Connect() returns (ok: bool)
      requires Valid()
      modifies this`conn, this`r, this`issued, this`answered, this`spent
      ensures AllDisciplined() && (ok ==> InStep() && InService(issued, Hs())) && (!ok ==> Down())
      ensures old(conn) != null ==> ok && conn == old(conn) && r == old(r) && issued == old(issued) && spent == old(spent)
      ensures old(conn) == null && ok ==> fresh(conn) && fresh(r) && fresh(r.buf) && issued == Hs()
      ensures old(conn) == null && ok ==> LoggedIn(issued, password, db)
      ensures old(spent) <= spent
    {
      hide Wire, AfterReplies, Reply, Handshake, InService, Print;
      hide Conn.Valid, BufReader.Valid, BufReader.Pos, BufReader.Unread;
      if conn != null {
        return true;
      }
      ok := Open();
      if ok {
        HandshakeIsInService(Hs());
        ok := LogIn();
      }
    }

    /** SET key value EX ttl, over a connection that is set up first if need be. */
    method Set(key: bytes, value: bytes, ttl: int) returns (ok: bool)
      requires Valid()
      modifies Footprint()
      ensures Valid() && (ok <==> conn != null)
      ensures ok ==>
        issued == (if old(conn) != null then old(issued) else Hs()) + [[[83, 69, 84], key, value, [69, 88], Itoa(ttl)]]
      ensures old(conn) != null && ok ==> conn == old(conn) && spent == old(spent)
      ensures old(conn) != null && !ok ==> old(conn).closed && |spent| == |old(spent)| + 1
      ensures old(conn) == null && ok ==> fresh(conn) && fresh(r) && fresh(r.buf)
      ensures old(spent) <= spent
      ensures old(conn != null && conn.Reliable() && Reply(r.Unread()).Ok?) ==> ok
    {
      hide Wire, AfterReplies, Reply, Handshake, InService, BufReader.Valid;
      ok := Connect();
      if ok {
        var args := [SET, key, value, EX, Itoa(ttl)];
        StaysInService(issued, Hs(), args);
        hide IsSet;
        ok := DoOrClose(args);
      }
    }
  }

  /**
   Against a server that requires a password, over a connection that does not fail: the client logs in
   exactly if it has the right one.
   */
  method LogInTo(secret: bytes, password: bytes, db: int, rest: bytes) returns (ok: bool)
    requires secret != []
    ensures ok <==> password == secret
  {
    hide Handshake, Replies, AfterReplies, Wire, Reply, LoggedIn;
    hide Conn.Valid, Conn.Reliable, BufReader.Valid, BufReader.Pos, BufReader.Unread, Client.InStep;
    var client := new Client(password, db);
    var peer := PrintAll(Replies(secret, Handshake(password, db), false)) + rest;
    var c := new Conn(peer, true, false);
    client.Attach(c);
    ok := client.LogIn();
    GrantedIff(secret, password, db, rest);
  }

  // ---- What being in step means when the peer answers properly ----

  lemma {:induction false} AfterRepliesAppend(s: bytes, m: nat, n: nat, t: bytes)
    requires AfterReplies(s, m) == Ok([], t)
    ensures AfterReplies(s, m + n) == AfterReplies(t, n)
  {
    hide Reply;
    if 0 < n {
      AfterRepliesAppend(s, m, n - 1, t);
    }
  }

  /** The elements of an array are n replies in a row, and the first that is no success is the array's outcome. */
  lemma {:induction false} ElementsAreReplies(s: bytes, n: nat)
    ensures AfterReplies(s, n).Ok? ==> Elements(s, n) == AfterReplies(s, n)
    ensures !AfterReplies(s, n).Ok? ==> exists k :: 0 <= k < n && FailsAt(s, k) && Elements(s, n) == Reply(AfterReplies(s, k).rest)
    decreases n
  {
    hide Reply;
    if 0 < n {
      match Reply(s) {
        case Ok(text, t) =>
          OneMoreReply(s, 0, s, text, t);
          AfterRepliesAppend(s, 1, n - 1, t);
          ElementsAreReplies(t, n - 1);
          if !AfterReplies(s, n).Ok? {
            var k :| 0 <= k < n - 1 && FailsAt(t, k) && Elements(t, n - 1) == Reply(AfterReplies(t, k).rest);
            AfterRepliesAppend(s, 1, k, t);
            assert FailsAt(s, k + 1);
          }
        case _ =>
          assert AfterReplies(s, 0) == Ok([], s) && FailsAt(s, 0);
          OneMoreReplyOrShort(s, 0, s);
          Prefixes(s, n);
      }
    }
  }

  // k replies can be read off s, and the next is no success.
  predicate FailsAt(s: bytes, k: nat) {
    AfterReplies(s, k).Ok? && !Reply(AfterReplies(s, k).rest).Ok?
  }

  predicate ErrorFree(vs: seq<Value>) {
    forall v :: v in vs ==> WellFormed(v) && FirstError(v).None?
  }

  lemma {:induction false} AfterRepliesOfValues(vs: seq<Value>, rest: bytes)
    requires ErrorFree(vs)
    ensures AfterReplies(PrintAll(vs) + rest, |vs|) == Ok([], rest)
  {
    hide Reply, Print, WellFormed, FirstError;
    if vs == [] {
      assert PrintAll(vs) + rest == rest;
    } else {
      var more := PrintAll(vs[1..]) + rest;
      assert PrintAll(vs) + rest == Print(vs[0]) + more;
      ReplyOfValue(vs[0], more);
      OneMoreReply(PrintAll(vs) + rest, 0, PrintAll(vs) + rest, Text(vs[0]), more);
      AfterRepliesOfValues(vs[1..], rest);
      AfterRepliesAppend(PrintAll(vs) + rest, 1, |vs| - 1, more);
    }
  }

  lemma AfterSomeReplies(vs: seq<Value>, n: nat, rest: bytes)
    requires n <= |vs| && ErrorFree(vs[..n])
    ensures AfterReplies(PrintAll(vs) + rest, n) == Ok([], PrintAll(vs[n..]) + rest)
  {
    hide Reply, Print, ErrorFree, AfterReplies;
    var later := PrintAll(vs[n..]) + rest;
    assert vs == vs[..n] + vs[n..];
    PrintAllAppend(vs[..n], vs[n..]);
    assert PrintAll(vs) + rest == PrintAll(vs[..n]) + later;
    AfterRepliesOfValues(vs[..n], later);
  }

  lemma ReplyOfNext(vs: seq<Value>, n: nat, rest: bytes)
    requires n < |vs| && WellFormed(vs[n])
    ensures Reply(PrintAll(vs[n..]) + rest) == Expected(vs[n], PrintAll(vs[n + 1..]) + rest)
  {
    hide Reply, Print, WellFormed;
    assert vs[n..][1..] == vs[n + 1..];
    assert PrintAll(vs[n..]) + rest == Print(vs[n]) + (PrintAll(vs[n + 1..]) + rest);
    ReplyOfValue(vs[n], PrintAll(vs[n + 1..]) + rest);
  }

  /**
   A peer that answers every command with one error-free value, at any moment between calls: exactly
   the replies to the n commands written so far have been read, whatever the peer sends later, and the
   next reply read will be the value it sends for the next command, error or not.
   */
  lemma ExactlyAnswered(client: Client, n: nat, vs: seq<Value>, rest: bytes)
    requires client.Valid() && client.conn != null && client.conn.peer == PrintAll(vs) + rest
    requires n == |client.issued| <= |vs| && ErrorFree(vs[..n])
    ensures client.r.Unread() == PrintAll(vs[n..]) + rest
    ensures n < |vs| && WellFormed(vs[n]) ==>
      Reply(client.r.Unread()) == Expected(vs[n], PrintAll(vs[n + 1..]) + rest)
  {
    hide Reply, PrintAll, ErrorFree, AfterReplies, Wire, InService, WellFormed, Expected, BufReader.Valid;
    AfterSomeReplies(vs, n, rest);
    if n < |vs| && WellFormed(vs[n]) {
      ReplyOfNext(vs, n, rest);
    }
  }

  /** A SET was written to a connection only after its whole handshake had been written and answered. */
  lemma SetsFollowHandshake(used: Spent, password: bytes, db: int, i: nat)
    requires used.Disciplined(Handshake(password, db))
    requires i < |used.issued| && IsSet(used.issued[i])
    ensures |Handshake(password, db)| <= i && |Handshake(password, db)| <= used.answered
    ensures Handshake(password, db) == used.issued[..|Handshake(password, db)|]
  {
  }
}
