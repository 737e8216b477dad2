/**
 A TCP connection as its local end sees it, and the buffered reader put on top of it.

 The peer is described by the bytes it will ever send. How they are cut into reads, when a read or
 a write fails, and when somebody else closes the socket is left open, so that whatever is proved
 about a caller holds for every chunking and every failure.
 */
module Net {
  import opened Bytes
  import opened Options

  /** A buffer holding peer[p..q] at lo..mid, after a read of peer[q..t] into mid..end. */
  lemma Extended(was: bytes, now: bytes, lo: nat, mid: nat, end: nat, hi: nat, peer: bytes, p: nat, q: nat, t: nat)
    requires lo <= mid <= end <= hi <= |was| == |now| && p <= q <= t <= |peer|
    requires now[..mid] == was[..mid] && now[end..] == was[end..]
    requires was[lo..mid] == peer[p..q] && now[mid..end] == peer[q..t]
    ensures now[lo..end] == peer[p..t] && now[..lo] == was[..lo] && now[hi..] == was[hi..]
  {
    assert now[lo..mid] == now[..mid][lo..] && was[lo..mid] == was[..mid][lo..];
    assert now[lo..end] == now[lo..mid] + now[mid..end];
    assert peer[p..t] == peer[p..q] + peer[q..t];
    assert now[..lo] == now[..mid][..lo] && was[..lo] == was[..mid][..lo];
    assert now[hi..] == now[end..][hi - end..] && was[hi..] == was[end..][hi - end..];
  }

  class Conn {
    const peer: bytes      // every byte the peer will ever send
    const released: bytes -> nat   // how many of those it lets go once so much has been written to it
    const steady: bool     // if set, I/O fails only where the peer gives no byte, or once closed
    const shared: bool     // if set, another goroutine may close the socket at any time
    var taken: nat         // how many of the peer's bytes have been read off the socket
    var sent: bytes        // what has been written
    var closed: bool
    // How far into the peer's bytes the reader had got when another goroutine closed the socket.
    ghost var closedAt: Option<nat>

    // I/O fails only at the end of the peer's bytes, or once closed.
    ghost predicate Reliable() {
      steady && forall s :: |peer| <= released(s)
    }

    ghost predicate Valid()
      reads this
    {
      taken <= |peer|
    }

    /** A peer that sends what it sends whatever is written to it. */
    constructor (peer: bytes, steady: bool, shared: bool)
      ensures Valid() && this.peer == peer && this.steady == steady && this.shared == shared
      ensures taken == 0 && sent == [] && !closed && closedAt == None && (steady ==> Reliable())
    {
      this.peer, this.released, this.steady, this.shared := peer, _ => |peer|, steady, shared;
      taken, sent, closed, closedAt := 0, [], false, None;
    }

    /** A peer that answers: it sends no more than it has been given reason to. */
    constructor Answering(peer: bytes, released: bytes -> nat)
      ensures Valid() && this.peer == peer && this.released == released && steady && !shared
      ensures taken == 0 && sent == [] && !closed && closedAt == None
    {
      this.peer, this.released, steady, shared := peer, released, true, false;
      taken, sent, closed, closedAt := 0, [], false, None;
    }

    twostate predicate ClosedOnlyByOthers()
      reads this
    {
      && (old(closed) || !shared ==> closed == old(closed) && closedAt == old(closedAt))
      && (!old(closed) ==> if closed then closedAt.Some? else closedAt == old(closedAt))
    }

    /** One read into buf[lo..hi]: at least one byte, or an error and none. */
    method Read(buf: array<byte>, lo: nat, hi: nat) returns (n: nat, ok: bool)
      requires Valid() && lo < hi <= buf.Length
      modifies this`taken, buf
      ensures Valid() && taken == old(taken) + n
      ensures ok ==> !closed && 0 < n <= hi - lo
      ensures ok ==> buf[lo..lo + n] == peer[old(taken)..taken]
      ensures lo + n <= hi && (ok ==> taken <= released(sent))
      ensures buf[..lo] == old(buf[..lo]) && buf[lo + n..] == old(buf[lo + n..])
      ensures !ok ==> n == 0 && (steady && !closed ==> taken == |peer| || released(sent) <= taken)
      ensures !ok && Reliable() && !closed ==> taken == |peer|
    {
      var fail: bool := *;
      if closed || taken == |peer| || released(sent) <= taken || (fail && !steady) {
        return 0, false;
      }
      n :| 1 <= n <= hi - lo && n <= |peer| - taken && n <= released(sent) - taken;
      forall i | 0 <= i < n {
        buf[lo + i] := peer[taken + i];
      }
      taken := taken + n;
      ok := true;
    }

    /** Fills buf[lo..hi] by repeated reads, as io.ReadFull does on a bare connection. */
    method ReadFull(buf: array<byte>, lo: nat, hi: nat) returns (ok: bool)
      requires Valid() && lo <= hi <= buf.Length
      modifies this`taken, buf
      ensures Valid() && old(taken) <= taken <= old(taken) + (hi - lo)
      ensures ok <==> taken == old(taken) + (hi - lo)
      ensures ok ==> buf[lo..hi] == peer[old(taken)..taken]
      ensures buf[..lo] == old(buf[..lo]) && buf[hi..] == old(buf[hi..])
      ensures ok && lo < hi ==> taken <= released(sent)
      ensures !ok && steady && !closed ==>
        |peer| < old(taken) + (hi - lo) || released(sent) < old(taken) + (hi - lo)
      ensures !ok && Reliable() && !closed ==> taken == |peer|
    {
      var total := 0;
      while total < hi - lo
        invariant 0 <= total <= hi - lo
        invariant Valid() && taken == old(taken) + total
        invariant buf[lo..lo + total] == peer[old(taken)..taken] && (0 < total ==> taken <= released(sent))
        invariant buf[..lo] == old(buf[..lo]) && buf[hi..] == old(buf[hi..])
      {
        ghost var was, at := buf[..], taken;
        var n, got := Read(buf, lo + total, hi);
        if !got {
          return false;
        }
        Extended(was, buf[..], lo, lo + total, lo + total + n, hi, peer, old(taken), at, taken);
        total := total + n;
      }
      ok := true;
    }

    /** A failed write may have put any prefix of data on the wire. */
    method Write(data: bytes) returns (ok: bool)
      modifies this`sent
      ensures ok ==> !closed && sent == old(sent) + data
      ensures !ok ==> (closed || !steady) && old(sent) <= sent <= old(sent) + data
    {
      var fail: bool := *;
      if closed || (fail && !steady) {
        var k :| 0 <= k <= |data|;
        sent := sent + data[..k];
        return false;
      }
      sent := sent + data;
      ok := true;
    }

    /** A point at which another goroutine may close the socket, the reader having got to pos. */
    method Interfere(ghost pos: nat)
      modifies this`closed, this`closedAt
      ensures ClosedOnlyByOthers() && (closedAt == old(closedAt) || closedAt == Some(pos))
    {
      var other: bool := *;
      if shared && other && !closed {
        closed, closedAt := true, Some(pos);
      }
    }

    method Close()
      modifies this`closed
      ensures closed
    {
      closed := true;
    }
  }

  class BufReader {
    const conn: Conn
    const buf: array<byte>
    var r: nat   // buf[r..w] has been read off the socket but not handed out
    var w: nat

    ghost predicate Valid()
      reads this, conn, buf
    {
      && conn.Valid()
      && 0 < buf.Length && r <= w <= buf.Length
      && w - r <= conn.taken
      && buf[r..w] == conn.peer[conn.taken - (w - r)..conn.taken]
    }

    // How far into the peer's bytes the caller has got.
    ghost function Pos(): (p: nat)
      requires Valid()
      reads this, conn, buf
    {
      conn.taken - (w - r)
    }

    // Where the socket was closed is where the reader was; it has had at most its buffer since.
    ghost predicate Marked()
      requires Valid()
      reads this, conn, buf
    {
      conn.closedAt.Some? ==> conn.closed && conn.closedAt.value <= Pos() && conn.taken <= conn.closedAt.value + buf.Length
    }

    ghost function Unread(): bytes
      requires Valid()
      reads this, conn, buf
    {
      conn.peer[Pos()..]
    }

    lemma UnreadLength()
      requires Valid()
      ensures |Unread()| == |conn.peer| - Pos()
    {
    }

    constructor (conn: Conn, size: nat)
      requires conn.Valid() && 0 < size
      ensures Valid() && this.conn == conn && buf.Length == size && fresh(buf)
      ensures r == w == 0 && Pos() == conn.taken
    {
      this.conn := conn;
      buf := new byte[size];
      r, w := 0, 0;
    }

    /** One read into the empty buffer; the socket may be closed just before it. */
    method Fill() returns (ok: bool)
      requires Valid() && r == w
      modifies this`r, this`w, conn`taken, conn`closed, conn`closedAt, buf
      ensures conn.ClosedOnlyByOthers()
      ensures Valid() && (old(Marked()) ==> Marked())
      ensures Valid() && Pos() == old(Pos())
      ensures ok ==> r == 0 && 0 < w && !conn.closed
      ensures !ok ==> r == w && (conn.Reliable() && !conn.closed ==> Pos() == |conn.peer|)
      ensures conn.closed ==> conn.taken == old(conn.taken)
    {
      r, w := 0, 0;
      conn.Interfere(Pos());
      var n;
      n, ok := conn.Read(buf, 0, buf.Length);
      w := n;
    }

    /** Hands out the first n buffered bytes. */
    method HandOut(n: nat) returns (data: bytes)
      requires Valid() && n <= w - r
      modifies this`r
      ensures Valid() && Pos() == old(Pos()) + n && r == old(r) + n
      ensures data == old(buf[r..r + n]) == conn.peer[old(Pos())..Pos()]
    {
      ghost var ahead := buf[r..w];
      data := buf[r..r + n];
      assert data == ahead[..n];
      r := r + n;
      assert buf[r..w] == ahead[n..];
    }

    method Read(p: array<byte>, lo: nat, hi: nat) returns (n: nat, ok: bool)
      requires Valid() && p != buf && lo < hi <= p.Length
      modifies this`r, this`w, conn`taken, conn`closed, conn`closedAt, buf, p
      ensures conn.ClosedOnlyByOthers()
      ensures Valid() && (old(Marked()) ==> Marked())
      ensures Valid() && Pos() == old(Pos()) + n && lo + n <= hi
      ensures ok ==> 0 < n && w - r < buf.Length
      ensures ok ==> p[lo..lo + n] == conn.peer[old(Pos())..Pos()]
      ensures p[..lo] == old(p[..lo]) && p[lo + n..] == old(p[lo + n..])
      ensures !ok ==> n == 0 && r == w && (conn.Reliable() && !conn.closed ==> Pos() == |conn.peer|)
      ensures old(conn.closed) ==> conn.taken == old(conn.taken)
    {
      hide Conn.Reliable;
      if r == w && buf.Length <= hi - lo {
        conn.Interfere(Pos());
        n, ok := conn.Read(p, lo, hi);
        return;
      }
      if r == w {
        var filled := Fill();
        if !filled {
          return 0, false;
        }
      }
      n := HandInto(p, lo, hi);
      ok := true;
    }

    /** Copies as much of the buffer as there is, and as there is room for, to p[lo..hi]. */
    method HandInto(p: array<byte>, lo: nat, hi: nat) returns (n: nat)
      requires Valid() && r < w && p != buf && lo < hi <= p.Length
      modifies this`r, p
      ensures Valid() && Pos() == old(Pos()) + n && 0 < n && lo + n <= hi && w - r < buf.Length
      ensures p[lo..lo + n] == conn.peer[old(Pos())..Pos()]
      ensures p[..lo] == old(p[..lo]) && p[lo + n..] == old(p[lo + n..])
    {
      n := Min(hi - lo, w - r);
      var data := HandOut(n);
      forall i | 0 <= i < n {
        p[lo + i] := data[i];
      }
      assert p[lo..lo + n] == data;
    }

    /** io.ReadFull, and the Redis client's own readFull, over the buffered reader. */
    method ReadFull(p: array<byte>, lo: nat, hi: nat) returns (ok: bool)
      requires Valid() && p != buf && lo <= hi <= p.Length
      modifies this`r, this`w, conn`taken, conn`closed, conn`closedAt, buf, p
      ensures conn.ClosedOnlyByOthers()
      ensures Valid() && (old(Marked()) ==> Marked())
      ensures Valid() && old(Pos()) <= Pos() <= old(Pos()) + (hi - lo)
      ensures ok <==> Pos() == old(Pos()) + (hi - lo)
      ensures ok ==> p[lo..hi] == conn.peer[old(Pos())..Pos()]
      ensures ok && lo < hi ==> w - r < buf.Length
      ensures p[..lo] == old(p[..lo]) && p[hi..] == old(p[hi..])
      ensures !ok ==> r == w && (conn.Reliable() && !conn.closed ==> Pos() == |conn.peer|)
      ensures old(conn.closed) ==> conn.taken == old(conn.taken)
    {
      hide Conn.Reliable;
      var total := 0;
      while total < hi - lo
        invariant 0 <= total <= hi - lo
        invariant Valid() && Pos() == old(Pos()) + total
        invariant p[lo..lo + total] == conn.peer[old(Pos())..Pos()]
        invariant 0 < total ==> w - r < buf.Length
        invariant p[..lo] == old(p[..lo]) && p[hi..] == old(p[hi..])
        invariant conn.ClosedOnlyByOthers() && (old(Marked()) ==> Marked())
        invariant old(conn.closed) ==> conn.taken == old(conn.taken)
      {
        ghost var was, at := p[..], Pos();
        var n, got := Read(p, lo + total, hi);
        if !got {
          return false;
        }
        Extended(was, p[..], lo, lo + total, lo + total + n, hi, conn.peer, old(Pos()), at, Pos());
        total := total + n;
      }
      ok := true;
    }

    /** The index of delim in buf[r..w], or w. */
    method Find(delim: byte) returns (i: nat)
      requires Valid()
      ensures r <= i <= w && delim !in buf[r..i]
      ensures i < w ==> buf[i] == delim
    {
      i := r;
      while i < w && buf[i] != delim
        invariant r <= i <= w
        invariant delim !in buf[r..i]
      {
        i := i + 1;
      }
    }

    /** What is buffered, after a read if nothing is, cut off just after the first delim. */
    method Fragment(delim: byte) returns (part: bytes, found: bool, ok: bool)
      requires Valid()
      modifies this`r, this`w, conn`taken, conn`closed, conn`closedAt, buf
      ensures conn.ClosedOnlyByOthers()
      ensures Valid() && Pos() == old(Pos()) + |part| && part == conn.peer[old(Pos())..Pos()]
      ensures ok ==> 0 < |part|
      ensures found ==> ok && part[|part| - 1] == delim && delim !in part[..|part| - 1]
      ensures !found ==> delim !in part
      ensures !ok ==> part == [] && (conn.Reliable() && !conn.closed ==> Pos() == |conn.peer|)
    {
      if r == w {
        var filled := Fill();
        if !filled {
          return [], false, false;
        }
      }
      var i := Find(delim);
      found := i < w;
      ok := true;
      ghost var ahead := buf[r..w];
      assert buf[r..i] == ahead[..i - r];
      part := HandOut(if found then i + 1 - r else i - r);
    }

    /** Everything up to and including the next delim. */
    method ReadString(delim: byte) returns (line: bytes, ok: bool)
      requires Valid()
      modifies this`r, this`w, conn`taken, conn`closed, conn`closedAt, buf
      ensures conn.ClosedOnlyByOthers()
      ensures Valid() && Pos() == old(Pos()) + |line| && line == conn.peer[old(Pos())..Pos()]
      ensures ok ==> 0 < |line| && line[|line| - 1] == delim && delim !in line[..|line| - 1]
      ensures !ok ==> delim !in line && (conn.Reliable() && !conn.closed ==> Pos() == |conn.peer|)
    {
      line := [];
      var found := false;
      while !found
        invariant Valid() && Pos() == old(Pos()) + |line| && line == conn.peer[old(Pos())..Pos()]
        invariant conn.ClosedOnlyByOthers()
        invariant !found ==> delim !in line
        invariant found ==> 0 < |line| && line[|line| - 1] == delim && delim !in line[..|line| - 1]
        decreases !found, |conn.peer| - Pos()
      {
        ghost var at := Pos();
        var part, more;
        part, found, more := Fragment(delim);
        if !more {
          return line, false;
        }
        assert conn.peer[old(Pos())..Pos()] == conn.peer[old(Pos())..at] + conn.peer[at..Pos()];
        assert found ==> (line + part)[..|line + part| - 1] == line + part[..|part| - 1];
        line := line + part;
      }
      ok := true;
    }
  }
}
