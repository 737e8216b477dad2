/** The port index of cmd/metrics-agent/collectors.go, compiled from a list of port ranges. */
module Collectors {
  import opened Bytes
  import opened Options
  import opened Decimal

  const HASH: byte := 35   // #
  const DASH: byte := 45   // -
  const MAX_PORT := 65535

  datatype Info = Info(collector: bytes, server: bytes, serverIp: bytes)

  // A line cut into its fields; a field is never empty. A blank line has none.
  type Line = seq<bytes>

  predicate Ignored(f: Line) {
    f == [] || (f[0] != [] && f[0][0] == HASH)
  }

  // strings.Cut(s, "-"): the index of the first dash, or |s|.
  function Cut(s: bytes): (k: nat)
    ensures k <= |s| && DASH !in s[..k] && (k < |s| ==> s[k] == DASH)
  {
    if s == [] || s[0] == DASH then 0
    else
      var k := Cut(s[1..]);
      assert s[..k + 1] == [s[0]] + s[1..][..k];
      k + 1
  }

  function ParsePortRange(s: bytes): (r: Option<(nat, nat)>)
    ensures r.Some? ==> 1 <= r.value.0 <= r.value.1 <= MAX_PORT
  {
    var k := Cut(s);
    var start := Atoi(s[..k]);
    var end := if k < |s| then Atoi(s[k + 1..]) else start;
    if start.None? || end.None? then None
    else if start.value < 1 || end.value > MAX_PORT || start.value > end.value then None
    else Some((start.value, end.value))
  }

  lemma NoDashInDigits(n: nat)
    ensures DASH !in Digits(n)
  {
  }

  lemma NumeralCut(a: int, rest: bytes)
    requires rest == [] || rest[0] == DASH
    ensures Cut(Itoa(a) + rest) == if a < 0 then 0 else |Itoa(a)|
  {
    var s := Itoa(a) + rest;
    if 0 <= a {
      NoDashInDigits(a);
      assert s[..|Itoa(a)|] == Itoa(a);
    }
    CutAt(s, if a < 0 then 0 else |Itoa(a)|);
  }

  /** For any string: cut at the first dash, both parts must be numbers; without a dash it is one port. */
  lemma PortRangeOfParts(s: bytes, t: bytes)
    requires 45 !in s
    ensures ParsePortRange(s) == match Atoi(s)
      case None => None
      case Some(a) => if 1 <= a <= 65535 then Some((a, a)) else None
    ensures ParsePortRange(s + [45] + t) == match (Atoi(s), Atoi(t))
      case (Some(a), Some(b)) => if 1 <= a <= b <= 65535 then Some((a, b)) else None
      case _ => None
  {
    assert s[..|s|] == s;
    Parts(s, t);
    CutAt(s, |s|);
    CutAt(s + [DASH] + t, |s|);
    hide Cut, Atoi;
  }

  /** A single port, written out, is read back if and only if it is a valid one. */
  lemma PortRead(a: int)
    ensures ParsePortRange(Itoa(a)) == if 1 <= a <= 65535 then Some((a, a)) else None
  {
    var s := Itoa(a);
    assert s + [] == s;
    NumeralCut(a, []);
    AtoiItoa(a);
    assert s[..|s|] == s && s[..0] == [];
    hide Itoa, Cut, Digits;
    assert Atoi([]) == None;
  }

  /** And so is a range. */
  lemma PortRangeRead(a: int, b: int)
    ensures ParsePortRange(Itoa(a) + [DASH] + Itoa(b)) == if 1 <= a <= b <= 65535 then Some((a, b)) else None
  {
    AtoiItoa(a);
    AtoiItoa(b);
    assert Atoi([]) == None;
    hide Itoa, Cut, Digits, Atoi;
    NumeralCut(a, [DASH] + Itoa(b));
    Parts(Itoa(a), Itoa(b));
  }

  lemma Parts(s: bytes, t: bytes)
    ensures var r := s + [DASH] + t;
      r == s + ([DASH] + t) && r[..|s|] == s && r[|s| + 1..] == t && r[..0] == []
  {
  }

  lemma CutAt(s: bytes, k: nat)
    requires k <= |s| && DASH !in s[..k] && (k < |s| ==> s[k] == DASH)
    ensures Cut(s) == k
  {
  }

  predicate WellFormed(f: Line) {
    2 <= |f| && ParsePortRange(f[1]).Some?
  }

  function Field(f: Line, k: nat): bytes {
    if k < |f| then f[k] else []
  }

  function InfoOf(f: Line): Info {
    Info(Field(f, 0), Field(f, 2), Field(f, 3))
  }

  // Line f gives port p a collector.
  predicate Covers(f: Line, p: int) {
    !Ignored(f) && WellFormed(f) && ParsePortRange(f[1]).value.0 <= p <= ParsePortRange(f[1]).value.1
  }

  predicate AllWellFormed(lines: seq<Line>) {
    forall f :: f in lines ==> Ignored(f) || WellFormed(f)
  }

  ghost predicate Disjoint(lines: seq<Line>) {
    forall i, j, p {:trigger Covers(lines[i], p), Covers(lines[j], p)} ::
      0 <= i < j < |lines| ==> !(Covers(lines[i], p) && Covers(lines[j], p))
  }

  // What reading the lines from top to bottom says of port p.
  function Scan(lines: seq<Line>, p: int): Option<Info> {
    if lines == [] then None
    else if Covers(lines[0], p) then Some(InfoOf(lines[0]))
    else Scan(lines[1..], p)
  }

  function Span(f: Line): nat {
    if Ignored(f) || !WellFormed(f) then 0
    else ParsePortRange(f[1]).value.1 - ParsePortRange(f[1]).value.0 + 1
  }

  function Spans(lines: seq<Line>): nat {
    if lines == [] then 0 else Spans(lines[..|lines| - 1]) + Span(lines[|lines| - 1])
  }

  type Index = map<int, Info>

  datatype Failure = TooFewFields(line: nat) | BadRange(line: nat) | Duplicate(line: nat, port: int)

  datatype Parsed = Failed(error: Failure) | NoMapping | Mapping(ports: Index)

  function Lookup(m: Parsed, port: bytes): Option<Info> {
    match m
    case Mapping(ports) =>
      (match Atoi(port)
       case None => None
       case Some(n) => if n in ports then Some(ports[n]) else None)
    case _ => None
  }

  // The index holds exactly what the lines say.
  ghost predicate Indexes(m: Index, lines: seq<Line>) {
    forall p :: (p in m <==> exists i :: 0 <= i < |lines| && Covers(lines[i], p))
             && (p in m ==> forall i :: 0 <= i < |lines| && Covers(lines[i], p) ==> m[p] == InfoOf(lines[i]))
  }

  function Ports(m: Parsed): Index {
    match m
    case Mapping(ports) => ports
    case _ => map[]
  }

  // The lines are acceptable, and m is what they amount to.
  ghost predicate Indexed(m: Index, lines: seq<Line>) {
    && AllWellFormed(lines) && Disjoint(lines)
    && Indexes(m, lines) && |m| == Spans(lines)
  }

  lemma DisjointGrows(m: Index, lines: seq<Line>, f: Line)
    requires Disjoint(lines) && Indexes(m, lines)
    requires forall p :: p in m ==> !Covers(f, p)
    ensures Disjoint(lines + [f])
  {
  }

  lemma IndexesGrow(m: Index, lines: seq<Line>, f: Line, m': Index)
    requires Indexes(m, lines)
    requires forall p :: p in m ==> !Covers(f, p)
    requires forall p :: p in m' <==> p in m || Covers(f, p)
    requires forall p :: p in m' ==> m'[p] == if p in m then m[p] else InfoOf(f)
    ensures Indexes(m', lines + [f])
  {
    hide Covers, InfoOf;
    var more, n := lines + [f], |lines|;
    forall p
      ensures p in m' <==> exists i :: 0 <= i < |more| && Covers(more[i], p)
      ensures p in m' ==> forall i :: 0 <= i < |more| && Covers(more[i], p) ==> m'[p] == InfoOf(more[i])
    {
      if p in m {
        var i :| 0 <= i < n && Covers(lines[i], p);
        assert Covers(more[i], p);
      } else if Covers(f, p) {
        assert Covers(more[n], p);
      }
    }
  }

  lemma SpansGrow(lines: seq<Line>, f: Line)
    ensures Spans(lines + [f]) == Spans(lines) + Span(f)
  {
    hide Span;
    assert (lines + [f])[..|lines|] == lines;
  }

  lemma LineAdded(m: Index, lines: seq<Line>, f: Line, m': Index)
    requires Indexed(m, lines) && (Ignored(f) || WellFormed(f))
    requires forall p :: p in m ==> !Covers(f, p)
    requires forall p :: p in m' <==> p in m || Covers(f, p)
    requires forall p :: p in m' ==> m'[p] == if p in m then m[p] else InfoOf(f)
    requires |m'| == |m| + Span(f)
    ensures Indexed(m', lines + [f])
  {
    hide Covers, WellFormed, Ignored, Span, InfoOf, Indexes, Disjoint, Spans;
    DisjointGrows(m, lines, f);
    IndexesGrow(m, lines, f, m');
    SpansGrow(lines, f);
  }

  lemma IgnoredLineAdded(m: Index, lines: seq<Line>, f: Line)
    requires Indexed(m, lines) && Ignored(f)
    ensures Indexed(m, lines + [f])
  {
    assert Span(f) == 0 && forall p :: !Covers(f, p);
    hide Covers, WellFormed, Ignored, Span, InfoOf, Indexed;
    LineAdded(m, lines, f, m);
  }

  lemma PortTaken(m: Index, lines: seq<Line>, n: nat, p: int)
    requires n < |lines| && Indexes(m, lines[..n]) && p in m && Covers(lines[n], p)
    ensures !Disjoint(lines[..n + 1])
  {
    var i :| 0 <= i < n && Covers(lines[..n][i], p);
    assert Covers(lines[..n + 1][i], p) && Covers(lines[..n + 1][n], p);
  }

  lemma NotBeyond(lines: seq<Line>, n: nat)
    requires n <= |lines| && !(AllWellFormed(lines[..n]) && Disjoint(lines[..n]))
    ensures !(AllWellFormed(lines) && Disjoint(lines))
  {
  }

  // m' is m and, in addition, info for the ports start..end.
  ghost predicate Extends(m': Index, m: Index, start: int, end: int, info: Info) {
    && (forall q :: q in m' <==> q in m || start <= q < end)
    && (forall q :: q in m' ==> m'[q] == if q in m then m[q] else info)
    && |m'| == |m| + (end - start)
  }

  lemma OnePortMore(m': Index, m: Index, start: int, p: int, info: Info)
    requires Extends(m', m, start, p, info) && start <= p && p !in m'
    ensures Extends(m'[p := info], m, start, p + 1, info)
  {
  }

  /** The inner loop: the ports of one line, or the first that is taken. */
  method AddRange(m: Index, start: int, end: int, info: Info) returns (m': Index, taken: Option<int>)
    requires start <= end
    ensures match taken
      case Some(p) => start <= p <= end && p in m && forall q :: start <= q < p ==> q !in m
      case None => Extends(m', m, start, end + 1, info) && forall p :: start <= p <= end ==> p !in m
  {
    m' := m;
    var p := start;
    while p <= end
      invariant start <= p <= end + 1
      invariant forall q :: start <= q < p ==> q !in m
      invariant Extends(m', m, start, p, info)
    {
      if p in m' {
        return m', Some(p);
      }
      OnePortMore(m', m, start, p, info);
      hide Extends;
      m' := m'[p := info];
      p := p + 1;
    }
    taken := None;
  }

  // What the error says of line f, which follows `lines`: it has no range, or one that cannot be read, or
  // port is the first of its ports that an earlier line has.
  ghost predicate Blames(error: Failure, lines: seq<Line>, f: Line) {
    match error
    case TooFewFields(_) => |f| < 2
    case BadRange(_) => 2 <= |f| && ParsePortRange(f[1]).None?
    case Duplicate(_, port) =>
      && Covers(f, port) && Scan(lines, port).Some?
      && forall q :: q < port && Covers(f, q) ==> Scan(lines, q).None?
  }

  lemma DuplicateBlames(m: Index, lines: seq<Line>, f: Line, n: nat, port: int)
    requires Indexes(m, lines) && Covers(f, port) && port in m && forall q :: q < port && Covers(f, q) ==> q !in m
    ensures Blames(Duplicate(n, port), lines, f)
  {
    hide Covers, Indexes, Scan;
    IndexIsScan(m, lines, port);
    forall q | q < port && Covers(f, q)
      ensures Scan(lines, q).None?
    {
      IndexIsScan(m, lines, q);
    }
  }

  /**
   parseCollectors over the lines of the file: it succeeds exactly if every line that counts is well
   formed and no port is given twice; then the index says of every port what the lines say, and has as
   many entries as the ranges have ports. A failure names the first line that spoils it.
   */
  method ParseCollectors(lines: seq<Line>) returns (r: Parsed)
    ensures !r.Failed? <==> AllWellFormed(lines) && Disjoint(lines)
    ensures !r.Failed? ==> Indexes(Ports(r), lines) && |Ports(r)| == Spans(lines)
    ensures r.NoMapping? ==> Spans(lines) == 0
    ensures r.Mapping? ==> Spans(lines) > 0
    ensures r.Failed? ==> var n := r.error.line;
      && 1 <= n <= |lines|
      && AllWellFormed(lines[..n - 1]) && Disjoint(lines[..n - 1])
      && !(AllWellFormed(lines[..n]) && Disjoint(lines[..n]))
      && (r.error.Duplicate? <==> AllWellFormed(lines[..n]))
      && Blames(r.error, lines[..n - 1], lines[n - 1])
  {
    hide Covers, Indexes, Disjoint, ParsePortRange, Spans, Span;
    var m: Index := map[];
    NothingIndexed();
    for i := 0 to |lines|
      invariant Indexed(m, lines[..i])
    {
      var f := lines[i];
      assert lines[..i + 1] == lines[..i] + [f];
      if Ignored(f) {
        IgnoredLineAdded(m, lines[..i], f);
        continue;
      }
      if |f| < 2 {
        NotBeyond(lines, i + 1);
        return Failed(TooFewFields(i + 1));
      }
      var range := ParsePortRange(f[1]);
      if range.None? {
        NotBeyond(lines, i + 1);
        return Failed(BadRange(i + 1));
      }
      var info := Info(f[0], [], []);
      if |f| > 2 {
        info := info.(server := f[2]);
      }
      if |f| > 3 {
        info := info.(serverIp := f[3]);
      }
      CoversIsRange(f);
      var m', taken := AddRange(m, range.value.0, range.value.1, info);
      if taken.Some? {
        PortTaken(m, lines, i, taken.value);
        DuplicateBlames(m, lines[..i], f, i + 1, taken.value);
        NotBeyond(lines, i + 1);
        return Failed(Duplicate(i + 1, taken.value));
      }
      LineAdded(m, lines[..i], f, m');
      m := m';
    }
    assert lines[..|lines|] == lines;
    r := if |m| == 0 then NoMapping else Mapping(m);
    assert |m| == 0 ==> m == map[];
  }

  lemma NothingIndexed()
    ensures Indexed(map[], [])
  {
  }

  lemma CoversIsRange(f: Line)
    requires !Ignored(f) && WellFormed(f)
    ensures forall p :: Covers(f, p) <==> ParsePortRange(f[1]).value.0 <= p <= ParsePortRange(f[1]).value.1
    ensures Span(f) == ParsePortRange(f[1]).value.1 - ParsePortRange(f[1]).value.0 + 1
  {
  }

  /** Looking a port up in the index is reading the lines. */
  lemma {:induction false} IndexIsScan(m: Index, lines: seq<Line>, p: int)
    requires Indexes(m, lines)
    ensures (if p in m then Some(m[p]) else None) == Scan(lines, p)
  {
    hide Covers;
    ScanFinds(lines, p);
  }

  /** A lookup is reading the lines for the number the port string is; no number, no collector. */
  lemma LookupIsScan(r: Parsed, lines: seq<Line>, port: bytes)
    requires Indexes(Ports(r), lines)
    ensures Lookup(r, port) == match Atoi(port) case None => None case Some(n) => Scan(lines, n)
  {
    hide Scan, Indexes, Atoi;
    if Atoi(port).Some? {
      IndexIsScan(Ports(r), lines, Atoi(port).value);
    }
  }

  lemma {:induction false} ScanFinds(lines: seq<Line>, p: int)
    ensures Scan(lines, p).None? <==> forall i :: 0 <= i < |lines| ==> !Covers(lines[i], p)
    ensures Scan(lines, p).Some? ==> exists i :: 0 <= i < |lines| && Covers(lines[i], p) && Scan(lines, p) == Some(InfoOf(lines[i]))
  {
    hide ParsePortRange, Ignored;
    if lines != [] {
      ScanFinds(lines[1..], p);
      assert forall i :: 0 <= i < |lines| - 1 ==> lines[1..][i] == lines[i + 1];
    }
  }

  // ---- The order of the lines does not matter ----

  lemma {:induction false} TwoOccurrences<T>(s: seq<T>, x: T) returns (i: nat, j: nat)
    requires 2 <= multiset(s)[x]
    ensures i < j < |s| && s[i] == s[j] == x
  {
    var n := |s| - 1;
    assert s == s[..n] + [s[n]];
    if s[n] == x {
      assert x in multiset(s[..n]);
      i :| 0 <= i < n && s[..n][i] == x;
      j := n;
    } else {
      i, j := TwoOccurrences(s[..n], x);
    }
  }

  lemma CountTwice<T>(s: seq<T>, i: nat, j: nat)
    requires i < j < |s| && s[i] == s[j]
    ensures 2 <= multiset(s)[s[i]]
  {
    assert s == s[..j] + s[j..];
    assert s[i] in s[..j] && s[i] in s[j..];
  }

  lemma SameElements<T>(a: seq<T>, b: seq<T>, x: T)
    requires multiset(a) == multiset(b) && x in a
    ensures x in b
  {
    assert x in multiset(a);
    assert x in multiset(b);
  }

  lemma DisjointPermuted(a: seq<Line>, b: seq<Line>)
    requires multiset(a) == multiset(b) && Disjoint(a)
    ensures Disjoint(b)
  {
    hide Covers;
    forall i, j, p | 0 <= i < j < |b|
      ensures !(Covers(b[i], p) && Covers(b[j], p))
    {
      var k, l;
      if b[i] == b[j] {
        CountTwice(b, i, j);
        k, l := TwoOccurrences(a, b[i]);
      } else {
        SameElements(b, a, b[i]);
        SameElements(b, a, b[j]);
        k :| 0 <= k < |a| && a[k] == b[i];
        l :| 0 <= l < |a| && a[l] == b[j];
      }
      assert k < l ==> !(Covers(a[k], p) && Covers(a[l], p));
      assert l < k ==> !(Covers(a[l], p) && Covers(a[k], p));
    }
  }

  lemma ScanIsTheCover(lines: seq<Line>, f: Line, p: int)
    requires Disjoint(lines) && f in lines && Covers(f, p)
    ensures Scan(lines, p) == Some(InfoOf(f))
  {
  }

  /** Whether the file is accepted, and what every port is given, is the same for any order of its lines. */
  lemma OrderIrrelevant(a: seq<Line>, b: seq<Line>, p: int)
    requires multiset(a) == multiset(b)
    ensures AllWellFormed(a) && Disjoint(a) <==> AllWellFormed(b) && Disjoint(b)
    ensures Disjoint(a) ==> Scan(a, p) == Scan(b, p)
  {
    hide Covers, Scan, InfoOf;
    forall f: Line
      ensures f in a <==> f in b
    {
      if f in a { SameElements(a, b, f); }
      if f in b { SameElements(b, a, f); }
    }
    if Disjoint(a) { DisjointPermuted(a, b); }
    if Disjoint(b) { DisjointPermuted(b, a); }
    if Disjoint(a) {
      if f: Line :| f in a && Covers(f, p) {
        ScanIsTheCover(a, f, p);
        ScanIsTheCover(b, f, p);
      } else {
        ScanFinds(a, p);
        ScanFinds(b, p);
      }
    }
  }

  // ---- What a line gives, field by field ----

  lemma RangeOfLine(collector: bytes, a: nat, b: nat, range: bytes, rest: seq<bytes>, p: nat)
    requires 1 <= a <= p <= b <= 65535 && (collector == [] || collector[0] != 35)
    requires range == Itoa(a) + [45] + Itoa(b) || (a == b && range == Itoa(a))
    ensures var f := [collector, range] + rest;
      Covers(f, p) && InfoOf(f) == Info(collector, if rest == [] then [] else rest[0], if |rest| < 2 then [] else rest[1])
  {
    PortRead(a);
    PortRangeRead(a, b);
    hide ParsePortRange, Itoa;
  }

  /**
   In an accepted file a line `collector a-b server ip`, or `collector a`, the last fields being
   optional, makes the lookup of every port from a to b give that collector, server and address.
   */
  lemma LineGivesPort(r: Parsed, lines: seq<Line>, collector: bytes, a: nat, b: nat, range: bytes,
                      rest: seq<bytes>, p: nat)
    requires Disjoint(lines) && Indexes(Ports(r), lines) && [collector, range] + rest in lines
    requires 1 <= a <= p <= b <= 65535 && (collector == [] || collector[0] != 35)
    requires range == Itoa(a) + [45] + Itoa(b) || (a == b && range == Itoa(a))
    ensures Lookup(r, Itoa(p)) == Some(Info(collector, if rest == [] then [] else rest[0], if |rest| < 2 then [] else rest[1]))
  {
    RangeOfLine(collector, a, b, range, rest, p);
    AtoiItoa(p);
    hide Covers, InfoOf, Scan, Itoa, Indexes, Disjoint;
    ScanIsTheCover(lines, [collector, range] + rest, p);
    IndexIsScan(Ports(r), lines, p);
  }

  lemma DisjointWithout(f: Line, lines: seq<Line>)
    requires forall p :: !Covers(f, p)
    ensures Disjoint([f] + lines) <==> Disjoint(lines)
  {
    hide Covers;
    var more := [f] + lines;
    if Disjoint(more) {
      forall i, j, p | 0 <= i < j < |lines|
        ensures !(Covers(lines[i], p) && Covers(lines[j], p))
      {
        assert !(Covers(more[i + 1], p) && Covers(more[j + 1], p));
      }
    }
    if Disjoint(lines) {
      forall i, j, p | 0 <= i < j < |more|
        ensures !(Covers(more[i], p) && Covers(more[j], p))
      {
        if 0 < i {
          assert !(Covers(lines[i - 1], p) && Covers(lines[j - 1], p));
        }
      }
    }
  }

  /** A blank line, or one that starts with #, changes nothing, whatever follows and wherever it stands. */
  lemma CommentChangesNothing(before: seq<Line>, f: Line, after: seq<Line>, p: int)
    requires f == [] || (f[0] != [] && f[0][0] == 35)
    ensures AllWellFormed(before + [f] + after) && Disjoint(before + [f] + after)
      <==> AllWellFormed(before + after) && Disjoint(before + after)
    ensures Disjoint(before + after) ==> Scan(before + [f] + after, p) == Scan(before + after, p)
  {
    assert Ignored(f) && forall q :: !Covers(f, q);
    hide Covers, Ignored, WellFormed;
    var rest := before + after;
    assert multiset([f] + rest) == multiset(before + [f] + after);
    OrderIrrelevant([f] + rest, before + [f] + after, p);
    DisjointWithout(f, rest);
    assert ([f] + rest)[1..] == rest;
  }

  // ---- From a container's name to its collector ----

  // strings.LastIndex(s, "-"), with None for -1.
  function LastDash(s: bytes): (r: Option<nat>)
    ensures r.Some? ==> r.value < |s| && s[r.value] == DASH
    ensures r.None? ==> DASH !in s
  {
    if s == [] then None
    else if s[|s| - 1] == DASH then Some(|s| - 1)
    else LastDash(s[..|s| - 1])
  }

  function FieldName(container: bytes): (name: bytes)
    ensures DASH !in container ==> name == container
  {
    match LastDash(container)
    case Some(i) => if i + 1 < |container| && Atoi(container[i + 1..]).Some? then container[i + 1..] else container
    case None => container
  }

  lemma {:induction false} LastDashBefore(x: bytes, digits: bytes)
    requires DASH !in digits
    ensures LastDash(x + [DASH] + digits) == Some(|x|)
  {
    var s := x + [DASH] + digits;
    if digits != [] {
      var n := |digits| - 1;
      assert s[..|s| - 1] == x + [DASH] + digits[..n];
      assert digits[n] in digits;
      LastDashBefore(x, digits[..n]);
    }
  }

  /** Exactly a number after the last dash is taken for the port. */
  lemma FieldNameOfDashed(prefix: bytes, suffix: bytes)
    requires DASH !in suffix
    ensures FieldName(prefix + [DASH] + suffix) == if Atoi(suffix).Some? then suffix else prefix + [DASH] + suffix
  {
    var name := prefix + [DASH] + suffix;
    LastDashBefore(prefix, suffix);
    assert name[|prefix| + 1..] == suffix;
  }

  /** A container named after its port is labelled with the collector the lines give that port. */
  lemma LabelOfContainer(r: Parsed, lines: seq<Line>, prefix: bytes, port: nat)
    requires Indexes(Ports(r), lines) && port <= MAX_INT
    ensures FieldName(prefix + [DASH] + Itoa(port)) == Itoa(port)
    ensures Lookup(r, FieldName(prefix + [DASH] + Itoa(port))) == Scan(lines, port)
  {
    hide Covers;
    NoDashInDigits(port);
    AtoiItoa(port);
    FieldNameOfDashed(prefix, Itoa(port));
    IndexIsScan(Ports(r), lines, port);
  }
}
