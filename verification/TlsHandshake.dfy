// The incremental checker of plaintext TLS handshake bytes (section 7.4 of
// RFC 5246): message headers may be split anywhere across records.
module TlsHandshake {
  import opened Text

  type byte = b: int | 0 <= b < 256

  const HANDSHAKE_LIMIT: int := 1048576 // 1 << 20

  function Allowed(server: bool): seq<byte> {
    if server then [4, 11, 12, 13, 14, 22] else [11, 15, 16]
  }

  // total: handshakeBytes; left: handshakeLeft; pending: the header fragment
  datatype Progress = Progress(total: nat, left: nat, pending: seq<byte>)

  const FRESH: Progress := Progress(0, 0, [])

  // Between two messages.
  predicate AtBoundary(p: Progress) {
    p.left == 0 && p.pending == []
  }

  function Length24(a: byte, b: byte, c: byte): nat {
    a * 65536 + b * 256 + c
  }

  // One byte through the checker; the byte count is kept by Feed.
  function Byte(server: bool, p: Progress, b: byte): Option<Progress> {
    if p.left > 0 then Some(p.(left := p.left - 1))
    else
      var header := p.pending + [b];
      if |header| == 1 && b !in Allowed(server) then None
      else if |header| == 4 then
        var left := Length24(header[1], header[2], header[3]);
        if left > HANDSHAKE_LIMIT then None else Some(p.(left := left, pending := []))
      else Some(p.(pending := header))
  }

  function Bytes(server: bool, p: Progress, data: seq<byte>): Option<Progress>
    decreases |data|
  {
    if data == [] then Some(p)
    else
      var next := Byte(server, p, data[0]);
      if next.None? then None else Bytes(server, next.value, data[1..])
  }

  // handshake(data): count the bytes, then check them.
  function Feed(server: bool, p: Progress, data: seq<byte>): Option<Progress> {
    if p.total + |data| > HANDSHAKE_LIMIT then None
    else Bytes(server, p.(total := p.total + |data|), data)
  }

  // The checker's state after bytes it may have refused: it stops at the byte
  // that completes a bad kind or length, with the header fragment still there.
  function Stops(server: bool, p: Progress, data: seq<byte>): Progress
    decreases |data|
  {
    if data == [] then p
    else
      var next := Byte(server, p, data[0]);
      if next.Some? then Stops(server, next.value, data[1..])
      else
        var header := p.pending + [data[0]];
        p.(pending := header, left := if |header| == 4 then Length24(header[1], header[2], header[3]) else 0)
  }

  function FeedOn(server: bool, p: Progress, data: seq<byte>): Progress {
    var counted := p.(total := p.total + |data|);
    if counted.total > HANDSHAKE_LIMIT then counted else Stops(server, counted, data)
  }

  lemma {:induction false} StopsAfterBody(server: bool, p: Progress, data: seq<byte>, n: nat)
    requires n <= p.left && n <= |data|
    ensures Stops(server, p, data) == Stops(server, p.(left := p.left - n), data[n..])
    decreases n
  {
    if n > 0 {
      StopsAfterBody(server, p.(left := p.left - 1), data[1..], n - 1);
      assert data[1..][n - 1..] == data[n..];
    }
  }

  // The kinds of message each side may send in the clear after the hello.
  lemma KindsInTheClear(server: bool, kind: byte)
    ensures Feed(server, FRESH, [kind]).Some? <==> kind in (if server then {4, 11, 12, 13, 14, 22} else {11, 15, 16})
  {
    var p := FRESH.(total := 1);
    assert FRESH.total + |[kind]| == 1 && [kind][1..] == [];
    assert p.pending + [kind] == [kind];
    if Byte(server, p, kind).Some? { assert Bytes(server, Byte(server, p, kind).value, []).Some?; }
  }

  // ---- independence of fragmentation ----

  lemma {:induction false} BytesInTurn(server: bool, p: Progress, a: seq<byte>, b: seq<byte>)
    ensures Bytes(server, p, a + b)
         == if Bytes(server, p, a).None? then None else Bytes(server, Bytes(server, p, a).value, b)
    decreases |a|
  {
    if a == [] {
      assert a + b == b;
    } else {
      var next := Byte(server, p, a[0]);
      assert (a + b)[1..] == a[1..] + b;
      if next.Some? { BytesInTurn(server, next.value, a[1..], b); }
    }
  }

  // The byte count only rides along.
  lemma {:induction false} BytesKeepTotal(server: bool, p: Progress, n: nat, data: seq<byte>)
    ensures Bytes(server, p.(total := n), data)
         == if Bytes(server, p, data).None? then None else Some(Bytes(server, p, data).value.(total := n))
    ensures Bytes(server, p, data).Some? ==> Bytes(server, p, data).value.total == p.total
    decreases |data|
  {
    if data != [] {
      var next := Byte(server, p, data[0]);
      if next.Some? { BytesKeepTotal(server, next.value, n, data[1..]); }
    }
  }

  // Feeding a and then b is feeding a + b: same verdict, same final state.
  lemma FeedIsFragmentationIndependent(server: bool, p: Progress, a: seq<byte>, b: seq<byte>)
    ensures Feed(server, p, a + b)
         == if Feed(server, p, a).None? then None else Feed(server, Feed(server, p, a).value, b)
  {
    var all := p.total + |a| + |b|;
    BytesInTurn(server, p.(total := all), a, b);
    BytesKeepTotal(server, p, all, a);
    BytesKeepTotal(server, p, p.total + |a|, a);
    if Bytes(server, p, a).Some? {
      var mid := Bytes(server, p, a).value;
      BytesKeepTotal(server, mid, all, b);
    }
  }

  // ---- what is accepted ----

  datatype Message = Message(kind: byte, body: seq<byte>)

  predicate WellFormed(server: bool, m: Message) {
    m.kind in Allowed(server) && |m.body| <= HANDSHAKE_LIMIT
  }

  function Header(m: Message): seq<byte>
    requires |m.body| <= HANDSHAKE_LIMIT
  {
    var n := |m.body|;
    [m.kind, n / 65536, n / 256 % 256, n % 256]
  }

  predicate AllWellFormed(server: bool, ms: seq<Message>) {
    ms != [] ==> WellFormed(server, ms[0]) && AllWellFormed(server, ms[1..])
  }

  function Encoding(server: bool, ms: seq<Message>): seq<byte>
    requires AllWellFormed(server, ms)
  {
    if ms == [] then [] else Header(ms[0]) + ms[0].body + Encoding(server, ms[1..])
  }

  ghost predicate IsPrefixOfMessages(server: bool, data: seq<byte>) {
    exists ms: seq<Message> :: AllWellFormed(server, ms) && data <= Encoding(server, ms)
  }

  // The same, read off the bytes: each message starts with an allowed kind and
  // an admissible length; the last one may be cut anywhere.
  predicate Parses(server: bool, data: seq<byte>)
    decreases |data|
  {
    data == [] ||
    (data[0] in Allowed(server) &&
     (|data| < 4 ||
      var n := Length24(data[1], data[2], data[3]);
      n <= HANDSHAKE_LIMIT && (|data| <= 4 + n || Parses(server, data[4 + n..]))))
  }

  lemma {:induction false} BodyBytes(server: bool, p: Progress, data: seq<byte>)
    requires |data| <= p.left
    ensures Bytes(server, p, data) == Some(p.(left := p.left - |data|))
    decreases |data|
  {
    if data != [] {
      BodyBytes(server, p.(left := p.left - 1), data[1..]);
    }
  }

  lemma {:induction false} PendingBytes(server: bool, p: Progress, data: seq<byte>)
    requires p.left == 0 && 0 < |p.pending| && |p.pending| + |data| < 4
    ensures Bytes(server, p, data) == Some(p.(pending := p.pending + data))
    decreases |data|
  {
    if data == [] {
      assert p.pending + data == p.pending;
    } else {
      var next := p.(pending := p.pending + [data[0]]);
      PendingBytes(server, next, data[1..]);
      assert next.pending + data[1..] == p.pending + data;
    }
  }

  // A header cut short, from a boundary.
  lemma ShortHeader(server: bool, p: Progress, data: seq<byte>)
    requires AtBoundary(p) && 0 < |data| < 4
    ensures Bytes(server, p, data) == if data[0] in Allowed(server) then Some(p.(pending := data)) else None
  {
    if data[0] in Allowed(server) {
      var next := p.(pending := [data[0]]);
      assert p.pending + [data[0]] == next.pending;
      PendingBytes(server, next, data[1..]);
      assert next.pending + data[1..] == data;
    }
  }

  lemma WholeHeader(server: bool, p: Progress, data: seq<byte>)
    requires AtBoundary(p) && |data| == 4
    ensures Bytes(server, p, data)
         == if data[0] in Allowed(server) && Length24(data[1], data[2], data[3]) <= HANDSHAKE_LIMIT
            then Some(p.(left := Length24(data[1], data[2], data[3]))) else None
  {
    assert data == data[..3] + [data[3]];
    BytesInTurn(server, p, data[..3], [data[3]]);
    ShortHeader(server, p, data[..3]);
    if data[0] in Allowed(server) {
      var q := p.(pending := data[..3]);
      assert q.pending + [data[3]] == data;
      assert Bytes(server, q, [data[3]]) == Byte(server, q, data[3]) by {
        assert [data[3]][1..] == [];
      }
    }
  }

  lemma BodyThenRest(server: bool, p: Progress, n: nat, rest: seq<byte>)
    requires AtBoundary(p)
    ensures Bytes(server, p.(left := n), rest)
         == if |rest| < n then Some(p.(left := n - |rest|)) else Bytes(server, p, rest[n..])
  {
    var q := p.(left := n);
    if |rest| < n {
      BodyBytes(server, q, rest);
    } else {
      assert rest == rest[..n] + rest[n..];
      BytesInTurn(server, q, rest[..n], rest[n..]);
      BodyBytes(server, q, rest[..n]);
      assert q.(left := 0) == p;
    }
  }

  lemma HeaderThenRest(server: bool, p: Progress, data: seq<byte>)
    requires AtBoundary(p) && |data| >= 4
    ensures
      var n := Length24(data[1], data[2], data[3]);
      Bytes(server, p, data)
      == if data[0] !in Allowed(server) || n > HANDSHAKE_LIMIT then None else Bytes(server, p.(left := n), data[4..])
  {
    var head := data[..4];
    assert data == head + data[4..];
    WholeHeader(server, p, head);
    BytesInTurn(server, p, head, data[4..]);
  }

  // One message, or the start of one, from a boundary.
  lemma OneMessage(server: bool, p: Progress, data: seq<byte>)
    requires AtBoundary(p) && |data| >= 4
    ensures
      var n := Length24(data[1], data[2], data[3]);
      Bytes(server, p, data)
      == if data[0] !in Allowed(server) || n > HANDSHAKE_LIMIT then None
         else if |data| < 4 + n then Some(p.(left := n - (|data| - 4)))
         else Bytes(server, p, data[4 + n..])
  {
    var n := Length24(data[1], data[2], data[3]);
    HeaderThenRest(server, p, data);
    BodyThenRest(server, p, n, data[4..]);
    assert |data| >= 4 + n ==> data[4..][n..] == data[4 + n..];
  }

  // From a boundary the checker accepts exactly what parses.
  lemma {:induction false} AcceptsWhatParses(server: bool, p: Progress, data: seq<byte>)
    requires AtBoundary(p)
    ensures Bytes(server, p, data).Some? <==> Parses(server, data)
    decreases |data|
  {
    if 0 < |data| < 4 {
      ShortHeader(server, p, data);
    } else if |data| >= 4 {
      OneMessage(server, p, data);
      var n := Length24(data[1], data[2], data[3]);
      if |data| >= 4 + n { AcceptsWhatParses(server, p, data[4 + n..]); }
    }
  }

  // The bytes end in a cut header whose length bytes already exceed the limit.
  // The checker looks at a length only when the header is complete.
  predicate Hopeless(data: seq<byte>)
    decreases |data|
  {
    if |data| < 2 then false
    else if |data| < 4 then Length24(data[1], if |data| == 3 then data[2] else 0, 0) > HANDSHAKE_LIMIT
    else
      var n := Length24(data[1], data[2], data[3]);
      |data| > 4 + n && Hopeless(data[4 + n..])
  }

  lemma LengthBytes(n: nat)
    requires n <= HANDSHAKE_LIMIT
    ensures n / 65536 < 256 && Length24(n / 65536, n / 256 % 256, n % 256) == n
  {
    assert n / 256 / 256 == n / 65536;
  }

  lemma LengthFromBytes(a: byte, b: byte, c: byte)
    ensures var n := Length24(a, b, c); n / 65536 == a && n / 256 % 256 == b && n % 256 == c
  {
    var n := Length24(a, b, c);
    assert n == 256 * (256 * a + b) + c;
    assert n / 256 == 256 * a + b;
    assert n / 65536 == n / 256 / 256;
  }

  lemma HeaderOf(m: Message, b1: byte, b2: byte, b3: byte)
    requires |m.body| == Length24(b1, b2, b3) <= HANDSHAKE_LIMIT
    ensures Header(m) == [m.kind, b1, b2, b3]
  {
    LengthFromBytes(b1, b2, b3);
  }

  // The message whose encoding continues a well-begun one.
  lemma LongContinues(server: bool, data: seq<byte>) returns (m: Message)
    requires |data| >= 4 && data[0] in Allowed(server)
    requires |data| <= 4 + Length24(data[1], data[2], data[3]) <= 4 + HANDSHAKE_LIMIT
    ensures WellFormed(server, m) && data <= Header(m) + m.body
  {
    m := Message(data[0], data[4..] + seq(Length24(data[1], data[2], data[3]) - (|data| - 4), _ => 0));
    HeaderOf(m, data[1], data[2], data[3]);
    assert m.body[..|data| - 4] == data[4..];
    assert data == data[..4] + data[4..];
  }

  lemma ShortContinues(server: bool, data: seq<byte>, b1: byte, b2: byte) returns (m: Message)
    requires 0 < |data| < 4 && data[0] in Allowed(server) && Length24(b1, b2, 0) <= HANDSHAKE_LIMIT
    requires (|data| > 1 ==> data[1] == b1) && (|data| > 2 ==> data[2] == b2)
    ensures WellFormed(server, m) && data <= Header(m) + m.body
  {
    m := Message(data[0], seq(Length24(b1, b2, 0), _ => 0));
    HeaderOf(m, b1, b2, 0);
  }

  lemma CutContinues(server: bool, data: seq<byte>) returns (m: Message)
    requires 0 < |data| < 4 && data[0] in Allowed(server) && !Hopeless(data)
    ensures WellFormed(server, m) && data <= Header(m) + m.body
  {
    if |data| == 1 {
      m := ShortContinues(server, data, 0, 0);
    } else if |data| == 2 {
      m := ShortContinues(server, data, data[1], 0);
    } else {
      m := ShortContinues(server, data, data[1], data[2]);
    }
  }

  lemma EncodingCons(server: bool, m: Message, others: seq<Message>)
    requires WellFormed(server, m) && AllWellFormed(server, others)
    ensures AllWellFormed(server, [m] + others)
    ensures Encoding(server, [m] + others) == Header(m) + m.body + Encoding(server, others)
  {
    assert ([m] + others)[1..] == others;
  }

  // The first message of bytes that hold all of it.
  lemma FirstMessage(server: bool, data: seq<byte>, n: nat) returns (m: Message, first: seq<byte>)
    requires |data| >= 4 + n && n == Length24(data[1], data[2], data[3]) <= HANDSHAKE_LIMIT
    requires data[0] in Allowed(server)
    ensures WellFormed(server, m) && first == Header(m) + m.body && data == first + data[4 + n..] && |first| == 4 + n
  {
    m := Message(data[0], data[4..4 + n]);
    HeaderOf(m, data[1], data[2], data[3]);
    first := data[..4 + n];
    assert Header(m) == data[..4];
  }

  // The message the bytes start with, and what follows it if they hold all of it.
  lemma FirstPart(server: bool, data: seq<byte>) returns (m: Message, rest: Option<seq<byte>>)
    requires data != [] && Parses(server, data) && !Hopeless(data)
    ensures WellFormed(server, m)
    ensures rest.None? ==> data <= Header(m) + m.body
    ensures rest.Some? ==> data == Header(m) + m.body + rest.value && |rest.value| < |data|
    ensures rest.Some? ==> Parses(server, rest.value) && !Hopeless(rest.value)
  {
    rest := None;
    if |data| < 4 {
      m := CutContinues(server, data);
    } else if |data| <= 4 + Length24(data[1], data[2], data[3]) {
      m := LongContinues(server, data);
    } else {
      var n := Length24(data[1], data[2], data[3]);
      var first;
      m, first := FirstMessage(server, data, n);
      rest := Some(data[4 + n..]);
    }
  }

  lemma {:induction false} ParsedIsPrefix(server: bool, data: seq<byte>) returns (ms: seq<Message>)
    requires Parses(server, data) && !Hopeless(data)
    ensures AllWellFormed(server, ms)
    ensures data <= Encoding(server, ms)
    decreases |data|
  {
    if data == [] {
      ms := [];
    } else {
      var m, rest := FirstPart(server, data);
      var others := [];
      if rest.Some? { others := ParsedIsPrefix(server, rest.value); }
      EncodingCons(server, m, others);
      ms := [m] + others;
    }
  }

  // The encoding of the first message, its length in bytes 1 to 3.
  lemma EncodingStarts(server: bool, ms: seq<Message>) returns (first: seq<byte>, n: nat)
    requires ms != [] && AllWellFormed(server, ms)
    ensures Encoding(server, ms) == first + Encoding(server, ms[1..]) && |first| == 4 + n && n <= HANDSHAKE_LIMIT
    ensures first[0] in Allowed(server) && n == Length24(first[1], first[2], first[3])
  {
    n := |ms[0].body|;
    LengthBytes(n);
    first := Header(ms[0]) + ms[0].body;
  }

  lemma {:induction false} PrefixParses(server: bool, data: seq<byte>, ms: seq<Message>)
    requires AllWellFormed(server, ms)
    requires data <= Encoding(server, ms)
    ensures Parses(server, data) && !Hopeless(data)
    decreases |ms|
  {
    if data != [] {
      var first, n := EncodingStarts(server, ms);
      var all := first + Encoding(server, ms[1..]);
      assert forall i | 0 <= i < |data| && i < 4 :: data[i] == all[i] == first[i];
      if |data| > 4 + n {
        assert data[4 + n..] <= Encoding(server, ms[1..]) by {
          assert all[4 + n..] == Encoding(server, ms[1..]);
        }
        PrefixParses(server, data[4 + n..], ms[1..]);
      } else if |data| < 4 {
        CutIsNotHopeless(data, first);
      }
    }
  }

  lemma CutIsNotHopeless(data: seq<byte>, first: seq<byte>)
    requires 0 < |data| < 4 <= |first| && data <= first
    requires Length24(first[1], first[2], first[3]) <= HANDSHAKE_LIMIT
    ensures !Hopeless(data)
  {}

  // The checker accepts, from the start and up to 2^20 bytes, the prefixes of
  // sequences of messages of allowed kinds and lengths, and besides them only
  // bytes that end in a hopeless header.
  lemma AcceptsPrefixesOfMessages(server: bool, data: seq<byte>)
    ensures Feed(server, FRESH, data).Some? && !Hopeless(data)
       <==> |data| <= HANDSHAKE_LIMIT && IsPrefixOfMessages(server, data)
    ensures Feed(server, FRESH, data).Some? <==> |data| <= HANDSHAKE_LIMIT && Parses(server, data)
  {
    AcceptsWhatParses(server, FRESH.(total := |data|), data);
    if Parses(server, data) && !Hopeless(data) {
      var ms := ParsedIsPrefix(server, data);
    }
    if IsPrefixOfMessages(server, data) {
      var ms :| AllWellFormed(server, ms) && data <= Encoding(server, ms);
      PrefixParses(server, data, ms);
    }
  }

  // The two differ: a certificate header cut after its first length byte.
  lemma HopelessHeaderIsAccepted()
    ensures Feed(false, FRESH, [11, 255]).Some? && !IsPrefixOfMessages(false, [11, 255])
  {
    AcceptsPrefixesOfMessages(false, [11, 255]);
    AcceptsWhatParses(false, FRESH.(total := 2), [11, 255]);
  }

  // At a message boundary the bytes are whole messages.
  lemma {:induction false} BoundaryMeansWholeMessages(server: bool, p: Progress, data: seq<byte>)
    returns (ms: seq<Message>)
    requires AtBoundary(p) && Bytes(server, p, data).Some? && AtBoundary(Bytes(server, p, data).value)
    ensures AllWellFormed(server, ms)
    ensures data == Encoding(server, ms)
    decreases |data|
  {
    if data == [] {
      ms := [];
    } else {
      if |data| < 4 { ShortHeader(server, p, data); }
      OneMessage(server, p, data);
      var n := Length24(data[1], data[2], data[3]);
      var others := BoundaryMeansWholeMessages(server, p, data[4 + n..]);
      var m, first := FirstMessage(server, data, n);
      EncodingCons(server, m, others);
      ms := [m] + others;
    }
  }
}
