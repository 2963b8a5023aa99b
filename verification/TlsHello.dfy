// Reassembly of a hello message from TLS records, and the negotiation that
// allows one HelloRetryRequest (section 4.1.4 of RFC 8446).
module TlsHello {
  import opened Text
  import opened TlsHandshake
  import opened TlsGuard

  const WIRE_LIMIT: int := 128 * 1024
  const HELLO_LIMIT: int := 65536

  predicate IsSkippedCcs(r: seq<byte>) requires IsRecord(r) {
    r[0] == 20 && r[5..] == [1]
  }

  // Handshake records, and among them at most one ChangeCipherSpec if allowed.
  predicate HelloRecords(allow: bool, records: seq<seq<byte>>)
    requires AllRecords(records)
  {
    && (forall i | 0 <= i < |records| :: records[i][0] == 22 || (allow && IsSkippedCcs(records[i])))
    && (forall i, j | 0 <= i < j < |records| :: !(IsSkippedCcs(records[i]) && IsSkippedCcs(records[j])))
  }

  predicate NoCcs(records: seq<seq<byte>>)
    requires AllRecords(records)
  {
    forall i | 0 <= i < |records| :: !IsSkippedCcs(records[i])
  }

  // The length a hello's bytes announce.
  function Announced(bytes: seq<byte>): nat
    requires |bytes| >= 4
  {
    Length24(bytes[1], bytes[2], bytes[3])
  }

  predicate Complete(bytes: seq<byte>) {
    |bytes| >= 4 && |bytes| >= 4 + Announced(bytes)
  }

  // What may still grow into a hello of this kind.
  predicate Growing(kind: byte, bytes: seq<byte>) {
    && (bytes != [] ==> bytes[0] == kind)
    && (|bytes| >= 4 ==> Announced(bytes) <= HELLO_LIMIT)
  }

  // records carry one complete hello, which their last record completes.
  predicate Reading(kind: byte, allow: bool, records: seq<seq<byte>>) {
    && records != [] && AllRecords(records) && HelloRecords(allow, records)
    && var front := records[..|records| - 1];
    && AllRecords(front) && !Complete(HandshakeBytes(front)) && |Flat(front)| < WIRE_LIMIT
    && Growing(kind, HandshakeBytes(records)) && Complete(HandshakeBytes(records))
  }

  lemma {:induction false} FlatAppend(a: seq<seq<byte>>, b: seq<seq<byte>>)
    ensures Flat(a + b) == Flat(a) + Flat(b)
    decreases |a|
  {
    if a == [] {
      assert a + b == b;
    } else {
      assert (a + b)[1..] == a[1..] + b;
      FlatAppend(a[1..], b);
    }
  }

  lemma {:induction false} HandshakeBytesAppend(a: seq<seq<byte>>, b: seq<seq<byte>>)
    requires AllRecords(a) && AllRecords(b)
    ensures AllRecords(a + b) && HandshakeBytes(a + b) == HandshakeBytes(a) + HandshakeBytes(b)
    decreases |a|
  {
    if a == [] {
      assert a + b == b;
    } else {
      assert (a + b)[1..] == a[1..] + b;
      HandshakeBytesAppend(a[1..], b);
    }
  }

  lemma OneMore(records: seq<seq<byte>>, r: seq<byte>)
    requires AllRecords(records) && IsRecord(r)
    ensures AllRecords(records + [r]) && Flat(records + [r]) == Flat(records) + r
    ensures HandshakeBytes(records + [r]) == HandshakeBytes(records) + if r[0] == 22 then r[5..] else []
  {
    FlatAppend(records, [r]);
    HandshakeBytesAppend(records, [r]);
    assert Flat([r]) == r + Flat([r][1..]) == r;
    assert HandshakeBytes([r]) == (if r[0] == 22 then r[5..] else []) + HandshakeBytes([r][1..]);
  }

  // A list of records that starts a stream continues with the stream's next one.
  lemma NextRecord(done: seq<seq<byte>>, back: seq<seq<byte>>, rest: seq<byte>)
    requires back != [] && IsRecord(back[0]) && Flat(done + back) <= Flat(done) + rest
    ensures TakeRecord(rest).Some? && TakeRecord(rest).value.0 == back[0]
  {
    FlatAppend(done, back);
    CancelPrefix(Flat(done), Flat(back), rest);
    RecordIsTaken(back[0], rest);
  }

  lemma CancelPrefix(a: seq<byte>, b: seq<byte>, c: seq<byte>)
    requires a + b <= a + c
    ensures b <= c
  {
    assert (a + b)[|a|..] == b && (a + c)[|a|..] == c;
  }

  lemma ReadingIsShort(kind: byte, allow: bool, done: seq<seq<byte>>, records: seq<seq<byte>>)
    requires Reading(kind, allow, records) && done < records
    ensures |Flat(done)| < WIRE_LIMIT
  {
    var front := records[..|records| - 1];
    assert front == done + front[|done|..];
    FlatAppend(done, front[|done|..]);
  }

  // A prefix of a hello's records is well formed; the whole of them is complete.
  lemma PrefixOfReading(kind: byte, allow: bool, done: seq<seq<byte>>, records: seq<seq<byte>>)
    requires Reading(kind, allow, records) && done <= records && AllRecords(done)
    ensures HelloRecords(allow, done) && Growing(kind, HandshakeBytes(done))
    ensures done < records <==> !Complete(HandshakeBytes(done))
  {
    var back := records[|done|..];
    assert records == done + back;
    HandshakeBytesAppend(done, back);
    var whole, mine := HandshakeBytes(records), HandshakeBytes(done);
    assert mine <= whole;
    forall i | 0 <= i < |done| ensures done[i] == records[i] {}
    if done < records {
      var front := records[..|records| - 1];
      assert front == done + front[|done|..];
      HandshakeBytesAppend(done, front[|done|..]);
    }
  }

  ghost predicate ReadsFrom(kind: byte, allow: bool, records: seq<seq<byte>>, input: seq<byte>) {
    Reading(kind, allow, records) && Flat(records) <= input
  }

  // The records read so far are the start of any hello the input has.
  ghost predicate Gathering(kind: byte, allow: bool, done: seq<seq<byte>>, input: seq<byte>) {
    && AllRecords(done) && HelloRecords(allow, done)
    && Growing(kind, HandshakeBytes(done)) && !Complete(HandshakeBytes(done))
    && forall records | ReadsFrom(kind, allow, records, input) :: done < records
  }

  ghost predicate HasHello(kind: byte, allow: bool, input: seq<byte>) {
    exists records :: ReadsFrom(kind, allow, records, input)
  }

  // One more record: the hello is complete, or still growing, or there is none.
  lemma Gather(kind: byte, allow: bool, done: seq<seq<byte>>, input: seq<byte>, rest: seq<byte>)
    requires Gathering(kind, allow, done, input) && input == Flat(done) + rest
    ensures HasHello(kind, allow, input) ==> |Flat(done)| < WIRE_LIMIT && TakeRecord(rest).Some?
    ensures TakeRecord(rest).Some? ==>
      var more := done + [TakeRecord(rest).value.0];
      && AllRecords(more)
      && (if !HelloRecords(allow, more) || !Growing(kind, HandshakeBytes(more)) then !HasHello(kind, allow, input)
          else !Complete(HandshakeBytes(more)) ==> Gathering(kind, allow, more, input))
  {
    forall records | ReadsFrom(kind, allow, records, input)
      ensures |Flat(done)| < WIRE_LIMIT && TakeRecord(rest).Some? && done + [TakeRecord(rest).value.0] <= records
    {
      var back := records[|done|..];
      assert records == done + back && back[0] == records[|done|];
      NextRecord(done, back, rest);
      ReadingIsShort(kind, allow, done, records);
    }
    if TakeRecord(rest).Some? {
      var more := done + [TakeRecord(rest).value.0];
      forall records | ReadsFrom(kind, allow, records, input)
        ensures HelloRecords(allow, more) && Growing(kind, HandshakeBytes(more))
        ensures more < records <==> !Complete(HandshakeBytes(more))
      {
        PrefixOfReading(kind, allow, more, records);
      }
    }
  }

  datatype HelloRead = NoHello | Hello(wire: seq<byte>, hello: seq<byte>, extra: seq<byte>, rest: seq<byte>)

  // What a completed hello looks like to the caller.
  ghost predicate IsHello(kind: byte, allow: bool, input: seq<byte>, h: HelloRead, done: seq<seq<byte>>) {
    && h.Hello? && ReadsFrom(kind, allow, done, input)
    && h.wire == Flat(done) && input == h.wire + h.rest
    && |h.hello| <= HELLO_LIMIT && |h.wire| < WIRE_LIMIT + 5 + 16384 + 2048
    && HandshakeBytes(done) == Header(Message(kind, h.hello)) + h.hello + h.extra
  }

  lemma CompletedHello(kind: byte, allow: bool, done: seq<seq<byte>>, record: seq<byte>, input: seq<byte>,
    rest: seq<byte>)
    requires Gathering(kind, allow, done, input) && IsRecord(record) && input == Flat(done) + record + rest
    requires |Flat(done)| < WIRE_LIMIT && AllRecords(done + [record]) && HelloRecords(allow, done + [record])
    requires Growing(kind, HandshakeBytes(done + [record])) && Complete(HandshakeBytes(done + [record]))
    ensures
      var bytes := HandshakeBytes(done + [record]);
      var n := 4 + Announced(bytes);
      IsHello(kind, allow, input, Hello(Flat(done) + record, bytes[4..n], bytes[n..], rest), done + [record])
  {
    var more := done + [record];
    OneMore(done, record);
    assert more[..|more| - 1] == done;
    var bytes := HandshakeBytes(more);
    var n := 4 + Announced(bytes);
    HeaderOf(Message(kind, bytes[4..n]), bytes[1], bytes[2], bytes[3]);
    assert bytes == bytes[..4] + bytes[4..n] + bytes[n..];
    assert bytes[..4] == [bytes[0], bytes[1], bytes[2], bytes[3]];
  }

  // What one more record does to the record types: a handshake record fits, a
  // ChangeCipherSpec only as the first one and if allowed.
  lemma MoreRecords(allow: bool, before: seq<seq<byte>>, r: seq<byte>)
    requires AllRecords(before) && IsRecord(r) && AllRecords(before + [r]) && HelloRecords(allow, before)
    ensures HelloRecords(allow, before + [r])
       <==> r[0] == 22 || (allow && IsSkippedCcs(r) && NoCcs(before))
    ensures NoCcs(before + [r]) <==> NoCcs(before) && !IsSkippedCcs(r)
  {
    var all := before + [r];
    assert all[|before|] == r;
    assert forall i | 0 <= i < |before| :: all[i] == before[i];
  }

  // The loop's state: what was read, what was gathered, what is left.
  ghost predicate At(kind: byte, allowCcs: bool, input: seq<byte>, done: seq<seq<byte>>,
                     wire: seq<byte>, hello: seq<byte>, rest: seq<byte>, allow: bool)
  {
    && Gathering(kind, allowCcs, done, input)
    && wire == Flat(done) && input == wire + rest && hello == HandshakeBytes(done)
    && (allow <==> allowCcs && NoCcs(done))
  }

  // One pass of the loop.
  lemma Absorb(kind: byte, allowCcs: bool, input: seq<byte>, done: seq<seq<byte>>,
               wire: seq<byte>, hello: seq<byte>, rest: seq<byte>, allow: bool)
    requires At(kind, allowCcs, input, done, wire, hello, rest, allow) && |wire| < WIRE_LIMIT && TakeRecord(rest).Some?
    ensures
      var (record, rest') := TakeRecord(rest).value;
      var done' := done + [record];
      if allow && IsSkippedCcs(record) then At(kind, allowCcs, input, done', wire + record, hello, rest', false)
      else if record[0] != 22 then !HasHello(kind, allowCcs, input)
      else
        var hello' := hello + record[5..];
        if !Growing(kind, hello') then !HasHello(kind, allowCcs, input)
        else if Complete(hello') then
          var n := 4 + Announced(hello');
          IsHello(kind, allowCcs, input, Hello(wire + record, hello'[4..n], hello'[n..], rest'), done')
        else At(kind, allowCcs, input, done', wire + record, hello', rest', allow)
  {
    var (record, rest') := TakeRecord(rest).value;
    assert wire + (record + rest') == wire + record + rest';
    Gather(kind, allowCcs, done, input, rest);
    OneMore(done, record);
    MoreRecords(allowCcs, done, record);
    if record[0] == 22 && Growing(kind, hello + record[5..]) && Complete(hello + record[5..]) {
      CompletedHello(kind, allowCcs, done, record, input, rest');
    }
  }

  lemma Exhausted(kind: byte, allowCcs: bool, input: seq<byte>, done: seq<seq<byte>>,
                  wire: seq<byte>, hello: seq<byte>, rest: seq<byte>, allow: bool)
    requires At(kind, allowCcs, input, done, wire, hello, rest, allow)
    requires |wire| >= WIRE_LIMIT || TakeRecord(rest).None?
    ensures !HasHello(kind, allowCcs, input)
  {
    Gather(kind, allowCcs, done, input, rest);
  }

  // How a pass of the loop ends.
  datatype Pass =
    | Stop
    | Done(hello: HelloRead)
    | More(wire: seq<byte>, gathered: seq<byte>, rest: seq<byte>, allow: bool)

  // One pass of the loop: the next record joins the hello, or is skipped, or
  // ends the search.
  method ReadPart(kind: byte, ghost allowCcs: bool, ghost input: seq<byte>, ghost done: seq<seq<byte>>,
                  wire: seq<byte>, hello: seq<byte>, rest: seq<byte>, allow: bool)
    returns (pass: Pass, ghost more: seq<seq<byte>>)
    requires At(kind, allowCcs, input, done, wire, hello, rest, allow) && |wire| < WIRE_LIMIT
    ensures pass.Stop? ==> !HasHello(kind, allowCcs, input)
    ensures pass.Done? ==> IsHello(kind, allowCcs, input, pass.hello, more)
    ensures pass.More? ==> |pass.rest| < |rest|
    ensures pass.More? ==> At(kind, allowCcs, input, more, pass.wire, pass.gathered, pass.rest, pass.allow)
  {
    more := done;
    var taken := TakeRecord(rest);
    if taken.None? {
      Exhausted(kind, allowCcs, input, done, wire, hello, rest, allow);
      return Stop, more;
    }
    Absorb(kind, allowCcs, input, done, wire, hello, rest, allow);
    var record := taken.value.0;
    more := done + [record];
    if allow && record[0] == 20 && record[5..] == [1] {
      return More(wire + record, hello, taken.value.1, false), more;
    }
    if record[0] != 22 {
      return Stop, more;
    }
    var gathered := hello + record[5..];
    if gathered[0] != kind {
      return Stop, more;
    }
    if |gathered| >= 4 {
      var size := Length24(gathered[1], gathered[2], gathered[3]);
      if size > HELLO_LIMIT {
        return Stop, more;
      }
      if |gathered| >= 4 + size {
        return Done(Hello(wire + record, gathered[4..4 + size], gathered[4 + size..], taken.value.1)), more;
      }
    }
    pass := More(wire + record, gathered, taken.value.1, allow);
  }

  // readNativeTLSHello. It succeeds exactly when the input starts with the
  // records of one hello; then wire is what was consumed, and the 4-byte header,
  // the hello and the extra bytes are the handshake payloads of those records.
  method ReadHello(input: seq<byte>, kind: byte, allowCcs: bool) returns (result: HelloRead, ghost done: seq<seq<byte>>)
    ensures result.Hello? <==> HasHello(kind, allowCcs, input)
    ensures result.Hello? ==> IsHello(kind, allowCcs, input, result, done)
  {
    var pass := More([], [], input, allowCcs);
    done := [];
    while |pass.wire| < WIRE_LIMIT
      invariant pass.More? && At(kind, allowCcs, input, done, pass.wire, pass.gathered, pass.rest, pass.allow)
      decreases |pass.rest|
    {
      pass, done := ReadPart(kind, allowCcs, input, done, pass.wire, pass.gathered, pass.rest, pass.allow);
      if pass.Stop? {
        return NoHello, done;
      }
      if pass.Done? {
        return pass.hello, done;
      }
    }
    Exhausted(kind, allowCcs, input, done, pass.wire, pass.gathered, pass.rest, pass.allow);
    result := NoHello;
  }

  // However the same handshake bytes are cut into records, the same hello comes
  // out, and of the extra bytes one is a prefix of the other.
  lemma HelloIsFragmentationIndependent(kind: byte, bytes: seq<byte>,
                                        allow1: bool, input1: seq<byte>, h1: HelloRead, done1: seq<seq<byte>>,
                                        allow2: bool, input2: seq<byte>, h2: HelloRead, done2: seq<seq<byte>>)
    requires IsHello(kind, allow1, input1, h1, done1) && HandshakeBytes(done1) <= bytes
    requires IsHello(kind, allow2, input2, h2, done2) && HandshakeBytes(done2) <= bytes
    ensures h1.hello == h2.hello && (h1.extra <= h2.extra || h2.extra <= h1.extra)
  {
    HelloOfStream(kind, h1.hello, h1.extra, HandshakeBytes(done1), bytes);
    HelloOfStream(kind, h2.hello, h2.extra, HandshakeBytes(done2), bytes);
    var rest := bytes[4 + |h1.hello|..];
    assert h1.extra <= rest && h2.extra <= rest;
  }

  lemma HelloOfStream(kind: byte, hello: seq<byte>, extra: seq<byte>, mine: seq<byte>, bytes: seq<byte>)
    requires |hello| <= HELLO_LIMIT && mine == Header(Message(kind, hello)) + hello + extra && mine <= bytes
    ensures |bytes| >= 4 + |hello| && |hello| == Announced(bytes)
    ensures hello == bytes[4..4 + |hello|] && extra <= bytes[4 + |hello|..]
  {
    var n := |hello|;
    LengthBytes(n);
    assert mine[1] == n / 65536 && mine[2] == n / 256 % 256 && mine[3] == n % 256;
    assert forall i | 0 <= i < |mine| :: mine[i] == bytes[i];
    assert hello == mine[4..4 + n] && extra == mine[4 + n..];
  }

  // Two lists of records that start the same input agree as far as they go.
  lemma {:induction false} SameRecords(a: seq<seq<byte>>, b: seq<seq<byte>>, input: seq<byte>)
    requires AllRecords(a) && AllRecords(b) && Flat(a) <= input && Flat(b) <= input
    ensures a <= b || b <= a
    decreases |a|
  {
    if a != [] && b != [] {
      RecordIsTaken(a[0], input);
      RecordIsTaken(b[0], input);
      var rest := input[|a[0]|..];
      CancelPrefix(a[0], Flat(a[1..]), rest);
      CancelPrefix(b[0], Flat(b[1..]), rest);
      SameRecords(a[1..], b[1..], rest);
      assert a == [a[0]] + a[1..] && b == [b[0]] + b[1..];
    }
  }

  lemma OneReading(kind: byte, allow: bool, input: seq<byte>, a: seq<seq<byte>>, b: seq<seq<byte>>)
    requires ReadsFrom(kind, allow, a, input) && ReadsFrom(kind, allow, b, input) && a <= b
    ensures a == b
  {
    PrefixOfReading(kind, allow, a, b);
  }

  // An input starts with one hello at most.
  lemma HelloIsUnique(kind: byte, allow: bool, input: seq<byte>, h: HelloRead, done: seq<seq<byte>>, g: HelloRead,
    more: seq<seq<byte>>)
    requires IsHello(kind, allow, input, h, done) && IsHello(kind, allow, input, g, more)
    ensures h == g
  {
    SameRecords(done, more, input);
    if done <= more { OneReading(kind, allow, input, done, more); } else { OneReading(kind, allow, input, more, done); }
    var bytes := HandshakeBytes(done);
    HelloOfStream(kind, h.hello, h.extra, bytes, bytes);
    HelloOfStream(kind, g.hello, g.extra, bytes, bytes);
    assert h.extra == bytes[4 + |h.hello|..] && g.extra == bytes[4 + |g.hello|..];
    assert h.rest == input[|h.wire|..] && g.rest == input[|g.wire|..];
  }

  // ---- the verdict on a cut ----

  // Handshake bytes cut into records, within the limit on the wire.
  ghost predicate IsCut(cut: seq<seq<byte>>) {
    AllRecords(cut) && (forall i | 0 <= i < |cut| :: cut[i][0] == 22) && |Flat(cut)| < WIRE_LIMIT
  }

  // The bytes start with a whole hello of this kind.
  predicate HoldsHello(kind: byte, bytes: seq<byte>) {
    Complete(bytes) && Growing(kind, bytes)
  }

  lemma PrefixHolds(kind: byte, bytes: seq<byte>, more: seq<byte>)
    requires HoldsHello(kind, bytes) && bytes <= more
    ensures HoldsHello(kind, more)
  {
    assert forall i | 0 <= i < 4 :: more[i] == bytes[i];
  }

  // The records up to the one that completes the hello.
  lemma FirstComplete(cut: seq<seq<byte>>) returns (k: nat)
    requires AllRecords(cut) && Complete(HandshakeBytes(cut))
    ensures 0 < k <= |cut| && AllRecords(cut[..k]) && AllRecords(cut[..k - 1])
    ensures Complete(HandshakeBytes(cut[..k])) && !Complete(HandshakeBytes(cut[..k - 1]))
  {
    k := |cut|;
    assert cut[..k] == cut && cut[..0] == [];
    while k > 0 && Complete(HandshakeBytes(cut[..k - 1]))
      invariant 0 < k <= |cut| && AllRecords(cut[..k]) && Complete(HandshakeBytes(cut[..k]))
    {
      k := k - 1;
    }
  }

  // A prefix of the cut is a prefix of its bytes, on the wire and unwrapped.
  lemma CutPrefix(cut: seq<seq<byte>>, k: nat)
    requires AllRecords(cut) && k <= |cut|
    ensures AllRecords(cut[..k]) && Flat(cut[..k]) <= Flat(cut) && HandshakeBytes(cut[..k]) <= HandshakeBytes(cut)
    ensures k < |cut| ==> |Flat(cut[..k])| < |Flat(cut)|
  {
    var records, rest := cut[..k], cut[k..];
    assert cut == records + rest;
    FlatAppend(records, rest);
    HandshakeBytesAppend(records, rest);
    if k < |cut| { assert rest[0] == cut[k] && |Flat(rest)| >= |rest[0]|; }
  }

  lemma CutReads(kind: byte, allow: bool, cut: seq<seq<byte>>, k: nat)
    requires IsCut(cut) && 0 < k <= |cut| && AllRecords(cut[..k]) && AllRecords(cut[..k - 1])
    requires Complete(HandshakeBytes(cut[..k])) && !Complete(HandshakeBytes(cut[..k - 1]))
    requires Growing(kind, HandshakeBytes(cut[..k])) && |Flat(cut[..k - 1])| < WIRE_LIMIT
    ensures Reading(kind, allow, cut[..k])
  {
    var records := cut[..k];
    assert records[..k - 1] == cut[..k - 1];
    assert forall i | 0 <= i < k :: records[i] == cut[i];
  }

  lemma CutHasHello(kind: byte, allow: bool, cut: seq<seq<byte>>, tail: seq<byte>)
    requires IsCut(cut) && HoldsHello(kind, HandshakeBytes(cut))
    ensures HasHello(kind, allow, Flat(cut) + tail)
  {
    var k := FirstComplete(cut);
    CutPrefix(cut, k);
    CutPrefix(cut, k - 1);
    var bytes, whole := HandshakeBytes(cut[..k]), HandshakeBytes(cut);
    assert forall i | 0 <= i < 4 :: bytes[i] == whole[i];
    CutReads(kind, allow, cut, k);
    assert ReadsFrom(kind, allow, cut[..k], Flat(cut) + tail);
  }

  lemma ReadIsInCut(kind: byte, allow: bool, cut: seq<seq<byte>>, records: seq<seq<byte>>)
    requires IsCut(cut) && ReadsFrom(kind, allow, records, Flat(cut))
    ensures HoldsHello(kind, HandshakeBytes(cut))
  {
    SameRecords(records, cut, Flat(cut));
    if cut <= records {
      CutPrefix(records, |cut|);
      assert records[..|cut|] == cut;
    }
    assert records <= cut;
    assert cut[..|records|] == records;
    CutPrefix(cut, |records|);
    PrefixHolds(kind, HandshakeBytes(records), HandshakeBytes(cut));
  }

  // Whether a hello is read depends on the handshake bytes alone, not on how
  // they are cut into records.
  lemma VerdictIsFragmentationIndependent(kind: byte, allow: bool, cut: seq<seq<byte>>)
    requires IsCut(cut)
    ensures HasHello(kind, allow, Flat(cut)) <==> HoldsHello(kind, HandshakeBytes(cut))
  {
    if HoldsHello(kind, HandshakeBytes(cut)) {
      CutHasHello(kind, allow, cut, []);
      assert Flat(cut) + [] == Flat(cut);
    }
    if HasHello(kind, allow, Flat(cut)) {
      var records :| ReadsFrom(kind, allow, records, Flat(cut));
      ReadIsInCut(kind, allow, cut, records);
    }
  }

  // ---- negotiation ----

  // The checks on the bodies of the two hellos; the ServerHello's also says
  // which version it selects and whether it asks for a retry.
  datatype Policy = Policy(clientOk: seq<byte> -> bool, serverHello: seq<byte> -> Option<(Version, bool)>)

  // One round: both hellos as read, and what the ServerHello selects.
  datatype Round = Round(client: HelloRead, server: HelloRead, version: Version, retry: bool)

  // What has been forwarded each way, and what is left to read.
  datatype Stream = Stream(up: seq<byte>, down: seq<byte>, clientRest: seq<byte>, backendRest: seq<byte>)

  datatype Negotiated = Refused(up: seq<byte>, down: seq<byte>) | Ready(version: Version, stream: Stream,
    progress: Progress)

  predicate ClientPasses(policy: Policy, h: HelloRead) {
    h.Hello? && policy.clientOk(h.hello) && h.extra == []
  }

  // A round the guard forwards: a checked ClientHello with nothing behind it, a
  // ServerHello with nothing behind it under TLS 1.3, handshake bytes behind it
  // that pass the checker.
  ghost predicate GoodRound(policy: Policy, r: Round) {
    && ClientPasses(policy, r.client) && r.server.Hello?
    && policy.serverHello(r.server.hello) == Some((r.version, r.retry))
    && (r.version.Tls13? ==> r.server.extra == [])
    && Feed(true, FRESH, r.server.extra).Some?
  }

  ghost predicate StartsWithHello(kind: byte, allow: bool, input: seq<byte>, h: HelloRead) {
    exists done :: IsHello(kind, allow, input, h, done)
  }

  // The round that goes on from these inputs; a second one may not ask again.
  ghost predicate IsRound(policy: Policy, client: seq<byte>, backend: seq<byte>, again: bool, r: Round) {
    && StartsWithHello(1, again, client, r.client) && StartsWithHello(2, again, backend, r.server)
    && GoodRound(policy, r) && (again ==> !r.retry)
  }

  ghost predicate HasRound(policy: Policy, client: seq<byte>, backend: seq<byte>, again: bool) {
    exists r :: IsRound(policy, client, backend, again, r)
  }

  lemma HelloIsTheOne(kind: byte, allow: bool, input: seq<byte>, h: HelloRead, g: HelloRead)
    requires StartsWithHello(kind, allow, input, h) && StartsWithHello(kind, allow, input, g)
    ensures h == g && h.Hello? && input == h.wire + h.rest && HasHello(kind, allow, input)
  {
    var done :| IsHello(kind, allow, input, h, done);
    var more :| IsHello(kind, allow, input, g, more);
    HelloIsUnique(kind, allow, input, h, done, g, more);
  }

  // What may have been forwarded to the backend in a round that is refused:
  // nothing, or a whole ClientHello that passes.
  ghost predicate MaySend(policy: Policy, client: seq<byte>, again: bool, sent: seq<byte>) {
    sent == [] || exists h :: StartsWithHello(1, again, client, h) && ClientPasses(policy, h) && sent == h.wire
  }

  // One pass of the loop: read and check both hellos. The ClientHello is
  // forwarded as soon as it passes, which may be before the ServerHello fails.
  method ReadRound(client: seq<byte>, backend: seq<byte>, again: bool, policy: Policy)
    returns (round: Option<Round>, sent: seq<byte>)
    ensures round.Some? <==> HasRound(policy, client, backend, again)
    ensures round.Some? ==> IsRound(policy, client, backend, again, round.value)
    ensures MaySend(policy, client, again, sent)
  {
    round, sent := None, [];
    ghost var records;
    var fromClient, fromServer;
    forall q | IsRound(policy, client, backend, again, q)
      ensures HasHello(1, again, client) && HasHello(2, again, backend) {
      HelloIsTheOne(1, again, client, q.client, q.client);
      HelloIsTheOne(2, again, backend, q.server, q.server);
    }
    fromClient, records := ReadHello(client, 1, again);
    if fromClient.NoHello? {
      return;
    }
    assert StartsWithHello(1, again, client, fromClient);
    fromServer, records := ReadHello(backend, 2, again);
    var early: bool := *;
    if ClientPasses(policy, fromClient) && (fromServer.Hello? || early) {
      sent := fromClient.wire;
    }
    if fromServer.NoHello? {
      return;
    }
    assert StartsWithHello(2, again, backend, fromServer);
    forall q | IsRound(policy, client, backend, again, q) ensures q.client == fromClient && q.server == fromServer {
      HelloIsTheOne(1, again, client, q.client, fromClient);
      HelloIsTheOne(2, again, backend, q.server, fromServer);
    }
    var selected := policy.serverHello(fromServer.hello);
    if !ClientPasses(policy, fromClient) || selected.None? {
      return;
    }
    var (version, retry) := selected.value;
    if (version == Tls13 && fromServer.extra != []) || (retry && again) {
      return;
    }
    if Feed(true, FRESH, fromServer.extra).None? {
      return;
    }
    round := Some(Round(fromClient, fromServer, version, retry));
    assert IsRound(policy, client, backend, again, round.value);
  }

  // The stream after one more round.
  function Forward(s: Stream, r: Round): Stream
    requires r.client.Hello? && r.server.Hello?
  {
    Stream(s.up + r.client.wire, s.down + r.server.wire, r.client.rest, r.server.rest)
  }

  // The inputs, split into what has been forwarded and what is left.
  ghost predicate Splits(s: Stream, client: seq<byte>, backend: seq<byte>) {
    client == s.up + s.clientRest && backend == s.down + s.backendRest
  }

  lemma ForwardSplits(policy: Policy, s: Stream, client: seq<byte>, backend: seq<byte>, again: bool, r: Round)
    requires Splits(s, client, backend) && IsRound(policy, s.clientRest, s.backendRest, again, r)
    ensures Splits(Forward(s, r), client, backend)
  {
    HelloIsTheOne(1, again, s.clientRest, r.client, r.client);
    HelloIsTheOne(2, again, s.backendRest, r.server, r.server);
    assert s.up + (r.client.wire + r.client.rest) == (s.up + r.client.wire) + r.client.rest;
    assert s.down + (r.server.wire + r.server.rest) == (s.down + r.server.wire) + r.server.rest;
  }

  // A whole negotiation: one round, or one that asks for a retry and one more.
  ghost predicate Leads(policy: Policy, start: Stream, again: bool, last: Round, end: Stream)
    decreases !again
  {
    exists r :: IsRound(policy, start.clientRest, start.backendRest, again, r) &&
      if r.retry then !again && Leads(policy, Forward(start, r), true, last, end)
      else last == r && end == Forward(start, r)
  }

  lemma NextRound(policy: Policy, start: Stream, again: bool, r: Round, last: Round, end: Stream)
    requires IsRound(policy, start.clientRest, start.backendRest, again, r)
    ensures Leads(policy, start, again, last, end)
       <==> if r.retry then !again && Leads(policy, Forward(start, r), true, last, end)
            else last == r && end == Forward(start, r)
  {
    forall q | IsRound(policy, start.clientRest, start.backendRest, again, q) ensures q == r {
      HelloIsTheOne(1, again, start.clientRest, q.client, r.client);
      HelloIsTheOne(2, again, start.backendRest, q.server, r.server);
    }
  }

  // What has been forwarded when a negotiation is refused: the rounds that went
  // on, and in the last one at most a ClientHello that passes.
  ghost predicate Leaves(policy: Policy, start: Stream, again: bool, result: Negotiated)
    decreases !again
  {
    || (result.Refused? && result.down == start.down
        && exists sent :: MaySend(policy, start.clientRest, again, sent) && result.up == start.up + sent)
    || (!again && exists r :: IsRound(policy, start.clientRest, start.backendRest, again, r) && r.retry
                              && Leaves(policy, Forward(start, r), true, result))
  }

  // From this stream on the negotiation ends as it does from the start.
  ghost predicate Continues(policy: Policy, start: Stream, s: Stream, again: bool) {
    && (forall last, end :: Leads(policy, start, false, last, end) <==> Leads(policy, s, again, last, end))
    && (forall refused :: Leaves(policy, s, again, refused) ==> Leaves(policy, start, false, refused))
  }

  lemma RetryContinues(policy: Policy, start: Stream, s: Stream, again: bool, r: Round)
    requires Continues(policy, start, s, again) && IsRound(policy, s.clientRest, s.backendRest, again, r) && r.retry
    ensures !again && Continues(policy, start, Forward(s, r), true)
  {
    forall last, end ensures Leads(policy, s, false, last, end) <==> Leads(policy, Forward(s, r), true, last, end) {
      NextRound(policy, s, false, r, last, end);
    }
    forall refused | Leaves(policy, Forward(s, r), true, refused) ensures Leaves(policy, s, false, refused) {}
  }

  lemma RefusalLeaves(policy: Policy, start: Stream, s: Stream, again: bool, sent: seq<byte>)
    requires Continues(policy, start, s, again) && !HasRound(policy, s.clientRest, s.backendRest, again)
    requires MaySend(policy, s.clientRest, again, sent)
    ensures Leaves(policy, start, false, Refused(s.up + sent, s.down))
    ensures forall last, end :: !Leads(policy, start, false, last, end)
  {
    assert Leaves(policy, s, again, Refused(s.up + sent, s.down));
  }

  // negotiateNativeTLS: it succeeds exactly when the inputs start with such
  // rounds; then what it forwards is exactly what it consumed, and the reader it
  // leaves has been fed the bytes behind the last ServerHello. Refused, it has
  // forwarded nothing that had not passed.
  method Negotiate(client: seq<byte>, backend: seq<byte>, policy: Policy) returns (result: Negotiated)
    ensures result.Refused? ==> forall last, end :: !Leads(policy, Stream([], [], client, backend), false, last, end)
    ensures result.Refused? ==> Leaves(policy, Stream([], [], client, backend), false, result)
    ensures result.Ready? ==>
      && Splits(result.stream, client, backend)
      && exists last ::
           EndsWith(last, result) && Leads(policy, Stream([], [], client, backend), false, last, result.stream)
  {
    result := Refused([], []);
    var s := Stream([], [], client, backend);
    ghost var start := s;
    for attempt := 0 to 2
      invariant attempt < 2 && Splits(s, client, backend) && Continues(policy, start, s, attempt > 0)
    {
      var round, sent := ReadRound(s.clientRest, s.backendRest, attempt > 0, policy);
      if round.None? {
        RefusalLeaves(policy, start, s, attempt > 0, sent);
        return Refused(s.up + sent, s.down);
      }
      var r := round.value;
      ForwardSplits(policy, s, client, backend, attempt > 0, r);
      if !r.retry {
        NextRound(policy, s, attempt > 0, r, r, Forward(s, r));
        result := Ready(r.version, Forward(s, r), Feed(true, FRESH, r.server.extra).value);
        assert Leads(policy, start, false, r, Forward(s, r)) && EndsWith(r, result);
        return;
      }
      RetryContinues(policy, start, s, attempt > 0, r);
      s := Forward(s, r);
    }
  }

  ghost predicate EndsWith(last: Round, result: Negotiated) {
    && result.Ready? && last.server.Hello? && result.version == last.version
    && Feed(true, FRESH, last.server.extra) == Some(result.progress)
  }
}
