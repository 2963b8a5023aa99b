// The guard on each direction of a native TLS connection: it releases only
// whole records it has validated (section 6.2.1 of RFC 5246, section 5.1 of
// RFC 8446).
module TlsGuard {
  import opened Text
  import opened TlsHandshake

  // The two versions a checked ServerHello can select.
  datatype Version = Tls12 | Tls13

  function PayloadLength(header: seq<byte>): nat
    requires |header| >= 5
  {
    256 * (header[3] as int) + header[4] as int
  }

  predicate GoodHeader(header: seq<byte>)
    requires |header| >= 5
  {
    header[1] == 3 && 1 <= header[2] <= 3 && 1 <= PayloadLength(header) <= 16384 + 2048
  }

  predicate IsRecord(r: seq<byte>) {
    |r| >= 5 && GoodHeader(r) && |r| == 5 + PayloadLength(r)
  }

  // readNativeTLSRecord: the next record and the input after it.
  function TakeRecord(input: seq<byte>): (r: Option<(seq<byte>, seq<byte>)>)
    ensures r.Some? ==> IsRecord(r.value.0) && input == r.value.0 + r.value.1
  {
    if |input| < 5 || !GoodHeader(input) || |input| < 5 + PayloadLength(input) then None
    else Some((input[..5 + PayloadLength(input)], input[5 + PayloadLength(input)..]))
  }

  lemma RecordIsTaken(r: seq<byte>, input: seq<byte>)
    requires IsRecord(r) && r <= input
    ensures TakeRecord(input) == Some((r, input[|r|..]))
  {
    assert input[..|r|] == r;
    assert forall i | 0 <= i < 5 :: input[i] == r[i];
  }

  datatype GuardState = GuardState(encrypted: bool, ccs: bool, secured: bool, progress: Progress)

  // One record through the guard.
  function Accept(version: Version, server: bool, st: GuardState, r: seq<byte>): Option<GuardState>
    requires IsRecord(r)
  {
    var payload := r[5..];
    if r[0] == 20 then
      if st.ccs || payload != [1] || !AtBoundary(st.progress) then None
      else Some(st.(ccs := true, encrypted := st.encrypted || version.Tls12?))
    else if r[0] == 22 then
      if version.Tls13? then None
      else if !st.encrypted then
        var fed := Feed(server, st.progress, payload);
        if fed.None? then None else Some(st.(progress := fed.value))
      else if |payload| < 16 then None else Some(st.(secured := true))
    else if r[0] == 23 then
      if (version.Tls12? && !st.encrypted) || |payload| < 16 then None else Some(st.(secured := true))
    else if r[0] == 21 then
      if version.Tls13? || (!st.encrypted && |payload| != 2) || (st.encrypted && |payload| < 16) then None else Some(st)
    else None
  }

  // ---- the whole stream ----

  predicate AllRecords(records: seq<seq<byte>>) {
    forall i | 0 <= i < |records| :: IsRecord(records[i])
  }

  function Flat(records: seq<seq<byte>>): seq<byte> {
    if records == [] then [] else records[0] + Flat(records[1..])
  }

  function AcceptAll(version: Version, server: bool, st: GuardState, records: seq<seq<byte>>): Option<GuardState>
    requires AllRecords(records)
    decreases |records|
  {
    if records == [] then Some(st)
    else
      var next := Accept(version, server, st, records[0]);
      if next.None? then None else AcceptAll(version, server, next.value, records[1..])
  }

  // The records the guard lets through, up to the first bad or missing one.
  function Admitted(version: Version, server: bool, st: GuardState, input: seq<byte>): (records: seq<seq<byte>>)
    ensures AllRecords(records)
    decreases |input|
  {
    var taken := TakeRecord(input);
    if taken.None? then []
    else
      var next := Accept(version, server, st, taken.value.0);
      if next.None? then []
      else [taken.value.0] + Admitted(version, server, next.value, taken.value.1)
  }

  // The records let through are accepted in turn and start the input, and no
  // acceptable record follows them.
  lemma {:induction false} AdmittedAreAccepted(version: Version, server: bool, st: GuardState, input: seq<byte>)
    ensures Flat(Admitted(version, server, st, input)) <= input
    ensures AcceptAll(version, server, st, Admitted(version, server, st, input)).Some?
    ensures Refuses(version, server, AcceptAll(version, server, st, Admitted(version, server, st, input)).value,
                    input[|Flat(Admitted(version, server, st, input))|..])
    decreases |input|
  {
    var taken := TakeRecord(input);
    if taken.Some? {
      var record, tail := taken.value.0, taken.value.1;
      var next := Accept(version, server, st, record);
      if next.Some? {
        AdmittedAreAccepted(version, server, next.value, tail);
        var rest := Admitted(version, server, next.value, tail);
        assert ([record] + rest)[1..] == rest;
        assert input[|record + Flat(rest)|..] == tail[|Flat(rest)|..];
      }
    }
  }

  predicate Refuses(version: Version, server: bool, st: GuardState, input: seq<byte>) {
    TakeRecord(input).None? || Accept(version, server, st, TakeRecord(input).value.0).None?
  }

  // ---- what an admitted stream looks like ----

  // The payloads of the handshake records, in order.
  function HandshakeBytes(records: seq<seq<byte>>): seq<byte>
    requires AllRecords(records)
  {
    if records == [] then []
    else (if records[0][0] == 22 then records[0][5..] else []) + HandshakeBytes(records[1..])
  }

  predicate IsCcs(r: seq<byte>) requires IsRecord(r) {
    r[0] == 20
  }

  // A record carried in the clear before the cipher switch: handshake or alert.
  predicate IsPlain(r: seq<byte>) requires IsRecord(r) {
    r[0] == 22 || (r[0] == 21 && |r| == 7)
  }

  // A record long enough to be encrypted with an authentication tag.
  predicate IsSealed(r: seq<byte>) requires IsRecord(r) {
    r[0] in {21, 22, 23} && |r| >= 5 + 16
  }

  // TLS 1.2 before the cipher switch: the guard's progress is that of one feed
  // of all handshake payloads.
  lemma {:induction false} PlainRecordsFeed(server: bool, st: GuardState, records: seq<seq<byte>>)
    requires AllRecords(records) && !st.ccs && !st.encrypted && st.progress.total <= HANDSHAKE_LIMIT
    requires AcceptAll(Tls12, server, st, records).Some? && forall i | 0 <= i < |records| :: !IsCcs(records[i])
    ensures var end := AcceptAll(Tls12, server, st, records).value;
            && end == st.(progress := end.progress)
            && Feed(server, st.progress, HandshakeBytes(records)) == Some(end.progress)
    ensures forall i | 0 <= i < |records| :: IsPlain(records[i])
    decreases |records|
  {
    if records != [] {
      var r := records[0];
      assert !IsCcs(r);
      var next := Accept(Tls12, server, st, r).value;
      forall i | 0 <= i < |records[1..]| ensures !IsCcs(records[1..][i]) { assert records[1..][i] == records[i + 1]; }
      BytesKeepTotal(server, st.progress, st.progress.total + |r[5..]|, r[5..]);
      if r[0] == 22 { FeedKeepsLimit(server, st.progress, r[5..]); }
      PlainRecordsFeed(server, next, records[1..]);
      var mine := if r[0] == 22 then r[5..] else [];
      FeedIsFragmentationIndependent(server, st.progress, mine, HandshakeBytes(records[1..]));
      forall i | 0 <= i < |records| ensures IsPlain(records[i]) {
        if i > 0 { assert records[i] == records[1..][i - 1]; }
      }
    }
  }

  lemma FeedKeepsLimit(server: bool, p: Progress, data: seq<byte>)
    requires Feed(server, p, data).Some?
    ensures Feed(server, p, data).value.total <= HANDSHAKE_LIMIT
  {
    BytesKeepTotal(server, p.(total := p.total + |data|), 0, data);
  }

  lemma {:induction false} SealedAfterSwitch(server: bool, st: GuardState, records: seq<seq<byte>>)
    requires AllRecords(records) && st.ccs && st.encrypted && AcceptAll(Tls12, server, st, records).Some?
    ensures forall i | 0 <= i < |records| :: IsSealed(records[i])
    decreases |records|
  {
    if records != [] {
      var next := Accept(Tls12, server, st, records[0]).value;
      SealedAfterSwitch(server, next, records[1..]);
      forall i | 0 <= i < |records| ensures IsSealed(records[i]) {
        if i > 0 { assert records[i] == records[1..][i - 1]; }
      }
    }
  }

  lemma {:induction false} AcceptInTurn(version: Version, server: bool, st: GuardState, a: seq<seq<byte>>,
    b: seq<seq<byte>>)
    requires AllRecords(a) && AllRecords(b) && AllRecords(a + b)
    requires AcceptAll(version, server, st, a + b).Some?
    ensures AcceptAll(version, server, st, a).Some?
    ensures AcceptAll(version, server, AcceptAll(version, server, st, a).value, b)
      == AcceptAll(version, server, st, a + b)
    decreases |a|
  {
    if a == [] {
      assert a + b == b;
    } else {
      assert (a + b)[1..] == a[1..] + b;
      AcceptInTurn(version, server, Accept(version, server, st, a[0]).value, a[1..], b);
    }
  }

  lemma {:induction false} FirstCcs(records: seq<seq<byte>>) returns (k: nat)
    requires AllRecords(records)
    ensures k <= |records| && (forall i | 0 <= i < k :: !IsCcs(records[i])) && (k < |records| ==> IsCcs(records[k]))
  {
    k := 0;
    while k < |records| && !IsCcs(records[k])
      invariant k <= |records| && forall i | 0 <= i < k :: !IsCcs(records[i])
    {
      k := k + 1;
    }
  }

  // Before the first ChangeCipherSpec an admitted stream is plaintext, and the
  // checker has been fed its handshake bytes.
  lemma BeforeSwitch(server: bool, st: GuardState, records: seq<seq<byte>>, k: nat)
    requires AllRecords(records) && AcceptAll(Tls12, server, st, records).Some?
    requires !st.ccs && !st.encrypted && st.progress.total <= HANDSHAKE_LIMIT
    requires k <= |records| && forall i | 0 <= i < k :: !IsCcs(records[i])
    ensures forall i | 0 <= i < k :: IsPlain(records[i])
    ensures AllRecords(records[..k]) && AllRecords(records[k..]) && AcceptAll(Tls12, server, st, records[..k]).Some?
    ensures var mid := AcceptAll(Tls12, server, st, records[..k]).value;
            && !mid.ccs && !mid.encrypted
              && Feed(server, st.progress, HandshakeBytes(records[..k])) == Some(mid.progress)
            && AcceptAll(Tls12, server, mid, records[k..]).Some?
  {
    var front, back := records[..k], records[k..];
    assert records == front + back;
    AcceptInTurn(Tls12, server, st, front, back);
    forall i | 0 <= i < k ensures !IsCcs(front[i]) { assert front[i] == records[i]; }
    PlainRecordsFeed(server, st, front);
    forall i | 0 <= i < k ensures IsPlain(records[i]) { assert front[i] == records[i]; }
  }

  // TLS 1.2: an admitted stream is plaintext handshake and alert records, then
  // at most one ChangeCipherSpec, then only sealed records. So no application
  // data comes before the switch, and the handshake bytes up to the switch,
  // with those left over from the hello, are whole messages.
  lemma Tls12StreamShape(server: bool, extra: seq<byte>, st: GuardState, records: seq<seq<byte>>)
    returns (k: nat, ms: seq<Message>)
    requires AllRecords(records) && AcceptAll(Tls12, server, st, records).Some?
    requires !st.ccs && !st.encrypted && Feed(server, FRESH, extra) == Some(st.progress)
    ensures k <= |records| && (forall i | 0 <= i < k :: IsPlain(records[i]))
    ensures k < |records| ==> IsCcs(records[k]) && records[k][5..] == [1]
    ensures k < |records| ==> AllWellFormed(server, ms) && extra + HandshakeBytes(records[..k]) == Encoding(server, ms)
    ensures forall i | k < i < |records| :: IsSealed(records[i])
  {
    k := FirstCcs(records);
    ms := [];
    FeedKeepsLimit(server, FRESH, extra);
    BeforeSwitch(server, st, records, k);
    if k < |records| {
      var mid, back := AcceptAll(Tls12, server, st, records[..k]).value, records[k..];
      assert back[0] == records[k];
      var switched := Accept(Tls12, server, mid, back[0]).value;
      ms := WholeAtSwitch(server, extra, st.progress, HandshakeBytes(records[..k]), mid.progress);
      SealedAfterSwitch(server, switched, back[1..]);
      forall i | k < i < |records| ensures IsSealed(records[i]) { assert records[i] == back[1..][i - k - 1]; }
    }
  }

  lemma WholeAtSwitch(server: bool, extra: seq<byte>, p: Progress, bytes: seq<byte>, end: Progress)
    returns (ms: seq<Message>)
    requires Feed(server, FRESH, extra) == Some(p) && Feed(server, p, bytes) == Some(end) && AtBoundary(end)
    ensures AllWellFormed(server, ms) && extra + bytes == Encoding(server, ms)
  {
    FeedIsFragmentationIndependent(server, FRESH, extra, bytes);
    ms := BoundaryMeansWholeMessages(server, FRESH.(total := |extra + bytes|), extra + bytes);
  }

  // TLS 1.3: after the ServerHello nothing but application data with a tag and
  // at most one ChangeCipherSpec; no plaintext handshake, no alert.
  lemma {:induction false} Tls13StreamShape(server: bool, st: GuardState, records: seq<seq<byte>>)
    requires AllRecords(records) && AcceptAll(Tls13, server, st, records).Some?
    ensures forall i | 0 <= i < |records| ::
      (IsCcs(records[i]) && !st.ccs) || (records[i][0] == 23 && |records[i]| >= 5 + 16)
    ensures forall i, j | 0 <= i < j < |records| :: !(IsCcs(records[i]) && IsCcs(records[j]))
    decreases |records|
  {
    if records != [] {
      var next := Accept(Tls13, server, st, records[0]).value;
      Tls13StreamShape(server, next, records[1..]);
      forall i | 0 < i < |records| ensures records[i] == records[1..][i - 1] {}
      forall i, j | 0 <= i < j < |records| ensures !(IsCcs(records[i]) && IsCcs(records[j])) {
        if i > 0 { assert records[i] == records[1..][i - 1]; }
        assert records[j] == records[1..][j - 1];
      }
    }
  }

  // ---- every such stream is admitted ----

  // Records accepted in turn pass whole when they arrive as one stream.
  lemma {:induction false} AcceptedAreAdmitted(version: Version, server: bool, st: GuardState, records: seq<seq<byte>>)
    requires AllRecords(records) && AcceptAll(version, server, st, records).Some?
    ensures Admitted(version, server, st, Flat(records)) == records
    decreases |records|
  {
    if records == [] {
      assert TakeRecord([]).None?;
    } else {
      var r, rest := records[0], records[1..];
      AcceptedAreAdmitted(version, server, Accept(version, server, st, r).value, rest);
      RecordIsTaken(r, r + Flat(rest));
      assert (r + Flat(rest))[|r|..] == Flat(rest);
      assert records == [r] + rest;
    }
  }

  // TLS 1.3 between two messages: exactly the records in phase are accepted.
  lemma {:induction false} Tls13AcceptsExactly(server: bool, st: GuardState, records: seq<seq<byte>>)
    requires AllRecords(records) && AtBoundary(st.progress)
    ensures AcceptAll(Tls13, server, st, records).Some? <==> InPhase(Tls13, st.ccs, records)
    decreases |records|
  {
    if records != [] {
      var next := Accept(Tls13, server, st, records[0]);
      if next.Some? { Tls13AcceptsExactly(server, next.value, records[1..]); }
    }
  }

  lemma {:induction false} AcceptBoth(version: Version, server: bool, st: GuardState, a: seq<seq<byte>>,
    b: seq<seq<byte>>)
    requires AllRecords(a) && AllRecords(b) && AllRecords(a + b) && AcceptAll(version, server, st, a).Some?
    ensures AcceptAll(version, server, st, a + b)
      == AcceptAll(version, server, AcceptAll(version, server, st, a).value, b)
    decreases |a|
  {
    if a == [] {
      assert a + b == b;
    } else {
      assert (a + b)[1..] == a[1..] + b;
      AcceptBoth(version, server, Accept(version, server, st, a[0]).value, a[1..], b);
    }
  }

  lemma {:induction false} PlainPass(server: bool, st: GuardState, records: seq<seq<byte>>)
    requires AllRecords(records) && !st.encrypted && forall i | 0 <= i < |records| :: IsPlain(records[i])
    requires Feed(server, st.progress, HandshakeBytes(records)).Some?
    ensures AcceptAll(Tls12, server, st, records)
      == Some(st.(progress := Feed(server, st.progress, HandshakeBytes(records)).value))
    decreases |records|
  {
    if records != [] {
      var r, rest := records[0], records[1..];
      assert IsPlain(r);
      forall i | 0 <= i < |rest| ensures IsPlain(rest[i]) { assert rest[i] == records[i + 1]; }
      if r[0] == 22 {
        FeedIsFragmentationIndependent(server, st.progress, r[5..], HandshakeBytes(rest));
      } else {
        assert [] + HandshakeBytes(rest) == HandshakeBytes(rest);
      }
      PlainPass(server, Accept(Tls12, server, st, r).value, rest);
    }
  }

  lemma {:induction false} SealedPass(server: bool, st: GuardState, records: seq<seq<byte>>)
    requires AllRecords(records) && st.encrypted && forall i | 0 <= i < |records| :: IsSealed(records[i])
    ensures AcceptAll(Tls12, server, st, records).Some?
    decreases |records|
  {
    if records != [] {
      assert IsSealed(records[0]);
      forall i | 0 <= i < |records[1..]| ensures IsSealed(records[1..][i]) { assert records[1..][i] == records[i + 1]; }
      SealedPass(server, Accept(Tls12, server, st, records[0]).value, records[1..]);
    }
  }

  // A TLS 1.2 stream that switches ciphers at record k, if it has one: handshake
  // bytes the checker passes, and the switch between two messages.
  ghost predicate SwitchesAt(server: bool, p: Progress, records: seq<seq<byte>>, k: nat)
    requires AllRecords(records)
  {
    && k <= |records| && (forall i | 0 <= i < k :: IsPlain(records[i]))
    && (forall i | k < i < |records| :: IsSealed(records[i]))
    && var fed := Feed(server, p, HandshakeBytes(records[..k]));
       fed.Some? && (k < |records| ==> IsCcs(records[k]) && records[k][5..] == [1] && AtBoundary(fed.value))
  }

  lemma SwitchingPasses(server: bool, st: GuardState, records: seq<seq<byte>>, k: nat)
    requires AllRecords(records) && !st.ccs && !st.encrypted && SwitchesAt(server, st.progress, records, k)
    ensures AcceptAll(Tls12, server, st, records).Some?
  {
    var front, back := records[..k], records[k..];
    assert records == front + back;
    PlainPass(server, st, front);
    AcceptBoth(Tls12, server, st, front, back);
    if back != [] {
      assert back[0] == records[k];
      var mid := AcceptAll(Tls12, server, st, front).value;
      forall i | 0 <= i < |back[1..]| ensures IsSealed(back[1..][i]) { assert back[1..][i] == records[k + 1 + i]; }
      SealedPass(server, Accept(Tls12, server, mid, back[0]).value, back[1..]);
    }
  }

  lemma PassingSwitches(server: bool, st: GuardState, records: seq<seq<byte>>) returns (k: nat)
    requires AllRecords(records) && !st.ccs && !st.encrypted && st.progress.total <= HANDSHAKE_LIMIT
    requires AcceptAll(Tls12, server, st, records).Some?
    ensures SwitchesAt(server, st.progress, records, k)
  {
    k := FirstCcs(records);
    BeforeSwitch(server, st, records, k);
    if k < |records| {
      var mid, back := AcceptAll(Tls12, server, st, records[..k]).value, records[k..];
      assert back[0] == records[k];
      SealedAfterSwitch(server, Accept(Tls12, server, mid, back[0]).value, back[1..]);
      forall i | k < i < |records| ensures IsSealed(records[i]) { assert records[i] == back[1..][i - k - 1]; }
    }
  }

  // TLS 1.2 from the hello on: exactly the streams of that shape are accepted.
  lemma Tls12AcceptsExactly(server: bool, st: GuardState, records: seq<seq<byte>>)
    requires AllRecords(records) && !st.ccs && !st.encrypted && st.progress.total <= HANDSHAKE_LIMIT
    ensures AcceptAll(Tls12, server, st, records).Some?
      <==> exists k :: SwitchesAt(server, st.progress, records, k)
  {
    if AcceptAll(Tls12, server, st, records).Some? {
      var k := PassingSwitches(server, st, records);
    }
    if k :| SwitchesAt(server, st.progress, records, k) { SwitchingPasses(server, st, records, k); }
  }

  // Application data, or a handshake record after the cipher switch.
  ghost predicate IsHidden(switched: bool, records: seq<seq<byte>>, i: nat)
    requires AllRecords(records) && i < |records|
  {
    records[i][0] == 23 || (records[i][0] == 22 && (switched || exists j | 0 <= j < i :: IsCcs(records[j])))
  }

  // A stream is secured, and its deadline lifted, by the first encrypted
  // application data or handshake record and by nothing else.
  lemma {:induction false} SecuredExactly(version: Version, server: bool, st: GuardState, records: seq<seq<byte>>)
    requires AllRecords(records) && (st.encrypted <==> st.ccs && version.Tls12?)
    requires AcceptAll(version, server, st, records).Some?
    ensures AcceptAll(version, server, st, records).value.secured
      <==> st.secured || exists i | 0 <= i < |records| :: IsHidden(st.ccs, records, i)
    decreases |records|
  {
    if records != [] {
      var r, rest := records[0], records[1..];
      var next := Accept(version, server, st, r).value;
      SecuredExactly(version, server, next, rest);
      forall i | 0 <= i < |rest| ensures IsHidden(next.ccs, rest, i) <==> IsHidden(st.ccs, records, i + 1) {
        HiddenLater(st.ccs, records, i);
      }
      assert forall i | 0 < i < |records| :: IsHidden(next.ccs, rest, i - 1) <==> IsHidden(st.ccs, records, i);
      assert next.secured <==> st.secured || IsHidden(st.ccs, records, 0);
    }
  }

  lemma HiddenLater(switched: bool, records: seq<seq<byte>>, i: nat)
    requires AllRecords(records) && i + 1 < |records|
    ensures IsHidden(switched || IsCcs(records[0]), records[1..], i) <==> IsHidden(switched, records, i + 1)
  {
    var rest := records[1..];
    assert forall j | 0 < j < |records| :: records[j] == rest[j - 1];
    if j :| 0 <= j < i && IsCcs(rest[j]) { assert IsCcs(records[j + 1]); }
  }

  // ---- reading on after a refusal ----

  // The guard after a record it may have refused.
  function Next(version: Version, server: bool, st: GuardState, r: seq<byte>): GuardState
    requires IsRecord(r)
  {
    var next := Accept(version, server, st, r);
    if next.Some? then next.value
    else if r[0] == 22 && version.Tls12? && !st.encrypted then st.(progress := FeedOn(server, st.progress, r[5..]))
    else st
  }

  // What a read that finds no record leaves of the input: it has taken the five
  // bytes of a bad header, or all there was.
  function Leftover(input: seq<byte>): seq<byte>
    requires TakeRecord(input).None?
  {
    if |input| >= 5 && !GoodHeader(input) then input[5..] else []
  }

  // The records released to a caller that reads on whatever is refused.
  function Survivors(version: Version, server: bool, st: GuardState, input: seq<byte>): (records: seq<seq<byte>>)
    ensures AllRecords(records)
    decreases |input|
  {
    var taken := TakeRecord(input);
    if taken.None? then
      if Leftover(input) == [] then [] else Survivors(version, server, st, Leftover(input))
    else
      var (record, rest) := taken.value;
      (if Accept(version, server, st, record).Some? then [record] else [])
        + Survivors(version, server, Next(version, server, st, record), rest)
  }

  // They begin with those released before the first refusal.
  lemma {:induction false} AdmittedSurvive(version: Version, server: bool, st: GuardState, input: seq<byte>)
    ensures Admitted(version, server, st, input) <= Survivors(version, server, st, input)
    decreases |input|
  {
    var taken := TakeRecord(input);
    if taken.Some? && Accept(version, server, st, taken.value.0).Some? {
      AdmittedSurvive(version, server, Next(version, server, st, taken.value.0), taken.value.1);
    }
  }

  lemma NothingSurvives(version: Version, server: bool, st: GuardState)
    ensures Survivors(version, server, st, []) == []
  {}

  // The parts lie in the bytes one after the other, perhaps with others between.
  ghost predicate Scattered(parts: seq<seq<byte>>, bytes: seq<byte>)
    decreases |parts|
  {
    parts != [] ==>
      exists i, j | 0 <= i <= j <= |bytes| :: bytes[i..j] == parts[0] && Scattered(parts[1..], bytes[j..])
  }

  lemma {:induction false} ScatteredLater(parts: seq<seq<byte>>, bytes: seq<byte>, k: nat)
    requires k <= |bytes| && Scattered(parts, bytes[k..])
    ensures Scattered(parts, bytes)
  {
    if parts != [] {
      var later := bytes[k..];
      var i, j :| 0 <= i <= j <= |later| && later[i..j] == parts[0] && Scattered(parts[1..], later[j..]);
      assert bytes[k + i..k + j] == later[i..j] && bytes[k + j..] == later[j..];
    }
  }

  lemma {:induction false} ScatteredFirst(part: seq<byte>, parts: seq<seq<byte>>, rest: seq<byte>)
    requires Scattered(parts, rest)
    ensures Scattered([part] + parts, part + rest)
  {
    var all, bytes := [part] + parts, part + rest;
    assert all[1..] == parts && all[0] == part;
    assert bytes[0..|part|] == part && bytes[|part|..] == rest;
  }

  // What may pass before and after the ChangeCipherSpec.
  predicate Fits(version: Version, switched: bool, r: seq<byte>)
    requires IsRecord(r)
  {
    if IsCcs(r) then !switched && r[5..] == [1]
    else if version.Tls13? then r[0] == 23 && |r| >= 5 + 16
    else if switched then IsSealed(r)
    else IsPlain(r)
  }

  predicate InPhase(version: Version, switched: bool, records: seq<seq<byte>>)
    requires AllRecords(records)
    decreases |records|
  {
    records != [] ==>
      Fits(version, switched, records[0]) && InPhase(version, switched || IsCcs(records[0]), records[1..])
  }

  // Records in phase: in the clear, then at most one ChangeCipherSpec, then
  // sealed; under TLS 1.3 tagged application data but for it.
  lemma {:induction false} PhaseShape(version: Version, switched: bool, records: seq<seq<byte>>) returns (k: int)
    requires AllRecords(records) && InPhase(version, switched, records)
    ensures if switched then k == -1 else 0 <= k <= |records|
    ensures 0 <= k < |records| ==> IsCcs(records[k]) && records[k][5..] == [1]
    ensures version.Tls12? ==> forall i | 0 <= i < k :: IsPlain(records[i])
    ensures version.Tls12? ==> forall i | 0 <= i < |records| && k < i :: IsSealed(records[i])
    ensures version.Tls13? ==>
      forall i | 0 <= i < |records| && i != k :: records[i][0] == 23 && |records[i]| >= 5 + 16
    decreases |records|
  {
    k := if switched then -1 else 0;
    if records != [] {
      var rest := PhaseShape(version, switched || IsCcs(records[0]), records[1..]);
      assert forall i | 0 < i < |records| :: records[i] == records[1..][i - 1];
      if !switched && !IsCcs(records[0]) { k := rest + 1; }
    }
  }

  lemma AcceptedFits(version: Version, server: bool, st: GuardState, r: seq<byte>)
    requires IsRecord(r) && (st.encrypted <==> st.ccs && version.Tls12?)
    ensures var next := Next(version, server, st, r);
            && (next.encrypted <==> next.ccs && version.Tls12?)
            && (if Accept(version, server, st, r).Some?
                then Fits(version, st.ccs, r) && (next.ccs <==> st.ccs || IsCcs(r))
                else next.ccs == st.ccs)
  {}

  // A caller that reads on is still given whole records only, in the order the
  // peer sent them, each in its phase.
  lemma {:induction false} SurvivorsAreInPhase(version: Version, server: bool, st: GuardState, input: seq<byte>)
    requires st.encrypted <==> st.ccs && version.Tls12?
    ensures InPhase(version, st.ccs, Survivors(version, server, st, input))
    ensures Scattered(Survivors(version, server, st, input), input)
    decreases |input|
  {
    var taken := TakeRecord(input);
    if taken.None? {
      if Leftover(input) != [] {
        SurvivorsAreInPhase(version, server, st, Leftover(input));
        ScatteredLater(Survivors(version, server, st, Leftover(input)), input, 5);
      }
    } else {
      var (record, rest) := taken.value;
      var next := Next(version, server, st, record);
      AcceptedFits(version, server, st, record);
      SurvivorsAreInPhase(version, server, next, rest);
      var more := Survivors(version, server, next, rest);
      assert input[|record|..] == rest;
      if Accept(version, server, st, record).Some? {
        assert ([record] + more)[1..] == more;
        ScatteredFirst(record, more, rest);
      } else {
        ScatteredLater(more, input, |record|);
        assert [] + more == more;
      }
    }
  }

  // What it is given no longer need be allowed messages: a refused record leaves
  // its header fragment behind, and the next record completes it.
  lemma ReadingOnForgetsMessages(server: bool, bad: seq<byte>, r: seq<byte>)
    requires IsRecord(bad) && bad[0] == 22 && |bad| == 6 && bad[5] !in Allowed(server)
    requires IsRecord(r) && r[0] == 22 && |r| == 8 && r[5] !in Allowed(server)
    requires Length24(r[5], r[6], r[7]) <= HANDSHAKE_LIMIT
    ensures
      var st, input := GuardState(false, false, false, FRESH), bad + r;
      && Admitted(Tls12, server, st, input) == [] && Survivors(Tls12, server, st, input) == [r]
      && !IsPrefixOfMessages(server, r[5..])
  {
    var st := GuardState(false, false, false, FRESH);
    RecordIsTaken(bad, bad + r);
    assert (bad + r)[|bad|..] == r;
    KindIsRefused(server, st, bad);
    FragmentIsCompleted(server, st.(progress := Progress(1, 0, [bad[5]])), r);
    NoSuchMessage(server, r[5..]);
  }

  // There are such records.
  lemma ForgetfulRecords() returns (bad: seq<byte>, r: seq<byte>)
    ensures IsRecord(bad) && bad[0] == 22 && |bad| == 6 && bad[5] !in Allowed(false)
    ensures IsRecord(r) && r[0] == 22 && |r| == 8 && r[5] !in Allowed(false)
    ensures Length24(r[5], r[6], r[7]) <= HANDSHAKE_LIMIT
  {
    bad, r := [22, 3, 3, 0, 1, 1], [22, 3, 3, 0, 3, 0, 0, 0];
    assert bad[3] == 0 && bad[4] == 1 && bad[5] == 1;
    assert r[3] == 0 && r[4] == 3 && r[5] == r[6] == r[7] == 0;
  }

  lemma KindIsRefused(server: bool, st: GuardState, bad: seq<byte>)
    requires st == GuardState(false, false, false, FRESH)
    requires IsRecord(bad) && bad[0] == 22 && |bad| == 6 && bad[5] !in Allowed(server)
    ensures Accept(Tls12, server, st, bad).None?
    ensures Next(Tls12, server, st, bad) == st.(progress := Progress(1, 0, [bad[5]]))
  {
    assert bad[5..] == [bad[5]] && FRESH.pending + [bad[5]] == [bad[5]];
    assert Byte(server, FRESH.(total := 1), bad[5]).None?;
  }

  lemma FragmentIsCompleted(server: bool, stuck: GuardState, r: seq<byte>)
    requires !stuck.encrypted && stuck.progress.total == 1 && stuck.progress.left == 0 && |stuck.progress.pending| == 1
    requires IsRecord(r) && r[0] == 22 && |r| == 8 && Length24(r[5], r[6], r[7]) <= HANDSHAKE_LIMIT
    ensures Survivors(Tls12, server, stuck, r) == [r]
  {
    RecordIsTaken(r, r);
    assert r[|r|..] == [];
    FragmentIsFed(server, stuck.progress, r[5..]);
    NothingSurvives(Tls12, server, Next(Tls12, server, stuck, r));
  }

  lemma FragmentIsFed(server: bool, p: Progress, data: seq<byte>)
    requires p.total == 1 && p.left == 0 && |p.pending| == 1
    requires |data| == 3 && Length24(data[0], data[1], data[2]) <= HANDSHAKE_LIMIT
    ensures Feed(server, p, data).Some?
  {
    var q := p.(total := p.total + 3);
    assert data == data[..2] + [data[2]];
    BytesInTurn(server, q, data[..2], [data[2]]);
    PendingBytes(server, q, data[..2]);
    var header := q.pending + data[..2] + [data[2]];
    assert header[1] == data[0] && header[2] == data[1] && header[3] == data[2];
    LengthCompletes(server, q.(pending := q.pending + data[..2]), data[2], header);
  }

  lemma LengthCompletes(server: bool, p: Progress, b: byte, header: seq<byte>)
    requires p.left == 0 && |p.pending| == 3 && header == p.pending + [b]
    requires Length24(header[1], header[2], header[3]) <= HANDSHAKE_LIMIT
    ensures Bytes(server, p, [b]) == Some(p.(left := Length24(header[1], header[2], header[3]), pending := []))
  {
    assert [b][1..] == [];
  }

  lemma NoSuchMessage(server: bool, data: seq<byte>)
    requires 0 < |data| <= HANDSHAKE_LIMIT && data[0] !in Allowed(server)
    ensures !IsPrefixOfMessages(server, data)
  {
    if IsPrefixOfMessages(server, data) { AcceptsPrefixesOfMessages(server, data); }
  }

  // ---- the reader ----

  class TlsReader {
    const version: Version
    const server: bool
    var input: seq<byte>           // what the peer has still to deliver
    var encrypted: bool
    var ccs: bool
    var secured: bool
    var pending: seq<byte>
    var wire: seq<byte>
    var handshakeBytes: nat
    var handshakeLeft: nat

    constructor (version: Version, server: bool, input: seq<byte>)
      ensures this.version == version && this.server == server && this.input == input
      ensures wire == [] && Guard() == GuardState(false, false, false, FRESH)
    {
      this.version, this.server, this.input := version, server, input;
      encrypted, ccs, secured := false, false, false;
      pending, wire, handshakeBytes, handshakeLeft := [], [], 0, 0;
    }

    ghost function Guard(): GuardState reads this {
      GuardState(encrypted, ccs, secured, Progress(handshakeBytes, handshakeLeft, pending))
    }

    // All bytes further reads can release, whatever their buffer sizes: the
    // leftover of the current record and every record admitted after it.
    ghost function Deliverable(): seq<byte> reads this {
      wire + Flat(Admitted(version, server, Guard(), input))
    }

    // The peer has still to deliver these records, and they are what its phase
    // of the connection allows.
    ghost predicate Awaits(records: seq<seq<byte>>) reads this {
      && wire == [] && AllRecords(records) && input == Flat(records)
      && if version.Tls13? then handshakeLeft == 0 && pending == [] && InPhase(Tls13, ccs, records)
         else !ccs && !encrypted && exists k :: SwitchesAt(server, Guard().progress, records, k)
    }

    lemma AwaitedIsDeliverable(records: seq<seq<byte>>)
      requires Awaits(records)
      ensures Deliverable() == Flat(records) && (Flat(records) == [] <==> records == [])
    {
      if records != [] { assert IsRecord(records[0]); }
      if version.Tls13? {
        Tls13AcceptsExactly(server, Guard(), records);
      } else {
        var k :| SwitchesAt(server, Guard().progress, records, k);
        SwitchingPasses(server, Guard(), records, k);
      }
      AcceptedAreAdmitted(version, server, Guard(), records);
    }

    // All bytes further reads can release, whatever their buffer sizes and
    // whatever is refused on the way.
    ghost function Remaining(): seq<byte> reads this {
      wire + Flat(Survivors(version, server, Guard(), input))
    }

    method Handshake(chunk: seq<byte>) returns (ok: bool)
      modifies this`pending, this`handshakeBytes, this`handshakeLeft
      ensures var fed := Feed(server, old(Guard().progress), chunk);
              (ok <==> fed.Some?) && (ok ==> Guard().progress == fed.value)
      ensures Guard().progress == FeedOn(server, old(Guard().progress), chunk)
    {
      var data := chunk;
      handshakeBytes := handshakeBytes + |data|;
      if handshakeBytes > HANDSHAKE_LIMIT {
        return false;
      }
      ghost var verdict, end := Bytes(server, Guard().progress, data), Stops(server, Guard().progress, data);
      while |data| > 0
        invariant verdict == Bytes(server, Guard().progress, data)
        invariant end == Stops(server, Guard().progress, data)
        decreases |data|
      {
        if handshakeLeft > 0 {
          var n := if handshakeLeft < |data| then handshakeLeft else |data|;
          SkipBody(server, Guard().progress, data, n);
          StopsAfterBody(server, Guard().progress, data, n);
          handshakeLeft := handshakeLeft - n;
          data := data[n..];
        } else {
          pending := pending + [data[0]];
          data := data[1..];
          if |pending| == 1 && pending[0] !in Allowed(server) {
            return false;
          }
          if |pending| == 4 {
            handshakeLeft := Length24(pending[1], pending[2], pending[3]);
            if handshakeLeft > HANDSHAKE_LIMIT {
              return false;
            }
            pending := [];
          }
        }
      }
      ok := true;
    }

    // The next record, if it is admitted.
    method Fill() returns (ok: bool)
      requires wire == []
      modifies this
      ensures ok ==> wire != [] && Deliverable() == old(Deliverable())
      ensures !ok ==> old(Deliverable()) == []
      ensures Remaining() == old(Remaining())
    {
      var taken := TakeRecord(input);
      if taken.None? {
        NothingSurvives(version, server, Guard());
        input := Leftover(input);
        return false;
      }
      var record := taken.value.0;
      ghost var st := Guard();
      NextReleased(version, server, st, input);
      input := taken.value.1;
      ok := Check(record);
      if ok {
        wire := record;
      }
    }

    // Up to n bytes of what is left of the record.
    method Drain(n: nat) returns (out: seq<byte>)
      requires n > 0 && wire != []
      modifies this`wire
      ensures 0 < |out| <= n && old(Deliverable()) == out + Deliverable() && old(Remaining()) == out + Remaining()
    {
      var size := if n < |wire| then n else |wire|;
      assert wire == wire[..size] + wire[size..];
      out := wire[..size];
      wire := wire[size..];
    }

    // Read into a buffer of n bytes.
    method Read(n: nat) returns (out: seq<byte>, ok: bool)
      modifies this
      ensures n == 0 ==> ok && out == [] && Deliverable() == old(Deliverable())
      ensures n > 0 ==> (ok <==> old(Deliverable()) != [])
      ensures n > 0 && ok ==> 0 < |out| <= n && old(Deliverable()) == out + Deliverable()
      ensures !ok ==> out == []
      ensures old(Remaining()) == out + Remaining()
    {
      out, ok := [], true;
      if n == 0 {
        return;
      }
      if wire == [] {
        ok := Fill();
        if !ok {
          return;
        }
      }
      out := Drain(n);
    }

    // The switch on the record type, and the switch to secured.
    method Check(record: seq<byte>) returns (ok: bool)
      requires IsRecord(record)
      modifies this`encrypted, this`ccs, this`secured, this`pending, this`handshakeBytes, this`handshakeLeft
      ensures var next := Accept(version, server, old(Guard()), record);
              (ok <==> next.Some?) && (ok ==> Guard() == next.value)
      ensures Guard() == Next(version, server, old(Guard()), record)
    {
      var payload := record[5..];
      ok := true;
      if record[0] == 20 {
        if ccs || payload != [1] || handshakeLeft != 0 || |pending| != 0 {
          return false;
        }
        ccs := true;
        if version == Tls12 {
          encrypted := true;
        }
      } else if record[0] == 22 {
        if version == Tls13 {
          return false;
        }
        if !encrypted {
          ok := Handshake(payload);
          if !ok {
            return;
          }
        } else if |payload| < 16 {
          return false;
        }
      } else if record[0] == 23 {
        if (version == Tls12 && !encrypted) || |payload| < 16 {
          return false;
        }
      } else if record[0] == 21 {
        if version == Tls13 || (!encrypted && |payload| != 2) || (encrypted && |payload| < 16) {
          return false;
        }
      } else {
        return false;
      }
      if record[0] == 23 || (record[0] == 22 && encrypted) {
        secured := true;
      }
    }

    // One read more.
    method ReadMore(n: nat, out: seq<byte>, ghost whole: seq<byte>) returns (more: seq<byte>, failed: bool)
      requires whole == out + Deliverable()
      modifies this
      ensures if failed then more == whole else whole == more + Deliverable()
    {
      var chunk, ok := Read(n);
      more, failed := out + chunk, !ok;
      Regroup(out, chunk, Deliverable());
    }

    // io.Copy with any buffer sizes: what comes out is a prefix of what is
    // deliverable, and all of it once a read fails. A stream the connection's
    // phase allows comes out whole.
    method Copy(sizes: seq<nat>, ghost records: seq<seq<byte>>) returns (out: seq<byte>, failed: bool)
      modifies this
      ensures out <= old(Deliverable())
      ensures failed ==> out == old(Deliverable())
      ensures !failed ==> old(Deliverable()) == out + Deliverable()
      ensures old(Awaits(records)) ==> out <= Flat(records) && (failed ==> out == Flat(records))
    {
      if Awaits(records) { AwaitedIsDeliverable(records); }
      out, failed := [], false;
      ghost var whole := Deliverable();
      assert whole == [] + Deliverable();
      for i := 0 to |sizes|
        invariant whole == out + Deliverable() && !failed
      {
        out, failed := ReadMore(sizes[i], out, whole);
        if failed {
          return;
        }
      }
    }

    // A caller that reads on, whatever is refused.
    method ReadOn(sizes: seq<nat>) returns (out: seq<byte>)
      modifies this
      ensures old(Remaining()) == out + Remaining()
    {
      out := [];
      for i := 0 to |sizes|
        invariant old(Remaining()) == out + Remaining()
      {
        var chunk, _ := Read(sizes[i]);
        Regroup(out, chunk, Remaining());
        out := out + chunk;
      }
    }
  }

  lemma Regroup(a: seq<byte>, b: seq<byte>, c: seq<byte>)
    ensures a + (b + c) == (a + b) + c
  {}

  lemma NextReleased(version: Version, server: bool, st: GuardState, input: seq<byte>)
    requires TakeRecord(input).Some?
    ensures var (record, rest) := TakeRecord(input).value;
            var next := Next(version, server, st, record);
            if Accept(version, server, st, record).Some? then
              && Flat(Admitted(version, server, st, input)) == record + Flat(Admitted(version, server, next, rest))
              && Flat(Survivors(version, server, st, input)) == record + Flat(Survivors(version, server, next, rest))
            else
              && Flat(Admitted(version, server, st, input)) == []
              && Survivors(version, server, st, input) == Survivors(version, server, next, rest)
  {
    var (record, rest) := TakeRecord(input).value;
    var next := Next(version, server, st, record);
    if Accept(version, server, st, record).Some? {
      var admitted, survivors := Admitted(version, server, next, rest), Survivors(version, server, next, rest);
      assert ([record] + admitted)[1..] == admitted;
      assert ([record] + survivors)[1..] == survivors;
    }
  }

  lemma SkipBody(server: bool, p: Progress, data: seq<byte>, n: nat)
    requires n <= p.left && n <= |data|
    ensures Bytes(server, p, data) == Bytes(server, p.(left := p.left - n), data[n..])
  {
    assert data == data[..n] + data[n..];
    BytesInTurn(server, p, data[..n], data[n..]);
    BodyBytes(server, p, data[..n]);
  }
}
