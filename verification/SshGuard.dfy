// The guard on each direction of a native SSH connection after the two
// KEXINIT packets (sections 6 and 7.3 of RFC 4253): whole key-exchange packets
// up to NEWKEYS, then everything.
module SshGuard {
  import opened Text
  import opened TlsHandshake
  import opened TlsGuard

  const MAX_PACKETS: nat := 32

  function PacketLength(header: seq<byte>): nat
    requires |header| >= 5
  {
    16777216 * (header[0] as int) + 65536 * (header[1] as int) + 256 * (header[2] as int) + header[3] as int
  }

  predicate GoodPacketHeader(header: seq<byte>)
    requires |header| >= 5
  {
    var size, padding := PacketLength(header), header[4];
    6 <= size <= 35000 && (size + 4) % 8 == 0 && 4 <= padding < size - 1
  }

  predicate IsPacket(p: seq<byte>) {
    |p| >= 5 && GoodPacketHeader(p) && |p| == PacketLength(p) + 4
  }

  // The payload lies between the five header bytes and the padding, and is
  // never empty.
  function Payload(p: seq<byte>): (payload: seq<byte>)
    requires IsPacket(p)
    ensures 0 < |payload| <= 35000 && |p| == 5 + |payload| + p[4]
  {
    p[5..|p| - p[4]]
  }

  predicate IsKex(p: seq<byte>) requires IsPacket(p) {
    30 <= Payload(p)[0] <= 49
  }

  predicate IsNewKeys(p: seq<byte>) requires IsPacket(p) {
    Payload(p) == [21]
  }

  // readNativeSSHPacket
  function TakePacket(input: seq<byte>): (r: Option<(seq<byte>, seq<byte>)>)
    ensures r.Some? ==> IsPacket(r.value.0) && input == r.value.0 + r.value.1
  {
    if |input| < 5 || !GoodPacketHeader(input) || |input| < PacketLength(input) + 4 then None
    else Some((input[..PacketLength(input) + 4], input[PacketLength(input) + 4..]))
  }

  lemma PacketIsTaken(packet: seq<byte>, rest: seq<byte>)
    requires IsPacket(packet)
    ensures TakePacket(packet + rest) == Some((packet, rest))
  {
    assert forall i | 0 <= i < 5 :: (packet + rest)[i] == packet[i];
  }

  // What passes when `count` packets have been read in the clear.
  function Through(count: nat, input: seq<byte>): seq<byte>
    decreases |input|
  {
    var taken := TakePacket(input);
    if count >= MAX_PACKETS || taken.None? then []
    else
      var (packet, rest) := taken.value;
      if IsNewKeys(packet) then packet + rest
      else if IsKex(packet) then packet + Through(count + 1, rest)
      else []
  }

  predicate AllPackets(packets: seq<seq<byte>>) {
    forall i | 0 <= i < |packets| :: IsPacket(packets[i])
  }

  // No packet may pass next: too many have, or there is none, or it is not one
  // of the key exchange.
  predicate Blocked(count: nat, input: seq<byte>) {
    || count >= MAX_PACKETS || TakePacket(input).None?
    || (!IsKex(TakePacket(input).value.0) && !IsNewKeys(TakePacket(input).value.0))
  }

  // At most 32 key-exchange packets; if the stream is open, the last of them is
  // NEWKEYS and all the rest of the input follows as tail; otherwise nothing
  // that follows them may pass.
  ghost predicate Passes(count: nat, input: seq<byte>, packets: seq<seq<byte>>, tail: seq<byte>, open: bool) {
    && AllPackets(packets) && (packets != [] ==> count + |packets| <= MAX_PACKETS)
    && (if open then packets != [] && IsNewKeys(packets[|packets| - 1]) && Flat(packets) + tail == input
        else tail == [] && Flat(packets) <= input && Blocked(count + |packets|, input[|Flat(packets)|..]))
    && (forall i | 0 <= i < |packets| - (if open then 1 else 0) :: IsKex(packets[i]))
  }

  lemma OneMorePasses(count: nat, packet: seq<byte>, rest: seq<byte>, packets: seq<seq<byte>>, tail: seq<byte>,
    open: bool)
    requires IsPacket(packet) && IsKex(packet) && count < MAX_PACKETS && Passes(count + 1, rest, packets, tail, open)
    ensures Passes(count, packet + rest, [packet] + packets, tail, open)
    ensures Flat([packet] + packets) + tail == packet + (Flat(packets) + tail)
  {
    var all := [packet] + packets;
    assert all[1..] == packets;
    assert Flat(all) == packet + Flat(packets);
    assert packet + Flat(packets) + tail == packet + (Flat(packets) + tail);
    if !open { assert (packet + rest)[|Flat(all)|..] == rest[|Flat(packets)|..]; }
    forall i | 0 <= i < |all| - (if open then 1 else 0) ensures IsPacket(all[i]) && IsKex(all[i]) {
      if i > 0 { assert all[i] == packets[i - 1]; }
    }
  }

  lemma NewKeysPasses(count: nat, packet: seq<byte>, rest: seq<byte>)
    requires IsPacket(packet) && IsNewKeys(packet) && count < MAX_PACKETS
    ensures Passes(count, packet + rest, [packet], rest, true) && Flat([packet]) == packet
  {
    assert Flat([packet]) == packet + Flat([packet][1..]) == packet;
  }

  lemma NothingPasses(count: nat, input: seq<byte>)
    requires Blocked(count, input)
    ensures Passes(count, input, [], [], false) && Flat([]) + [] == []
  {
  }

  // What passes has this shape, from any packet count on.
  lemma {:induction false} ThroughShape(count: nat, input: seq<byte>)
    returns (packets: seq<seq<byte>>, tail: seq<byte>, open: bool)
    ensures Passes(count, input, packets, tail, open)
    ensures Through(count, input) == Flat(packets) + tail
    decreases |input|
  {
    if Blocked(count, input) {
      NothingPasses(count, input);
      return [], [], false;
    }
    var (packet, rest) := TakePacket(input).value;
    if IsNewKeys(packet) {
      NewKeysPasses(count, packet, rest);
      return [packet], rest, true;
    }
    var others;
    others, tail, open := ThroughShape(count + 1, rest);
    OneMorePasses(count, packet, rest, others, tail, open);
    packets := [packet] + others;
  }

  // A whole key exchange and everything behind it passes: fewer than 32 packets
  // of method-specific numbers (30 to 49) and one NEWKEYS (21).
  lemma {:induction false} KeyExchangePasses(count: nat, packets: seq<seq<byte>>, stream: seq<byte>, keys: seq<byte>,
    tail: seq<byte>)
    requires AllPackets(packets) && (forall i | 0 <= i < |packets| :: 30 <= Payload(packets[i])[0] <= 49)
    requires IsPacket(keys) && Payload(keys) == [21] && stream == keys + tail && count + |packets| < 32
    ensures Through(count, Flat(packets) + stream) == Flat(packets) + stream
    decreases |packets|
  {
    if packets == [] {
      PacketIsTaken(keys, tail);
      assert Flat(packets) + stream == stream;
    } else {
      var packet, rest := packets[0], Flat(packets[1..]) + stream;
      Regroup(packet, Flat(packets[1..]), stream);
      assert Flat(packets) + stream == packet + rest;
      PacketIsTaken(packet, rest);
      KeyExchangePasses(count + 1, packets[1..], stream, keys, tail);
    }
  }

  // ---- reading on after a refusal ----

  // What a read that finds no packet leaves of the input: it has taken the five
  // bytes of a bad header, or all there was.
  function Unread(input: seq<byte>): seq<byte>
    requires TakePacket(input).None?
  {
    if |input| >= 5 && !GoodPacketHeader(input) then input[5..] else []
  }

  // What passes to a caller that reads on whatever is refused: every read in the
  // clear counts as a packet.
  function Surviving(count: nat, input: seq<byte>): seq<byte>
    decreases |input|
  {
    var taken := TakePacket(input);
    if count >= MAX_PACKETS then []
    else if taken.None? then if Unread(input) == [] then [] else Surviving(count + 1, Unread(input))
    else
      var (packet, rest) := taken.value;
      if IsNewKeys(packet) then packet + rest
      else if IsKex(packet) then packet + Surviving(count + 1, rest)
      else Surviving(count + 1, rest)
  }

  lemma EmptySurvives(count: nat)
    ensures Surviving(count, []) == []
  {}

  // It begins with what passes before the first refusal.
  lemma {:induction false} ThroughSurvives(count: nat, input: seq<byte>)
    ensures Through(count, input) <= Surviving(count, input)
    decreases |input|
  {
    if count < MAX_PACKETS && TakePacket(input).Some? && IsKex(TakePacket(input).value.0) {
      ThroughSurvives(count + 1, TakePacket(input).value.1);
    }
  }

  // Key-exchange packets, with NEWKEYS as the last one if the stream is open.
  predicate KexThenKeys(packets: seq<seq<byte>>, open: bool)
    decreases |packets|
  {
    if packets == [] then !open
    else if |packets| == 1 && open then IsPacket(packets[0]) && IsNewKeys(packets[0])
    else IsPacket(packets[0]) && IsKex(packets[0]) && KexThenKeys(packets[1..], open)
  }

  // The packets are taken in order from what comes before the tail.
  ghost predicate Lie(packets: seq<seq<byte>>, tail: seq<byte>, input: seq<byte>) {
    && |tail| <= |input| && input[|input| - |tail|..] == tail
    && Scattered(packets, input[..|input| - |tail|])
  }

  lemma LieLater(packets: seq<seq<byte>>, tail: seq<byte>, input: seq<byte>, k: nat)
    requires k <= |input| && Lie(packets, tail, input[k..])
    ensures Lie(packets, tail, input)
  {
    var front := input[..|input| - |tail|];
    assert input[k..][..|input| - k - |tail|] == front[k..];
    ScatteredLater(packets, front, k);
  }

  lemma LieFirst(packet: seq<byte>, packets: seq<seq<byte>>, tail: seq<byte>, rest: seq<byte>)
    requires Lie(packets, tail, rest)
    ensures Lie([packet] + packets, tail, packet + rest)
  {
    var input := packet + rest;
    ScatteredFirst(packet, packets, rest[..|rest| - |tail|]);
    assert input[..|input| - |tail|] == packet + rest[..|rest| - |tail|];
    assert input[|input| - |tail|..] == rest[|rest| - |tail|..];
  }

  lemma FlatFirst(packet: seq<byte>, packets: seq<seq<byte>>, tail: seq<byte>)
    ensures Flat([packet] + packets) + tail == packet + (Flat(packets) + tail)
  {
    assert ([packet] + packets)[1..] == packets;
  }

  // What a caller that reads on is given: at most 32 key-exchange packets, in
  // the order the peer sent them; if the stream is open, the last of them is
  // NEWKEYS and the tail is the end of the input, behind it.
  ghost predicate Survives(count: nat, input: seq<byte>, packets: seq<seq<byte>>, tail: seq<byte>, open: bool) {
    && KexThenKeys(packets, open) && (packets != [] ==> count + |packets| <= MAX_PACKETS)
    && Lie(packets, tail, input) && (!open ==> tail == [])
    && Surviving(count, input) == Flat(packets) + tail
  }

  lemma KeysSurvive(count: nat, input: seq<byte>, packet: seq<byte>, rest: seq<byte>)
    requires count < MAX_PACKETS && TakePacket(input) == Some((packet, rest)) && IsNewKeys(packet)
    ensures Survives(count, input, [packet], rest, true)
  {
    assert rest[|rest| - |rest|..] == rest;
    LieFirst(packet, [], rest, rest);
    FlatFirst(packet, [], rest);
    assert [packet] + [] == [packet] && [] + rest == rest;
  }

  lemma KexSurvives(count: nat, input: seq<byte>, packet: seq<byte>, rest: seq<byte>, packets: seq<seq<byte>>,
                    tail: seq<byte>, open: bool)
    requires count < MAX_PACKETS && TakePacket(input) == Some((packet, rest)) && IsKex(packet)
    requires Survives(count + 1, rest, packets, tail, open)
    ensures Survives(count, input, [packet] + packets, tail, open)
  {
    LieFirst(packet, packets, tail, rest);
    FlatFirst(packet, packets, tail);
    assert ([packet] + packets)[1..] == packets;
  }

  // A refused read leaves no more than it found.
  lemma RefusedSurvives(count: nat, input: seq<byte>, k: nat, packets: seq<seq<byte>>, tail: seq<byte>, open: bool)
    requires k <= |input| && Surviving(count, input) == Surviving(count + 1, input[k..])
    requires Survives(count + 1, input[k..], packets, tail, open)
    ensures Survives(count, input, packets, tail, open)
  {
    LieLater(packets, tail, input, k);
  }

  // So reading on gives key-exchange packets only, until a NEWKEYS among the
  // first 32 reads has passed.
  lemma {:induction false} SurvivingShape(count: nat, input: seq<byte>)
    returns (packets: seq<seq<byte>>, tail: seq<byte>, open: bool)
    ensures Survives(count, input, packets, tail, open)
    decreases |input|
  {
    packets, tail, open := [], [], false;
    var taken := TakePacket(input);
    if count >= MAX_PACKETS {
    } else if taken.None? {
      if Unread(input) != [] {
        packets, tail, open := SurvivingShape(count + 1, Unread(input));
        RefusedSurvives(count, input, 5, packets, tail, open);
      }
    } else {
      packets, tail, open := SurvivingPacket(count, input, taken.value.0, taken.value.1);
    }
  }

  lemma {:induction false} SurvivingPacket(count: nat, input: seq<byte>, packet: seq<byte>, rest: seq<byte>)
    returns (packets: seq<seq<byte>>, tail: seq<byte>, open: bool)
    requires count < MAX_PACKETS && TakePacket(input) == Some((packet, rest))
    ensures Survives(count, input, packets, tail, open)
    decreases |input|, 0
  {
    if IsNewKeys(packet) {
      KeysSurvive(count, input, packet, rest);
      return [packet], rest, true;
    }
    packets, tail, open := SurvivingShape(count + 1, rest);
    if IsKex(packet) {
      KexSurvives(count, input, packet, rest, packets, tail, open);
      packets := [packet] + packets;
    } else {
      assert input[|packet|..] == rest;
      RefusedSurvives(count, input, |packet|, packets, tail, open);
    }
  }

  class SshReader {
    var input: seq<byte>
    var wire: seq<byte>
    var encrypted: bool
    var packets: nat

    constructor (input: seq<byte>)
      ensures this.input == input && Deliverable() == Through(0, input) && Remaining() == Surviving(0, input)
    {
      this.input, wire, encrypted, packets := input, [], false, 0;
    }

    // All bytes further reads can release, whatever their buffer sizes.
    ghost function Deliverable(): seq<byte> reads this {
      wire + if encrypted then input else Through(packets, input)
    }

    // And whatever is refused on the way.
    ghost function Remaining(): seq<byte> reads this {
      wire + if encrypted then input else Surviving(packets, input)
    }

    // The connection's own Read: some of the bytes that are there, or end of file.
    method PeerRead(n: nat) returns (out: seq<byte>, ok: bool)
      requires n > 0
      modifies this`input
      ensures ok <==> old(input) != []
      ensures ok ==> 0 < |out| <= n && old(input) == out + input
      ensures !ok ==> out == [] && input == old(input)
    {
      out, ok := [], input != [];
      if ok {
        var most := if n < |input| then n else |input|;
        var size: int := *;
        if size < 1 || size > most {
          size := most;
        }
        out, input := input[..size], input[size..];
      }
    }

    // The next packet of the key exchange, if it may pass.
    method Fill() returns (ok: bool)
      requires wire == [] && !encrypted
      modifies this
      ensures ok ==> wire != [] && Deliverable() == old(Deliverable())
      ensures !ok ==> old(Deliverable()) == []
      ensures Remaining() == old(Remaining())
    {
      packets := packets + 1;
      if packets > MAX_PACKETS {
        return false;
      }
      var taken := TakePacket(input);
      if taken.None? {
        EmptySurvives(packets);
        input := Unread(input);
        return false;
      }
      input := taken.value.1;
      var payload := Payload(taken.value.0);
      var kind := payload[0];
      if (kind != 21 && (kind < 30 || kind > 49)) || (kind == 21 && |payload| != 1) {
        return false;
      }
      encrypted := kind == 21;
      wire := taken.value.0;
      ok := true;
    }

    // Up to n bytes of what is left of the packet.
    method Drain(n: nat) returns (out: seq<byte>)
      requires n > 0 && wire != []
      modifies this`wire
      ensures 0 < |out| <= n && old(Deliverable()) == out + Deliverable() && old(Remaining()) == out + Remaining()
    {
      var size := if n < |wire| then n else |wire|;
      assert wire == wire[..size] + wire[size..];
      out := wire[..size];
      wire := wire[size..];
    }

    // Read into a buffer of n bytes.
    method Read(n: nat) returns (out: seq<byte>, ok: bool)
      modifies this
      ensures n == 0 ==> ok && out == [] && Deliverable() == old(Deliverable())
      ensures n > 0 ==> (ok <==> old(Deliverable()) != [])
      ensures n > 0 && ok ==> 0 < |out| <= n && old(Deliverable()) == out + Deliverable()
      ensures !ok ==> out == []
      ensures old(Remaining()) == out + Remaining()
    {
      out, ok := [], true;
      if n == 0 {
        return;
      }
      if wire == [] {
        if encrypted {
          out, ok := PeerRead(n);
          return;
        }
        ok := Fill();
        if !ok {
          return;
        }
      }
      out := Drain(n);
    }

    // io.Copy with any buffer sizes.
    method Copy(sizes: seq<nat>) returns (out: seq<byte>, failed: bool)
      modifies this
      ensures out <= old(Deliverable())
      ensures failed ==> out == old(Deliverable())
      ensures !failed ==> old(Deliverable()) == out + Deliverable()
    {
      out, failed := [], false;
      ghost var all := Deliverable();
      for i := 0 to |sizes|
        invariant all == out + Deliverable()
      {
        var chunk, ok := Read(sizes[i]);
        if !ok {
          return out, true;
        }
        ghost var rest := Deliverable();
        assert out + (chunk + rest) == out + chunk + rest;
        out := out + chunk;
      }
    }

    // A caller that reads on, whatever is refused.
    method ReadOn(sizes: seq<nat>) returns (out: seq<byte>)
      modifies this
      ensures old(Remaining()) == out + Remaining()
    {
      out := [];
      ghost var all := Remaining();
      for i := 0 to |sizes|
        invariant all == out + Remaining()
      {
        var chunk, _ := Read(sizes[i]);
        ghost var rest := Remaining();
        assert out + (chunk + rest) == out + chunk + rest;
        out := out + chunk;
      }
    }
  }
}
