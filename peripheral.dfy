/** The client side of a SLOW session: the `UDPPeripheral` object and its
    connect / data / disconnect / revive exchanges.

    Every exchange builds a header, sends it, reads one reply and updates the
    object's fields. The socket is outside the model: each method receives
    what `sendto` returned and what `recvfrom` delivered (a datagram, or
    `None` for an error or a timeout) as parameters. */
module Peripheral {
  import opened Wire

  datatype Option<T> = None | Some(value: T)

  /** Window every outgoing CONNECT, DATA and REVIVE header advertises: 5 * DATA_MAX. */
  const WINDOW: bv16 := 7200

  /** Receive attempts a disconnect makes before giving up. */
  const MAX_TRIES: nat := 3

  /** The header `recvfrom` + `deserialize` yield: present only when at least
      HDR_SIZE bytes arrived. */
  function ReplyHeader(reply: Option<seq<bv8>>): (r: Option<Header>)
    ensures r.Some? <==> reply.Some? && |reply.value| >= HDR_SIZE
  {
    if reply.Some? && |reply.value| >= HDR_SIZE then Some(Decode(reply.value)) else None
  }

  /** The header taken from a reply is exactly its first 32 bytes; the rest is ignored. */
  lemma ReplyHeaderBytes(reply: Option<seq<bv8>>)
    requires reply.Some? && |reply.value| >= HDR_SIZE
    ensures Encode(ReplyHeader(reply).value) == reply.value[..HDR_SIZE]
  {
    DecodePrefix(reply.value, reply.value[..HDR_SIZE]);
    EncodeDecode(reply.value[..HDR_SIZE]);
  }

  /** The `k`-th receive outcome; outcomes past the end of the list are timeouts. */
  function ReplyAt(replies: seq<Option<seq<bv8>>>, k: nat): Option<seq<bv8>>
  {
    if k < |replies| then replies[k] else None
  }

  /** A reply that ends a disconnect: a whole header carrying FLAG_ACK. */
  predicate IsAck(reply: Option<seq<bv8>>)
  {
    ReplyHeader(reply).Some? && HasFlag(ReplyHeader(reply).value.sf, FLAG_ACK)
  }

  /** A reply that accepts a CONNECT: a whole header, ack 0, FLAG_AR set. */
  predicate ConnectAccepted(reply: Option<seq<bv8>>)
  {
    ReplyHeader(reply).Some? && ReplyHeader(reply).value.ack == 0
    && HasFlag(ReplyHeader(reply).value.sf, FLAG_AR)
  }

  /** A reply that accepts a REVIVE sent with sequence number `sentSeq` for session `sid`:
      FLAG_ACK and FLAG_AR both set, the same session id, and `ack` echoing `sentSeq`. */
  predicate ReviveAccepted(reply: Option<seq<bv8>>, sid: Sid, sentSeq: bv32)
  {
    ReplyHeader(reply).Some?
    && HasFlag(ReplyHeader(reply).value.sf, FLAG_ACK)
    && HasFlag(ReplyHeader(reply).value.sf, FLAG_AR)
    && ReplyHeader(reply).value.sid == sid
    && ReplyHeader(reply).value.ack == sentSeq
  }

  /** recvfrom into a fresh buffer of `capacity` bytes: -1 on an error or a
      timeout, otherwise the number of bytes copied (a longer datagram is cut
      to the buffer). */
  method Receive(reply: Option<seq<bv8>>, capacity: nat) returns (rbuf: array<bv8>, received: int)
    ensures fresh(rbuf) && rbuf.Length == capacity
    ensures reply.None? ==> received == -1
    ensures reply.Some? ==> received == (if |reply.value| < capacity then |reply.value| else capacity)
    ensures reply.Some? ==> rbuf[..received] == reply.value[..received]
  {
    rbuf := new bv8[capacity];
    if reply.None? {
      received := -1;
      return;
    }
    var d := reply.value;
    received := if |d| < capacity then |d| else capacity;
    forall i | 0 <= i < received {
      rbuf[i] := d[i];
    }
  }

  /** recvfrom followed by the `received < HDR_SIZE` test and deserialize. */
  method ReceiveHeader(reply: Option<seq<bv8>>, capacity: nat) returns (r: Option<Header>)
    requires capacity >= HDR_SIZE
    ensures r == ReplyHeader(reply)
  {
    var rbuf, received := Receive(reply, capacity);
    if received < HDR_SIZE {
      return None;
    }
    var h := Deserialize(rbuf);
    DecodePrefix(rbuf[..], reply.value);
    return Some(h);
  }

  /** serialize + memcpy: the bytes a send hands to `sendto`, the serialized
      header followed by the payload (empty for CONNECT and DISCONNECT). */
  method Frame(h: Header, msg: seq<bv8>) returns (pkt: seq<bv8>)
    requires |msg| <= DATA_MAX
    ensures |pkt| == HDR_SIZE + |msg|
    ensures pkt[..HDR_SIZE] == Encode(h) && pkt[HDR_SIZE..] == msg
    ensures Decode(pkt) == h
  {
    var buf := new bv8[HDR_SIZE + DATA_MAX];
    Serialize(h, buf);
    forall i | 0 <= i < |msg| {
      buf[HDR_SIZE + i] := msg[i];
    }
    pkt := buf[..HDR_SIZE + |msg|];
    assert pkt[..HDR_SIZE] == buf[..HDR_SIZE];
    assert pkt[HDR_SIZE..] == msg;
    DecodePrefix(pkt, Encode(h));
    DecodeEncode(h);
  }

  /** The receive loop of disconnect: up to MAX_TRIES reads, stopping at the
      first whole header that carries FLAG_ACK. */
  method AwaitAck(replies: seq<Option<seq<bv8>>>) returns (acked: bool, tries: nat)
    ensures 1 <= tries <= MAX_TRIES
    ensures acked <==> exists k :: 0 <= k < MAX_TRIES && IsAck(ReplyAt(replies, k))
    ensures acked ==> IsAck(ReplyAt(replies, tries - 1))
    ensures !acked ==> tries == MAX_TRIES
    ensures forall k :: 0 <= k < tries - 1 ==> !IsAck(ReplyAt(replies, k))
  {
    var attempt := 1;
    while attempt <= MAX_TRIES
      invariant 1 <= attempt <= MAX_TRIES + 1
      invariant forall k :: 0 <= k < attempt - 1 ==> !IsAck(ReplyAt(replies, k))
    {
      var r := ReceiveHeader(ReplyAt(replies, attempt - 1), HDR_SIZE);
      if r.Some? && HasFlag(r.value.sf, FLAG_ACK) {
        return true, attempt;
      }
      attempt := attempt + 1;
    }
    return false, MAX_TRIES;
  }

  class UdpPeripheral {
    /** Socket descriptor; negative until a socket is opened. */
    var fd: int
    /** Session header kept by storeSession for a later revive. */
    var lastHdr: Header
    /** Last header accepted from the central. */
    var prevHdr: Header
    var active: bool
    var hasPrev: bool
    var nextSeq: bv32
    var lastCentralSeq: bv32

    /** An active session can always be revived later. */
    ghost predicate Valid()
      reads this
    {
      active ==> hasPrev
    }

    constructor ()
      ensures Valid()
      ensures fd == -1 && !active && !hasPrev && nextSeq == 0 && lastCentralSeq == 0
      ensures lastHdr == EmptyHeader() && prevHdr == EmptyHeader()
    {
      fd := -1;
      lastHdr := EmptyHeader();
      prevHdr := EmptyHeader();
      active := false;
      hasPrev := false;
      nextSeq := 0;
      lastCentralSeq := 0;
    }

    /** init: keeps the descriptor `socket` returned, fails if it is negative
        or if the host name did not resolve. */
    method Init(socketFd: int, resolved: bool) returns (ok: bool)
      requires Valid()
      modifies this`fd
      ensures Valid()
      ensures fd == socketFd
      ensures ok <==> socketFd >= 0 && resolved
    {
      fd := socketFd;
      if fd < 0 {
        return false;
      }
      if !resolved {
        return false;
      }
      return true;
    }

    /** connect: sends a CONNECT (nil session id, FLAG_C only, window 7200)
        numbered with the next sequence number, and adopts the reply as the
        session header if it has ack 0 and FLAG_AR. */
    method Connect(sendResult: int, reply: Option<seq<bv8>>) returns (ok: bool, sent: seq<bv8>)
      requires Valid()
      modifies this
      ensures Valid()
      ensures |sent| == HDR_SIZE
      ensures Decode(sent) == Header(NilSid(), FLAG_C, old(nextSeq), 0, WINDOW, 0, 0)
      ensures nextSeq == old(nextSeq) + 1
      ensures ok <==> sendResult >= HDR_SIZE && ConnectAccepted(reply)
      ensures ok ==> && prevHdr == ReplyHeader(reply).value && active && hasPrev
                     && lastCentralSeq == prevHdr.seqNo
      ensures !ok ==> && prevHdr == old(prevHdr) && active == old(active)
                      && hasPrev == old(hasPrev) && lastCentralSeq == old(lastCentralSeq)
      ensures lastHdr == old(lastHdr) && fd == old(fd)
    {
      var h := EmptyHeader();
      h := h.(seqNo := nextSeq);
      nextSeq := nextSeq + 1;
      h := h.(wnd := WINDOW);
      h := h.(sf := h.sf | FLAG_C);

      sent := Frame(h, []);

      if sendResult < HDR_SIZE {
        return false, sent;
      }
      var r := ReceiveHeader(reply, HDR_SIZE + DATA_MAX);
      if r.None? {
        return false, sent;
      }
      if r.value.ack != 0 || !HasFlag(r.value.sf, FLAG_AR) {
        return false, sent;
      }
      prevHdr := r.value;
      hasPrev := true;
      active := true;
      lastCentralSeq := r.value.seqNo;
      return true, sent;
    }

    /** disconnect: when active, sends the session header renumbered, acking
        the central's last sequence number, with flags exactly FLAG_C|FLAG_R,
        then waits for an acknowledgement over up to MAX_TRIES receives. */
    method Disconnect(sendResult: int, replies: seq<Option<seq<bv8>>>)
      returns (ok: bool, sent: Option<seq<bv8>>, tries: nat)
      requires Valid()
      modifies this
      ensures Valid()
      ensures !old(active) ==> !ok && sent == None && tries == 0 && nextSeq == old(nextSeq)
      ensures old(active) ==> nextSeq == old(nextSeq) + 1 && sent.Some? && |sent.value| == HDR_SIZE
      ensures sent.Some? ==>
        var h := Decode(sent.value);
        && h.sid == old(prevHdr).sid && h.seqNo == old(nextSeq) && h.ack == old(lastCentralSeq)
        && Flags(h.sf) == FLAG_C | FLAG_R && Ttl(h.sf) == Ttl(old(prevHdr).sf)
        && h.wnd == old(prevHdr).wnd && h.fid == old(prevHdr).fid && h.fo == old(prevHdr).fo
      ensures ok <==> && old(active) && sendResult >= HDR_SIZE
                      && exists k :: 0 <= k < MAX_TRIES && IsAck(ReplyAt(replies, k))
      ensures tries <= MAX_TRIES
      ensures tries == 0 <==> !old(active) || sendResult < HDR_SIZE
      ensures ok ==> tries >= 1 && IsAck(ReplyAt(replies, tries - 1))
      ensures forall k :: 0 <= k < tries - 1 ==> !IsAck(ReplyAt(replies, k))
      ensures old(active) && sendResult >= HDR_SIZE && !ok ==> tries == MAX_TRIES
      ensures active == (old(active) && !ok)
      ensures && prevHdr == old(prevHdr) && lastHdr == old(lastHdr) && hasPrev == old(hasPrev)
              && lastCentralSeq == old(lastCentralSeq) && fd == old(fd)
    {
      if !active {
        return false, None, 0;
      }
      var h := prevHdr;
      h := h.(seqNo := nextSeq);
      nextSeq := nextSeq + 1;
      h := h.(ack := lastCentralSeq);
      h := h.(sf := WithFlags(h.sf, FLAG_C | FLAG_R));
      assert Flags(h.sf) == FLAG_C | FLAG_R && Ttl(h.sf) == Ttl(prevHdr.sf);

      var pkt := Frame(h, []);
      sent := Some(pkt);
      assert Decode(sent.value) == h && |sent.value| == HDR_SIZE;

      if sendResult < HDR_SIZE {
        return false, sent, 0;
      }
      ok, tries := AwaitAck(replies);
      if ok {
        active := false;
      }
    }

    /** sendData: when active and the message fits one packet, sends the
        session header renumbered, acking the central's last sequence number,
        with every flag cleared and window 7200, followed by the message;
        the exchange succeeds when the reply carries FLAG_ACK. */
    method SendData(msg: seq<bv8>, sendResult: int, reply: Option<seq<bv8>>)
      returns (ok: bool, sent: Option<seq<bv8>>)
      requires Valid()
      modifies this
      ensures Valid()
      ensures !old(active) || |msg| > DATA_MAX ==> !ok && sent == None && nextSeq == old(nextSeq)
      ensures old(active) && |msg| <= DATA_MAX ==>
        && nextSeq == old(nextSeq) + 1 && sent.Some?
        && |sent.value| == HDR_SIZE + |msg| && sent.value[HDR_SIZE..] == msg
      ensures sent.Some? ==>
        var h := Decode(sent.value);
        && h.sid == old(prevHdr).sid && h.seqNo == old(nextSeq) && h.ack == old(lastCentralSeq)
        && Flags(h.sf) == 0 && Ttl(h.sf) == Ttl(old(prevHdr).sf)
        && h.wnd == WINDOW && h.fid == old(prevHdr).fid && h.fo == old(prevHdr).fo
      ensures ok <==> && old(active) && |msg| <= DATA_MAX && sendResult >= 0
                      && ReplyHeader(reply).Some? && HasFlag(ReplyHeader(reply).value.sf, FLAG_ACK)
      ensures ok ==> prevHdr == ReplyHeader(reply).value && lastCentralSeq == prevHdr.seqNo
      ensures !ok ==> prevHdr == old(prevHdr) && lastCentralSeq == old(lastCentralSeq)
      ensures active == old(active) && hasPrev == old(hasPrev) && lastHdr == old(lastHdr) && fd == old(fd)
    {
      if !active || |msg| > DATA_MAX {
        return false, None;
      }
      var h := prevHdr;
      h := h.(seqNo := nextSeq);
      nextSeq := nextSeq + 1;
      h := h.(ack := lastCentralSeq);
      h := h.(wnd := WINDOW);
      h := h.(sf := WithFlags(h.sf, 0));

      var pkt := Frame(h, msg);
      sent := Some(pkt);

      if sendResult < 0 {
        return false, sent;
      }
      var r := ReceiveHeader(reply, HDR_SIZE + DATA_MAX);
      if r.None? {
        return false, sent;
      }
      if !HasFlag(r.value.sf, FLAG_ACK) {
        return false, sent;
      }
      lastCentralSeq := r.value.seqNo;
      prevHdr := r.value;
      return true, sent;
    }

    /** storeSession: while active, keeps the current session header for a later revive. */
    method StoreSession()
      requires Valid()
      modifies this`lastHdr, this`hasPrev
      ensures Valid()
      ensures old(active) ==> lastHdr == prevHdr && hasPrev
      ensures !old(active) ==> lastHdr == old(lastHdr) && hasPrev == old(hasPrev)
    {
      if active {
        lastHdr := prevHdr;
        hasPrev := true;
      }
    }

    /** canRevive: whether a session header is kept; an active session always has one. */
    function CanRevive(): (r: bool)
      reads this
      ensures Valid() && active ==> r
    {
      hasPrev
    }

    /** zeroWay: with an open socket and a kept session, sends the kept header
        renumbered, acking the central's last sequence number, with flags
        exactly FLAG_R and window 7200, followed by the message; the session
        becomes active again when the reply carries FLAG_ACK and FLAG_AR, the
        same session id and an ack equal to the sequence number just sent. */
    method ZeroWay(msg: seq<bv8>, sendResult: int, reply: Option<seq<bv8>>)
      returns (ok: bool, sent: Option<seq<bv8>>)
      requires Valid()
      requires |msg| <= DATA_MAX
      modifies this
      ensures Valid()
      ensures old(fd) < 0 || !old(hasPrev) ==> !ok && sent == None && nextSeq == old(nextSeq)
      ensures old(fd) >= 0 && old(hasPrev) ==>
        && nextSeq == old(nextSeq) + 1 && sent.Some?
        && |sent.value| == HDR_SIZE + |msg| && sent.value[HDR_SIZE..] == msg
      ensures sent.Some? ==>
        var h := Decode(sent.value);
        && h.sid == old(lastHdr).sid && h.seqNo == old(nextSeq) && h.ack == old(lastCentralSeq)
        && Flags(h.sf) == FLAG_R && Ttl(h.sf) == Ttl(old(lastHdr).sf)
        && h.wnd == WINDOW && h.fid == old(lastHdr).fid && h.fo == old(lastHdr).fo
      ensures ok <==> && old(fd) >= 0 && old(hasPrev) && sendResult >= 0
                      && ReviveAccepted(reply, old(lastHdr).sid, old(nextSeq))
      ensures ok ==> && prevHdr == ReplyHeader(reply).value && active
                     && lastCentralSeq == prevHdr.seqNo
      ensures !ok ==> && prevHdr == old(prevHdr) && active == old(active)
                      && lastCentralSeq == old(lastCentralSeq)
      ensures lastHdr == old(lastHdr) && hasPrev == old(hasPrev) && fd == old(fd)
    {
      if fd < 0 || !hasPrev {
        return false, None;
      }
      var h := lastHdr;
      h := h.(seqNo := nextSeq);
      nextSeq := nextSeq + 1;
      h := h.(ack := lastCentralSeq);
      h := h.(wnd := WINDOW);
      h := h.(sf := WithFlags(h.sf, FLAG_R));

      var pkt := Frame(h, msg);
      sent := Some(pkt);

      if sendResult < 0 {
        return false, sent;
      }
      var r := ReceiveHeader(reply, HDR_SIZE + DATA_MAX);
      if r.None? {
        return false, sent;
      }
      if HasFlag(r.value.sf, FLAG_ACK) && HasFlag(r.value.sf, FLAG_AR)
         && SidEqual(r.value.sid, lastHdr.sid) && r.value.ack == h.seqNo {
        prevHdr := r.value;
        active := true;
        lastCentralSeq := r.value.seqNo;
        return true, sent;
      }
      return false, sent;
    }
  }

  /** The interactive client's main path: connect, store the session before
      disconnecting, then revive it. Sequence numbers run 0, 1, 2, so the
      revive is accepted by a reply that acknowledges 2, and the revive
      carries the session id the central assigned in its setup reply. */
  method ReviveAfterDisconnect(setup: Header, teardownAck: Header, reviveAck: Header, msg: seq<bv8>)
    returns (revived: bool, reviveSid: Sid)
    requires setup.ack == 0 && HasFlag(setup.sf, FLAG_AR)
    requires HasFlag(teardownAck.sf, FLAG_ACK)
    requires HasFlag(reviveAck.sf, FLAG_ACK) && HasFlag(reviveAck.sf, FLAG_AR)
    requires reviveAck.sid == setup.sid && reviveAck.ack == 2
    requires |msg| <= DATA_MAX
    ensures revived && reviveSid == setup.sid
  {
    DecodeEncode(setup);
    DecodeEncode(teardownAck);
    DecodeEncode(reviveAck);
    var p := new UdpPeripheral();
    var initialised := p.Init(3, true);
    assert ReplyHeader(Some(Encode(setup))) == Some(setup);
    var connected, _ := p.Connect(HDR_SIZE, Some(Encode(setup)));
    assert connected && p.prevHdr == setup && p.active && p.nextSeq == 1;
    p.StoreSession();
    assert p.lastHdr == setup && p.hasPrev && p.fd == 3;
    var teardown := [Some(Encode(teardownAck))];
    assert IsAck(ReplyAt(teardown, 0));
    var closed, _, _ := p.Disconnect(HDR_SIZE, teardown);
    assert closed && p.nextSeq == 2 && p.lastHdr == setup && p.hasPrev && p.fd == 3;
    assert ReviveAccepted(Some(Encode(reviveAck)), p.lastHdr.sid, p.nextSeq);
    var sent;
    revived, sent := p.ZeroWay(msg, HDR_SIZE + |msg|, Some(Encode(reviveAck)));
    reviveSid := Decode(sent.value).sid;
  }

  /** connect marks a session as revivable without keeping its header: a
      revive straight after connect, with no storeSession in between, still
      goes out with the nil session id of the default header. */
  method ReviveWithoutStore(setup: Header, msg: seq<bv8>) returns (canRevive: bool, reviveSid: Sid)
    requires setup.ack == 0 && HasFlag(setup.sf, FLAG_AR)
    requires |msg| <= DATA_MAX
    ensures canRevive && reviveSid == NilSid()
  {
    DecodeEncode(setup);
    var p := new UdpPeripheral();
    var initialised := p.Init(3, true);
    var connected, _ := p.Connect(HDR_SIZE, Some(Encode(setup)));
    canRevive := p.CanRevive();
    var revived, sent := p.ZeroWay(msg, HDR_SIZE + |msg|, None);
    reviveSid := Decode(sent.value).sid;
  }
}
