/**
 The send and receive loops of tcp_client.cpp over a kernel that may accept or deliver part
 of a request, be interrupted, time out, or fail.

 The kernel's answers are a finite script. When a script ends inside a call the call has not
 returned yet, so a script of any length is some moment of some execution, and what is
 proved about all scripts holds at every moment of every execution.
 */
module TcpClients {
  import opened Bits
  import opened Sequences

  /** One answer of `::send`: at most what was asked for, or an error with its cause. */
  datatype Answer = Accepted(n: nat) | WouldBlock | Interrupted | Broken

  /** How a call stands when its script has been used up. */
  datatype Outcome = Done | TimedOut | Failed | Pending

  const TC_ERROR := -1
  const TC_TIMEOUT := 0

  /** What the C++ call returns; the length is a `size_t` converted to `int`. */
  function Code(o: Outcome, len: nat): int
    requires !o.Pending?
  {
    match o
    case Done => ToInt32(len)
    case TimedOut => TC_TIMEOUT
    case Failed => TC_ERROR
  }

  datatype Sent = Sent(total: nat, outcome: Outcome)

  /** How far the loop gets from `sent` of `len` bytes. */
  function SendLoop(sent: nat, len: nat, script: seq<Answer>): (r: Sent)
    requires sent < len
    ensures sent <= r.total <= len
    ensures r.outcome.Done? <==> r.total == len
    ensures r.outcome.TimedOut? ==> sent == 0 && r.total == 0
    decreases |script|
  {
    if script == [] then Sent(sent, Pending)
    else
      match script[0]
      case WouldBlock => if sent == 0 then Sent(0, TimedOut) else Sent(sent, Failed)
      case Interrupted => SendLoop(sent, len, script[1..])
      case Broken => Sent(sent, Failed)
      case Accepted(n) =>
        var sent' := sent + Min(n, len - sent);
        if sent' >= len then Sent(sent', Done) else SendLoop(sent', len, script[1..])
  }

  /** How much the kernel would take, interrupted or not, before it first refuses. */
  function Offered(script: seq<Answer>): nat {
    if script == [] then 0
    else
      match script[0]
      case Accepted(n) => n + Offered(script[1..])
      case Interrupted => Offered(script[1..])
      case _ => 0
  }

  /** The refusal, or `Interrupted` if there is none in the script. */
  function Refusal(script: seq<Answer>): Answer {
    if script == [] then Interrupted
    else
      match script[0]
      case Accepted(_) => Refusal(script[1..])
      case Interrupted => Refusal(script[1..])
      case _ => script[0]
  }

  /**
   How a send ends: with the whole message if the kernel takes that much before it refuses, and
   otherwise as the refusal says, which is a timeout only when nothing was taken. Interruptions
   change nothing.
   */
  lemma {:induction false} SendLoopEnds(sent: nat, len: nat, script: seq<Answer>)
    requires sent < len
    ensures SendLoop(sent, len, script).total == sent + Min(Offered(script), len - sent)
    ensures SendLoop(sent, len, script).outcome ==
            if Offered(script) >= len - sent then Done
            else match Refusal(script)
                 case WouldBlock => if sent + Offered(script) == 0 then TimedOut else Failed
                 case Broken => Failed
                 case _ => Pending
    decreases |script|
  {
    if script != [] {
      match script[0]
      case Interrupted => SendLoopEnds(sent, len, script[1..]);
      case Accepted(n) => if n < len - sent { SendLoopEnds(sent + n, len, script[1..]); }
      case _ =>
    }
  }

  /** A connection: whether its socket is open, and every byte the kernel took from it. */
  datatype Conn = Conn(open: bool, wire: seq<byte>)

  /** The effect of one `send`. A null buffer is an empty message here: both are refused. */
  function Send(c: Conn, msg: seq<byte>, script: seq<Answer>): (Conn, Outcome) {
    if !c.open || msg == [] then (c, Failed)
    else
      var r := SendLoop(0, |msg|, script);
      (Conn(!r.outcome.Failed?, c.wire + msg[..r.total]), r.outcome)
  }

  /** What a send puts on the wire, and what becomes of the socket. */
  lemma SendPuts(c: Conn, msg: seq<byte>, script: seq<Answer>)
    ensures c.open && msg != [] ==>
              && Send(c, msg, script).0.wire == c.wire + msg[..Min(Offered(script), |msg|)]
              && (Send(c, msg, script).0.open <==> Send(c, msg, script).1 != Failed)
    ensures !c.open || msg == [] ==> Send(c, msg, script) == (c, Failed)
  {
    if c.open && msg != [] { SendLoopEnds(0, |msg|, script); }
  }

  datatype Call = Call(msg: seq<byte>, script: seq<Answer>)

  /** Consecutive calls on one connection. A call that has not returned is the last. */
  function Calls(c: Conn, calls: seq<Call>): (Conn, seq<Outcome>)
    decreases |calls|
  {
    if calls == [] then (c, [])
    else
      var (c', o) := Send(c, calls[0].msg, calls[0].script);
      if o.Pending? then (c', [o])
      else
        var (end, os) := Calls(c', calls[1..]);
        (end, [o] + os)
  }

  /** The messages whose call completed, one after the other. */
  function Delivered(calls: seq<Call>, os: seq<Outcome>): seq<byte>
    requires |os| <= |calls|
  {
    if os == [] then []
    else (if os[0].Done? then calls[0].msg else []) + Delivered(calls[1..], os[1..])
  }

  /** Position `k` is the one call that left something behind without completing. */
  ghost predicate LeftOver(calls: seq<Call>, os: seq<Outcome>, k: nat, part: seq<byte>) {
    && |os| <= |calls| && k < |os|
    && (os[k].Failed? || os[k].Pending?)
    && part < calls[k].msg
    && (forall j: nat :: k < j < |os| ==> os[j] == Failed)
  }

  lemma {:induction false} ClosedStaysClosed(c: Conn, calls: seq<Call>)
    requires !c.open
    ensures Calls(c, calls).0 == c && |Calls(c, calls).1| == |calls|
    ensures forall j: nat :: j < |calls| ==> Calls(c, calls).1[j] == Failed
    ensures Delivered(calls, Calls(c, calls).1) == []
    decreases |calls|
  {
    if calls != [] {
      ClosedStaysClosed(c, calls[1..]);
    }
  }

  ghost predicate Remainder(before: seq<byte>, calls: seq<Call>, end: Conn, os: seq<Outcome>, k: nat, part: seq<byte>) {
    && LeftOver(calls, os, k, part) && part != []
    && end.wire == before + Delivered(calls, os) + part
    && (os[k].Failed? ==> !end.open) && (os[k].Pending? ==> k == |os| - 1)
  }

  /** Over the life of a connection, the socket is open exactly as long as no call has failed. */
  lemma {:induction false} OpenUntilFailure(c: Conn, calls: seq<Call>)
    requires c.open && forall k :: 0 <= k < |calls| ==> calls[k].msg != []
    ensures Calls(c, calls).0.open <==> Failed !in Calls(c, calls).1
    decreases |calls|
  {
    if calls != [] {
      var (c', o) := Send(c, calls[0].msg, calls[0].script);
      if !o.Pending? {
        if c'.open { OpenUntilFailure(c', calls[1..]); } else { ClosedStaysClosed(c', calls[1..]); }
      }
    }
  }

  /** Whole messages, then possibly a piece of one whose call did not complete. */
  ghost predicate WellFramed(before: seq<byte>, calls: seq<Call>, end: Conn, os: seq<Outcome>) {
    |os| <= |calls| &&
    (end.wire == before + Delivered(calls, os) ||
     exists k: nat, part: seq<byte> :: Remainder(before, calls, end, os, k, part))
  }

  lemma LeftOverLater(calls: seq<Call>, os: seq<Outcome>, k: nat, part: seq<byte>)
    requires calls != [] && os != [] && LeftOver(calls[1..], os[1..], k, part)
    ensures LeftOver(calls, os, k + 1, part)
  {
    forall j: nat | k + 1 < j < |os| ensures os[j] == Failed {
      assert os[j] == os[1..][j - 1];
    }
  }

  /** A first call that completed, or took nothing, goes in front of a well-framed rest. */
  lemma FramedLater(before: seq<byte>, after: seq<byte>, calls: seq<Call>, end: Conn, os: seq<Outcome>)
    requires calls != [] && os != [] && WellFramed(after, calls[1..], end, os[1..])
    requires after == before + (if os[0].Done? then calls[0].msg else [])
    ensures WellFramed(before, calls, end, os)
  {
    var rest, os' := calls[1..], os[1..];
    ConcatAssoc(before, if os[0].Done? then calls[0].msg else [], Delivered(rest, os'));
    if end.wire != after + Delivered(rest, os') {
      var k: nat, part: seq<byte> :| Remainder(after, rest, end, os', k, part);
      LeftOverLater(calls, os, k, part);
      assert Remainder(before, calls, end, os, k + 1, part);
    }
  }

  lemma NonemptyPart(c: Conn, calls: seq<Call>, os: seq<Outcome>) returns (part: seq<byte>)
    requires c.open && calls != [] && 0 < |os| <= |calls|
    requires os[0] == Send(c, calls[0].msg, calls[0].script).1 && (os[0].Failed? || os[0].Pending?)
    requires forall j: nat :: 0 < j < |os| ==> os[j] == Failed
    requires Send(c, calls[0].msg, calls[0].script).0.wire != c.wire
    ensures LeftOver(calls, os, 0, part) && part != []
    ensures Send(c, calls[0].msg, calls[0].script).0.wire == c.wire + part
  {
    var msg := calls[0].msg;
    part := msg[..SendLoop(0, |msg|, calls[0].script).total];
    assert c.wire + [] == c.wire;
  }

  /**
   Over the life of a connection the kernel has taken the completed messages, in order and
   whole, followed by a proper prefix of at most one further message. If anything of that
   message was taken, its call failed and the socket is closed, or its call is still running.
   */
  lemma {:induction false} Framing(c: Conn, calls: seq<Call>)
    requires c.open
    ensures WellFramed(c.wire, calls, Calls(c, calls).0, Calls(c, calls).1)
    decreases |calls|
  {
    if calls == [] {
      return;
    }
    var (c', o) := Send(c, calls[0].msg, calls[0].script);
    var (end, os) := Calls(c, calls);
    if o.Pending? || !c'.open {
      ClosedStaysClosed(Conn(false, c'.wire), calls[1..]);
      assert Delivered(calls, os) == [];
      if c'.wire != c.wire {
        var part := NonemptyPart(c, calls, os);
        assert Remainder(c.wire, calls, end, os, 0, part);
      }
    } else {
      Framing(c', calls[1..]);
      var os' := Calls(c', calls[1..]).1;
      assert os == [o] + os' && os[1..] == os';
      FramedLater(c.wire, c'.wire, calls, end, os);
    }
  }

  /** A timeout means that not one byte of the message was taken, and the socket stays open. */
  lemma TimeoutTookNothing(c: Conn, msg: seq<byte>, script: seq<Answer>)
    requires Send(c, msg, script).1.TimedOut?
    ensures Send(c, msg, script).0 == c
  {
    assert c.wire + [] == c.wire;
  }

  /** The result `r` of a call that came back tells whether the call ended as `o`. */
  predicate Tells(c: Conn, msg: seq<byte>, script: seq<Answer>, r: int, o: Outcome) {
    var end := Send(c, msg, script).1;
    !end.Pending? ==> (Code(end, |msg|) == r <==> end == o)
  }

  /** A kernel that takes the whole message at once. */
  lemma SentAtOnce(c: Conn, msg: seq<byte>)
    requires c.open && msg != []
    ensures Send(c, msg, [Accepted(|msg|)]).1 == Done
  {
  }

  /**
   The result code is an `int`. Whatever the kernel answers, the result is the length exactly
   when the message was sent, if and only if an `int` can hold the length.
   */
  lemma CodeIsLengthIff(c: Conn, msg: seq<byte>)
    requires c.open && msg != []
    ensures (forall script :: Tells(c, msg, script, |msg|, Done)) <==> |msg| < 0x8000_0000
  {
    SentAtOnce(c, msg);
    assert Tells(c, msg, [Accepted(|msg|)], |msg|, Done) ==> |msg| < 0x8000_0000;
  }

  /** It is zero exactly on a timeout, if and only if the length is no multiple of 2^32. */
  lemma TimeoutCodeIff(c: Conn, msg: seq<byte>)
    requires c.open && msg != []
    ensures (forall script :: Tells(c, msg, script, TC_TIMEOUT, TimedOut)) <==> |msg| % 0x1_0000_0000 != 0
  {
    SentAtOnce(c, msg);
    assert Tells(c, msg, [Accepted(|msg|)], TC_TIMEOUT, TimedOut) ==> |msg| % 0x1_0000_0000 != 0;
  }

  /** It is -1 exactly on a failure, if and only if the length is not one less than such a multiple. */
  lemma ErrorCodeIff(c: Conn, msg: seq<byte>)
    requires c.open && msg != []
    ensures (forall script :: Tells(c, msg, script, TC_ERROR, Failed)) <==> |msg| % 0x1_0000_0000 != 0xFFFF_FFFF
  {
    SentAtOnce(c, msg);
    assert Tells(c, msg, [Accepted(|msg|)], TC_ERROR, Failed) ==> |msg| % 0x1_0000_0000 != 0xFFFF_FFFF;
  }

  // ---------- receiving ----------

  /**
   One answer of `::recv`: as much of `n` as was asked for and has arrived, where nothing at
   all is how the peer's close shows; or an error with its cause.
   */
  datatype Arrival = Bytes(n: nat) | NoData | Interruption | Fault

  datatype Got = Got(total: nat, outcome: Outcome, closes: bool)

  function RecvLoop(got: nat, len: nat, avail: nat, script: seq<Arrival>): (r: Got)
    requires got < len && got <= avail
    ensures got <= r.total <= len && r.total <= avail
    ensures r.outcome.Done? <==> r.total == len
    ensures r.closes <==> r.outcome.Failed?
    decreases |script|
  {
    if script == [] then Got(got, Pending, false)
    else
      match script[0]
      case NoData => Got(got, TimedOut, false)
      case Interruption => RecvLoop(got, len, avail, script[1..])
      case Fault => Got(got, Failed, true)
      case Bytes(n) =>
        var got' := got + Min(n, Min(len - got, avail - got));
        if got' == got then Got(got, Failed, true)
        else if got' >= len then Got(got', Done, false)
        else RecvLoop(got', len, avail, script[1..])
  }

  /** How much of a stream of `left` bytes arrives before the first answer that brings nothing. */
  function Arrived(script: seq<Arrival>, left: nat): nat
    decreases |script|
  {
    if script == [] then 0
    else
      match script[0]
      case Bytes(n) => if Min(n, left) == 0 then 0 else Min(n, left) + Arrived(script[1..], left - Min(n, left))
      case Interruption => Arrived(script[1..], left)
      case _ => 0
  }

  /** The answer that brings nothing, or `Interruption` if there is none in the script. */
  function Ending(script: seq<Arrival>, left: nat): Arrival
    decreases |script|
  {
    if script == [] then Interruption
    else
      match script[0]
      case Bytes(n) => if Min(n, left) == 0 then Bytes(0) else Ending(script[1..], left - Min(n, left))
      case Interruption => Ending(script[1..], left)
      case _ => script[0]
  }

  /**
   How a receive ends: with the whole request if that much arrives before an answer that brings
   nothing, and otherwise as that answer says, where no bytes at all are the peer's close.
   Interruptions change nothing.
   */
  lemma {:induction false} RecvLoopEnds(got: nat, len: nat, avail: nat, script: seq<Arrival>)
    requires got < len && got <= avail
    ensures RecvLoop(got, len, avail, script).total == got + Min(Arrived(script, avail - got), len - got)
    ensures RecvLoop(got, len, avail, script).outcome ==
            if Arrived(script, avail - got) >= len - got then Done
            else match Ending(script, avail - got)
                 case NoData => TimedOut
                 case Interruption => Pending
                 case _ => Failed
    decreases |script|
  {
    if script != [] {
      match script[0]
      case Interruption => RecvLoopEnds(got, len, avail, script[1..]);
      case Bytes(n) =>
        var k := Min(n, avail - got);
        if 0 < k < len - got { RecvLoopEnds(got + k, len, avail, script[1..]); }
      case _ =>
    }
  }

  /** A `recv` of `len` bytes that times out has taken nothing from the stream. */
  predicate TakesNothingOnTimeout(len: nat, avail: nat, script: seq<Arrival>)
    requires len > 0
  {
    RecvLoop(0, len, avail, script).outcome.TimedOut? ==> RecvLoop(0, len, avail, script).total == 0
  }

  /** In a loop that wants one byte, the first one to arrive ends it. */
  lemma {:induction false} OneByte(avail: nat, script: seq<Arrival>)
    ensures TakesNothingOnTimeout(1, avail, script)
    decreases |script|
  {
    if script != [] { OneByte(avail, script[1..]); }
  }

  /** Of two bytes or more, one can arrive and nothing after it. */
  lemma RecvTimeoutLosesBytes(len: nat)
    requires len >= 2
    ensures RecvLoop(0, len, 1, [Bytes(1), NoData]) == Got(1, TimedOut, false)
  {
    assert [Bytes(1), NoData][1..] == [NoData];
    assert RecvLoop(1, len, 1, [NoData]) == Got(1, TimedOut, false);
  }

  /**
   `recv` does not have the guarantee of `send`: a timeout can come after bytes have been
   taken from the stream, with the socket left open, and the next call starts past them.
   It cannot, whatever arrives, if and only if one byte is asked for.
   */
  lemma RecvTimeoutTookNothingIff(len: nat)
    requires len > 0
    ensures (forall avail: nat, script :: TakesNothingOnTimeout(len, avail, script)) <==> len == 1
  {
    if len == 1 {
      forall avail: nat, script ensures TakesNothingOnTimeout(len, avail, script) { OneByte(avail, script); }
    } else {
      RecvTimeoutLosesBytes(len);
      assert !TakesNothingOnTimeout(len, 1, [Bytes(1), NoData]);
    }
  }

  class TcpClient {
    var m_fd: int
    var wire: seq<byte>      // the kernel's side: every byte it accepted
    var stream: seq<byte>    // and every byte of the peer's not yet taken

    constructor (fd: int)
      ensures m_fd == fd && wire == [] && stream == []
    {
      m_fd, wire, stream := fd, [], [];
    }

    method Close()
      modifies `m_fd
      ensures m_fd == if old(m_fd) >= 0 then -1 else old(m_fd)
    {
      if m_fd >= 0 { m_fd := -1; }
    }

    ghost function Connection(): Conn
      reads this
    {
      Conn(m_fd >= 0, wire)
    }

    /** The loop of `send`, one kernel answer at a time. */
    method SendAll(buf: seq<byte>, script: seq<Answer>) returns (o: Outcome, r: int)
      modifies `m_fd, `wire
      ensures (Connection(), o) == Send(old(Connection()), buf, script)
      ensures !o.Pending? ==> r == Code(o, |buf|)
    {
      r := 0;
      if m_fd < 0 || |buf| == 0 { return Failed, TC_ERROR; }
      var sent, i := 0, 0;
      assert wire + buf[..0] == wire && script[0..] == script;
      while i < |script|
        invariant i <= |script| && 0 <= sent < |buf| && m_fd >= 0 && m_fd == old(m_fd)
        invariant wire == old(wire) + buf[..sent]
        invariant SendLoop(0, |buf|, script) == SendLoop(sent, |buf|, script[i..])
      {
        var answer := script[i];
        assert script[i..][1..] == script[i + 1..];
        i := i + 1;
        match answer {
          case WouldBlock =>
            if sent == 0 { return TimedOut, TC_TIMEOUT; }
            Close();
            return Failed, TC_ERROR;
          case Interrupted =>
          case Broken =>
            Close();
            return Failed, TC_ERROR;
          case Accepted(n) =>
            var k := Min(n, |buf| - sent);
            wire := wire + buf[sent..sent + k];
            assert buf[..sent] + buf[sent..sent + k] == buf[..sent + k];
            sent := sent + k;
            if sent >= |buf| {
              assert wire == old(wire) + buf[..|buf|];
              return Done, ToInt32(|buf|);
            }
        }
      }
      o := Pending;
    }

    /** `before` is what is stored so far and what is still to come; the rest of `was` is untouched. */
    ghost predicate Received(buf: array<byte>, got: nat, before: seq<byte>, was: seq<byte>)
      reads this, buf
    {
      && got <= buf.Length == |was|
      && before == buf[..got] + stream && buf[got..] == was[got..]
    }

    /** `::recv` moving up to `n` bytes of the stream into the buffer. */
    method Take(buf: array<byte>, got: nat, len: nat, n: nat, ghost before: seq<byte>, ghost was: seq<byte>)
      returns (k: nat)
      requires got < len <= buf.Length && Received(buf, got, before, was)
      modifies `stream, buf
      ensures k == Min(n, Min(len - got, |old(stream)|))
      ensures |stream| == |old(stream)| - k && Received(buf, got + k, before, was)
    {
      k := Min(n, Min(len - got, |stream|));
      for j := 0 to k
        invariant stream == old(stream)
        invariant buf[..got + j] == old(buf[..got]) + stream[..j] && buf[got + j..] == was[got + j..]
      {
        buf[got + j] := stream[j];
      }
      ConcatAssoc(old(buf[..got]), stream[..k], stream[k..]);
      assert stream[..k] + stream[k..] == stream;
      stream := stream[k..];
    }

    /** The loop of `recv`: what it stored is what it took from the stream, in order. */
    method RecvAll(buf: array<byte>, len: nat, script: seq<Arrival>) returns (o: Outcome, r: int)
      requires len <= buf.Length
      modifies `m_fd, `stream, buf
      ensures old(m_fd) < 0 || len == 0 ==> o == Failed && stream == old(stream) && buf[..] == old(buf[..])
      ensures old(m_fd) >= 0 && len > 0 ==>
                var g := RecvLoop(0, len, |old(stream)|, script);
                && o == g.outcome && (m_fd >= 0 <==> !g.closes)
                && Received(buf, g.total, old(stream), old(buf[..]))
      ensures !o.Pending? ==> r == Code(o, len)
    {
      r := 0;
      if m_fd < 0 || len == 0 { return Failed, TC_ERROR; }
      var got, i := 0, 0;
      ghost var avail := |stream|;
      ghost var g := RecvLoop(0, len, avail, script);
      assert script[0..] == script;
      while i < |script|
        invariant i <= |script| && 0 <= got < len && m_fd >= 0 && got + |stream| == avail
        invariant Received(buf, got, old(stream), old(buf[..]))
        invariant g == RecvLoop(got, len, avail, script[i..])
      {
        var answer := script[i];
        assert script[i..][1..] == script[i + 1..];
        i := i + 1;
        match answer {
          case NoData =>
            assert g.total == got;
            return TimedOut, TC_TIMEOUT;
          case Interruption =>
          case Fault =>
            assert g.total == got;
            Close();
            return Failed, TC_ERROR;
          case Bytes(n) =>
            var k := Take(buf, got, len, n, old(stream), old(buf[..]));
            if k == 0 {
              assert g.total == got;
              Close();
              return Failed, TC_ERROR;
            }
            got := got + k;
            if got >= len { return Done, ToInt32(len); }
        }
      }
      o := Pending;
    }
  }
}
