/** `writen` on a string buffer, net/Util.cpp, against an arbitrary kernel. */
module SocketWrite {
  /** What one `write` does: take some bytes, at most those offered, or fail. */
  datatype Reply = Wrote(n: nat) | Interrupted | WouldBlock | HardError

  /** What a call comes to: the bytes taken, whether it ended in a hard error, the replies not used. */
  datatype Drained = Drained(taken: nat, hard: bool, rest: seq<Reply>)

  /** Offering `bytes` to a kernel that gives these replies; without a reply left it would block. */
  function Drain(bytes: string, replies: seq<Reply>): (d: Drained)
    ensures d.taken <= |bytes|
    decreases |replies|
  {
    if bytes == "" || replies == [] then Drained(0, false, replies)
    else
      match replies[0]
      case Interrupted => Drain(bytes, replies[1..])
      case WouldBlock => Drained(0, false, replies[1..])
      case HardError => Drained(0, true, replies[1..])
      case Wrote(n) =>
        var k := if n > |bytes| then |bytes| else n;
        var d := Drain(bytes[k..], replies[1..]);
        Drained(k + d.taken, d.hard, d.rest)
  }

  /** What the kernel is ready to take in these replies. */
  function Offered(replies: seq<Reply>): nat {
    if replies == [] then 0 else (if replies[0].Wrote? then replies[0].n else 0) + Offered(replies[1..])
  }

  /**
   * Where a call stops: it goes on after bytes taken and after interruptions, stops as soon as all is sent or the
   * kernel would block or fails, and has sent as much as the replies up to there would take.
   */
  lemma {:induction false} CallStops(bytes: string, replies: seq<Reply>) returns (n: nat)
    ensures var d := Drain(bytes, replies);
            && n <= |replies| && d.rest == replies[n..]
            && (forall i :: 0 <= i < n - 1 ==> replies[i].Wrote? || replies[i].Interrupted?)
            && d.taken == (if Offered(replies[..n]) < |bytes| then Offered(replies[..n]) else |bytes|)
            && (d.taken < |bytes| && n < |replies| ==>
                  n > 0 && (replies[n - 1].WouldBlock? || replies[n - 1].HardError?))
            && (n > 0 ==> Offered(replies[..n - 1]) < |bytes|)
            && (d.hard <==> n > 0 && replies[n - 1].HardError?)
    decreases |replies|
  {
    if bytes == "" || replies == [] {
      n := 0;
      assert replies[0..] == replies;
    } else if replies[0].WouldBlock? || replies[0].HardError? {
      n := 1;
      assert replies[..1] == [replies[0]];
    } else {
      var k := if replies[0].Interrupted? then 0 else if replies[0].n > |bytes| then |bytes| else replies[0].n;
      assert bytes[0..] == bytes;
      var m := CallStops(bytes[k..], replies[1..]);
      n := m + 1;
      assert replies[1..][m..] == replies[n..];
      OfferedFrom(replies, n);
      forall i | 0 <= i < n - 1 ensures replies[i].Wrote? || replies[i].Interrupted? {
        if i > 0 {
          assert replies[1..][i - 1] == replies[i];
        }
      }
      if m > 0 {
        OfferedFrom(replies, m);
        assert replies[1..][m - 1] == replies[m];
      } else {
        assert replies[..0] == [];
      }
    }
  }

  lemma OfferedFrom(replies: seq<Reply>, n: nat)
    requires 0 < n <= |replies|
    ensures Offered(replies[..n]) == (if replies[0].Wrote? then replies[0].n else 0) + Offered(replies[1..][..n - 1])
  {
    assert replies[..n][1..] == replies[1..][..n - 1];
  }

  /** The connection's output: what the kernel has, what waits in `sbuff`, and the history. */
  datatype State = State(sent: string, sbuff: string, queued: string, reported: nat, doubled: nat)

  datatype Op = Append(bytes: string) | Writen(replies: seq<Reply>)

  const INIT := State("", "", "", 0, 0)

  /** A failed call reports -1 and leaves `sbuff` as it was, although some of it may have been sent. */
  function Step(s: State, op: Op): State {
    match op
    case Append(bytes) => s.(sbuff := s.sbuff + bytes, queued := s.queued + bytes)
    case Writen(replies) =>
      var d := Drain(s.sbuff, replies);
      if d.hard then s.(sent := s.sent + s.sbuff[..d.taken], doubled := s.doubled + d.taken)
      else s.(sent := s.sent + s.sbuff[..d.taken], sbuff := s.sbuff[d.taken..], reported := s.reported + d.taken)
  }

  function Run(ops: seq<Op>): State {
    if ops == [] then INIT else Step(Run(ops[..|ops| - 1]), ops[|ops| - 1])
  }

  /** No call of the run met a hard error after the kernel had already taken some of its bytes. */
  ghost predicate CleanFailures(ops: seq<Op>) {
    ops == [] ||
    (var front, op := ops[..|ops| - 1], ops[|ops| - 1];
     && CleanFailures(front)
     && (op.Writen? ==> var d := Drain(Run(front).sbuff, op.replies); d.hard ==> d.taken == 0))
  }

  ghost predicate Accounts(s: State) {
    && (s.doubled == 0 ==> s.sent + s.sbuff == s.queued)
    && |s.sent| + |s.sbuff| == |s.queued| + s.doubled
    && |s.sent| == s.reported + s.doubled
  }

  lemma StepAccounts(s: State, op: Op)
    requires Accounts(s)
    ensures Accounts(Step(s, op))
  {
    hide Drain;
    match op
    case Append(bytes) => assert s.sent + (s.sbuff + bytes) == (s.sent + s.sbuff) + bytes;
    case Writen(replies) =>
      var taken := Drain(s.sbuff, replies).taken;
      assert (s.sent + s.sbuff[..taken]) + s.sbuff[taken..] == s.sent + s.sbuff;
      if taken == 0 {
        assert s.sent + s.sbuff[..taken] == s.sent;
      }
  }

  lemma {:induction false} RunAccounts(ops: seq<Op>)
    ensures Accounts(Run(ops)) && (Run(ops).doubled == 0 <==> CleanFailures(ops))
  {
    hide Accounts, Drain;
    if ops == [] {
      assert Accounts(INIT) by { NothingYet(); }
    } else {
      RunAccounts(ops[..|ops| - 1]);
      StepAccounts(Run(ops[..|ops| - 1]), ops[|ops| - 1]);
    }
  }

  lemma NothingYet()
    ensures Accounts(INIT)
  {
  }

  /**
   * Over any run of appends and calls: what was sent, then `sbuff`, is everything queued, and the returned sizes
   * add up to what was sent, exactly if no call failed hard after sending part of its bytes.
   */
  lemma ConservedExactly(ops: seq<Op>)
    ensures var s := Run(ops);
            s.sent + s.sbuff == s.queued && s.reported == |s.sent| <==> CleanFailures(ops)
  {
    RunAccounts(ops);
  }

  /** One byte of two is taken before the failure: it has been sent, and still waits to be sent. */
  lemma SentTwice()
    ensures var s := Run([Append("ab"), Writen([Wrote(1), HardError])]);
            s.sent == "a" && s.sbuff == "ab" && s.sent + s.sbuff != s.queued
  {
    var replies := [Wrote(1), HardError];
    var ops := [Append("ab"), Writen(replies)];
    assert ops[..1] == [Append("ab")] && ops[..1][..0] == [];
    assert replies[1..] == [HardError] && "" + "ab" == "ab" && "ab"[1..] == "b";
  }

  // ------------------------------------------------------------------ the code

  /** A socket: the kernel's future replies, and what it has taken so far. */
  class Socket {
    var replies: seq<Reply>
    ghost var sent: string

    constructor (replies: seq<Reply>)
      ensures this.replies == replies && sent == ""
    {
      this.replies := replies;
      sent := "";
    }

    method Write(bytes: string) returns (reply: Reply)
      requires bytes != ""
      modifies this
      ensures if old(replies) == [] then reply == WouldBlock && replies == [] else replies == old(replies)[1..]
      ensures old(replies) != [] ==>
                var r := old(replies)[0]; reply == if r.Wrote? && r.n > |bytes| then Wrote(|bytes|) else r
      ensures sent == old(sent) + (if reply.Wrote? then bytes[..reply.n] else "")
    {
      if replies == [] {
        reply := WouldBlock;
      } else {
        reply := replies[0];
        replies := replies[1..];
        if reply.Wrote? {
          reply := Wrote(if reply.n > |bytes| then |bytes| else reply.n);
          sent := sent + bytes[..reply.n];
        }
      }
    }
  }

  /** A connection's output buffer, with the history that `State` keeps. */
  class Output {
    const socket: Socket
    var sbuff: string
    ghost var queued: string
    ghost var reported: nat
    ghost var doubled: nat

    ghost function View(): State
      reads this, socket
    {
      State(socket.sent, sbuff, queued, reported, doubled)
    }

    constructor (socket: Socket)
      requires socket.sent == ""
      ensures this.socket == socket && View() == INIT
    {
      this.socket := socket;
      sbuff, queued, reported, doubled := "", "", 0, 0;
    }

    /** Bytes are queued behind those that wait. */
    method Append(bytes: string)
      modifies this
      ensures View() == Step(old(View()), Op.Append(bytes))
    {
      sbuff, queued := sbuff + bytes, queued + bytes;
    }

    /** `writen(fd, sbuff)`: sends what the kernel takes; a hard error reports -1 and keeps all of the buffer. */
    method Writen() returns (result: int)
      modifies this, socket
      ensures View() == Step(old(View()), Op.Writen(old(socket.replies)))
      ensures var d := Drain(old(sbuff), old(socket.replies));
              && socket.sent == old(socket.sent) + old(sbuff)[..d.taken] && socket.replies == d.rest
              && result == (if d.hard then -1 else d.taken)
              && sbuff == (if d.hard then old(sbuff) else old(sbuff)[d.taken..])
    {
      hide Drain;
      var failed, writeSum := WriteOut();
      if failed {
        doubled := doubled + writeSum;
        return -1;
      }
      if writeSum == |sbuff| {
        sbuff := "";
      } else {
        sbuff := sbuff[writeSum..];
      }
      result, reported := writeSum, reported + writeSum;
    }

    /** The loop of `writen`. */
    method WriteOut() returns (failed: bool, writeSum: nat)
      modifies socket
      ensures var d := Drain(sbuff, old(socket.replies));
              && failed == d.hard && writeSum == d.taken && socket.replies == d.rest
              && socket.sent == old(socket.sent) + sbuff[..d.taken]
    {
      var nleft := |sbuff|;
      writeSum := 0;
      ghost var goal := Drain(sbuff, socket.replies);
      while nleft > 0
        invariant 0 <= nleft && writeSum + nleft == |sbuff|
        invariant socket.sent == old(socket.sent) + sbuff[..writeSum]
        invariant var d := Drain(sbuff[writeSum..], socket.replies);
                  goal == Drained(writeSum + d.taken, d.hard, d.rest)
        decreases |socket.replies|, nleft
      {
        ghost var sent, replies := socket.sent, socket.replies;
        var reply := socket.Write(sbuff[writeSum..]);
        match reply {
          case Interrupted =>
            assert sent + "" == sent;
          case WouldBlock =>
            assert sent + "" == sent;
            break;
          case HardError =>
            assert sent + "" == sent;
            return true, writeSum;
          case Wrote(n) =>
            assert sbuff[writeSum..][n..] == sbuff[writeSum + n..];
            assert sbuff[..writeSum] + sbuff[writeSum..][..n] == sbuff[..writeSum + n];
            writeSum := writeSum + n;
            nleft := nleft - n;
        }
      }
      failed := false;
    }
  }
}
