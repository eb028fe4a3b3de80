/** The AGV's end of the control protocol (usr/application/agvcp.c): duplicate suppression, the bounded
    action queue, waiting for an acknowledgement, retransmission, and the confirm-then-dispatch loop.

    What the socket delivers is a parameter (a script of polls); what the code does to the outside world
    is recorded in the fields outbox, written and dispatched of `Link` and notices of `Health`.
  */
module Agvcp {
  import opened Arithmetic
  import opened LibMem
  import opened OsKernel
  import opened AgvcpFrame

  const REGISTER: word := 1
  const UNREGISTER: word := 2
  const HEARTBEAT: word := 7
  const ERROR_REPORT: word := 13
  const ACTION_OVER: word := 20
  const REPORT_FLAGPOINT: word := 23
  const CONFIRM: word := 30
  const ACTION: word := 1010
  const READ_PARAM: word := 2000
  const WRITE_PARAM: word := 2001

  const MAX_ACTIONS := 4 // MAX_ACTION_NUM: blocks in the pool and slots in the queue
  const POLLS := 100     // WAIT_ACK_TIMEOUT over the 10 ms delay
  const MAIN_BUFFER := 256

  datatype Verdict = EOK | EBADMSG | EEXIST | EAGAIN | ENOTSUP

  /** The receiving half of a connection. */
  datatype Receiver = Receiver(rxseq: word, free: nat, que: seq<Frame>)

  datatype Reaction = Reaction(verdict: Verdict, rx: Receiver, reply: Option<Frame>, write: Option<(word, word)>)

  /** Octets that the receive buffer holds beyond the received payload. */
  type leftover = s: seq<byte> | |s| == 8 witness [0, 0, 0, 0, 0, 0, 0, 0]

  function WordAt(buf: seq<byte>, at: nat): word
    requires at + 4 <= |buf|
  {
    WordBound(buf, at);
    BigValue(buf[at..at + 4])
  }

  predicate IsDuplicate(rx: Receiver, seqno: word) {
    seqno == rx.rxseq && seqno != 0 && rx.rxseq != 0
  }

  /** `buffer_msg`. */
  function Buffer(rx: Receiver, f: Frame): Option<Receiver> {
    if rx.free == 0 || |f.data| + 16 > MAX_MSG || QFull(rx.que, MAX_ACTIONS) then
      None
    else
      Some(rx.(free := rx.free - 1, que := QPost(rx.que, MAX_ACTIONS, f)))
  }

  /** `agvcp_msg_process` on a frame whose AGV name has been stripped; reading is what the parameter
      callback returns. */
  function Process(agvid: word, rx: Receiver, f: Frame, stale: leftover, reading: word): Reaction {
    var buf := f.data + stale;
    if f.mtype == ACTION then
      if (WordAt(buf, 4) + 8) % WORD != |f.data| then
        Reaction(EBADMSG, rx, None, None)
      else if IsDuplicate(rx, f.seqno) then
        Reaction(EEXIST, rx, Some(Frame(f.mtype, f.seqno, Htonl(agvid))), None)
      else
        match Buffer(rx, f)
        case None => Reaction(EAGAIN, rx, None, None)
        case Some(rx') =>
          Reaction(EOK, rx'.(rxseq := f.seqno), Some(Frame(f.mtype, f.seqno, Htonl(agvid))), None)
    else if f.mtype == WRITE_PARAM then
      var reply := Some(Frame(f.mtype, f.seqno, Htonl(agvid) + buf[0..8]));
      if IsDuplicate(rx, f.seqno) then
        Reaction(EEXIST, rx, reply, None)
      else
        Reaction(EOK, rx.(rxseq := f.seqno), reply, Some((WordAt(buf, 0), WordAt(buf, 4))))
    else if f.mtype == READ_PARAM then
      var reply := Some(Frame(f.mtype, f.seqno, Htonl(agvid) + buf[0..4] + Htonl(reading)));
      Reaction(EOK, rx.(rxseq := f.seqno), reply, None)
    else
      Reaction(ENOTSUP, rx, None, None)
  }

  // ------------------------------------------------ the whole connection, and whole exchanges

  /** polls counts the calls of `agv_rx_msg` made while waiting; times holds that count at each dispatch. */
  datatype Link = Link(txseq: word, rx: Receiver, outbox: seq<Frame>, written: seq<(word, word)>,
                       dispatched: seq<Frame>, times: seq<nat>, polls: nat)

  /** One call of `agv_rx_msg` while waiting. */
  datatype Poll = Quiet | Got(frame: Frame, stale: leftover, reading: word)

  function AsSeq<T>(o: Option<T>): seq<T> {
    if o.None? then [] else [o.value]
  }

  function Next(seqno: word): word { (seqno + 1) % WORD }

  predicate IsAck(p: Poll, mtype: word, seqno: word) {
    p.Got? && p.frame.mtype == mtype && p.frame.seqno == seqno
  }

  /** The frame without the AGV name that its payload begins with. */
  function Body(f: Frame): Frame
    requires |f.data| >= 4
  {
    f.(data := f.data[4..])
  }

  predicate IsForUs(agvid: word, f: Frame) {
    |f.data| >= 4 && WordAt(f.data, 0) == agvid
  }

  function Processed(agvid: word, s: Link, f: Frame, stale: leftover, reading: word): Link {
    var r := Process(agvid, s.rx, f, stale, reading);
    s.(rx := r.rx, outbox := s.outbox + AsSeq(r.reply), written := s.written + AsSeq(r.write))
  }

  /** What `wait_ack` does with a poll that is not the expected acknowledgement. */
  function Listen(agvid: word, s: Link, p: Poll): Link {
    var s1 := s.(polls := s.polls + 1);
    if p.Got? && |p.frame.data| > 4 && IsForUs(agvid, p.frame) then
      Processed(agvid, s1, Body(p.frame), p.stale, p.reading)
    else
      s1
  }

  function Listened(agvid: word, s: Link, script: seq<Poll>, n: nat): Link
    requires n <= |script|
  {
    if n == 0 then s else Listen(agvid, Listened(agvid, s, script, n - 1), script[n - 1])
  }

  /** Position of the first acknowledgement in script[..n], or n. */
  function FirstAck(script: seq<Poll>, mtype: word, seqno: word, n: nat): (k: nat)
    requires n <= |script|
    ensures k <= n && (k < n ==> IsAck(script[k], mtype, seqno))
    ensures forall i :: 0 <= i < k ==> !IsAck(script[i], mtype, seqno)
  {
    if n == 0 then
      0
    else
      var k := FirstAck(script, mtype, seqno, n - 1);
      if k < n - 1 || IsAck(script[n - 1], mtype, seqno) then k else n
  }

  function Transmit(s: Link, f: Frame): Link {
    if |f.data| + 8 >= MAX_MSG then s else s.(outbox := s.outbox + [f])
  }

  datatype Ending = Done | GaveUp | Unfinished

  datatype Round = Round(link: Link, acked: bool, used: nat)

  /** From the label RETRY to the outcome of `wait_ack`. */
  function TryOnce(agvid: word, s: Link, f: Frame, script: seq<Poll>): (r: Round)
    requires |script| >= POLLS
    ensures r.used <= POLLS && (r.acked ==> r.used > 0) && (!r.acked ==> r.used == POLLS)
  {
    var s1 := Transmit(s, f);
    var k := FirstAck(script, f.mtype, f.seqno, POLLS);
    var s2 := Listened(agvid, s1, script, k);
    if k < POLLS then Round(s2.(txseq := Next(s2.txseq), polls := s2.polls + 1), true, k + 1)
    else Round(s2, false, POLLS)
  }

  datatype Exchange = Exchange(link: Link, ending: Ending, used: nat)

  /** `agv_send_msg_locked`: retries == 0 retransmits for ever. Unfinished: the script ends first. */
  function Send(agvid: word, s: Link, f: Frame, retries: nat, script: seq<Poll>): (x: Exchange)
    ensures x.used <= |script|
    ensures x.ending == Done && f.mtype != HEARTBEAT ==> x.used > 0
    decreases |script|
  {
    if f.mtype == HEARTBEAT then
      Exchange(Transmit(s, f).(txseq := Next(s.txseq)), Done, 0)
    else if |script| < POLLS then
      Exchange(Transmit(s, f), Unfinished, 0)
    else
      var r := TryOnce(agvid, s, f, script);
      if r.acked then
        Exchange(r.link, Done, r.used)
      else if retries == 1 then
        Exchange(r.link, GaveUp, POLLS)
      else
        var x := Send(agvid, r.link, f, if retries == 0 then 0 else retries - 1, script[POLLS..]);
        x.(used := POLLS + x.used)
  }

  lemma {:induction false} UnlimitedNeverGivesUp(agvid: word, s: Link, f: Frame, script: seq<Poll>)
    ensures Send(agvid, s, f, 0, script).ending != GaveUp
    decreases |script|
  {
    if f.mtype != HEARTBEAT && |script| >= POLLS {
      UnlimitedNeverGivesUp(agvid, TryOnce(agvid, s, f, script).link, f, script[POLLS..]);
    }
  }

  /** The MSG_CONFIRM for a buffered action. */
  function ConfirmData(agvid: word, block: Frame): seq<byte> {
    Htonl(agvid) + Htonl(block.mtype) + Htonl(block.seqno)
  }

  function Confirmation(agvid: word, txseq: word, block: Frame): Frame {
    Frame(CONFIRM, txseq, ConfirmData(agvid, block))
  }

  /** A run of `process_buffered_msg`; held is the block taken from the queue when the script ends. */
  datatype Draining = Draining(link: Link, held: Option<Frame>, used: nat)

  /** One pass of the drain loop on the block at the head of the queue. */
  function DrainOne(agvid: word, s: Link, script: seq<Poll>): (d: Draining)
    requires s.rx.que != []
    ensures d.used <= |script|
    ensures d.held.None? ==> d.used > 0 || |d.link.rx.que| < |s.rx.que|
  {
    var block := s.rx.que[0];
    var s1 := s.(rx := s.rx.(que := s.rx.que[1..]));
    if block.mtype != ACTION then
      Draining(s1.(rx := s1.rx.(free := s1.rx.free + 1)), None, 0)
    else
      var x := Send(agvid, s1, Confirmation(agvid, s1.txseq, block), 0, script);
      if x.ending != Done then Draining(x.link, Some(block), x.used)
      else Draining(Dispatched(x.link, block), None, x.used)
  }

  /** The action goes to the callback and its block back to the pool. */
  function Dispatched(s: Link, block: Frame): Link {
    s.(dispatched := s.dispatched + [block], times := s.times + [s.polls], rx := s.rx.(free := s.rx.free + 1))
  }

  function Drain(agvid: word, s: Link, script: seq<Poll>): (d: Draining)
    ensures d.used <= |script|
    decreases |script|, |s.rx.que|
  {
    if s.rx.que == [] then
      Draining(s, None, 0)
    else
      var one := DrainOne(agvid, s, script);
      if one.held.Some? then
        one
      else
        var d := Drain(agvid, one.link, script[one.used..]);
        d.(used := one.used + d.used)
  }

  /** One turn of the main loop receives at most one message. */
  function Received(agvid: word, s: Link, p: Poll): Link {
    if p.Got? && IsForUs(agvid, p.frame) then
      Processed(agvid, s, Body(p.frame), p.stale, p.reading)
    else
      s
  }

  predicate Accepts(agvid: word, rx: Receiver, p: Poll) {
    p.Got? && IsForUs(agvid, p.frame) && Process(agvid, rx, Body(p.frame), p.stale, p.reading).verdict == EOK
  }

  /** Draining from s with what is left of the script is the rest of the whole. */
  ghost predicate Continues(agvid: word, s: Link, script: seq<Poll>, used: nat, whole: Draining) {
    && used <= |script|
    && var rest := Drain(agvid, s, script[used..]);
       rest.(used := used + rest.used) == whole
  }

  lemma ContinuesAfter(agvid: word, s: Link, script: seq<Poll>, used: nat, whole: Draining, one: Draining)
    requires Continues(agvid, s, script, used, whole) && s.rx.que != []
    requires one == DrainOne(agvid, s, script[used..])
    ensures one.held.Some? ==> one.(used := used + one.used) == whole
    ensures one.held.None? ==> Continues(agvid, one.link, script, used + one.used, whole)
  {
    assert script[used..][one.used..] == script[used + one.used..];
  }

  // ------------------------------------------------ the state of the connection

  datatype ConnState = OFFLINE | REGISTERING | ONLINE | ERROR | UNREGISTERING

  datatype Notice = LOST | RECOVERY

  const MAX_ERRCNT := 5

  datatype Health = Health(state: ConnState, errCnt: word, notices: seq<Notice>)

  function Recovered(h: Health): Health {
    if h.state == ERROR then h.(state := ONLINE, notices := h.notices + [RECOVERY]) else h
  }

  /** What an exchange does to it. */
  function Judged(h: Health, mtype: word, ending: Ending): Health {
    if mtype == HEARTBEAT || ending == Unfinished then
      h
    else if ending == GaveUp then
      var h1 := h.(errCnt := Next(h.errCnt));
      if h1.errCnt > MAX_ERRCNT && h1.state == ONLINE
      then h1.(state := ERROR, notices := h1.notices + [LOST]) else h1
    else
      Recovered(h)
  }

  /** A connection in error recovers with the first acknowledged confirmation, that is, with the first
      action dispatched. */
  predicate Risen(before: seq<Frame>, h: Health, after: seq<Frame>, h1: Health) {
    |after| >= |before| && h1 == if |after| > |before| then Recovered(h) else h
  }

  lemma RisenAgain(d: seq<Frame>, h: Health, d1: seq<Frame>, h1: Health, d2: seq<Frame>, h2: Health)
    requires Risen(d, h, d1, h1) && Risen(d1, h1, d2, h2)
    ensures Risen(d, h, d2, h2)
  {
  }

  // ------------------------------------------------ the code

  class Connection {
    const agvid: word
    var txseq: word
    var rxseq: word
    var free: nat
    var que: seq<Frame>
    var connState: ConnState
    var errCnt: word
    var outbox: seq<Frame>
    var written: seq<(word, word)>
    var dispatched: seq<Frame>
    var times: seq<nat>
    var polls: nat
    var notices: seq<Notice>

    ghost function Status(): Health
      reads this
    {
      Health(connState, errCnt, notices)
    }

    ghost function Rx(): Receiver
      reads this
    {
      Receiver(rxseq, free, que)
    }

    ghost function State(): Link
      reads this
    {
      Link(txseq, Rx(), outbox, written, dispatched, times, polls)
    }

    /** `agvcp_init`. */
    constructor (name: word)
      ensures agvid == name && Status() == Health(OFFLINE, 0, [])
      ensures State() == Link(0, Receiver(0xFFFF_FFFF, MAX_ACTIONS, []), [], [], [], [], 0)
    {
      agvid := name;
      txseq, rxseq := 0, 0xFFFF_FFFF;
      free, que := MAX_ACTIONS, [];
      connState, errCnt := OFFLINE, 0;
      outbox, written, dispatched, times, polls, notices := [], [], [], [], 0, [];
    }

    /** `agv_tx_msg`, as far as the socket. */
    method TransmitMsg(f: Frame)
      modifies `outbox
      ensures State() == Transmit(old(State()), f)
    {
      var packet := TxMsg(f.mtype, f.seqno, f.data);
      if packet.Some? {
        outbox := outbox + [f];
      }
    }

    method BufferMsg(f: Frame) returns (ok: bool)
      modifies `free, `que
      ensures ok == Buffer(old(Rx()), f).Some?
      ensures Rx() == if ok then Buffer(old(Rx()), f).value else old(Rx())
    {
      if free == 0 {
        return false;
      }
      free := free - 1;
      if |f.data| + 16 > MAX_MSG {
        free := free + 1;
        return false;
      }
      if QFull(que, MAX_ACTIONS) {
        free := free + 1;
        return false;
      }
      que := que + [f];
      ok := true;
    }

    method MsgProcess(f: Frame, stale: leftover, reading: word) returns (v: Verdict)
      modifies `rxseq, `free, `que, `outbox, `written
      ensures v == Process(agvid, old(Rx()), f, stale, reading).verdict
      ensures State() == Processed(agvid, old(State()), f, stale, reading)
    {
      var buf := f.data + stale;
      var name := Htonl(agvid);
      if f.mtype == ACTION {
        var paramlen := WordAt(buf, 4);
        if (paramlen + 8) % WORD != |f.data| {
          return EBADMSG;
        }
        if f.seqno == rxseq && f.seqno != 0 && rxseq != 0 {
          TransmitMsg(Frame(f.mtype, f.seqno, name));
          v := EEXIST;
        } else {
          var ok := BufferMsg(f);
          if ok {
            v := EOK;
            TransmitMsg(Frame(f.mtype, f.seqno, name));
          } else {
            v := EAGAIN;
          }
        }
      } else if f.mtype == WRITE_PARAM {
        TransmitMsg(Frame(f.mtype, f.seqno, name + buf[0..8]));
        if f.seqno == rxseq && f.seqno != 0 && rxseq != 0 {
          v := EEXIST;
        } else {
          written := written + [(WordAt(buf, 0), WordAt(buf, 4))];
          v := EOK;
        }
      } else if f.mtype == READ_PARAM {
        TransmitMsg(Frame(f.mtype, f.seqno, name + buf[0..4] + Htonl(reading)));
        v := EOK;
      } else {
        v := ENOTSUP;
      }
      if v == EOK {
        rxseq := f.seqno;
      }
    }

    method WaitAck(mtype: word, seqno: word, script: seq<Poll>) returns (acked: bool, used: nat)
      requires |script| >= POLLS
      modifies `rxseq, `free, `que, `outbox, `written, `polls
      ensures acked <==> exists i :: 0 <= i < POLLS && IsAck(script[i], mtype, seqno)
      ensures var k := FirstAck(script, mtype, seqno, POLLS);
              && acked == (k < POLLS)
              && used == (if acked then k + 1 else POLLS)
              && State() == Listened(agvid, old(State()), script, k).(polls := old(polls) + used)
    {
      ListeningCounts(agvid, State(), script, FirstAck(script, mtype, seqno, POLLS));
      acked, used := false, 0;
      ghost var k := FirstAck(script, mtype, seqno, POLLS);
      var tmcount := 0;
      while tmcount < 1000
        invariant tmcount == 10 * used && used <= POLLS && !acked
        invariant used <= k
        invariant State() == Listened(agvid, old(State()), script, used)
      {
        tmcount := tmcount + 10;
        var p := script[used];
        used := used + 1;
        polls := polls + 1;
        if p.Got? {
          if p.frame.mtype == mtype && p.frame.seqno == seqno {
            acked := true;
            break;
          } else if |p.frame.data| > 4 {
            var id := WordAt(p.frame.data, 0);
            if id == agvid {
              var _ := MsgProcess(Frame(p.frame.mtype, p.frame.seqno, p.frame.data[4..]), p.stale, p.reading);
            }
          }
        }
      }
    }

    /** `on_connection_recovery` and the change of state beside it. */
    method Recover()
      modifies `connState, `notices
      ensures Status() == Recovered(old(Status()))
    {
      if connState == ERROR {
        notices := notices + [RECOVERY];
        connState := ONLINE;
      }
    }

    /** Transmits and waits once, and counts an acknowledged message. */
    method TryMsg(f: Frame, script: seq<Poll>) returns (acked: bool, used: nat)
      requires |script| >= POLLS
      modifies `txseq, `rxseq, `free, `que, `outbox, `written, `polls
      ensures Round(State(), acked, used) == TryOnce(agvid, old(State()), f, script)
    {
      ghost var k := FirstAck(script, f.mtype, f.seqno, POLLS);
      TransmitMsg(f);
      ListeningCounts(agvid, State(), script, k);
      acked, used := WaitAck(f.mtype, f.seqno, script);
      if acked {
        txseq := Next(txseq);
      }
    }

    method SendMsgLocked(mtype: word, msg: seq<byte>, retries: nat, script: seq<Poll>)
      returns (ending: Ending, used: nat)
      modifies `txseq, `rxseq, `free, `que, `outbox, `written, `polls, `connState, `errCnt, `notices
      ensures Exchange(State(), ending, used) ==
              Send(agvid, old(State()), Frame(mtype, old(txseq), msg), retries, script)
      ensures Status() == Judged(old(Status()), mtype, ending)
    {
      var f := Frame(mtype, txseq, msg);
      if mtype == HEARTBEAT {
        TransmitMsg(f);
        txseq := Next(txseq);
        return Done, 0;
      }
      ending, used := SendWithRetries(f, retries, script);
      if ending == GaveUp {
        errCnt := Next(errCnt);
        if errCnt > MAX_ERRCNT && connState == ONLINE {
          notices := notices + [LOST];
          connState := ERROR;
        }
      } else if ending == Done {
        Recover();
      }
    }

    /** The RETRY loop for a message that is acknowledged. */
    method SendWithRetries(f: Frame, retries: nat, script: seq<Poll>) returns (ending: Ending, used: nat)
      requires f.mtype != HEARTBEAT
      modifies `txseq, `rxseq, `free, `que, `outbox, `written, `polls
      ensures Exchange(State(), ending, used) == Send(agvid, old(State()), f, retries, script)
    {
      var left := retries;
      ghost var whole := Send(agvid, State(), f, retries, script);
      used := 0;
      assert script[0..] == script;
      while |script| - used >= POLLS
        invariant used <= |script|
        invariant var x := Send(agvid, State(), f, left, script[used..]); x.(used := used + x.used) == whole
        decreases |script| - used
      {
        var rest := script[used..];
        var acked, n := TryMsg(f, rest);
        assert rest[POLLS..] == script[used + POLLS..];
        used := used + n;
        if acked {
          return Done, used;
        }
        if left == 1 {
          return GaveUp, used;
        }
        left := if left == 0 then 0 else left - 1;
      }
      TransmitMsg(f);
      ending := Unfinished;
    }

    /** The body of the loop in `process_buffered_msg`. */
    method DispatchOne(script: seq<Poll>) returns (held: Option<Frame>, used: nat)
      requires que != []
      modifies this
      ensures Draining(State(), held, used) == DrainOne(agvid, old(State()), script)
      ensures Risen(old(dispatched), old(Status()), dispatched, Status())
    {
      used := 0;
      var block := que[0];
      que := que[1..];
      if block.mtype == ACTION {
        UnlimitedNeverGivesUp(agvid, State(), Confirmation(agvid, txseq, block), script);
        var ending;
        ending, used := SendMsgLocked(CONFIRM, ConfirmData(agvid, block), 0, script);
        if ending != Done {
          return Some(block), used;
        }
        dispatched, times := dispatched + [block], times + [polls];
      }
      free := free + 1;
      held := None;
    }

    /** The same as a step of the whole drain. */
    method DispatchNext(script: seq<Poll>, used0: nat, ghost whole: Draining, ghost d: seq<Frame>, ghost h: Health)
      returns (held: Option<Frame>, used: nat)
      requires que != [] && Continues(agvid, State(), script, used0, whole) && Risen(d, h, dispatched, Status())
      modifies this
      ensures used0 <= used <= |script| && (held == None ==> used > used0 || |que| < |old(que)|)
      ensures held.Some? ==> Draining(State(), held, used) == whole
      ensures held == None ==> Continues(agvid, State(), script, used, whole)
      ensures Risen(d, h, dispatched, Status())
    {
      ghost var d0, h0, one := dispatched, Status(), DrainOne(agvid, State(), script[used0..]);
      ContinuesAfter(agvid, State(), script, used0, whole, one);
      var n;
      held, n := DispatchOne(script[used0..]);
      assert Draining(State(), held, n) == one;
      RisenAgain(d, h, d0, h0, dispatched, Status());
      used := used0 + n;
    }

    /** `process_buffered_msg`: returns the block being confirmed if the script ends first. */
    method ProcessBufferedMsg(script: seq<Poll>) returns (held: Option<Frame>, used: nat)
      modifies this
      ensures Draining(State(), held, used) == Drain(agvid, old(State()), script)
      ensures Risen(old(dispatched), old(Status()), dispatched, Status())
    {
      used, held := 0, None;
      ghost var whole, h, d := Drain(agvid, State(), script), Status(), dispatched;
      assert script[0..] == script;
      while que != []
        invariant held == None && Continues(agvid, State(), script, used, whole)
        invariant Risen(d, h, dispatched, Status())
        decreases |script| - used, |que|
      {
        held, used := DispatchNext(script, used, whole, d, h);
        if held.Some? {
          return;
        }
      }
    }

    /** One pass of the loop in `agvcp_connectoin_process` after the heartbeat: receive, then drain. */
    method Turn(received: Poll, script: seq<Poll>) returns (held: Option<Frame>, used: nat)
      requires received.Got? ==> 4 <= |received.frame.data| <= MAIN_BUFFER
      modifies this
      ensures Draining(State(), held, used) == Drain(agvid, Received(agvid, old(State()), received), script)
      ensures var h := if Accepts(agvid, old(Rx()), received) then Recovered(old(Status())) else old(Status());
              Risen(old(dispatched), h, dispatched, Status())
    {
      if received.Got? {
        var id := WordAt(received.frame.data, 0);
        if id == agvid {
          var v := MsgProcess(Body(received.frame), received.stale, received.reading);
          if v == EOK {
            Recover();
          }
        }
      }
      held, used := ProcessBufferedMsg(script);
    }
  }

  /** Listening counts its polls, and sends and dispatches nothing. */
  lemma {:induction false} ListeningCounts(agvid: word, s: Link, script: seq<Poll>, n: nat)
    requires n <= |script|
    ensures Listened(agvid, s, script, n).polls == s.polls + n
    ensures Listened(agvid, s, script, n).txseq == s.txseq
    ensures Listened(agvid, s, script, n).dispatched == s.dispatched
  {
    if n > 0 {
      ListeningCounts(agvid, s, script, n - 1);
    }
  }
}
