/** What the AGV's own messages say: the answers to the controller's messages, and the confirmations of its
    commands.
  */
module AgvcpAnswers {
  import opened LibMem
  import opened AgvcpFrame
  import opened Agvcp
  import opened AgvcpProtocol

  /** A payload of n octets in all that begins with the vehicle's name. */
  ghost predicate Named(agvid: word, data: seq<byte>, n: nat) {
    n >= 4 && |data| == n && WordAt(data, 0) == agvid
  }

  lemma NameThen(agvid: word, rest: seq<byte>)
    ensures Named(agvid, Htonl(agvid) + rest, 4 + |rest|) && (Htonl(agvid) + rest)[4..] == rest
  {
    HtonlValue(agvid);
    assert (Htonl(agvid) + rest)[0..4] == Htonl(agvid);
  }

  /** A bare name is enough to be for the vehicle. */
  lemma BareNameIsForUs(agvid: word, mtype: word, seqno: word)
    ensures IsForUs(agvid, Frame(mtype, seqno, Htonl(agvid)))
  {
    NameThen(agvid, []);
    assert Htonl(agvid) + [] == Htonl(agvid);
  }

  lemma WordBehind(head: seq<byte>, v: word, tail: seq<byte>)
    ensures WordAt(head + Htonl(v) + tail, |head|) == v
  {
    HtonlValue(v);
    assert (head + Htonl(v) + tail)[|head|..|head| + 4] == Htonl(v);
  }

  // ------------------------------------------------ answers

  /** An answer repeats the message's type and number and begins with the vehicle's name. To a command it says
      no more; to a parameter write, what was to be written; to a read, the parameter and its value. */
  ghost predicate IsAnswer(agvid: word, r: Frame, mtype: word, seqno: word, request: seq<byte>, reading: word) {
    && r.mtype == mtype && r.seqno == seqno
    && Named(agvid, r.data, if mtype == WRITE_PARAM || mtype == READ_PARAM then 12 else 4)
    && (mtype == WRITE_PARAM ==> |request| >= 8 && r.data[4..] == request[..8])
    && (mtype == READ_PARAM ==> WordAt(r.data, 8) == reading && (|request| >= 4 ==> r.data[4..8] == request[..4]))
  }

  /** Every answer, the first one and a repeated one, says that of the message as it stands in the buffer;
      parameter messages are always answered, commands when they are accepted or known, others never. */
  lemma AnswerSays(agvid: word, rx: Receiver, f: Frame, stale: leftover, reading: word)
    ensures var r := Process(agvid, rx, f, stale, reading);
            && (r.reply.Some? <==>
                  || f.mtype == WRITE_PARAM || f.mtype == READ_PARAM
                  || (f.mtype == ACTION && (r.verdict == EOK || r.verdict == EEXIST)))
            && (r.reply.Some? ==> IsAnswer(agvid, r.reply.value, f.mtype, f.seqno, f.data + stale, reading))
  {
    var buf := f.data + stale;
    NameThen(agvid, []);
    NameThen(agvid, buf[0..8]);
    NameThen(agvid, buf[0..4] + Htonl(reading));
    WordBehind(Htonl(agvid) + buf[0..4], reading, []);
    assert Htonl(agvid) + buf[0..4] + Htonl(reading) + [] == Htonl(agvid) + (buf[0..4] + Htonl(reading));
    assert Htonl(agvid) + buf[0..4] + Htonl(reading) == Htonl(agvid) + (buf[0..4] + Htonl(reading));
    assert Htonl(agvid) + [] == Htonl(agvid);
  }

  /** The fields of an answer, word by word, when the message holds them. */
  lemma AnswerFields(agvid: word, rx: Receiver, f: Frame, stale: leftover, reading: word)
    requires Process(agvid, rx, f, stale, reading).reply.Some?
    ensures var r := Process(agvid, rx, f, stale, reading).reply.value;
            && |r.data| >= 4 && WordAt(r.data, 0) == agvid
            && (f.mtype == ACTION ==> |r.data| == 4)
            && (f.mtype == READ_PARAM && |f.data| >= 4 ==>
                  |r.data| == 12 && WordAt(r.data, 4) == WordAt(f.data, 0) && WordAt(r.data, 8) == reading)
            && (f.mtype == WRITE_PARAM && |f.data| >= 8 ==>
                  |r.data| == 12 && WordAt(r.data, 4) == WordAt(f.data, 0) && WordAt(r.data, 8) == WordAt(f.data, 4))
  {
    AnswerSays(agvid, rx, f, stale, reading);
    var r := Process(agvid, rx, f, stale, reading).reply.value;
    if f.mtype == READ_PARAM && |f.data| >= 4 {
      assert (f.data + stale)[..4] == f.data[0..4];
    } else if f.mtype == WRITE_PARAM && |f.data| >= 8 {
      assert r.data[4..8] == r.data[4..][0..4] && r.data[8..12] == r.data[4..][4..8];
      assert (f.data + stale)[..8][0..4] == f.data[0..4] && (f.data + stale)[..8][4..8] == f.data[4..8];
    }
  }

  /** The answer to the controller's message m. */
  ghost predicate IsReply(agvid: word, r: Frame, m: Frame, reading: word) {
    |m.data| >= 4 && IsAnswer(agvid, r, m.mtype, m.seqno, m.data[4..], reading)
  }

  /** An answer to a message as received is an answer to the message as sent. */
  lemma AnswersMessage(agvid: word, r: Frame, m: Frame, f: Frame, stale: leftover, reading: word)
    requires |m.data| >= 4 && (f == Body(m) || f == Body(Cut(m))) && (m.mtype == WRITE_PARAM ==> |m.data| >= 12)
    requires IsAnswer(agvid, r, f.mtype, f.seqno, f.data + stale, reading)
    ensures IsReply(agvid, r, m, reading)
  {
    if |m.data| >= 12 {
      assert (f.data + stale)[..8] == m.data[4..][..8];
    }
    if |m.data| >= 8 {
      assert (f.data + stale)[..4] == m.data[4..][..4];
    }
  }

  /** Of a message that has no other answer. */
  lemma PlainReply(agvid: word, m: Frame, reading: word)
    requires |m.data| >= 4 && m.mtype != WRITE_PARAM && m.mtype != READ_PARAM
    ensures IsReply(agvid, Frame(m.mtype, m.seqno, Htonl(agvid)), m, reading)
  {
    NameThen(agvid, []);
    assert Htonl(agvid) + [] == Htonl(agvid);
  }

  // ------------------------------------------------ confirmations

  /** A confirmation names the vehicle, and the command by its type and number. */
  ghost predicate Confirms(agvid: word, data: seq<byte>, block: Frame) {
    Named(agvid, data, 12) && WordAt(data, 4) == block.mtype && WordAt(data, 8) == block.seqno
  }

  lemma ConfirmationNames(agvid: word, block: Frame)
    ensures Confirms(agvid, ConfirmData(agvid, block), block)
  {
    var name, mtype, seqno := Htonl(agvid), Htonl(block.mtype), Htonl(block.seqno);
    NameThen(agvid, mtype + seqno);
    WordBehind(name, block.mtype, seqno);
    WordBehind(name + mtype, block.seqno, []);
    assert name + mtype + seqno == name + (mtype + seqno) == name + mtype + seqno + [];
  }
}
