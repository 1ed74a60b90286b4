/** select_mq.c: one child per message queue copies each message, with a header in front, to a
    pipe that all children share; the parent reads header and body back and prints them. */
module SelectMq {
  import opened Wrappers
  import opened Bytes

  const MAX_MTEXT: nat := 400
  const PIPE_BUF: nat := 4096
  const HEADER: nat := 16       // offsetof(struct pbuf, mtext)

  datatype Msg = Msg(mtype: nat, text: seq<Byte>)

  /** What a child has received so far, and whether the last of it is still to be written. */
  datatype Child = Child(received: seq<Msg>, unsent: bool, exited: bool)

  datatype Parent = AtHeader | AtBody | Fatal

  datatype Shown = Shown(msqid: nat, mtype: nat, text: seq<Byte>)

  datatype State = State(
    ids: seq<nat>,            // the queue each child monitors
    children: seq<Child>,
    capacity: nat,
    pipe: seq<Byte>,
    parent: Parent,
    pmsg: seq<Byte>,          // the parent's buffer, header and text
    out: seq<Shown>)

  datatype Step = Receive(i: nat, m: Msg) | Write(i: nat) | ReadHeader | ReadBody

  // ---------------------------------------------------------------------
  // Records
  // ---------------------------------------------------------------------

  function Header(msqid: nat, m: Msg): (h: seq<Byte>)
    ensures |h| == HEADER
  {
    Encode(msqid, 4) + Encode(|m.text|, 4) + Encode(m.mtype, 8)
  }

  function Record(msqid: nat, m: Msg): seq<Byte> {
    Header(msqid, m) + m.text
  }

  function MsqidOf(b: seq<Byte>): nat
    requires |b| >= HEADER
  {
    Decode(b[..4])
  }

  function LenOf(b: seq<Byte>): nat
    requires |b| >= HEADER
  {
    Decode(b[4..8])
  }

  function MtypeOf(b: seq<Byte>): nat
    requires |b| >= HEADER
  {
    Decode(b[8..16])
  }

  /** Values that fit the int and long fields; msgrcv() takes no longer text. */
  predicate MsgOk(msqid: nat, m: Msg) {
    msqid < 0x8000_0000 && m.mtype < 0x8000_0000_0000_0000 && |m.text| <= MAX_MTEXT
  }

  lemma HeaderDecodes(msqid: nat, m: Msg, b: seq<Byte>)
    requires MsgOk(msqid, m) && |b| >= HEADER && b[..HEADER] == Header(msqid, m)
    ensures MsqidOf(b) == msqid && LenOf(b) == |m.text| && MtypeOf(b) == m.mtype
  {
    var h := Header(msqid, m);
    assert b[..4] == h[..4] == Encode(msqid, 4);
    assert b[4..8] == h[4..8] == Encode(|m.text|, 4);
    assert b[8..16] == h[8..16] == Encode(m.mtype, 8);
    Widths();
    RoundTrip(msqid, 4);
    RoundTrip(|m.text|, 4);
    RoundTrip(m.mtype, 8);
  }

  // ---------------------------------------------------------------------
  // Steps
  // ---------------------------------------------------------------------

  predicate Initial(s: State) {
    && |s.children| == |s.ids|
    && (forall i :: 0 <= i < |s.children| ==> s.children[i] == Child([], false, false))
    && (forall i :: 0 <= i < |s.ids| ==> s.ids[i] < 0x8000_0000)
    && s.capacity >= PIPE_BUF && s.pipe == [] && s.parent == AtHeader
    && |s.pmsg| == HEADER + MAX_MTEXT && s.out == []
  }

  function Unsent(s: State, i: nat): seq<Byte>
    requires i < |s.children| == |s.ids| && s.children[i].unsent && s.children[i].received != []
  {
    var c := s.children[i];
    Record(s.ids[i], c.received[|c.received| - 1])
  }

  /** A write of at most PIPE_BUF bytes waits until all of it fits; a read waits for the first
      byte, unless it asks for none. The parent keeps the write end open, so there is no end of file. */
  predicate Enabled(s: State, a: Step) {
    && |s.pmsg| >= HEADER && |s.children| == |s.ids|
    && match a
       case Receive(i, m) =>
         && i < |s.children| && !s.children[i].unsent && !s.children[i].exited
         && s.ids[i] < 0x8000_0000 && m.mtype < 0x8000_0000_0000_0000
       case Write(i) =>
         && i < |s.children| && s.children[i].unsent && s.children[i].received != []
         && |s.pipe| + |Unsent(s, i)| <= s.capacity
       case ReadHeader => s.parent == AtHeader && s.pipe != []
       case ReadBody => s.parent == AtBody && (LenOf(s.pmsg) == 0 || s.pipe != [])
  }

  /** read() of up to n bytes into the buffer at an offset: what was there before stays behind it. */
  function Filled(b: seq<Byte>, off: nat, pipe: seq<Byte>, n: nat): seq<Byte>
    requires off <= |b|
  {
    var got := pipe[..Min(n, |pipe|)];
    b[..off] + got + if off + |got| <= |b| then b[off + |got|..] else []
  }

  function Rest(pipe: seq<Byte>, n: nat): seq<Byte> {
    pipe[Min(n, |pipe|)..]
  }

  function Next(s: State, a: Step): State
    requires Enabled(s, a)
  {
    match a
    case Receive(i, m) =>
      var c := s.children[i];
      if |m.text| > MAX_MTEXT then s.(children := s.children[i := c.(exited := true)])
      else s.(children := s.children[i := c.(received := c.received + [m], unsent := true)])
    case Write(i) =>
      s.(pipe := s.pipe + Unsent(s, i), children := s.children[i := s.children[i].(unsent := false)])
    case ReadHeader =>
      s.(pmsg := Filled(s.pmsg, 0, s.pipe, HEADER), pipe := Rest(s.pipe, HEADER), parent := AtBody)
    case ReadBody =>
      var len := LenOf(s.pmsg);
      if len == 0 then s.(parent := Fatal)
      else
        var b := Filled(s.pmsg, HEADER, s.pipe, len);
        s.(pmsg := b, pipe := Rest(s.pipe, len), parent := AtHeader,
           out := s.out + [Shown(MsqidOf(b), MtypeOf(b), b[HEADER..Min(HEADER + len, |b|)])])
  }

  ghost predicate IsRun(s: State, steps: seq<Step>)
    decreases |steps|
  {
    steps == [] || (Enabled(s, steps[0]) && IsRun(Next(s, steps[0]), steps[1..]))
  }

  ghost function After(s: State, steps: seq<Step>): State
    requires IsRun(s, steps)
    decreases |steps|
  {
    if steps == [] then s else After(Next(s, steps[0]), steps[1..])
  }

  // ---------------------------------------------------------------------
  // The pipe holds whole records
  // ---------------------------------------------------------------------

  /** A message written to the pipe, and by which child. */
  datatype Sent = Sent(i: nat, m: Msg)

  ghost predicate LogOk(ids: seq<nat>, log: seq<Sent>) {
    forall k :: 0 <= k < |log| ==> log[k].i < |ids| && MsgOk(ids[log[k].i], log[k].m)
  }

  ghost function Wire(ids: seq<nat>, log: seq<Sent>): seq<Byte>
    requires LogOk(ids, log)
  {
    if log == [] then [] else Record(ids[log[0].i], log[0].m) + Wire(ids, log[1..])
  }

  lemma {:induction false} WireAppend(ids: seq<nat>, log: seq<Sent>, x: Sent)
    requires LogOk(ids, log) && x.i < |ids| && MsgOk(ids[x.i], x.m)
    ensures LogOk(ids, log + [x]) && Wire(ids, log + [x]) == Wire(ids, log) + Record(ids[x.i], x.m)
  {
    assert forall k :: 0 <= k < |log + [x]| ==> k < |log| || (log + [x])[k] == [x][0];
    if log == [] {
      assert log + [x] == [x];
    } else {
      WireAppend(ids, log[1..], x);
      assert (log + [x])[1..] == log[1..] + [x];
    }
  }

  /** The messages of one child, in order. */
  function Of(log: seq<Sent>, i: nat): seq<Msg> {
    if log == [] then []
    else Of(log[..|log| - 1], i) + if log[|log| - 1].i == i then [log[|log| - 1].m] else []
  }

  ghost predicate ChildOk(c: Child, sent: seq<Msg>) {
    if c.unsent then |c.received| > 0 && |c.received[|c.received| - 1].text| <= MAX_MTEXT
                     && c.received[|c.received| - 1].mtype < 0x8000_0000_0000_0000
                     && c.received[..|c.received| - 1] == sent
    else c.received == sent
  }

  ghost predicate ShownAs(ids: seq<nat>, x: Sent, o: Shown)
    requires x.i < |ids|
  {
    o == Shown(ids[x.i], x.m.mtype, x.m.text) && o.text != []
  }

  /** The parent's side: what it printed is the beginning of the log, what the pipe holds the rest. */
  ghost predicate Reading(s: State, log: seq<Sent>)
    requires LogOk(s.ids, log) && |s.out| <= |log| && |s.pmsg| >= HEADER
  {
    var n := |s.out|;
    match s.parent
    case AtHeader => s.pipe == Wire(s.ids, log[n..])
    case AtBody =>
      && n < |log| && s.pmsg[..HEADER] == Header(s.ids[log[n].i], log[n].m)
      && s.pipe == log[n].m.text + Wire(s.ids, log[n + 1..])
    case Fatal => n < |log| && log[n].m.text == []
  }

  ghost predicate Inv(s: State, log: seq<Sent>) {
    && |s.children| == |s.ids| && s.capacity >= PIPE_BUF && |s.pmsg| == HEADER + MAX_MTEXT
    && (forall i :: 0 <= i < |s.ids| ==> s.ids[i] < 0x8000_0000)
    && LogOk(s.ids, log) && |s.out| <= |log|
    && (forall k :: 0 <= k < |s.out| ==> ShownAs(s.ids, log[k], s.out[k]))
    && (forall i :: 0 <= i < |s.children| ==> ChildOk(s.children[i], Of(log, i)))
    && Reading(s, log)
  }

  lemma InitialInv(s: State)
    requires Initial(s)
    ensures Inv(s, [])
  {
  }

  /** A record added at the end leaves what the parent is reading as it was. */
  lemma WriteReading(s: State, log: seq<Sent>, x: Sent, s': State)
    requires LogOk(s.ids, log) && |s.out| <= |log| && |s.pmsg| >= HEADER && Reading(s, log)
    requires x.i < |s.ids| && MsgOk(s.ids[x.i], x.m)
    requires s' == s.(children := s'.children, pipe := s.pipe + Record(s.ids[x.i], x.m))
    ensures LogOk(s.ids, log + [x]) && Reading(s', log + [x])
  {
    var n := |s.out|;
    var log' := log + [x];
    hide Record, Header;
    assert log'[n..] == log[n..] + [x];
    WireAppend(s.ids, log[n..], x);
    if n < |log| {
      assert log'[n + 1..] == log[n + 1..] + [x];
      WireAppend(s.ids, log[n + 1..], x);
    }
  }

  lemma WriteChildren(cs: seq<Child>, i: nat, log: seq<Sent>)
    requires i < |cs| && cs[i].unsent && cs[i].received != []
    requires forall k :: 0 <= k < |cs| ==> ChildOk(cs[k], Of(log, k))
    ensures var x := Sent(i, cs[i].received[|cs[i].received| - 1]);
            var cs' := cs[i := cs[i].(unsent := false)];
            forall k :: 0 <= k < |cs| ==> ChildOk(cs'[k], Of(log + [x], k))
  {
    var x := Sent(i, cs[i].received[|cs[i].received| - 1]);
    assert (log + [x])[..|log|] == log;
    assert ChildOk(cs[i], Of(log, i));
    assert cs[i].received == cs[i].received[..|cs[i].received| - 1] + [x.m];
  }

  lemma WriteInv(s: State, i: nat, log: seq<Sent>) returns (log': seq<Sent>)
    requires Inv(s, log) && Enabled(s, Write(i))
    ensures Inv(Next(s, Write(i)), log') && |log'| == |log| + 1
  {
    var c := s.children[i];
    var x := Sent(i, c.received[|c.received| - 1]);
    log' := log + [x];
    assert ChildOk(c, Of(log, i));
    WriteReading(s, log, x, Next(s, Write(i)));
    WriteChildren(s.children, i, log);
    hide Wire, Record, Of, ChildOk, Reading;
  }

  lemma FirstRecord(ids: seq<nat>, log: seq<Sent>, n: nat)
    requires LogOk(ids, log) && n <= |log| && Wire(ids, log[n..]) != []
    ensures n < |log|
    ensures Wire(ids, log[n..]) == Header(ids[log[n].i], log[n].m) + (log[n].m.text + Wire(ids, log[n + 1..]))
  {
    hide Header;
    assert log[n..] != [];
    assert log[n..][1..] == log[n + 1..];
  }

  lemma ReadHeaderInv(s: State, log: seq<Sent>)
    requires Inv(s, log) && Enabled(s, ReadHeader)
    ensures Inv(Next(s, ReadHeader), log)
  {
    hide Wire, Header, Record, Of, ChildOk, LenOf;
    var n := |s.out|;
    FirstRecord(s.ids, log, n);
    var h := Header(s.ids[log[n].i], log[n].m);
    assert s.pipe[..HEADER] == h && Rest(s.pipe, HEADER) == log[n].m.text + Wire(s.ids, log[n + 1..]);
    assert Next(s, ReadHeader).pmsg[..HEADER] == h;
  }

  lemma ReadBodyInv(s: State, log: seq<Sent>)
    requires Inv(s, log) && Enabled(s, ReadBody)
    ensures Inv(Next(s, ReadBody), log)
  {
    hide Wire, Header, Record, Of, ChildOk, LenOf, MsqidOf, MtypeOf;
    var n := |s.out|;
    var x := log[n];
    HeaderDecodes(s.ids[x.i], x.m, s.pmsg);
    var len := |x.m.text|;
    if len > 0 {
      var b := Filled(s.pmsg, HEADER, s.pipe, len);
      assert s.pipe[..len] == x.m.text && Rest(s.pipe, len) == Wire(s.ids, log[n + 1..]);
      assert b[..HEADER] == s.pmsg[..HEADER];
      HeaderDecodes(s.ids[x.i], x.m, b);
      assert b[HEADER..HEADER + len] == x.m.text;
    }
  }

  lemma NextInv(s: State, a: Step, log: seq<Sent>) returns (log': seq<Sent>)
    requires Inv(s, log) && Enabled(s, a)
    ensures Inv(Next(s, a), log') && |log'| == |log| + Count(a.Write?)
  {
    log' := log;
    match a
    case Receive(i, m) => ReceiveInv(s, i, m, log);
    case Write(i) => log' := WriteInv(s, i, log);
    case ReadHeader => ReadHeaderInv(s, log);
    case ReadBody => ReadBodyInv(s, log);
  }

  lemma ReceiveInv(s: State, i: nat, m: Msg, log: seq<Sent>)
    requires Inv(s, log) && Enabled(s, Receive(i, m))
    ensures Inv(Next(s, Receive(i, m)), log)
  {
    var s' := Next(s, Receive(i, m));
    var c := s.children[i];
    assert ChildOk(c, Of(log, i));
    assert (c.received + [m])[..|c.received|] == c.received;
    forall k | 0 <= k < |s'.children| ensures ChildOk(s'.children[k], Of(log, k)) {
      assert ChildOk(s.children[k], Of(log, k));
    }
  }

  lemma {:induction false} RunInv(s: State, steps: seq<Step>, log: seq<Sent>) returns (log': seq<Sent>)
    requires Inv(s, log) && IsRun(s, steps)
    ensures Inv(After(s, steps), log') && After(s, steps).ids == s.ids
    decreases |steps|
  {
    log' := log;
    if steps != [] {
      log' := NextInv(s, steps[0], log);
      log' := RunInv(Next(s, steps[0]), steps[1..], log');
    }
  }

  lemma {:induction false} OfPrefix(log: seq<Sent>, n: nat, i: nat)
    requires n <= |log|
    ensures Of(log[..n], i) <= Of(log, i)
  {
    if n == |log| {
      assert log[..n] == log;
    } else {
      OfPrefix(log[..|log| - 1], n, i);
      assert log[..|log| - 1][..n] == log[..n];
    }
  }

  /** What the parent prints is an order-preserving merge of prefixes of what the children
      received, with queue, type and text of every message intact, and its buffer never overflows. */
  lemma OutputIsAMerge(s: State, steps: seq<Step>) returns (log: seq<Sent>)
    requires Initial(s) && IsRun(s, steps)
    ensures var t := After(s, steps);
            && |t.pmsg| == HEADER + MAX_MTEXT
            && |log| == |t.out| && |t.children| == |s.ids|
            && (forall k :: 0 <= k < |log| ==> log[k].i < |s.ids| && ShownAs(s.ids, log[k], t.out[k]))
            && (forall i :: 0 <= i < |s.ids| ==> Of(log, i) <= t.children[i].received)
  {
    InitialInv(s);
    var all := RunInv(s, steps, []);
    var t := After(s, steps);
    log := all[..|t.out|];
    forall i | 0 <= i < |s.ids| ensures Of(log, i) <= t.children[i].received {
      OfPrefix(all, |t.out|, i);
      assert ChildOk(t.children[i], Of(all, i));
    }
  }

  /** The printed messages of one queue. */
  function FromQueue(out: seq<Shown>, q: nat): seq<Msg> {
    if out == [] then []
    else
      var last := out[|out| - 1];
      FromQueue(out[..|out| - 1], q) + if last.msqid == q then [Msg(last.mtype, last.text)] else []
  }

  lemma {:induction false} FromQueueIsOf(ids: seq<nat>, log: seq<Sent>, out: seq<Shown>, i: nat)
    requires |log| == |out| && i < |ids|
    requires forall k :: 0 <= k < |log| ==> log[k].i < |ids| && ShownAs(ids, log[k], out[k])
    requires forall j, k :: 0 <= j < k < |ids| ==> ids[j] != ids[k]
    ensures FromQueue(out, ids[i]) == Of(log, i)
  {
    if log != [] {
      FromQueueIsOf(ids, log[..|log| - 1], out[..|out| - 1], i);
      assert ShownAs(ids, log[|log| - 1], out[|log| - 1]);
    }
  }

  /** No queue named twice: the printed messages of each queue are a prefix of those its child
      received, in that order. */
  lemma QueueOrderIsKept(s: State, steps: seq<Step>, i: nat)
    requires Initial(s) && IsRun(s, steps) && i < |s.ids|
    requires forall j, k :: 0 <= j < k < |s.ids| ==> s.ids[j] != s.ids[k]
    ensures var t := After(s, steps);
            |t.children| == |s.ids| && FromQueue(t.out, s.ids[i]) <= t.children[i].received
  {
    var log := OutputIsAMerge(s, steps);
    FromQueueIsOf(s.ids, log, After(s, steps).out, i);
  }

  // ---------------------------------------------------------------------
  // Nothing is left behind
  // ---------------------------------------------------------------------

  /** No step but the arrival of another message is possible. */
  ghost predicate Idle(s: State) {
    forall a: Step :: Enabled(s, a) ==> a.Receive?
  }

  ghost predicate NoneEmpty(s: State) {
    forall i, k :: 0 <= i < |s.children| && 0 <= k < |s.children[i].received|
      ==> s.children[i].received[k].text != []
  }

  /** A record fits an empty pipe, and an atomic write. */
  lemma RecordsFit(s: State, i: nat, log: seq<Sent>)
    requires Inv(s, log) && i < |s.children| && s.children[i].unsent
    ensures s.children[i].received != [] && |Unsent(s, i)| <= PIPE_BUF
  {
    assert ChildOk(s.children[i], Of(log, i));
  }

  /** An idle parent has read all there is: if it waits for a header, the pipe is empty and every
      child has written all it received. It never waits for a body. */
  lemma IdleMeansRead(s: State, log: seq<Sent>)
    requires Inv(s, log) && Idle(s)
    ensures s.parent != AtBody
    ensures s.parent == AtHeader ==> s.pipe == [] && |s.out| == |log|
    ensures s.parent == AtHeader ==> forall i :: 0 <= i < |s.children| ==> !s.children[i].unsent
  {
    assert !Enabled(s, ReadBody) && !Enabled(s, ReadHeader);
    if s.parent == AtBody {
      var x := log[|s.out|];
      HeaderDecodes(s.ids[x.i], x.m, s.pmsg);
    } else if s.parent == AtHeader {
      forall i | 0 <= i < |s.children| ensures !s.children[i].unsent {
        assert !Enabled(s, Write(i));
        if s.children[i].unsent {
          RecordsFit(s, i, log);
        }
      }
    }
  }

  lemma {:induction false} InOf(log: seq<Sent>, k: nat)
    requires k < |log|
    ensures log[k].m in Of(log, log[k].i)
  {
    if k < |log| - 1 {
      InOf(log[..|log| - 1], k);
    }
  }

  lemma {:induction false} OfComesFrom(log: seq<Sent>, i: nat, m: Msg)
    requires m in Of(log, i)
    ensures exists k :: 0 <= k < |log| && log[k] == Sent(i, m)
  {
    var n := |log| - 1;
    if log[n] != Sent(i, m) {
      OfComesFrom(log[..n], i, m);
      var k :| 0 <= k < n && log[..n][k] == Sent(i, m);
      assert log[k] == Sent(i, m);
    }
  }

  lemma SentWasReceived(s: State, log: seq<Sent>, k: nat)
    requires Inv(s, log) && k < |log|
    ensures log[k].i < |s.children| && log[k].m in s.children[log[k].i].received
  {
    InOf(log, k);
    assert ChildOk(s.children[log[k].i], Of(log, log[k].i));
  }

  lemma ReceivedWasShown(s: State, log: seq<Sent>, i: nat, k: nat)
    requires Inv(s, log) && |s.out| == |log|
    requires i < |s.children| && !s.children[i].unsent && k < |s.children[i].received|
    ensures s.children[i].received[k].text != []
  {
    var m := s.children[i].received[k];
    assert ChildOk(s.children[i], Of(log, i));
    OfComesFrom(log, i, m);
    var n :| 0 <= n < |log| && log[n] == Sent(i, m);
    assert ShownAs(s.ids, log[n], s.out[n]);
  }

  /** Once nothing but a new message can happen: the parent has given up with "EOF on pipe" exactly
      when some child received an empty message; otherwise every message received was printed. */
  lemma AllShownUnlessEmpty(s: State, steps: seq<Step>) returns (log: seq<Sent>)
    requires Initial(s) && IsRun(s, steps) && Idle(After(s, steps))
    ensures var t := After(s, steps);
            && (t.parent == Fatal <==> !NoneEmpty(t))
            && (NoneEmpty(t) ==>
                  && |log| == |t.out| && |t.children| == |s.ids|
                  && (forall k :: 0 <= k < |log| ==> log[k].i < |s.ids| && ShownAs(s.ids, log[k], t.out[k]))
                  && (forall i :: 0 <= i < |s.ids| ==> Of(log, i) == t.children[i].received))
  {
    InitialInv(s);
    log := RunInv(s, steps, []);
    var t := After(s, steps);
    IdleMeansRead(t, log);
    hide IsRun, After, Initial, Idle;
    if t.parent == Fatal {
      SentWasReceived(t, log, |t.out|);
    } else {
      forall i, k | 0 <= i < |t.children| && 0 <= k < |t.children[i].received|
        ensures t.children[i].received[k].text != []
      {
        ReceivedWasShown(t, log, i, k);
      }
      forall i | 0 <= i < |s.ids| ensures Of(log, i) == t.children[i].received {
        assert ChildOk(t.children[i], Of(log, i));
      }
    }
  }

  // ---------------------------------------------------------------------
  // It comes to that
  // ---------------------------------------------------------------------

  /** Messages that children have received but not written yet. */
  function UnsentCount(cs: seq<Child>): nat {
    if cs == [] then 0 else UnsentCount(cs[..|cs| - 1]) + Count(cs[|cs| - 1].unsent)
  }

  /** All messages that children have received. */
  function ReceivedCount(cs: seq<Child>): nat {
    if cs == [] then 0 else ReceivedCount(cs[..|cs| - 1]) + |cs[|cs| - 1].received|
  }

  lemma {:induction false} UnsentUpdate(cs: seq<Child>, i: nat, c: Child)
    requires i < |cs|
    ensures UnsentCount(cs[i := c]) == UnsentCount(cs) - Count(cs[i].unsent) + Count(c.unsent)
  {
    var n := |cs| - 1;
    if i == n {
      assert cs[i := c][..n] == cs[..n];
    } else {
      assert cs[i := c][..n] == cs[..n][i := c];
      UnsentUpdate(cs[..n], i, c);
    }
  }

  /** Steps left: three for a message not written, two for one not read, one for one half read. */
  ghost function StepsLeft(s: State, log: seq<Sent>): int {
    3 * UnsentCount(s.children) + 2 * (|log| - |s.out|) -
    match s.parent case AtHeader => 0 case AtBody => 1 case Fatal => 2
  }

  lemma StepsLeftShrinks(s: State, a: Step, log: seq<Sent>) returns (log': seq<Sent>)
    requires Inv(s, log) && Enabled(s, a) && !a.Receive?
    ensures Inv(Next(s, a), log') && StepsLeft(Next(s, a), log') < StepsLeft(s, log)
  {
    log' := NextInv(s, a, log);
    hide Inv, Filled, Rest, LenOf, MsqidOf, MtypeOf, Unsent, Record;
    if a.Write? {
      UnsentUpdate(s.children, a.i, s.children[a.i].(unsent := false));
    }
    hide UnsentCount;
  }

  lemma {:induction false} QuietRunsAreShort(s: State, steps: seq<Step>, log: seq<Sent>)
    requires Inv(s, log) && IsRun(s, steps) && forall a :: a in steps ==> !a.Receive?
    ensures |steps| <= StepsLeft(s, log)
    decreases |steps|
  {
    if steps != [] {
      var log' := StepsLeftShrinks(s, steps[0], log);
      hide Inv, StepsLeft;
      QuietRunsAreShort(Next(s, steps[0]), steps[1..], log');
    }
  }

  // Every message written was received by one child.

  ghost function OfTotal(log: seq<Sent>, n: nat): nat {
    if n == 0 then 0 else OfTotal(log, n - 1) + |Of(log, n - 1)|
  }

  lemma {:induction false} OfTotalSnoc(log: seq<Sent>, x: Sent, n: nat)
    ensures OfTotal(log + [x], n) == OfTotal(log, n) + Count(x.i < n)
  {
    assert (log + [x])[..|log|] == log;
    if n > 0 {
      OfTotalSnoc(log, x, n - 1);
    }
  }

  lemma {:induction false} OfTotalNone(n: nat)
    ensures OfTotal([], n) == 0
  {
    if n > 0 {
      OfTotalNone(n - 1);
    }
  }

  lemma {:induction false} OfTotalIsAll(log: seq<Sent>, n: nat)
    requires forall k :: 0 <= k < |log| ==> log[k].i < n
    ensures OfTotal(log, n) == |log|
  {
    if log == [] {
      OfTotalNone(n);
    } else {
      var m := |log| - 1;
      OfTotalIsAll(log[..m], n);
      OfTotalSnoc(log[..m], log[m], n);
      assert log == log[..m] + [log[m]];
    }
  }

  lemma {:induction false} ReceivedIsSent(cs: seq<Child>, log: seq<Sent>)
    requires forall i :: 0 <= i < |cs| ==> ChildOk(cs[i], Of(log, i))
    ensures ReceivedCount(cs) == OfTotal(log, |cs|) + UnsentCount(cs)
  {
    if cs != [] {
      var n := |cs| - 1;
      ReceivedIsSent(cs[..n], log);
      assert ChildOk(cs[n], Of(log, n));
    }
  }

  /** After any run, as long as no message arrives, at most three steps for each message received so
      far are possible; so the program does come to wait for the next message. */
  lemma BecomesIdle(s: State, before: seq<Step>, steps: seq<Step>)
    requires Initial(s) && IsRun(s, before) && IsRun(After(s, before), steps)
    requires forall a :: a in steps ==> !a.Receive?
    ensures |steps| <= 3 * ReceivedCount(After(s, before).children)
  {
    InitialInv(s);
    var log := RunInv(s, before, []);
    var t := After(s, before);
    QuietRunsAreShort(t, steps, log);
    OfTotalIsAll(log, |t.children|);
    ReceivedIsSent(t.children, log);
  }

  // ---------------------------------------------------------------------
  // What the children take from their queues
  // ---------------------------------------------------------------------

  /** What a step takes from queue i: a message that fits the buffer. */
  function Fetched(a: Step, i: nat): seq<Msg> {
    match a
    case Receive(j, m) => if j == i && |m.text| <= MAX_MTEXT then [m] else []
    case _ => []
  }

  /** msgrcv() fails on a longer one, and the child gives up. */
  predicate Refused(a: Step, i: nat) {
    a.Receive? && a.i == i && |a.m.text| > MAX_MTEXT
  }

  function FetchedIn(steps: seq<Step>, i: nat): seq<Msg> {
    if steps == [] then [] else Fetched(steps[0], i) + FetchedIn(steps[1..], i)
  }

  predicate RefusedIn(steps: seq<Step>, i: nat) {
    steps != [] && (Refused(steps[0], i) || RefusedIn(steps[1..], i))
  }

  lemma FetchedNext(s: State, a: Step, i: nat)
    requires Enabled(s, a) && i < |s.children|
    ensures var t := Next(s, a);
            && |t.children| == |s.children|
            && t.children[i].received == s.children[i].received + Fetched(a, i)
            && (t.children[i].exited <==> s.children[i].exited || Refused(a, i))
  {
  }

  /** Over every run a child has received exactly the messages that arrived for it, in order, and has
      given up exactly if one was too long. */
  lemma {:induction false} ReceivedAre(s: State, steps: seq<Step>, i: nat)
    requires IsRun(s, steps) && i < |s.children|
    ensures var t := After(s, steps);
            && |t.children| == |s.children|
            && t.children[i].received == s.children[i].received + FetchedIn(steps, i)
            && (t.children[i].exited <==> s.children[i].exited || RefusedIn(steps, i))
    decreases |steps|
  {
    hide Next, Enabled, Fetched, Refused;
    if steps == [] {
      assert s.children[i].received + [] == s.children[i].received;
    } else {
      FetchedNext(s, steps[0], i);
      ReceivedAre(Next(s, steps[0]), steps[1..], i);
    }
  }
}
