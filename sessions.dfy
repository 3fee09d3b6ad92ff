/**
 * The client session of the telnet server as a value, and one step function
 * per operation of the client engine: what a command handler, the line
 * framer, a receive, a send and the post-event check do to a session. The
 * class Telnet.Client is proved to follow these functions; the lemmas here
 * state what the functions mean.
 */
module Sessions {

  import opened Lines

  /** Size of the scratch region one receive fills (BUF_SIZE). */
  const BufSize := 1024
  /** Delay of the one-shot linger timer in milliseconds (TELNET_LINGER_TIMEOUT). */
  const LingerTimeoutMs := 42000

  datatype Option<T> = None | Some(value: T)

  datatype State = Active | Pending | Linger | Destroy

  /** A one-shot timer of the timer service: its handle and its delay. */
  datatype Timer = Timer(id: nat, delayMs: nat)

  /** The errno values the engine tells apart; every other code is fatal. */
  datatype Errno = EAgain | EWouldBlock | EIntr | OtherErrno(code: int)

  predicate Transient(e: Errno) {
    e.EAgain? || e.EWouldBlock? || e.EIntr?
  }

  /** The bytes one successful receive delivers: at least one, at most BufSize. */
  type Chunk = d: Bytes | 0 < |d| <= BufSize witness [0]

  /** What recv returns: a positive byte count, 0 for an orderly close, or -1 with errno. */
  datatype RecvResult = Received(data: Chunk) | PeerClosed | RecvFailed(errno: Errno)

  /** What send returns: the number of bytes taken (possibly 0), or -1 with errno. */
  datatype SendResult = Sent(count: nat) | SendFailed(errno: Errno)

  /** The readiness flags the reactor passes to the client callback (SP_PR_WRITE, SP_PR_READ). */
  datatype Events = Events(write: bool, read: bool)

  /** What a command handler asks of the session: stay, quit gracefully, quit now. */
  datatype QuitRequest = KeepOpen | QuitGraceful | QuitNow

  /** What a command handler does with one command: bytes to append to the output, and a quit request. */
  datatype Reply = Reply(output: Bytes, quit: QuitRequest)

  type Handler = Bytes -> Reply

  /** The handler the server ships: echo the command and a line feed, then quit gracefully. */
  function Echo(cmd: Bytes): Reply {
    Reply(cmd + [LF], QuitGraceful)
  }

  /**
   * A client session. writeInterest is whether write readiness is enabled in the
   * reactor; halfCloses and timerStarts count the shutdown(SHUT_WR) calls and the
   * linger timers started; commands lists every command passed to the handler.
   */
  datatype Session = Session(
    state: State,
    inBuf: Bytes,
    out: Bytes,
    lingerTimer: Option<Timer>,
    writeInterest: bool,
    halfCloses: nat,
    timerStarts: nat,
    commands: seq<Bytes>)

  /** A session as the server creates it on accept. */
  function NewSession(): Session {
    Session(Active, [], [], None, false, 0, 0, [])
  }

  /**
   * The command handler applied to one command: its output is appended, its quit
   * request sets the state, and write interest is enabled when output is pending
   * and the session is not being destroyed.
   */
  function AfterHandleCmd(s: Session, cmd: Bytes, h: Handler): Session {
    var reply := h(cmd);
    var s1 := s.(out := s.out + reply.output, commands := s.commands + [cmd]);
    var s2 := match reply.quit
      case KeepOpen => s1
      case QuitGraceful => s1.(state := Pending)
      case QuitNow => s1.(state := Destroy);
    if s2.state != Destroy && |s2.out| > 0 then s2.(writeInterest := true) else s2
  }

  /**
   * The line framer, scanning the input buffer from index i. A line feed ends a
   * line: it is overwritten with NUL (with a carriage return before it), the C
   * string at the buffer's start goes to the handler, and then either the scan
   * stops (the session left Active) or the line is pulled off the buffer and the
   * scan restarts at the start of the shortened buffer.
   */
  function AfterFetchLines(s: Session, i: nat, h: Handler): Session
    decreases |s.inBuf| - i
  {
    if i >= |s.inBuf| then s
    else if s.inBuf[i] != LF then AfterFetchLines(s, i + 1, h)
    else
      var buf := Terminate(s.inBuf, i);
      var s1 := AfterHandleCmd(s.(inBuf := buf), CString(buf), h);
      if s1.state != Active then s1
      else AfterFetchLines(s1.(inBuf := buf[i + 1..]), 0, h)
  }

  /** One receive: new bytes are framed only while Active; a close or a fatal error destroys. */
  function AfterRead(s: Session, r: RecvResult, h: Handler): Session {
    match r
    case Received(data) =>
      if s.state != Active then s
      else AfterFetchLines(s.(inBuf := s.inBuf + data), |s.inBuf|, h)
    case PeerClosed => s.(state := Destroy)
    case RecvFailed(e) => if Transient(e) then s else s.(state := Destroy)
  }

  /** One send of the output buffer. */
  function AfterWrite(s: Session, r: SendResult): (t: Session)
    requires r.Sent? ==> r.count <= |s.out|
    ensures r.Sent? ==> s.out == s.out[..r.count] + t.out
  {
    match r
    case Sent(n) =>
      if n == 0 then s
      else
        var s1 := s.(out := s.out[n..]);
        if |s1.out| == 0 then
          s1.(writeInterest := false, state := if s.state == Pending then Linger else s.state)
        else s1
    case SendFailed(e) => if Transient(e) then s else s.(state := Destroy)
  }

  /** The two halves of a readiness callback: write first, then read. */
  function AfterService(s: Session, ev: Events, sent: SendResult, recvd: RecvResult, h: Handler): Session
    requires ev.write && sent.Sent? ==> sent.count <= |s.out|
  {
    var s1 := if ev.write then AfterWrite(s, sent) else s;
    if ev.read then AfterRead(s1, recvd, h) else s1
  }

  /**
   * The check after a callback: a lingering session without a timer is
   * half-closed and gets its timer t; otherwise a destroyed session is to be
   * removed (the second component).
   */
  function AfterEvent(s: Session, t: nat): (Session, bool) {
    if s.state == Linger && s.lingerTimer.None? then
      (s.(halfCloses := s.halfCloses + 1,
          lingerTimer := Some(Timer(t, LingerTimeoutMs)),
          timerStarts := s.timerStarts + 1), false)
    else (s, s.state == Destroy)
  }

  /** A whole readiness callback. */
  function AfterAction(s: Session, ev: Events, sent: SendResult, recvd: RecvResult, h: Handler, t: nat): (Session, bool)
    requires ev.write && sent.Sent? ==> sent.count <= |s.out|
  {
    AfterEvent(AfterService(s, ev, sent, recvd, h), t)
  }

  // ---------------------------------------------------------------------------
  // The line framer

  /** The index of the first line feed. */
  function FirstLF(buf: Bytes): (j: nat)
    requires LF in buf
    ensures j < |buf| && buf[j] == LF && LF !in buf[..j]
  {
    if buf[0] == LF then 0 else 1 + FirstLF(buf[1..])
  }

  /** A line feed with none before it is the first. */
  lemma {:induction false} FirstLFAt(buf: Bytes, i: nat)
    requires i < |buf| && buf[i] == LF
    requires forall k :: 0 <= k < i ==> buf[k] != LF
    ensures FirstLF(buf) == i
  {
    if i > 0 {
      FirstLFAt(buf[1..], i - 1);
    }
  }

  /** The framer changes nothing when no line feed lies at or after the scan start. */
  lemma {:induction false} FetchWithoutNewline(s: Session, i: nat, h: Handler)
    requires forall k :: i <= k < |s.inBuf| ==> s.inBuf[k] != LF
    ensures AfterFetchLines(s, i, h) == s
    decreases |s.inBuf| - i
  {
    if i < |s.inBuf| {
      FetchWithoutNewline(s, i + 1, h);
    }
  }

  /**
   * The framer's first dispatch is for the first line feed j at or after the scan
   * start, and the command is the buffer's text before j without one trailing
   * carriage return, cut at a NUL. If the handler leaves the session non-Active the
   * framer stops there, with the buffer not pulled; otherwise exactly j + 1 bytes
   * are dropped from its front and the scan restarts at index 0.
   */
  lemma FetchFirstLine(s: Session, i: nat, j: nat, h: Handler)
    requires i <= j < |s.inBuf| && s.inBuf[j] == LF
    requires forall k :: i <= k < j ==> s.inBuf[k] != LF
    ensures var cmd := CString(StripCR(s.inBuf[..j]));
            var s1 := AfterHandleCmd(s.(inBuf := Terminate(s.inBuf, j)), cmd, h);
            AfterFetchLines(s, i, h) ==
              if s1.state != Active then s1
              else AfterFetchLines(s1.(inBuf := s.inBuf[j + 1..]), 0, h)
  {
    FetchSkips(s, i, j, h);
    FetchAtLineFeed(s, j, h);
  }

  /** The framer passes over bytes that are not line feeds without changing anything. */
  lemma {:induction false} FetchSkips(s: Session, i: nat, j: nat, h: Handler)
    requires i <= j <= |s.inBuf|
    requires forall k :: i <= k < j ==> s.inBuf[k] != LF
    ensures AfterFetchLines(s, i, h) == AfterFetchLines(s, j, h)
    decreases j - i
  {
    if i < j {
      FetchSkips(s, i + 1, j, h);
    }
  }

  /** The framer at a line feed: the step FetchFirstLine describes, taken at once. */
  lemma FetchAtLineFeed(s: Session, j: nat, h: Handler)
    requires j < |s.inBuf| && s.inBuf[j] == LF
    ensures var cmd := CString(StripCR(s.inBuf[..j]));
            var s1 := AfterHandleCmd(s.(inBuf := Terminate(s.inBuf, j)), cmd, h);
            AfterFetchLines(s, j, h) ==
              if s1.state != Active then s1
              else AfterFetchLines(s1.(inBuf := s.inBuf[j + 1..]), 0, h)
  {
    CommandText(s.inBuf, j);
    assert Terminate(s.inBuf, j)[j + 1..] == s.inBuf[j + 1..];
  }

  /** A dispatch never touches the linger timer, the half-close count or the timer count. */
  lemma HandleCmdKeepsTimers(s: Session, cmd: Bytes, h: Handler)
    ensures var t := AfterHandleCmd(s, cmd, h);
            t.lingerTimer == s.lingerTimer && t.halfCloses == s.halfCloses && t.timerStarts == s.timerStarts
  {
  }

  /** The framer never touches the linger timer, the half-close count or the timer count. */
  lemma {:induction false} FetchKeepsTimers(s: Session, i: nat, h: Handler)
    ensures var t := AfterFetchLines(s, i, h);
            t.lingerTimer == s.lingerTimer && t.halfCloses == s.halfCloses && t.timerStarts == s.timerStarts
    decreases |s.inBuf| - i
  {
    if i < |s.inBuf| {
      if s.inBuf[i] != LF {
        FetchKeepsTimers(s, i + 1, h);
      } else {
        var buf := Terminate(s.inBuf, i);
        var s1 := AfterHandleCmd(s.(inBuf := buf), CString(buf), h);
        HandleCmdKeepsTimers(s.(inBuf := buf), CString(buf), h);
        if s1.state == Active {
          var s2 := s1.(inBuf := buf[i + 1..]);
          FetchKeepsTimers(s2, 0, h);
          assert AfterFetchLines(s, i, h) == AfterFetchLines(s2, 0, h);
        } else {
          assert AfterFetchLines(s, i, h) == s1;
        }
      }
    }
  }

  // ---------------------------------------------------------------------------
  // Receive

  /** A receive that brings no line feed only buffers the bytes (while Active) and dispatches nothing. */
  lemma ReadWithoutNewline(s: Session, data: Chunk, h: Handler)
    requires s.state == Active && LF !in data
    ensures AfterRead(s, Received(data), h) == s.(inBuf := s.inBuf + data)
  {
    var t := s.(inBuf := s.inBuf + data);
    forall k | |s.inBuf| <= k < |t.inBuf| ensures t.inBuf[k] != LF {
      assert t.inBuf[k] == data[k - |s.inBuf|];
    }
    FetchWithoutNewline(t, |s.inBuf|, h);
  }

  /**
   * With the shipped echo handler, a receive whose bytes hold a line feed (the
   * first at j) dispatches exactly one command: the whole buffered line before it,
   * without a trailing carriage return. The command and a line feed are queued,
   * the session becomes Pending with write interest, and the input buffer keeps
   * its terminated line (it is not pulled).
   */
  lemma EchoReadDispatchesFirstLine(s: Session, data: Chunk, j: nat)
    requires s.state == Active
    requires j < |data| && data[j] == LF && LF !in data[..j]
    ensures (s.inBuf + data)[|s.inBuf| + j] == LF
    ensures AfterRead(s, Received(data), Echo) == EchoAnswered(s, s.inBuf + data, |s.inBuf| + j)
  {
    AppendedLineFeed(s.inBuf, data, j);
    ReadFramesAppended(s, data, Echo);
    EchoFetchStops(s, s.inBuf + data, |s.inBuf|, |s.inBuf| + j);
  }

  /**
   * The session after the echo handler answered the line whose line feed is at
   * index k of buf: the command is the line without a trailing carriage return,
   * cut at a NUL; it is queued with a line feed, the session is Pending with write
   * interest, and the buffer holds the terminated line.
   */
  function EchoAnswered(s: Session, buf: Bytes, k: nat): Session
    requires k < |buf| && buf[k] == LF
  {
    var cmd := CString(StripCR(buf[..k]));
    s.(state := Pending, inBuf := Terminate(buf, k), out := s.out + cmd + [LF],
       writeInterest := true, commands := s.commands + [cmd])
  }

  /** With the echo handler the framer stops after its first dispatch, the session Pending. */
  lemma EchoFetchStops(s: Session, buf: Bytes, i: nat, k: nat)
    requires s.state == Active
    requires i <= k < |buf| && buf[k] == LF
    requires forall m :: i <= m < k ==> buf[m] != LF
    ensures AfterFetchLines(s.(inBuf := buf), i, Echo) == EchoAnswered(s, buf, k)
  {
    var t := s.(inBuf := buf);
    FetchFirstLine(t, i, k, Echo);
    var cmd := CString(StripCR(buf[..k]));
    assert s.out + (cmd + [LF]) == s.out + cmd + [LF];
  }

  /** An Active session frames received bytes from where they start in the buffer. */
  lemma ReadFramesAppended(s: Session, data: Chunk, h: Handler)
    requires s.state == Active
    ensures AfterRead(s, Received(data), h) == AfterFetchLines(s.(inBuf := s.inBuf + data), |s.inBuf|, h)
  {
  }

  /** The first line feed of appended bytes, as an index of the whole buffer. */
  lemma AppendedLineFeed(a: Bytes, data: Bytes, j: nat)
    requires j < |data| && data[j] == LF && LF !in data[..j]
    ensures (a + data)[|a| + j] == LF
    ensures forall m :: |a| <= m < |a| + j ==> (a + data)[m] != LF
  {
    forall m | |a| <= m < |a| + j ensures (a + data)[m] != LF {
      assert (a + data)[m] == data[..j][m - |a|];
    }
  }

  /**
   * With the echo handler an Active session never holds a line feed in its input
   * buffer: every line feed that arrives is dispatched and ends Active.
   */
  lemma EchoActiveInputHasNoNewline(s: Session, r: RecvResult)
    requires s.state == Active ==> LF !in s.inBuf
    ensures var t := AfterRead(s, r, Echo);
            t.state == Active ==> LF !in t.inBuf
  {
    if r.Received? && s.state == Active {
      if LF in r.data {
        EchoReadDispatchesFirstLine(s, r.data, FirstLF(r.data));
      } else {
        ReadWithoutNewline(s, r.data, Echo);
        assert LF !in s.inBuf + r.data;
      }
    }
  }

  /**
   * A receive never revives a session that is not Active: it buffers nothing,
   * dispatches nothing, and either leaves the state or destroys the session.
   * An orderly close or a fatal error destroys any session; a transient error
   * changes nothing.
   */
  lemma ReadOutcomes(s: Session, r: RecvResult, h: Handler)
    ensures var t := AfterRead(s, r, h);
            (s.state != Active ==> t.inBuf == s.inBuf && t.out == s.out && t.commands == s.commands
                                   && (t.state == s.state || t.state == Destroy))
            && (r.PeerClosed? || (r.RecvFailed? && !Transient(r.errno)) ==> t == s.(state := Destroy))
            && (r.RecvFailed? && Transient(r.errno) ==> t == s)
  {
  }

  // ---------------------------------------------------------------------------
  // Send

  /**
   * A send of n > 0 bytes removes exactly the first n output bytes; if that
   * empties the buffer write interest is withdrawn and Pending becomes Linger,
   * other states staying; otherwise nothing else changes. A send of 0 bytes and a
   * transient error change nothing; a fatal error destroys.
   */
  lemma WriteOutcomes(s: Session, r: SendResult)
    requires r.Sent? ==> r.count <= |s.out|
    ensures var t := AfterWrite(s, r);
            (r.Sent? && r.count > 0 && r.count == |s.out| ==>
               t == s.(out := [], writeInterest := false, state := if s.state == Pending then Linger else s.state))
            && (r.Sent? && r.count < |s.out| ==> t == s.(out := s.out[r.count..]))
            && (r.Sent? && r.count == 0 ==> t == s)
            && (r.SendFailed? ==> t == if Transient(r.errno) then s else s.(state := Destroy))
  {
  }

  function Sum(ns: seq<nat>): nat {
    if ns == [] then 0 else ns[0] + Sum(ns[1..])
  }

  /** Several sends in a row, the k-th taking ns[k] bytes. */
  function AfterWrites(s: Session, ns: seq<nat>): Session
    requires Sum(ns) <= |s.out|
    decreases |ns|
  {
    if ns == [] then s else AfterWrites(AfterWrite(s, Sent(ns[0])), ns[1..])
  }

  /**
   * Partial sends of positive sizes drain the output buffer in order with no byte
   * lost or repeated; when they add up to the whole buffer, write interest is
   * withdrawn and a Pending session is Lingering, and until then the state and
   * write interest stay as they were.
   */
  lemma {:induction false} WritesDrain(s: Session, ns: seq<nat>)
    requires forall k :: 0 <= k < |ns| ==> ns[k] > 0
    requires Sum(ns) <= |s.out|
    ensures var t := AfterWrites(s, ns);
            t.out == s.out[Sum(ns)..] && t.inBuf == s.inBuf && t.commands == s.commands
            && (ns != [] && Sum(ns) == |s.out| ==>
                  !t.writeInterest && t.state == if s.state == Pending then Linger else s.state)
            && (Sum(ns) < |s.out| ==> t.state == s.state && t.writeInterest == s.writeInterest)
    decreases |ns|
  {
    if ns != [] {
      var s1 := AfterWrite(s, Sent(ns[0]));
      assert forall k :: 0 <= k < |ns[1..]| ==> ns[1..][k] > 0 by {
        forall k | 0 <= k < |ns[1..]| ensures ns[1..][k] > 0 {
          assert ns[1..][k] == ns[k + 1];
        }
      }
      WritesDrain(s1, ns[1..]);
      if ns[1..] == [] {
        assert Sum(ns) == ns[0];
      } else {
        assert Sum(ns[1..]) > 0 by {
          assert ns[1..][0] > 0;
        }
      }
    }
  }

  // ---------------------------------------------------------------------------
  // The readiness callback

  /** A session's half-close and timer counts agree with its linger timer handle. */
  predicate LingerConsistent(s: Session) {
    s.halfCloses == s.timerStarts && s.timerStarts == (if s.lingerTimer.Some? then 1 else 0)
  }

  /** Servicing write and read never touches the linger timer or the half-close count. */
  lemma ServiceKeepsTimers(s: Session, ev: Events, sent: SendResult, recvd: RecvResult, h: Handler)
    requires ev.write && sent.Sent? ==> sent.count <= |s.out|
    ensures var v := AfterService(s, ev, sent, recvd, h);
            v.lingerTimer == s.lingerTimer && v.halfCloses == s.halfCloses && v.timerStarts == s.timerStarts
  {
    var s1 := if ev.write then AfterWrite(s, sent) else s;
    if ev.read && recvd.Received? && s1.state == Active {
      FetchKeepsTimers(s1.(inBuf := s1.inBuf + recvd.data), |s1.inBuf|, h);
    }
  }

  /**
   * The post-event check removes the session exactly when servicing left it
   * Destroyed. Half-close and timer start happen only for a Lingering session
   * without a timer, with the fixed linger delay; a session that already has a
   * timer is never half-closed again.
   */
  lemma ActionDecision(s: Session, ev: Events, sent: SendResult, recvd: RecvResult, h: Handler, t: nat)
    requires ev.write && sent.Sent? ==> sent.count <= |s.out|
    ensures var v := AfterService(s, ev, sent, recvd, h);
            var (r, removed) := AfterAction(s, ev, sent, recvd, h, t);
            (removed <==> v.state == Destroy)
            && (removed ==> r == v)
            && (v.state == Linger && s.lingerTimer.None? ==>
                  r == v.(lingerTimer := Some(Timer(t, LingerTimeoutMs)),
                          halfCloses := s.halfCloses + 1, timerStarts := s.timerStarts + 1))
            && (!(v.state == Linger && s.lingerTimer.None?) ==>
                  r.lingerTimer == s.lingerTimer && r.halfCloses == s.halfCloses && r.timerStarts == s.timerStarts)
  {
    ServiceKeepsTimers(s, ev, sent, recvd, h);
  }

  /** Every callback keeps the half-close and timer counts in step with the handle, so each is at most one. */
  lemma ActionKeepsLingerConsistent(s: Session, ev: Events, sent: SendResult, recvd: RecvResult, h: Handler, t: nat)
    requires ev.write && sent.Sent? ==> sent.count <= |s.out|
    requires LingerConsistent(s)
    ensures LingerConsistent(AfterAction(s, ev, sent, recvd, h, t).0)
    ensures AfterAction(s, ev, sent, recvd, h, t).0.halfCloses <= 1
  {
    ServiceKeepsTimers(s, ev, sent, recvd, h);
  }

  /** Destroy is never left: a destroyed session stays Destroyed through a callback and is removed. */
  lemma DestroyIsFinal(s: Session, ev: Events, sent: SendResult, recvd: RecvResult, h: Handler, t: nat)
    requires ev.write && sent.Sent? ==> sent.count <= |s.out|
    requires s.state == Destroy
    ensures AfterService(s, ev, sent, recvd, h).state == Destroy
    ensures AfterAction(s, ev, sent, recvd, h, t).1
  {
  }

  /**
   * Write is serviced before read: when a callback flushes a Pending session's
   * last output bytes and also reports input, the session is already Lingering
   * when the read runs, so the input is discarded; the session is half-closed and
   * gets its linger timer in the same callback.
   */
  lemma WriteBeforeRead(s: Session, data: Chunk, h: Handler, t: nat)
    requires s.state == Pending && |s.out| > 0 && s.lingerTimer.None?
    ensures AfterAction(s, Events(true, true), Sent(|s.out|), Received(data), h, t) ==
              (s.(state := Linger, out := [], writeInterest := false, halfCloses := s.halfCloses + 1,
                  lingerTimer := Some(Timer(t, LingerTimeoutMs)), timerStarts := s.timerStarts + 1), false)
  {
  }

  // ---------------------------------------------------------------------------
  // The scan after a pull

  /**
   * The framer as its loop is written: after a line is pulled off the buffer
   * the scan goes on at index i + 1 of the shortened buffer.
   */
  function AfterFetchLinesAsWritten(s: Session, i: nat, h: Handler): Session
    decreases |s.inBuf| - i
  {
    if i >= |s.inBuf| then s
    else if s.inBuf[i] != LF then AfterFetchLinesAsWritten(s, i + 1, h)
    else
      var buf := Terminate(s.inBuf, i);
      var s1 := AfterHandleCmd(s.(inBuf := buf), CString(buf), h);
      if s1.state != Active then s1
      else AfterFetchLinesAsWritten(s1.(inBuf := buf[i + 1..]), i + 1, h)
  }

  /** The commands of the complete lines of buf, in order. */
  function CompleteLines(buf: Bytes): seq<Bytes>
    decreases |buf|
  {
    if LF !in buf then []
    else
      var j := FirstLF(buf);
      [CString(StripCR(buf[..j]))] + CompleteLines(buf[j + 1..])
  }

  /** The bytes after the last line feed of buf. */
  function PartialLine(buf: Bytes): Bytes
    decreases |buf|
  {
    if LF !in buf then buf else PartialLine(buf[FirstLF(buf) + 1..])
  }

  /** A handler that answers nothing and keeps the session open. */
  function Silent(cmd: Bytes): Reply {
    Reply([], KeepOpen)
  }

  /**
   * As written, a handler that keeps the session open sees only the first of two
   * lines that arrive together: after "a\n" is pulled the scan resumes past "b\n",
   * which stays in the buffer undispatched.
   */
  lemma AsWrittenSkipsSecondLine()
    ensures var s := NewSession().(inBuf := [97, 10, 98, 10]);
            var t := AfterFetchLinesAsWritten(s, 0, Silent);
            t.commands == [[97]] && t.inBuf == [98, 10]
            && CompleteLines(s.inBuf) == [[97], [98]]
  {
    var s := NewSession().(inBuf := [97, 10, 98, 10]);
    var buf := Terminate(s.inBuf, 1);
    assert buf == [97, 0, 98, 10];
    assert CString(buf) == [97] by {
      assert buf[1..] == [0, 98, 10];
      assert CString(buf[1..]) == [];
    }
    var s1 := AfterHandleCmd(s.(inBuf := buf), [97], Silent);
    assert s1.state == Active && s1.commands == [[97]];
    assert buf[2..] == [98, 10];
    var s2 := s1.(inBuf := [98, 10]);
    assert AfterFetchLinesAsWritten(s, 1, Silent) == AfterFetchLinesAsWritten(s2, 2, Silent);
    assert AfterFetchLinesAsWritten(s, 0, Silent) == AfterFetchLinesAsWritten(s, 1, Silent);
    assert AfterFetchLinesAsWritten(s2, 2, Silent) == s2;
    SecondLineComplete();
  }

  lemma SecondLineComplete()
    ensures CompleteLines([97, 10, 98, 10]) == [[97], [98]]
  {
    var b: Bytes := [97, 10, 98, 10];
    assert FirstLF(b) == 1 by {
      assert b[0] != LF;
      assert b[1..][0] == LF;
    }
    assert b[..1] == [97];
    assert StripCR([97]) == [97];
    assert CString([97]) == [97] by {
      assert CString([97][1..]) == [];
    }
    var c: Bytes := [98, 10];
    assert b[2..] == c;
    assert FirstLF(c) == 1 by {
      assert c[1..][0] == LF;
    }
    assert c[..1] == [98];
    assert StripCR([98]) == [98];
    assert CString([98]) == [98] by {
      assert CString([98][1..]) == [];
    }
    assert c[2..] == [];
    assert CompleteLines(c) == [[98]];
  }

  /**
   * The framer, run with a handler that keeps the session open, hands
   * every complete line of the buffer to the handler, in order, and leaves only
   * the partial last line buffered (when nothing before the scan start is a line feed).
   */
  lemma {:induction false} FetchDispatchesEveryLine(s: Session, i: nat, h: Handler)
    requires s.state == Active
    requires forall cmd :: h(cmd).quit == KeepOpen
    requires forall k :: 0 <= k < i && k < |s.inBuf| ==> s.inBuf[k] != LF
    ensures var t := AfterFetchLines(s, i, h);
            t.state == Active && t.commands == s.commands + CompleteLines(s.inBuf)
            && t.inBuf == PartialLine(s.inBuf)
    decreases |s.inBuf|, |s.inBuf| - i
  {
    if i >= |s.inBuf| {
      assert LF !in s.inBuf by {
        forall k | 0 <= k < |s.inBuf| ensures s.inBuf[k] != LF {
        }
      }
    } else if s.inBuf[i] != LF {
      FetchDispatchesEveryLine(s, i + 1, h);
    } else {
      var s2 := FetchLineStep(s, i, h);
      FetchDispatchesEveryLine(s2, 0, h);
    }
  }

  /** One line of the framer: the line is dispatched and pulled, and the scan restarts at 0. */
  lemma FetchLineStep(s: Session, i: nat, h: Handler) returns (s2: Session)
    requires s.state == Active
    requires forall cmd :: h(cmd).quit == KeepOpen
    requires i < |s.inBuf| && s.inBuf[i] == LF
    requires forall k :: 0 <= k < i ==> s.inBuf[k] != LF
    ensures AfterFetchLines(s, i, h) == AfterFetchLines(s2, 0, h)
    ensures s2.state == Active && s2.inBuf == s.inBuf[i + 1..] && |s2.inBuf| < |s.inBuf|
    ensures s2.commands + CompleteLines(s2.inBuf) == s.commands + CompleteLines(s.inBuf)
    ensures PartialLine(s.inBuf) == PartialLine(s2.inBuf)
  {
    var buf := Terminate(s.inBuf, i);
    var s1 := AfterHandleCmd(s.(inBuf := buf), CString(buf), h);
    assert h(CString(buf)).quit == KeepOpen;
    s2 := s1.(inBuf := buf[i + 1..]);
    assert AfterFetchLines(s, i, h) == AfterFetchLines(s2, 0, h);
    var cmd := LinesAfterFirst(s.inBuf, i);
    SeqAppendAssoc(s.commands, [cmd], CompleteLines(s2.inBuf));
  }

  /** The first complete line of a buffer, and what follows it. */
  lemma LinesAfterFirst(buf: Bytes, i: nat) returns (cmd: Bytes)
    requires i < |buf| && buf[i] == LF
    requires forall k :: 0 <= k < i ==> buf[k] != LF
    ensures cmd == CString(Terminate(buf, i)) && Terminate(buf, i)[i + 1..] == buf[i + 1..]
    ensures CompleteLines(buf) == [cmd] + CompleteLines(buf[i + 1..])
    ensures PartialLine(buf) == PartialLine(buf[i + 1..])
  {
    CommandText(buf, i);
    cmd := CString(StripCR(buf[..i]));
    FirstLFAt(buf, i);
    FirstLineCommand(buf, i);
    FirstLinePartial(buf, i);
  }

  lemma FirstLineCommand(buf: Bytes, i: nat)
    requires LF in buf && FirstLF(buf) == i
    ensures CompleteLines(buf) == [CString(StripCR(buf[..i]))] + CompleteLines(buf[i + 1..])
  {
    CompleteLinesUnfold(buf);
  }

  lemma FirstLinePartial(buf: Bytes, i: nat)
    requires LF in buf && FirstLF(buf) == i
    ensures PartialLine(buf) == PartialLine(buf[i + 1..])
  {
    PartialLineUnfold(buf);
  }

  lemma CompleteLinesUnfold(buf: Bytes)
    requires LF in buf
    ensures CompleteLines(buf) == [CString(StripCR(buf[..FirstLF(buf)]))] + CompleteLines(buf[FirstLF(buf) + 1..])
  {
  }

  lemma PartialLineUnfold(buf: Bytes)
    requires LF in buf
    ensures PartialLine(buf) == PartialLine(buf[FirstLF(buf) + 1..])
  {
  }

  lemma SeqAppendAssoc<T>(a: seq<T>, b: seq<T>, c: seq<T>)
    ensures (a + b) + c == a + (b + c)
  {
  }

  /**
   * For a handler that always asks to quit, such as Echo, the framer as written
   * and the restarting framer agree: neither gets past the first line.
   */
  lemma {:induction false} QuittingHandlerFramesAlike(s: Session, i: nat, h: Handler)
    requires forall cmd :: h(cmd).quit != KeepOpen
    ensures AfterFetchLinesAsWritten(s, i, h) == AfterFetchLines(s, i, h)
    decreases |s.inBuf| - i
  {
    if i < |s.inBuf| && s.inBuf[i] != LF {
      QuittingHandlerFramesAlike(s, i + 1, h);
    }
  }
}
