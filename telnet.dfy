/**
 * The client-connection engine of the telnet server: the server's registry
 * of clients, and each client's state machine, buffers and reactor/timer
 * effects, updated in place. Every session-level method is proved to follow
 * the matching step function of module Sessions.
 */
module Telnet {

  import opened Lines
  import opened Sessions

  predicate Distinct<T(==)>(cs: seq<T>) {
    forall i, j :: 0 <= i < j < |cs| ==> cs[i] != cs[j]
  }

  /** The registry after unlinking c; a list without c is left as it is. */
  function Unlink<T(==)>(cs: seq<T>, c: T): (r: seq<T>)
    ensures c !in cs ==> r == cs
    ensures c in cs ==> |r| == |cs| - 1
  {
    if cs == [] then []
    else if cs[0] == c then cs[1..]
    else [cs[0]] + Unlink(cs[1..], c)
  }

  /** Unlinking takes out exactly the first occurrence of c; the others keep their order. */
  lemma {:induction false} UnlinkFirst<T>(cs: seq<T>, c: T, k: nat)
    requires k < |cs| && cs[k] == c && c !in cs[..k]
    ensures Unlink(cs, c) == cs[..k] + cs[k + 1..]
  {
    if k > 0 {
      assert cs[1..][..k - 1] == cs[1..k];
      UnlinkFirst(cs[1..], c, k - 1);
      assert cs[..k] == [cs[0]] + cs[1..k];
    }
  }

  /** Unlinking from a registry without duplicates removes c entirely and adds nobody. */
  lemma {:induction false} UnlinkDistinct<T>(cs: seq<T>, c: T)
    requires Distinct(cs)
    ensures var r := Unlink(cs, c);
            Distinct(r) && c !in r && (forall x :: x in r ==> x in cs)
  {
    if cs != [] && cs[0] != c {
      UnlinkDistinct(cs[1..], c);
      var r := Unlink(cs[1..], c);
      assert cs[0] !in r;
    }
  }

  /**
   * A registry step that left every other client of the list `before` live keeps
   * the registry valid: either c was unlinked (whatever became of it), or the list
   * stayed and c is still live.
   */
  lemma StepKeepsValid(server: Server, c: Client, before: seq<Client>, removed: bool)
    requires Distinct(before)
    requires forall d :: d in before ==> d.server == server
    requires forall d :: d in before && d != c ==> d.Live()
    requires removed ==> server.clients == Unlink(before, c)
    requires !removed ==> c in before && server.clients == before && c.Live()
    ensures server.Valid() && (removed ==> c !in server.clients)
  {
    if removed {
      UnlinkDistinct(before, c);
    }
  }

  class Client {
    const fd: int
    const server: Server

    var state: State
    var inBuf: Bytes
    var out: Bytes
    var lingerTimer: Option<Timer>

    /** Write readiness is enabled in the reactor. */
    ghost var writeInterest: bool
    /** shutdown(fd, SHUT_WR) calls so far. */
    ghost var halfCloses: nat
    /** Linger timers started so far. */
    ghost var timerStarts: nat
    /** Every command passed to the handler, in order. */
    ghost var commands: seq<Bytes>
    /** The fd is registered with the reactor. */
    ghost var registered: bool
    /** close() calls on the fd. */
    ghost var closes: nat
    /** Linger timers stopped. */
    ghost var timerStops: nat
    /** The buffers and the client itself have been released. */
    ghost var freed: bool

    ghost function Snapshot(): Session
      reads this
    {
      Session(state, inBuf, out, lingerTimer, writeInterest, halfCloses, timerStarts, commands)
    }

    /** A client that belongs in the registry: registered, open, not released, its linger counts in step. */
    ghost predicate Live()
      reads this
    {
      !freed && registered && closes == 0 && timerStops == 0 && fd >= 0 && LingerConsistent(Snapshot())
    }

    constructor (server: Server, fd: int)
      ensures this.server == server && this.fd == fd
      ensures Snapshot() == NewSession()
      ensures !registered && closes == 0 && timerStops == 0 && !freed
    {
      this.server := server;
      this.fd := fd;
      state := Active;
      inBuf := [];
      out := [];
      lingerTimer := None;
      writeInterest := false;
      halfCloses := 0;
      timerStarts := 0;
      commands := [];
      registered := false;
      closes := 0;
      timerStops := 0;
      freed := false;
    }

    /** Request termination: immediate (Destroy) or once the output is flushed (Pending), whatever the state was. */
    method Quit(now: bool)
      modifies this`state
      ensures state == if now then Destroy else Pending
    {
      if now {
        state := Destroy;
      } else {
        state := Pending;
      }
    }

    /** Queue text on the output buffer. */
    method Printf(text: Bytes)
      modifies this`out
      ensures out == old(out) + text
    {
      out := out + text;
    }

    /** Run the handler on one command, then enable write interest if output is pending and the session lives on. */
    method HandleCmd(cmd: Bytes, h: Handler)
      modifies this`state, this`out, this`writeInterest, this`commands
      ensures Snapshot() == AfterHandleCmd(old(Snapshot()), cmd, h)
    {
      var reply := h(cmd);
      commands := commands + [cmd];
      Printf(reply.output);
      match reply.quit {
        case KeepOpen =>
        case QuitGraceful => Quit(false);
        case QuitNow => Quit(true);
      }
      if state != Destroy && |out| > 0 {
        writeInterest := true;
      }
    }

    /**
     * The line framer over the input buffer, from index offset on, with the scan
     * restarted after each pulled line (the source leaves it running on; see
     * Sessions.AfterFetchLinesAsWritten).
     */
    method FetchLines(offset: nat, h: Handler)
      modifies this`state, this`inBuf, this`out, this`writeInterest, this`commands
      ensures Snapshot() == AfterFetchLines(old(Snapshot()), offset, h)
    {
      var i: nat := offset;
      while i < |inBuf|
        invariant AfterFetchLines(Snapshot(), i, h) == AfterFetchLines(old(Snapshot()), offset, h)
        decreases |inBuf| - i
      {
        if inBuf[i] == LF {
          ghost var before := Snapshot();
          inBuf := inBuf[i := NUL];
          if i > 0 && inBuf[i - 1] == CR {
            inBuf := inBuf[i - 1 := NUL];
          }
          assert inBuf == Terminate(before.inBuf, i);
          HandleCmd(CString(inBuf), h);
          if state != Active {
            return;
          }
          if i >= |inBuf| {
            // the source's guard for a pull past the end; the loop condition
            // still holds here, since the handler does not touch the input
            assert false;
          }
          inBuf := inBuf[i + 1..];
          // the scan restarts at the start of the pulled buffer
          i := 0;
        } else {
          i := i + 1;
        }
      }
    }

    /** One receive on the client socket, with the result recv gave. */
    method Read(r: RecvResult, h: Handler)
      modifies this`state, this`inBuf, this`out, this`writeInterest, this`commands
      ensures Snapshot() == AfterRead(old(Snapshot()), r, h)
    {
      match r {
        case Received(data) =>
          var offset := |inBuf|;
          if state != Active {
            return;
          }
          inBuf := inBuf + data;
          FetchLines(offset, h);
        case PeerClosed =>
          state := Destroy;
        case RecvFailed(e) =>
          if Transient(e) {
            return;
          }
          state := Destroy;
      }
    }

    /** One send of the output buffer, with the result send gave. */
    method Write(r: SendResult)
      requires r.Sent? ==> r.count <= |out|
      modifies this`state, this`out, this`writeInterest
      ensures Snapshot() == AfterWrite(old(Snapshot()), r)
    {
      match r {
        case Sent(n) =>
          if n > 0 {
            out := out[n..];
            if |out| == 0 {
              writeInterest := false;
              if state == Pending {
                state := Linger;
              }
            }
          }
        case SendFailed(e) =>
          if Transient(e) {
            return;
          }
          state := Destroy;
      }
    }

    /**
     * Release the client: unregister and close the fd unless it is -1, release
     * the buffers, and stop the linger timer if one is set.
     */
    method Free()
      modifies this`registered, this`closes, this`timerStops, this`freed
      ensures registered == (old(registered) && fd == -1)
      ensures closes == old(closes) + (if fd != -1 then 1 else 0)
      ensures timerStops == old(timerStops) + (if lingerTimer.Some? then 1 else 0)
      ensures freed
    {
      if fd != -1 {
        registered := false;
        closes := closes + 1;
      }
      if lingerTimer.Some? {
        timerStops := timerStops + 1;
      }
      freed := true;
    }

    /** Service the ready events: write first, then read. */
    method Service(ev: Events, sent: SendResult, recvd: RecvResult, h: Handler)
      requires ev.write && sent.Sent? ==> sent.count <= |out|
      modifies this`state, this`inBuf, this`out, this`writeInterest, this`commands
      ensures Snapshot() == AfterService(old(Snapshot()), ev, sent, recvd, h)
    {
      if ev.write {
        Write(sent);
      }
      if ev.read {
        Read(recvd, h);
      }
    }

    /**
     * The reactor callback: service write, then read, then either start lingering
     * (half-close and linger timer t) or remove a destroyed client.
     */
    method Action(ev: Events, sent: SendResult, recvd: RecvResult, h: Handler, t: nat)
      requires server.Valid() && this in server.clients
      requires ev.write && sent.Sent? ==> sent.count <= |out|
      modifies this, server
      ensures server.Valid()
      ensures var (s, removed) := AfterAction(old(Snapshot()), ev, sent, recvd, h, t);
              Snapshot() == s
              && (removed ==> server.clients == Unlink(old(server.clients), this) && this !in server.clients
                              && freed && closes == 1 && !registered
                              && timerStops == (if lingerTimer.Some? then 1 else 0))
              && (!removed ==> server.clients == old(server.clients) && Live())
    {
      ghost var s0 := Snapshot();
      ghost var before := server.clients;
      ActionDecision(s0, ev, sent, recvd, h, t);
      ActionKeepsLingerConsistent(s0, ev, sent, recvd, h, t);
      Service(ev, sent, recvd, h);
      ghost var removed := false;
      if state == Linger && lingerTimer.None? {
        halfCloses := halfCloses + 1;
        lingerTimer := Some(Timer(t, LingerTimeoutMs));
        timerStarts := timerStarts + 1;
      } else if state == Destroy {
        server.Remove(this);
        removed := true;
      }
      StepKeepsValid(server, this, before, removed);
    }

    /**
     * The linger timer fired: forget its handle, so that releasing the client
     * does not stop the timer that already ran, and remove the client.
     */
    method LingerTimeout()
      requires server.Valid() && this in server.clients && lingerTimer.Some?
      modifies this, server
      ensures server.Valid()
      ensures server.clients == Unlink(old(server.clients), this) && this !in server.clients
      ensures Snapshot() == old(Snapshot()).(lingerTimer := None)
      ensures freed && closes == 1 && !registered && timerStops == 0
    {
      ghost var before := server.clients;
      lingerTimer := None;
      server.Remove(this);
      StepKeepsValid(server, this, before, true);
    }
  }

  class Server {
    /** The registry: the linked list of clients, head first. */
    var clients: seq<Client>

    ghost predicate Valid()
      reads this, clients
    {
      Distinct(clients) && forall c :: c in clients ==> c.server == this && c.Live()
    }

    constructor ()
      ensures clients == [] && Valid()
    {
      clients := [];
    }

    /**
     * Accept a connection on fd: a negative fd is refused and changes nothing;
     * otherwise a new Active client without linger timer, registered for read,
     * becomes the head of the registry.
     */
    method Add(fd: int) returns (c: Client?)
      modifies this
      ensures fd < 0 ==> c == null && clients == old(clients)
      ensures fd >= 0 ==> c != null && fresh(c) && clients == [c] + old(clients)
                          && c.fd == fd && c.server == this
                          && c.Snapshot() == NewSession() && c.Live()
      ensures old(Valid()) ==> Valid()
    {
      if fd < 0 {
        return null;
      }
      c := new Client(this, fd);
      clients := [c] + clients;
      c.registered := true;
    }

    /**
     * Unlink c from the registry and release it. An empty registry is left alone
     * and c is not released; in a non-empty one c is released even when it is not
     * found.
     */
    method Remove(c: Client)
      modifies this, c`registered, c`closes, c`timerStops, c`freed
      ensures old(clients) == [] ==> clients == [] && unchanged(c)
      ensures old(clients) != [] ==>
                clients == Unlink(old(clients), c) && c.freed
                && c.registered == (old(c.registered) && c.fd == -1)
                && c.closes == old(c.closes) + (if c.fd != -1 then 1 else 0)
                && c.timerStops == old(c.timerStops) + (if c.lingerTimer.Some? then 1 else 0)
      ensures old(Valid()) ==> Valid()
    {
      if clients == [] {
        return;
      }
      if c == clients[0] {
        clients := clients[1..];
      } else {
        var k := 0;
        while k + 1 < |clients|
          invariant 0 <= k < |clients|
          invariant clients == old(clients)
          invariant c !in clients[..k + 1]
        {
          if clients[k + 1] == c {
            UnlinkFirst(clients, c, k + 1);
            clients := clients[..k + 1] + clients[k + 2..];
            break;
          }
          k := k + 1;
        }
      }
      c.Free();
      if old(Valid()) {
        StepKeepsValid(this, c, old(clients), true);
      }
    }

    /**
     * Release every client. The registry itself is not reset: it still lists the
     * released clients afterwards.
     */
    method Cleanup()
      requires Valid()
      modifies clients`registered, clients`closes, clients`timerStops, clients`freed
      ensures clients == old(clients)
      ensures forall c :: c in clients ==>
                c.Snapshot() == old(c.Snapshot())
                && c.freed && c.closes == 1 && !c.registered
                && c.timerStops == (if old(c.lingerTimer).Some? then 1 else 0)
      ensures clients != [] ==> !Valid()
    {
      var i := 0;
      while i < |clients|
        invariant 0 <= i <= |clients|
        invariant forall j :: 0 <= j < i ==>
                    clients[j].freed && clients[j].closes == 1 && !clients[j].registered
                    && clients[j].timerStops == (if clients[j].lingerTimer.Some? then 1 else 0)
        invariant forall j :: i <= j < |clients| ==> clients[j].Live()
      {
        clients[i].Free();
        i := i + 1;
      }
      if clients != [] {
        assert !clients[0].Live();
      }
    }
  }
}
