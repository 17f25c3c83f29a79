/** The connection handler itself: a loop that reads one input at a time,
    answers it into a buffered writer, flushes at the end of each pipelined
    batch and stops on a read failure or a failed write. Its final state is
    the one the Session state machine describes. */
module Handler {
  import opened Commands
  import opened Session

  class Connection {
    var flushed: seq<Reply>   // replies that reached the socket
    var pending: seq<Reply>   // replies buffered in the writer, not yet flushed
    var broken: bool          // the buffered writer holds an error
    var stopped: bool         // the loop has ended
    ghost var read: nat       // inputs read so far

    ghost function Snapshot(): State
      reads this
    {
      State(flushed, pending, broken, stopped, read)
    }

    constructor ()
      ensures Snapshot() == Initial
    {
      flushed, pending, broken, stopped, read := [], [], false, false, 0;
    }

    /** Writes one reply into the buffered writer; reports whether the write
        failed (the writer refuses every write once it holds an error). */
    method Write(r: Reply, ok: bool) returns (failed: bool)
      modifies this
      ensures failed <==> old(broken) || !ok
      ensures Snapshot() == Session.Write(old(Snapshot()), r, ok)
    {
      if broken || !ok {
        broken := true;
        failed := true;
      } else {
        pending := pending + [r];
        failed := false;
      }
    }

    /** Flushes the buffered writer, unless it holds an error or has nothing
        buffered; a failure is only recorded in the writer, after the first
        `sent` pending replies already reached the socket. */
    method Flush(ok: bool, sent: nat)
      modifies this
      ensures Snapshot() == Session.Flush(old(Snapshot()), ok, sent)
    {
      if !broken && pending != [] {
        if ok {
          flushed, pending := flushed + pending, [];
        } else {
          var n := if sent < |pending| then sent else |pending|;
          flushed, pending, broken := flushed + pending[..n], pending[n..], true;
        }
      }
    }

    /** One iteration of the loop: reads one input and answers it. */
    method HandleInput(inp: Input)
      requires !stopped
      modifies this
      ensures Snapshot() == Step(old(Snapshot()), inp)
    {
      match inp.event {
        case ReadFailure =>
          stopped := true;
        case ProtocolError(text, isLast) =>
          var ew := Write(Error(text), inp.io.writeOk);
          if isLast {
            Flush(inp.io.flushOk, inp.io.flushSent);
          }
          stopped := ew;
        case Command(args, isLast) =>
          var reply := Dispatch(args, inp.io.wait);
          var ew := Write(reply, inp.io.writeOk);
          if isLast {
            Flush(inp.io.flushOk, inp.io.flushSent);
          }
          stopped := ew;
      }
      read := read + 1;
    }

    /** Runs the command loop of one connection over the inputs it is offered. */
    method HandleConnection(inputs: seq<Input>)
      modifies this
      ensures Snapshot() == Serve(inputs)
    {
      flushed, pending, broken, stopped, read := [], [], false, false, 0;
      var i := 0;
      while i < |inputs| && !stopped
        invariant 0 <= i <= |inputs|
        invariant Snapshot() == Serve(inputs[..i])
        decreases |inputs| - i
      {
        HandleInput(inputs[i]);
        ServePrefixStep(inputs, i);
        i := i + 1;
      }
      if i < |inputs| {
        assert inputs == inputs[..i] + inputs[i..];
        StopIsFinal(inputs[..i], inputs[i..]);
      } else {
        assert inputs[..i] == inputs;
      }
    }
  }
}
