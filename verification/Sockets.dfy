/** Non-blocking sockets as the program uses them. */
module Sockets {
  import opened Bytes

  /** What one read or write call reports. */
  datatype IoEvent = Moved(n: nat) | WouldBlock | Interrupted | Broken

  /** The history of the writing end of a connection. */
  datatype Log = Log(script: seq<IoEvent>, calls: nat, sent: seq<Byte>, broken: bool, stalled: bool, blocked: bool)

  /** The network is to blame: every trouble recorded was in the script, or the script is over. */
  ghost predicate Honest(l: Log) {
    && l.calls <= |l.script|
    && (l.broken ==> l.calls == |l.script| || Broken in l.script)
    && (l.stalled ==> Moved(0) in l.script)
    && (l.blocked ==> WouldBlock in l.script)
  }

  /** What the next call reports for a buffer of `n` bytes; after the script the connection is broken. */
  function Told(l: Log, n: nat): IoEvent {
    if l.calls >= |l.script| then Broken
    else if l.script[l.calls].Moved? then Moved(Min(l.script[l.calls].n, n))
    else l.script[l.calls]
  }

  function Written(l: Log, buf: seq<Byte>): Log {
    var r := Told(l, |buf|);
    Log(l.script, if l.calls < |l.script| then l.calls + 1 else l.calls,
        if r.Moved? && r.n <= |buf| then l.sent + buf[..r.n] else l.sent,
        l.broken || r.Broken?, l.stalled || (r == Moved(0) && buf != []), l.blocked || r.WouldBlock?)
  }

  lemma WrittenHonest(l: Log, buf: seq<Byte>)
    requires Honest(l)
    ensures Honest(Written(l, buf))
  {
    if l.calls < |l.script| {
      assert l.script[l.calls] in l.script;
    }
  }

  /**
   * The writing end of a connection.  `script` lists what the calls will report, so that a method is proved
   * for every behaviour of the network.  `broken`, `stalled` and `blocked` record whether a call has failed, has
   * moved nothing of something, or would have blocked.
   */
  class OutSocket {
    const script: seq<IoEvent>
    var calls: nat
    var sent: seq<Byte>
    var broken: bool
    var stalled: bool
    var blocked: bool

    constructor (script: seq<IoEvent>)
      ensures Unused() && this.script == script
    {
      this.script, calls, sent, broken, stalled, blocked := script, 0, [], false, false, false;
    }

    predicate Unused()
      reads this
    {
      calls == 0 && sent == [] && !broken && !stalled && !blocked
    }

    function History(): Log
      reads this
    {
      Log(script, calls, sent, broken, stalled, blocked)
    }

    method Write(buf: seq<Byte>) returns (r: IoEvent)
      modifies this
      ensures r == Told(old(History()), |buf|) && History() == Written(old(History()), buf)
    {
      r := Told(History(), |buf|);
      if calls >= |script| {
        broken := true;
        return;
      }
      calls := calls + 1;
      if r.Moved? {
        sent := sent + buf[..r.n];
      }
      broken, stalled := broken || r.Broken?, stalled || (r == Moved(0) && buf != []);
      blocked := blocked || r.WouldBlock?;
    }
  }

  /**
   * The reading end.  `data` is everything the peer writes before it closes; a read reports zero
   * bytes only at the end of the stream.
   */
  class InSocket {
    const data: seq<Byte>
    var pos: nat
    var script: seq<IoEvent>
    var last: IoEvent // what the last read has reported

    constructor (data: seq<Byte>, script: seq<IoEvent>)
      ensures this.data == data && pos == 0 && this.script == script && last == WouldBlock
    {
      this.data, pos, this.script, last := data, 0, script, WouldBlock;
    }

    method Read(max: nat) returns (r: IoEvent, bytes: seq<Byte>)
      requires max > 0 && pos <= |data|
      modifies this
      ensures old(pos) <= pos <= |data| && bytes == data[old(pos)..pos]
      ensures r.Moved? ==> r.n == |bytes| <= max && (r.n == 0 <==> old(pos) == |data|)
      ensures !r.Moved? ==> bytes == []
      ensures last == r
      ensures r.Broken? || |script| < old(|script|)
    {
      if script == [] {
        last := Broken;
        return Broken, [];
      }
      r, script := script[0], script[1..];
      bytes := [];
      if r.Moved? {
        var k := Min(Min(if r.n == 0 then 1 else r.n, max), |data| - pos);
        bytes := data[pos..pos + k];
        pos := pos + k;
        r := Moved(k);
      }
      last := r;
    }
  }
}
