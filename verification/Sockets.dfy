/** A connected socket whose network is scripted: how `recv` cuts the peer's bytes, how much of each `send`
    is taken, where either is interrupted, how the peer's side ends, and where a `send` fails. */
module Sockets {
  import opened Prelude

  /** One call of `recv`: EINTR, or at most `n` bytes (at least one if any are left). */
  datatype RecvEvent = RecvInterrupted | Deliver(n: nat)

  /** One call of `send`: EINTR, another error, or `n` bytes taken at most. */
  datatype SendEvent = SendInterrupted | SendFailed | Take(n: nat)

  datatype Received = Interrupted | Failed | Data(bytes: string)

  datatype Sent = SInterrupted | SFailed | Taken(n: nat)

  class Socket {
    const reset: bool            // the peer's side ends with an error of `recv`, not with its end of file
    var input: string            // what is still to be delivered before that
    var output: string           // what the peer has been sent
    var recvs: seq<RecvEvent>    // the script; once it is used up, calls deliver all they can
    var sends: seq<SendEvent>
    var closed: bool

    constructor (input: string, reset: bool, recvs: seq<RecvEvent>, sends: seq<SendEvent>)
      ensures this.input == input && this.reset == reset && this.output == ""
      ensures this.recvs == recvs && this.sends == sends && !closed
    {
      this.input, this.reset, this.output := input, reset, "";
      this.recvs, this.sends, this.closed := recvs, sends, false;
    }

    /** No `send` fails or takes nothing. */
    ghost predicate SendHealthy()
      reads this`sends
    {
      SendFailed !in sends && Take(0) !in sends
    }

    method Recv(limit: nat) returns (r: Received)
      requires limit > 0
      modifies this`input, this`recvs
      ensures r.Data? ==> old(input) == r.bytes + input && |r.bytes| <= limit
      ensures !r.Data? ==> input == old(input)
      ensures r.Failed? || r == Data("") ==> input == "" && (r.Failed? <==> reset)
      ensures |input| + |recvs| < old(|input| + |recvs|) || r.Failed? || r == Data("")
    {
      var event := if recvs == [] then Deliver(limit) else recvs[0];
      recvs := if recvs == [] then [] else recvs[1..];
      match event
      case RecvInterrupted => r := Interrupted;
      case Deliver(n) =>
        if input == "" && reset {
          return Failed;
        }
        var k := Min(Min(if n == 0 then 1 else n, limit), |input|);
        r := Data(input[..k]);
        input := input[k..];
    }

    method Send(data: string) returns (r: Sent)
      requires data != ""
      modifies this`output, this`sends
      ensures r.Taken? ==> r.n <= |data| && output == old(output) + data[..r.n]
      ensures !r.Taken? ==> output == old(output)
      ensures |sends| < old(|sends|) || (old(sends) == [] && r == Taken(|data|) && sends == [])
      ensures old(SendHealthy()) ==> SendHealthy() && !r.SFailed? && r != Taken(0)
    {
      var event := if sends == [] then Take(|data|) else sends[0];
      assert sends != [] ==> sends[0] in sends;
      sends := if sends == [] then [] else sends[1..];
      match event
      case SendInterrupted => r := SInterrupted;
      case SendFailed => r := SFailed;
      case Take(n) =>
        r := Taken(Min(n, |data|));
        output := output + data[..Min(n, |data|)];
    }

    /** `send_all`, src/server.c:31-50: everything, in order, unless a call fails or takes nothing; then a
        part from the front. */
    method SendAll(data: string) returns (ok: bool)
      modifies this`output, this`sends
      ensures ok ==> output == old(output) + data
      ensures old(output) <= output <= old(output) + data
      ensures old(SendHealthy()) ==> ok && SendHealthy()
    {
      var sent := 0;
      assert output == output + data[..0];
      while sent < |data|
        invariant sent <= |data| && output == old(output) + data[..sent]
        invariant old(SendHealthy()) ==> SendHealthy()
        decreases |data| - sent + |sends|
      {
        var r := Send(data[sent..]);
        match r
        case SInterrupted =>
        case SFailed => return false;
        case Taken(n) =>
          if n == 0 {
            return false;
          }
          assert data[..sent] + data[sent..][..n] == data[..sent + n];
          sent := sent + n;
      }
      assert data[..sent] == data;
      ok := true;
    }

    method Close()
      modifies this`closed
      ensures closed
    {
      closed := true;
    }
  }
}
