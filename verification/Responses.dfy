/** What the service sends back over its pipe, and the progress callback that sends it. */
module Responses {

  datatype Response =
    | OpenResponse(handle: int)
    | DownloadResponse(sent: nat, total: nat, handle: int, final: bool)
    | CloseResponse
    | ErrorResponse

  /** The pipe to the client: what has been sent on it, in order. */
  class Channel {
    var sent: seq<Response>

    constructor ()
      ensures sent == []
    {
      sent := [];
    }

    method Send(response: Response)
      modifies this
      ensures sent == old(sent) + [response]
    {
      sent := sent + [response];
    }
  }

  /** One call of a progress callback: the library handle, and how much of how much. */
  datatype Report = Report(handle: int, sent: nat, total: nat)

  function Reports(handle: int, counts: seq<nat>, total: nat): (r: seq<Report>)
    ensures |r| == |counts|
    ensures forall i :: 0 <= i < |r| ==> r[i] == Report(handle, counts[i], total)
  {
    seq(|counts|, i requires 0 <= i < |counts| => Report(handle, counts[i], total))
  }

  lemma ReportsSnoc(handle: int, counts: seq<nat>, n: nat, total: nat)
    ensures Reports(handle, counts + [n], total) == Reports(handle, counts, total) + [Report(handle, n, total)]
  {
  }

  /** The progress responses for these reports, on a service handle. */
  function Relayed(handle: int, heard: seq<Report>): (r: seq<Response>)
    ensures |r| == |heard|
    ensures forall i :: 0 <= i < |r| ==> r[i] == DownloadResponse(heard[i].sent, heard[i].total, handle, false)
  {
    seq(|heard|, i requires 0 <= i < |heard| => DownloadResponse(heard[i].sent, heard[i].total, handle, false))
  }

  lemma RelayedSnoc(handle: int, heard: seq<Report>, r: Report)
    ensures Relayed(handle, heard + [r]) == Relayed(handle, heard) + [DownloadResponse(r.sent, r.total, handle, false)]
  {
  }

  /** The progress callback of one download command: it sends every report on as it comes,
      and remembers the last one. */
  class Callback {
    const channel: Channel
    const handle: int
    var bytesSent: nat
    var bytesTotal: nat
    ghost const before: seq<Response>
    ghost var heard: seq<Report>

    ghost predicate Valid()
      reads this, channel
    {
      && channel.sent == before + Relayed(handle, heard)
      && (if heard == [] then bytesSent == bytesTotal == 0
          else bytesSent == heard[|heard| - 1].sent && bytesTotal == heard[|heard| - 1].total)
    }

    constructor (channel: Channel, handle: int)
      ensures Valid() && heard == [] && this.channel == channel && this.handle == handle && before == channel.sent
    {
      this.channel, this.handle := channel, handle;
      bytesSent, bytesTotal := 0, 0;
      before, heard := channel.sent, [];
    }

    /** `libraryHandle` has found the way here and plays no further part. */
    method Call(libraryHandle: int, sent: nat, total: nat)
      requires Valid()
      modifies this, channel
      ensures Valid() && heard == old(heard) + [Report(libraryHandle, sent, total)]
    {
      RelayedSnoc(handle, heard, Report(libraryHandle, sent, total));
      heard := heard + [Report(libraryHandle, sent, total)];
      bytesSent := sent;
      bytesTotal := total;
      channel.Send(DownloadResponse(sent, total, handle, false));
    }
  }
}
