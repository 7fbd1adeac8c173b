/**
 The USB HID side of the firmware: the decoder for the host's LED status
 report (report id 3: index, red, green, blue) and the write-busy flag that
 serialises reports sent to the host over endpoint 1.
 */
module Hid {
  import opened Types
  import opened StatusTable

  /** Report id of the vendor-defined LED status report. */
  const StatusReportId: uint8 := 0x03

  /** Bytes a status report needs: the id and four payload bytes. */
  const StatusReportLen: nat := 5

  /** A decoded status report. The index is raw: range checking is left to
      the status table. */
  datatype StatusReport = StatusReport(index: uint8, r: uint8, g: uint8, b: uint8)

  /** Decodes a buffer received on endpoint 2; `None` when the buffer is too
      short or carries another report id. */
  function Decode(buf: seq<uint8>): (rep: Option<StatusReport>)
    ensures rep.Some? <==> |buf| >= StatusReportLen && buf[0] == StatusReportId
    ensures rep.Some? ==> rep.value == StatusReport(buf[1], buf[2], buf[3], buf[4])
  {
    if |buf| >= StatusReportLen && buf[0] == StatusReportId then
      Some(StatusReport(buf[1], buf[2], buf[3], buf[4]))
    else
      None
  }

  /** The bytes a host sends for a status report. */
  function Encode(rep: StatusReport): (buf: seq<uint8>)
    ensures |buf| == StatusReportLen
  {
    [StatusReportId, rep.index, rep.r, rep.g, rep.b]
  }

  /** Every status report survives encoding and decoding. */
  lemma DecodeEncode(rep: StatusReport)
    ensures Decode(Encode(rep)) == Some(rep)
  {
  }

  /** A buffer is accepted exactly when its first five bytes are the encoding
      of the report it decodes to. */
  lemma DecodeAcceptsOnlyEncodings(buf: seq<uint8>, rep: StatusReport)
    ensures Decode(buf) == Some(rep) <==> |buf| >= StatusReportLen && buf[..StatusReportLen] == Encode(rep)
  {
  }

  /** Bytes after the fifth never change what a buffer decodes to. */
  lemma DecodeReadsFiveBytes(buf: seq<uint8>, extra: seq<uint8>)
    requires |buf| >= StatusReportLen
    ensures Decode(buf + extra) == Decode(buf)
    ensures Decode(buf) == Decode(buf[..StatusReportLen])
  {
  }

  /** The endpoint 2 OUT handler's effect on the status table. */
  function HandleOut(t: Table, buf: seq<uint8>): (t': Table)
    ensures |buf| >= StatusReportLen && buf[0] == StatusReportId ==> t' == Set(t, buf[1], buf[2], buf[3], buf[4])
    ensures |buf| < StatusReportLen || buf[0] != StatusReportId ==> t' == t
    ensures Valid(t) ==> Valid(t')
  {
    match Decode(buf)
    case None => t
    case Some(rep) => Set(t, rep.index, rep.r, rep.g, rep.b)
  }

  /** A report whose index is past the end of the table is accepted by the
      decoder but leaves the table unchanged. */
  lemma OutOfRangeReportIgnored(t: Table, buf: seq<uint8>)
    requires |buf| >= StatusReportLen && buf[0] == StatusReportId && buf[1] >= LedCount
    ensures Decode(buf).Some?
    ensures HandleOut(t, buf) == t
  {
  }

  /** A status report cut short after its index byte changes nothing. */
  lemma TruncatedReportIgnored(t: Table)
    ensures HandleOut(t, [StatusReportId, 9]) == t
  {
  }

  // ---------------------------------------------------------------------------
  // Endpoint 1 IN: reports sent to the host

  /** Endpoint 1's transmit side: the write-busy flag, the endpoint buffer and
      the number of bytes armed for upload. */
  datatype Endpoint1 = Endpoint1(writeBusy: bool, buffer: seq<uint8>, txLen: uint8)

  /** The endpoint after `len` bytes of `buf` were handed to it. */
  function Sent(ep: Endpoint1, buf: seq<uint8>, len: uint8): (ep': Endpoint1)
    requires len <= |buf| && len <= |ep.buffer|
    ensures ep'.writeBusy && ep'.txLen == len
    ensures |ep'.buffer| == |ep.buffer|
    ensures forall i :: 0 <= i < len ==> ep'.buffer[i] == buf[i]
    ensures forall i :: len <= i < |ep.buffer| ==> ep'.buffer[i] == ep.buffer[i]
  {
    Endpoint1(true, buf[..len] + ep.buffer[len..], len)
  }

  /** Sending a report. The firmware spins until the flag is clear, so a send
      starts only with the flag clear; it then copies the report byte by byte
      into the endpoint buffer, arms the upload and sets the flag. */
  method SendReport(ep: Endpoint1, buf: seq<uint8>, len: uint8) returns (ep': Endpoint1)
    requires !ep.writeBusy
    requires len <= |buf| && len <= |ep.buffer|
    ensures ep' == Sent(ep, buf, len)
  {
    var buffer := ep.buffer;
    for i := 0 to len
      invariant |buffer| == |ep.buffer|
      invariant forall j :: 0 <= j < i ==> buffer[j] == buf[j]
      invariant forall j :: i <= j < |ep.buffer| ==> buffer[j] == ep.buffer[j]
    {
      buffer := buffer[i := buf[i]];
    }
    ep' := Endpoint1(true, buffer, len);
  }

  /** The IN transfer completed: nothing is left to upload and the flag is
      cleared. */
  function InComplete(ep: Endpoint1): (ep': Endpoint1)
    ensures !ep'.writeBusy && ep'.txLen == 0 && ep'.buffer == ep.buffer
  {
    ep.(writeBusy := false, txLen := 0)
  }

  /** A bus reset clears the flag and leaves the buffer and length alone. */
  function Reset(ep: Endpoint1): (ep': Endpoint1)
    ensures !ep'.writeBusy && ep'.txLen == ep.txLen && ep'.buffer == ep.buffer
  {
    ep.(writeBusy := false)
  }

  datatype EndpointEvent = SendEvent(data: seq<uint8>, len: uint8) | InDone | BusReset

  /** A sequence of endpoint events the firmware can produce: every send
      finds the flag clear and fits in the endpoint buffer. */
  predicate Admissible(ep: Endpoint1, evs: seq<EndpointEvent>)
    decreases |evs|
  {
    if |evs| == 0 then true
    else match evs[0]
      case SendEvent(data, len) =>
        && !ep.writeBusy && len <= |data| && len <= |ep.buffer|
        && Admissible(Sent(ep, data, len), evs[1..])
      case InDone => Admissible(InComplete(ep), evs[1..])
      case BusReset => Admissible(Reset(ep), evs[1..])
  }

  function Replay(ep: Endpoint1, evs: seq<EndpointEvent>): Endpoint1
    requires Admissible(ep, evs)
    decreases |evs|
  {
    if |evs| == 0 then ep
    else match evs[0]
      case SendEvent(data, len) => Replay(Sent(ep, data, len), evs[1..])
      case InDone => Replay(InComplete(ep), evs[1..])
      case BusReset => Replay(Reset(ep), evs[1..])
  }

  /** After any non-empty admissible sequence the flag is set exactly when the
      last event was a send. */
  lemma {:induction false} BusyIffLastWasSend(ep: Endpoint1, evs: seq<EndpointEvent>)
    requires |evs| > 0 && Admissible(ep, evs)
    ensures Replay(ep, evs).writeBusy <==> evs[|evs| - 1].SendEvent?
    decreases |evs|
  {
    if |evs| > 1 {
      match evs[0]
      case SendEvent(data, len) => BusyIffLastWasSend(Sent(ep, data, len), evs[1..]);
      case InDone => BusyIffLastWasSend(InComplete(ep), evs[1..]);
      case BusReset => BusyIffLastWasSend(Reset(ep), evs[1..]);
    }
  }

  /** Two sends need a completion or a reset between them. */
  lemma SendsNeedCompletionBetween(ep: Endpoint1, a: seq<uint8>, la: uint8, b: seq<uint8>, lb: uint8)
    ensures !Admissible(ep, [SendEvent(a, la), SendEvent(b, lb)])
  {
  }
}
