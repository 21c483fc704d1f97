/**
 * The local-forward engine of fwd.go: the per-session decision in
 * `LocalForward` (probe read, proxy-protocol decode, choice of spoofed
 * source, destination-port fallback, dial and hand-off to splice), and the
 * accept loop of `LocalForwardTCP` and read loop of `LocalForwardUDP`.
 *
 * Calls the engine makes into code outside this model are inputs: what
 * `local.Read` returns, the decoders `DecodePP` / `DecodeSPP`, the error of
 * `GonetDial`, the result of `connSplice`, and the events the listeners see.
 */
module Forward {
  import opened Options
  import opened Net
  import opened Routing

  type Bytes = seq<bv8>

  /** The capacity of the buffer the proxy-protocol preamble is probed into. */
  const ProbeSize: nat := 4096

  /** The capacity of the buffer the UDP read loop receives datagrams into. */
  const DatagramBufferSize: nat := 64 * 1024

  /** The error a session reports when its declared source is in the deny list. */
  const DeniedMessage: string := "PP denied by routingdeny"

  /** One configured forwarding rule (`FwdAddr`). */
  datatype FwdAddr = FwdAddr(
    network: string,        // "tcp" or "udp"
    bind: Endpoint,         // where the gateway listens
    host: Endpoint,         // where it forwards to
    proxyProtocol: bool,
    kaEnable: bool,         // keep-alive enabled
    kaInterval: int)        // keep-alive interval (a Go time.Duration)

  datatype Network = Tcp | Udp

  /** `gaddr`: the target on the guest side, a `*net.TCPAddr` or a `*net.UDPAddr`. */
  datatype Target = Target(network: Network, addr: Endpoint)

  /** The local-side connection: `local.RemoteAddr()` and `local.LocalAddr()`. */
  datatype LocalConn = LocalConn(remoteAddr: Endpoint, localAddr: Endpoint)

  /** What `local.Read` on the probe buffer returns. */
  datatype ReadResult = ReadOk(data: Bytes) | ReadFailed(err: string)

  /** What `DecodePP` / `DecodeSPP` return: bytes consumed, declared source and destination, error. */
  datatype Decoded = Decoded(n: nat, src: Endpoint, dst: Option<Endpoint>, err: Option<string>)

  /** The fields of `ProxyError` this model reads: the leg that failed first and the local-read error. */
  datatype ProxyError = ProxyError(first: int, localRead: Option<string>)

  /** The three ways into the `pperror` exit. */
  datatype Abort = ProbeReadFailed | DecodeFailed | SourceDenied

  /** How a session ends. */
  datatype Ending =
    | PpError(cause: Abort, reported: Option<string>)   // `pperror`: local closed, nothing dialed
    | DialFailed(pe: ProxyError)                        // `GonetDial` failed: local reset and closed
    | Spliced(header: Option<Bytes>, pe: ProxyError)    // `connSplice(local, guest, sppHeader)` ran

  /** A `GonetDial(s, srcIP, gaddr)` call: the spoofed source (None: anonymous) and the target. */
  datatype Dial = Dial(src: Option<Endpoint>, dst: Endpoint)

  /** What one `LocalForward` call does, as seen from outside. */
  datatype Session = Session(
    probe: Option<nat>,       // capacity of the buffer handed to `local.Read`, if it was called
    dial: Option<Dial>,       // the dial, if one was made
    written: Option<Bytes>,   // the bytes handed to `guest.Write`, if it was called
    resetOnClose: bool,       // `SetResetOnClose(local)` was called
    localClosed: bool,        // `local.Close()` was called by `LocalForward` itself
    ending: Ending)

  /** The source decision of fwd.go:148-164, before the port is cleared. */
  datatype Source = Spoof(addr: Endpoint) | Anonymous | Refused

  /**
   * Choose the address to spoof.  Without proxy protocol (`declared` is
   * None) the client's own address is used unless the deny list holds it, in
   * which case the dial is anonymous; with proxy protocol the declared source
   * is used, and a denied one refuses the session outright.
   */
  function SelectSource(deny: seq<Cidr>, raddr: Endpoint, declared: Option<Endpoint>): (r: Source)
    ensures declared.None? ==> !r.Refused?
    ensures declared.Some? ==> !r.Anonymous?
    ensures r.Spoof? ==> r.addr == if declared.Some? then declared.value else raddr
  {
    match declared
    case None => if !IPNetContains(deny, raddr.ip) then Spoof(raddr) else Anonymous
    case Some(src) => if !IPNetContains(deny, src.ip) then Spoof(src) else Refused
  }

  /**
   * The source decision against the bit-prefix reading of the deny list:
   * an address is spoofed exactly when no deny prefix holds it; otherwise
   * the dial is anonymous, or, for a declared source, the session is refused.
   */
  lemma SelectSourceSpoofsUnlessDenied(deny: seq<Cidr>, raddr: Endpoint, declared: Option<Endpoint>)
    ensures declared.None? ==> (SelectSource(deny, raddr, declared) == Spoof(raddr) <==> !InSomePrefix(deny, raddr.ip))
    ensures declared.None? ==> (SelectSource(deny, raddr, declared) == Anonymous <==> InSomePrefix(deny, raddr.ip))
    ensures declared.Some? ==>
              (SelectSource(deny, raddr, declared) == Spoof(declared.value) <==> !InSomePrefix(deny, declared.value.ip))
    ensures declared.Some? ==>
              (SelectSource(deny, raddr, declared) == Refused <==> InSomePrefix(deny, declared.value.ip))
  {
    match declared
    case None => SpoofableIffNoDenyPrefix(deny, raddr.ip);
    case Some(src) => SpoofableIffNoDenyPrefix(deny, src.ip);
  }

  /** The spoofed source handed to the dial: the chosen address with its port cleared, or none. */
  function DialSource(s: Source): (r: Option<Endpoint>)
    ensures r.Some? <==> s.Spoof?
    ensures r.Some? ==> r.value.ip == s.addr.ip && r.value.port == 0
  {
    if s.Spoof? then Some(WithPort(s.addr, 0)) else None
  }

  /**
   * The dialed target: the rule's target, whose port, when 0, is filled in
   * from the port the proxy-protocol preamble declared, or failing that from
   * the local connection's own port.
   */
  function ResolveTarget(gaddr: Endpoint, localPort: nat, ppDst: Option<Endpoint>): (r: Endpoint)
    ensures r.ip == gaddr.ip
    ensures gaddr.port != 0 ==> r.port == gaddr.port
    ensures gaddr.port == 0 && ppDst.Some? ==> r.port == ppDst.value.port
    ensures gaddr.port == 0 && ppDst.None? ==> r.port == localPort
  {
    if gaddr.port != 0 then gaddr
    else
      var port := if ppDst.Some? then ppDst.value.port else localPort;
      WithPort(gaddr, port)
  }

  /** The `pperror` exit: `local.Close()`, no dial. */
  function PpErrorExit(probe: Option<nat>, cause: Abort, reported: Option<string>): (s: Session)
    ensures s.dial.None? && s.written.None? && s.localClosed && !s.resetOnClose
    ensures s.probe == probe && s.ending == PpError(cause, reported)
  {
    Session(probe, None, None, false, true, PpError(cause, reported))
  }

  /** The bytes in hand when decoding starts: the prefetched datagram, else what the probe read returned. */
  function InHand(buf: Option<Bytes>, read: ReadResult): Bytes
    requires buf.Some? || read.ReadOk?
  {
    if buf.Some? then buf.value else read.data
  }

  /** The decoder for the target's transport: `DecodePP` for TCP, `DecodeSPP` for UDP. */
  function DecoderFor(network: Network, decodePP: Bytes -> Decoded, decodeSPP: Bytes -> Decoded): Bytes -> Decoded
  {
    if network == Tcp then decodePP else decodeSPP
  }

  /**
   * `LocalForward(state, s, local, gaddr, buf, proxyProtocol)`: one forwarded
   * session, with the source's step order kept: the consumed prefix is cut
   * off before the decode error is looked at, `guest.Write` is issued before
   * the dial error is looked at, and a failed probe read is reported with no
   * error value because the read's error lands in a variable that shadows
   * the one the `pperror` exit reports.
   */
  method LocalForward(
    deny: seq<Cidr>, local: LocalConn, gaddr: Target, buf: Option<Bytes>, proxyProtocol: bool,
    read: ReadResult, decodePP: Bytes -> Decoded, decodeSPP: Bytes -> Decoded,
    dialErr: Option<string>, splice: ProxyError)
    returns (s: Session)
    requires read.ReadOk? ==> |read.data| <= ProbeSize
    requires forall b: Bytes :: decodePP(b).n <= |b|
    requires forall b: Bytes :: decodeSPP(b).n <= |b|
    // the preamble is probed with one read of at most ProbeSize bytes, and only when nothing was prefetched
    ensures s.probe == (if proxyProtocol && buf.None? then Some(ProbeSize) else None)
    // a failed probe read closes local without dialing
    ensures proxyProtocol && buf.None? && read.ReadFailed? ==>
              s == PpErrorExit(Some(ProbeSize), ProbeReadFailed, None)
    // with proxy protocol: decode, strip the consumed prefix, check the declared source
    ensures proxyProtocol && (buf.Some? || read.ReadOk?) ==>
              var b := InHand(buf, read);
              var d := DecoderFor(gaddr.network, decodePP, decodeSPP)(b);
              && (d.err.Some? ==> s == PpErrorExit(s.probe, DecodeFailed, d.err))
              && (d.err.None? && SelectSource(deny, local.remoteAddr, Some(d.src)).Refused? ==>
                    s == PpErrorExit(s.probe, SourceDenied, Some(DeniedMessage)))
              && (d.err.None? && !SelectSource(deny, local.remoteAddr, Some(d.src)).Refused? ==>
                    && s.dial == Some(Dial(Some(WithPort(d.src, 0)), ResolveTarget(gaddr.addr, local.localAddr.port, d.dst)))
                    && s.written == Some(b[d.n..])
                    && (s.ending.Spliced? ==>
                          s.ending.header == if gaddr.network == Udp then Some(b[..d.n]) else None))
    // without proxy protocol: never abort before the dial
    ensures !proxyProtocol ==>
              && s.dial == Some(Dial(DialSource(SelectSource(deny, local.remoteAddr, None)),
                                     ResolveTarget(gaddr.addr, local.localAddr.port, None)))
              && s.written == buf
              && (s.ending.Spliced? ==> s.ending.header == None)
    // after a dial: a failure resets and closes local and records leg 0; success hands off to splice
    ensures s.dial.Some? && dialErr.Some? ==>
              s.resetOnClose && s.localClosed && s.ending == DialFailed(ProxyError(0, dialErr))
    ensures s.dial.Some? && dialErr.None? ==>
              !s.resetOnClose && !s.localClosed && s.ending.Spliced? && s.ending.pe == splice
    ensures s.dial.None? <==> s.ending.PpError?
  {
    var b := buf;
    var probe: Option<nat> := None;
    var ppSrc: Option<Endpoint> := None;
    var ppDst: Option<Endpoint> := None;
    var sppHeader: Option<Bytes> := None;
    var err: Option<string> := None;

    if proxyProtocol && b.None? {
      probe := Some(ProbeSize);
      match read
      case ReadFailed(_) =>
        // `n, err := local.Read(buf)` declares a new `err`; the outer one is still nil
        s := PpErrorExit(probe, ProbeReadFailed, err);
        return;
      case ReadOk(data) =>
        b := Some(data);
    }

    if proxyProtocol {
      var data := b.value;
      var d := if gaddr.network == Tcp then decodePP(data) else decodeSPP(data);
      if gaddr.network == Udp {
        sppHeader := Some(data[..d.n]);
      }
      b := Some(data[d.n..]);
      ppSrc, ppDst, err := Some(d.src), d.dst, d.err;
      if err.Some? {
        s := PpErrorExit(probe, DecodeFailed, err);
        return;
      }
    }

    var choice := SelectSource(deny, local.remoteAddr, ppSrc);
    if choice.Refused? {
      s := PpErrorExit(probe, SourceDenied, Some(DeniedMessage));
      return;
    }
    var srcIP := DialSource(choice);

    var target := ResolveTarget(gaddr.addr, local.localAddr.port, ppDst);
    var dial := Dial(srcIP, target);
    var written := b;
    if dialErr.Some? {
      s := Session(probe, Some(dial), written, true, true, DialFailed(ProxyError(0, dialErr)));
    } else {
      s := Session(probe, Some(dial), written, false, false, Spliced(sppHeader, splice));
    }
  }

  /** What one `srv.Accept()` returns. */
  datatype AcceptEvent = Accepted(conn: LocalConn) | AcceptFailed(err: string)

  /**
   * The accept loop of `LocalForwardTCP`: every accepted connection gets its
   * own `LocalForward` session (no prefetched bytes, the rule's proxy-protocol
   * flag); the first failed accept ends the loop and is the error it reports.
   */
  method AcceptLoop(events: seq<AcceptEvent>) returns (sessions: seq<LocalConn>, stop: Option<string>)
    ensures |sessions| <= |events|
    ensures forall j :: 0 <= j < |sessions| ==> events[j] == Accepted(sessions[j])
    ensures stop.None? <==> |sessions| == |events|
    ensures stop.Some? ==> events[|sessions|] == AcceptFailed(stop.value)
  {
    sessions, stop := [], None;
    var i := 0;
    while i < |events|
      invariant i == |sessions| <= |events|
      invariant forall j :: 0 <= j < i ==> events[j] == Accepted(sessions[j])
    {
      match events[i] {
        case AcceptFailed(err) =>
          stop := Some(err);
          return;
        case Accepted(conn) =>
          sessions := sessions + [conn];
      }
      i := i + 1;
    }
  }

  /** The result of `MagicDialUDP(laddr, raddr)`: the demultiplexed per-peer connection. */
  datatype Demux = Demuxed(conn: LocalConn) | DemuxFailed(err: string)

  /** What one `srv.ReadFrom(buf)` yields: a datagram (and the demux dial made for it) or an error. */
  datatype UdpEvent = Datagram(data: Bytes, demux: Demux) | ReadFromFailed(err: string)

  /** What the read loop does with one datagram. */
  datatype UdpStep =
    | Spawned(conn: LocalConn, closeOnWrite: bool, payload: Bytes)  // a `LocalForward` session with the datagram prefetched
    | Dropped(closeOnWrite: bool)   // the demux dial failed; `closeOnWrite` was still assigned on its result

  /**
   * The read loop of `LocalForwardUDP`: each datagram is demultiplexed to a
   * per-peer connection, which closes after its first write exactly when
   * keep-alive is enabled with a zero interval, and a session is started with
   * the datagram as its prefetched bytes; a failed demux drops the datagram
   * and the loop goes on; the first failed read ends the loop.
   */
  method ReadLoop(rf: FwdAddr, events: seq<UdpEvent>) returns (steps: seq<UdpStep>, stop: Option<string>)
    requires forall e :: e in events && e.Datagram? ==> |e.data| <= DatagramBufferSize
    ensures |steps| <= |events|
    ensures forall j :: 0 <= j < |steps| ==> events[j].Datagram?
    ensures forall j :: 0 <= j < |steps| ==> (steps[j].Spawned? <==> events[j].demux.Demuxed?)
    ensures forall j :: 0 <= j < |steps| && steps[j].Spawned? ==>
              steps[j].conn == events[j].demux.conn && steps[j].payload == events[j].data
    ensures forall j :: 0 <= j < |steps| ==> (steps[j].closeOnWrite <==> rf.kaEnable && rf.kaInterval == 0)
    ensures stop.None? <==> |steps| == |events|
    ensures stop.Some? ==> events[|steps|] == ReadFromFailed(stop.value)
  {
    steps, stop := [], None;
    var i := 0;
    while i < |events|
      invariant i == |steps| <= |events|
      invariant forall j :: 0 <= j < i ==> events[j].Datagram?
      invariant forall j :: 0 <= j < i ==> (steps[j].Spawned? <==> events[j].demux.Demuxed?)
      invariant forall j :: 0 <= j < i && steps[j].Spawned? ==>
                  steps[j].conn == events[j].demux.conn && steps[j].payload == events[j].data
      invariant forall j :: 0 <= j < i ==> (steps[j].closeOnWrite <==> rf.kaEnable && rf.kaInterval == 0)
    {
      match events[i] {
        case ReadFromFailed(err) =>
          stop := Some(err);
          return;
        case Datagram(data, demux) =>
          // the flag is assigned on the dial's result before its error is looked at
          var closeOnWrite := rf.kaEnable && rf.kaInterval == 0;
          if demux.DemuxFailed? {
            steps := steps + [Dropped(closeOnWrite)];
          } else {
            steps := steps + [Spawned(demux.conn, closeOnWrite, data)];
          }
      }
      i := i + 1;
    }
  }

  /**
   * With the gateway's deny table, a client in a reserved IPv4 range is never
   * spoofed: without proxy protocol the dial is anonymous, and as a declared
   * proxy-protocol source it refuses the session.
   */
  lemma ReservedClientNeverSpoofed(client: Endpoint, raddr: Endpoint)
    requires To4(client.ip).Some? && ReservedV4(To4(client.ip).value)
    ensures SelectSource(DenyTable, client, None) == Anonymous
    ensures SelectSource(DenyTable, raddr, Some(client)) == Refused
  {
    DeniedIPv4(client.ip);
  }
}
