# slirpnetstack gateway core in Dafny

This project models the user-mode network gateway's decision logic and
proves properties about it. The gateway joins a VM's virtual network stack
to the host's sockets. Three pieces are modelled:

- **Local forwarding** (`fwd.go`, module `Forward`): what one forwarded
  session does, step by step. The steps are the proxy-protocol probe read,
  the preamble decode with the consumed prefix stripped, the choice of a
  spoofed source address, the fill-in of a zero destination port, and the
  dial, which either fails or hands off to splice. The module also covers
  the TCP accept loop and the UDP read loop that start sessions.
- **Gateway state** (`main.go`, modules `Routing` and `Gateway`):
  - the `State` object and its two routing tables;
  - the remote-forward registries, keyed by bind address;
  - the loop that starts one listener per local-forward rule;
  - the `logConnections` switch.
- **resolv.conf reading** (`dnsconfig.go`, module `DnsConfig`): the
  line-by-line reader that collects at most three name servers.

Module `Net` supplies what the code takes from Go's `net` package. An IP
address is a 4- or 16-byte slice, and `To4` undoes IPv4 mapping. CIDR
containment is `IPNet.Contains`, which masks each byte and compares. It is
proved equal to a plain bit-prefix match. The facts about the concrete
tables are stated against `IPNet.Contains` and the byte-level predicates
`ReservedV4` and `ReservedV6`. The source-selection facts are stated against
the bit-prefix match.

Each call into code outside the model is an input:

- what `local.Read` returns;
- the decoders `DecodePP` and `DecodeSPP`, assumed never to consume more
  than they were given;
- the error `GonetDial` returns and the result `connSplice` returns;
- the accept, read and demux events each loop sees;
- the outcome of each listen call;
- `net.ParseIP` and `BindAddr().String()`.

The model keeps these quirks of the source:

- A failed probe read reaches the `pperror` exit with no error value.
  `n, err := local.Read(buf)` declares a new `err`, so the one reported
  is still nil (fwd.go:118-120).
- The consumed preamble is cut off, and the UDP header copied, before the
  decode error is checked (fwd.go:129-140).
- `guest.Write(buf)` is issued before the dial error is checked
  (fwd.go:199-206). Only a write after a successful dial would be safe;
  the model follows the code, so `Session.written` is set even when the
  dial failed.
- `closeOnWrite` is assigned on the demux result before its error is
  checked (fwd.go:90-99).
- In the dispatch loop, a rule whose network is neither "tcp" nor "udp"
  leaves both `srv` and `err` nil. The next step calls `srv.Addr()` on a
  nil interface, which panics and ends the process (main.go:198-217). The
  model reports this as `NilListener` and stops dispatching there, and
  `StartGateway` then registers no remote rules: both stand for that panic.

## Model

| member | source | states |
|---|---|---|
| Net.ContainsIsPrefixMatch | fwd.go:153-163 | The mask-and-compare containment test used against the deny list holds exactly when the address, in its 4-byte form for IPv4, matches the net's first `ones` bits |
| Routing.IPNetContains | fwd.go:153-158 | A list of nets contains an address exactly when some net in it does |
| Routing.SpoofableIffNoDenyPrefix | fwd.go:148-164 | An address passes the deny test exactly when no deny prefix holds it bit for bit |
| Routing.DenyThisNetwork | main.go:108 | 0.0.0.0/8 holds exactly the IPv4 addresses whose first byte is 0 |
| Routing.DenyLoopback | main.go:110 | 127.0.0.0/8 holds exactly the addresses whose first byte is 127 |
| Routing.DenyLinkLocal | main.go:111 | 169.254.0.0/16 holds exactly the addresses beginning 169.254 |
| Routing.DenyMulticast | main.go:112 | 224.0.0.0/4 holds exactly the addresses whose first byte is 224 to 239 |
| Routing.DenyReserved | main.go:113 | 240.0.0.0/4 holds exactly the addresses whose first byte is 240 or more |
| Routing.DenyBroadcast | main.go:114 | 255.255.255.255/32 holds exactly that one address |
| Routing.DenyV4Contains | main.go:107-114 | The IPv4 part of the deny list holds a 4-byte address exactly when it is reserved: first byte 0, 127 or at least 224, or beginning 169.254 |
| Routing.DeniedIPv4 | main.go:107-124 | The whole deny list holds an IPv4 or IPv4-mapped address exactly when its 4-byte form is reserved; the IPv6 entries never match it |
| Routing.DenyUnspecified | main.go:115 | ::/128 holds exactly the all-zero address |
| Routing.DenyLoopbackV6 | main.go:116 | ::1/128 holds exactly ::1 |
| Routing.DenyV4Compatible | main.go:117 | ::/96 holds exactly the addresses whose first 12 bytes are zero |
| Routing.DenyV4Translated | main.go:118 | ::ffff:0:0:0/96 holds exactly the addresses of the form ::ffff:0:a.b.c.d |
| Routing.DenyNat64 | main.go:119 | 64:ff9b::/96 holds exactly the addresses beginning 64:ff9b followed by eight zero bytes |
| Routing.DenyUniqueLocal | main.go:120 | fc00::/7 holds exactly the addresses whose first byte is 0xfc or 0xfd |
| Routing.DenyLinkLocalV6 | main.go:121 | fe80::/10 holds exactly the addresses whose first ten bits are 1111111010 |
| Routing.DenyMulticastV6 | main.go:122 | ff00::/8 holds exactly the addresses whose first byte is 0xff |
| Routing.DenySiteLocal | main.go:123 | fec0::/10 holds exactly the addresses whose first ten bits are 1111111011 |
| Routing.ReservedInDenyV6 | main.go:115-123 | Every reserved IPv6 address is held by some IPv6 deny entry |
| Routing.DenyV6OnlyReserved | main.go:115-123 | Every IPv6 deny entry holds only reserved addresses |
| Routing.DenyV6Contains | main.go:115-123 | The IPv6 part of the deny list holds a 16-byte address exactly when it is reserved |
| Routing.DeniedIPv6 | main.go:107-124 | The whole deny list holds a 16-byte address that is not IPv4-mapped exactly when it is in one of the reserved IPv6 ranges |
| Routing.AllowCoversEverything | main.go:126-129 | The allow list holds every 4- and 16-byte address |
| Routing.TenNetIsSpoofable | main.go:109 | With the 10.0.0.0/8 entry commented out, no deny prefix holds any 10.x.y.z address |
| Forward.SelectSource | fwd.go:148-164 | Without proxy protocol a session is never refused; with it the dial is never anonymous. A spoofed address is the declared source when there is one, else the client's own address |
| Forward.DialSource | fwd.go:166-174 | A source address is passed to the dial exactly when one was chosen to spoof; it is that address with port 0 |
| Forward.SelectSourceSpoofsUnlessDenied | fwd.go:148-164 | Without proxy protocol, the client is spoofed exactly when no deny prefix holds it, else the dial is anonymous. With proxy protocol, the declared source is spoofed exactly when no deny prefix holds it, else the session is refused |
| Forward.ResolveTarget | fwd.go:176-188 | The target keeps its address and any nonzero port. A zero port becomes the proxy-protocol destination port when one was declared, else the local connection's own port |
| Forward.LocalForward | fwd.go:109-236 | Nothing prefetched under proxy protocol means one probe read of at most 4096 bytes; a failed read closes local with no dial and no error reported. A decode error closes local with no dial and reports the decoder's error. A refused source reports "PP denied by routingdeny" and dials nothing. Otherwise the dial uses the chosen source with port 0 and the resolved target. The bytes written are the input minus the consumed prefix, and a UDP session's header is exactly that prefix. A failed dial resets and closes local and records leg 0 with the dial error. A successful dial hands splice's result through untouched |
| Forward.AcceptLoop | fwd.go:32-47 | One session per accepted connection, in order. The first failed accept ends the loop and is the error it returns |
| Forward.ReadLoop | fwd.go:80-105 | Each datagram is demultiplexed in order. A successful demux starts a session with the datagram prefetched. A failed demux drops the datagram and the loop goes on. `closeOnWrite` is set on every step exactly when keep-alive is on with a zero interval. The first failed read ends the loop |
| Forward.ReservedClientNeverSpoofed | fwd.go:148-164 | With the gateway's deny list, a client in a reserved IPv4 range is never spoofed: it is dialed anonymously, and as a declared source it is refused |
| Gateway.Registry | main.go:219-228 | The registry a rule list builds for one transport; when the last rule is of that transport, its bind key maps to its index. The lemmas below state the whole map |
| Gateway.RegistryHoldsOnlyItsTransport | main.go:219-228 | Every registry entry is the index of a rule of that transport, stored under that rule's own bind key |
| Gateway.RegistryLastRuleWins | main.go:219-228 | Every rule of the transport has its key registered. A key's entry is the last rule of that transport carrying that key |
| Gateway.RegistriesAreDisjoint | main.go:222-227 | No rule is registered in both the TCP and the UDP registry |
| Gateway.State.constructor | main.go:55-64 | The zero `State` has empty tables and empty registries |
| Gateway.State.InstallTables | main.go:103-129 | Both registries start empty, and the deny and allow tables are appended in full |
| Gateway.State.RegisterRemoteForwards | main.go:219-228 | The registries become what they were plus the per-transport registry of the rules; the routing tables are untouched |
| Gateway.ReportFor | main.go:198-216 | A rule of neither transport yields the nil-listener case. Otherwise a failed listen is reported with the rule's network and bind address and the listen error, and a successful one with the listener's address |
| Gateway.DispatchLocalForwards | main.go:198-217 | Rules are processed in order, one report each. A failed listen is reported and does not stop the loop. The loop stops only at a rule of another transport, the nil-listener case. When every rule is "tcp" or "udp", every rule is processed |
| Gateway.StartGateway | main.go:94-228 | Connection logging is `!quiet`, and the tables are exactly the deny and allow lists. Local forwards are dispatched in order. When dispatch did not stop on a nil listener, the registries are exactly those the remote rules build |
| DnsConfig.Fields | dnsconfig.go:39 | `strings.Fields` over a line; its meaning is stated by the five lemmas below |
| DnsConfig.FieldsOfWord | dnsconfig.go:39 | A non-empty run of non-space characters is exactly one field, never cut |
| DnsConfig.FieldsSplitAtSpace | dnsconfig.go:39 | A white-space character always ends a field: the fields of `s + [c] + t` are those of `s` followed by those of `t` |
| DnsConfig.FieldsAreWords | dnsconfig.go:39 | Every field of a line is a non-empty run of non-space characters |
| DnsConfig.FieldsKeepEveryOtherCharacter | dnsconfig.go:39 | Splitting a line drops only white space: the fields joined back together are the line's non-space characters, in order |
| DnsConfig.NoFieldsIffBlank | dnsconfig.go:39-42 | A line has no fields exactly when it is all white space |
| DnsConfig.Offered | dnsconfig.go:35-52 | A line offers at most one server. An offered server is an IP address and is the second field of a non-comment line whose first field is "nameserver", a line that never sets `unknownOpt` |
| DnsConfig.IsUnknown | dnsconfig.go:35-55 | A line sets `unknownOpt` when it is not a column-0 comment and has a first field other than "nameserver"; stated by the lemmas below |
| DnsConfig.Offers | dnsconfig.go:43-52 | Every server offered by the lines is an IP address |
| DnsConfig.CommentLineIgnored | dnsconfig.go:35-38 | A line starting with ';' or '#' offers no server and flags nothing |
| DnsConfig.BlankLineIgnored | dnsconfig.go:39-42 | A line of white space offers no server and flags nothing |
| DnsConfig.IndentedHashIsUnknown | dnsconfig.go:35-54 | A '#' after leading white space is not a comment: the line sets `unknownOpt` |
| DnsConfig.NameserverLineNeverUnknown | dnsconfig.go:43-55 | A "nameserver" line never sets `unknownOpt`, whether its argument is missing, not an IP, or over the limit |
| DnsConfig.ReadConfig | dnsconfig.go:21-61 | A file that cannot be opened gives the default servers and records the error. Otherwise the servers are the first three IP arguments of "nameserver" lines in file order, or the defaults when there are none. `unknownOpt` holds exactly when some line has another keyword. There are always one to three servers, and all are IPs unless they are the defaults |

## Left out

- Sockets and I/O are inputs, not modelled: listening, accepting, reading, `SetReuseaddr`, `GonetDial`, `MagicDialUDP`, `connSplice`, file opening and scanning.
- `DecodePP` and `DecodeSPP` are not part of this model. They are parameters, assumed to consume no more bytes than they are given (the source would panic otherwise).
- The body of the `IPNetContains` helper is not among the source files; `Routing.IPNetContains` assumes it tests each net of the list with `IPNet.Contains`. `netAddrIP`, `netAddrPort`, `netAddrSetPort`, `ProxyError`, `FwdAddr`, `BindAddr` and `MustParseCIDR` are not part of this model either. The model uses Go's documented `IPNet.Contains` behaviour for containment and keeps only the `First` and `LocalRead` fields of `ProxyError`.
- A nil declared source from a decoder that reports no error is not modelled: every successful decode declares a source.
- `Net.ValidCidr` leaves IPv4-mapped network numbers out of scope. `ParseCIDR` does produce one from IPv6 text such as `::ffff:0:0/96`, and Go's `IPNet.Contains` then compares it in 4-byte form under the mask's last four bytes (so that net holds every IPv4 address). In the model such a net holds nothing, so `Routing.SpoofableIffNoDenyPrefix` and `Forward.SelectSourceSpoofsUnlessDenied` describe Go only for deny lists without such nets. The gateway's table has none.
- Concurrency is not modelled: the goroutine per connection and per datagram, the racy UDP peer demux, and the 64 KiB read buffer shared with sessions still holding a slice of it.
- Forward.LocalForward: a failed dial is assumed to return a connection on which `guest.Write(buf)` returns normally, so the reset and close of fwd.go:207-210 follow. `GonetDial` is not part of this model. If a failed dial returned a nil connection, every UDP session and every proxy-protocol session whose dial fails would panic at fwd.go:202 first, because `buf` is set on those paths.
- Forward.ReadLoop: a failed demux with a nil connection would panic on the `closeOnWrite` assignment when keep-alive is on with a zero interval. `MagicDialUDP` is not part of this model, so the model only records that the flag was assigned.
- Gateway.DispatchLocalForwards: every listener reads its own rule. In Go before 1.22, `&lf` points to a single loop variable, so listeners read the last rule's flags on later connections. The Go version in use is not part of this model.
- Logging is not modelled: the connection and error log lines and the listen reports' exact text. `DispatchReport` keeps only what each line reports.
- DnsConfig.ReadConfig: the lines are the ones the scanner yields. The scanner's silent stop at a line over 64 KiB and its stripping of carriage returns are not modelled.
- Everything else in `main.go` is outside the model: the virtual stack, TUN/TAP, ARP priming, PCAP, metrics, signal handling, flag parsing, default addresses, `GOMAXPROCS` and the capabilities JSON. `dhcp.go` and `qemu-run.py` are also outside the model.
