/**
 * Gateway start-up in main.go: the process-wide `State` (routing tables and
 * remote-forward registries), the loop that starts one listener per
 * local-forward rule, and the loop that registers remote-forward rules by
 * their bind address.
 */
module Gateway {
  import opened Options
  import opened Net
  import opened Routing
  import opened Forward

  /**
   * The registry a list of remote-forward rules builds for one transport:
   * each rule of that transport is keyed by its bind-address string and
   * maps to its index in the list; a later rule overwrites an earlier one
   * with the same key.
   */
  function Registry(rules: seq<FwdAddr>, network: string, bindKey: FwdAddr -> string): (r: map<string, nat>)
    ensures rules != [] && rules[|rules| - 1].network == network ==>
              bindKey(rules[|rules| - 1]) in r && r[bindKey(rules[|rules| - 1])] == |rules| - 1
  {
    if rules == [] then map[]
    else
      var last := |rules| - 1;
      var earlier := Registry(rules[..last], network, bindKey);
      if rules[last].network == network then earlier[bindKey(rules[last]) := last] else earlier
  }

  /** One more rule: the registry of the first `i + 1` rules extends that of the first `i`. */
  lemma RegistryStep(rules: seq<FwdAddr>, i: nat, network: string, bindKey: FwdAddr -> string)
    requires i < |rules|
    ensures Registry(rules[..i + 1], network, bindKey) ==
              var earlier := Registry(rules[..i], network, bindKey);
              if rules[i].network == network then earlier[bindKey(rules[i]) := i] else earlier
  {
    assert rules[..i + 1][..i] == rules[..i];
  }

  /** Updating a merged map is updating its right-hand part. */
  lemma MergeUpdate(a: map<string, nat>, b: map<string, nat>, k: string, v: nat)
    ensures (a + b)[k := v] == a + b[k := v]
  {
  }

  /** Every registry entry names a rule of that transport, under that rule's own key. */
  lemma {:induction false} RegistryHoldsOnlyItsTransport(rules: seq<FwdAddr>, network: string, bindKey: FwdAddr -> string)
    ensures forall k :: k in Registry(rules, network, bindKey) ==>
              var i := Registry(rules, network, bindKey)[k];
              i < |rules| && rules[i].network == network && bindKey(rules[i]) == k
  {
    if rules != [] {
      RegistryHoldsOnlyItsTransport(rules[..|rules| - 1], network, bindKey);
    }
  }

  /**
   * Every rule of the transport is registered under its key, and the entry
   * for a key is the last rule of that transport carrying it.
   */
  lemma {:induction false} RegistryLastRuleWins(rules: seq<FwdAddr>, network: string, bindKey: FwdAddr -> string)
    ensures forall i :: 0 <= i < |rules| && rules[i].network == network ==>
              bindKey(rules[i]) in Registry(rules, network, bindKey)
              && i <= Registry(rules, network, bindKey)[bindKey(rules[i])]
    ensures forall k, j :: k in Registry(rules, network, bindKey) && Registry(rules, network, bindKey)[k] < j < |rules| ==>
              rules[j].network != network || bindKey(rules[j]) != k
  {
    if rules != [] {
      var last := |rules| - 1;
      RegistryLastRuleWins(rules[..last], network, bindKey);
      RegistryHoldsOnlyItsTransport(rules[..last], network, bindKey);
      assert forall i :: 0 <= i < last ==> rules[..last][i] == rules[i];
    }
  }

  /** No rule is registered for both transports. */
  lemma RegistriesAreDisjoint(rules: seq<FwdAddr>, bindKey: FwdAddr -> string)
    ensures forall k, k' :: k in Registry(rules, "tcp", bindKey) && k' in Registry(rules, "udp", bindKey) ==>
              Registry(rules, "tcp", bindKey)[k] != Registry(rules, "udp", bindKey)[k']
  {
    RegistryHoldsOnlyItsTransport(rules, "tcp", bindKey);
    RegistryHoldsOnlyItsTransport(rules, "udp", bindKey);
  }

  /** What `net.ListenTCP` / `net.ListenUDP` gives for a rule: the bound listener's address, or an error. */
  datatype ListenResult = Listening(laddr: string) | ListenFailed(err: string)

  /** What the dispatch loop reports for one local-forward rule. */
  datatype DispatchReport =
    | Listened(laddr: string)                            // "[+] local-fwd Local listen ..."
    | Failed(network: string, bind: Endpoint, err: string)  // "[!] Failed to listen on ..."
    | NilListener      // neither "tcp" nor "udp": no listener and no error, so `srv.Addr()` is called on nil

  /** The report for one rule, given what its listen call returned. */
  function ReportFor(rule: FwdAddr, listen: ListenResult): (r: DispatchReport)
    ensures r.NilListener? <==> rule.network != "tcp" && rule.network != "udp"
    ensures r.Failed? ==> listen == ListenFailed(r.err) && r.network == rule.network && r.bind == rule.bind
    ensures r.Listened? ==> listen == Listening(r.laddr)
  {
    if rule.network != "tcp" && rule.network != "udp" then NilListener
    else match listen
      case Listening(laddr) => Listened(laddr)
      case ListenFailed(err) => Failed(rule.network, rule.bind, err)
  }

  /** The gateway's process-wide state (`State`). */
  class State {
    var routingDeny: seq<Cidr>
    var routingAllow: seq<Cidr>
    var remoteUdpFwd: map<string, nat>   // bind address -> index of the rule in the remote-forward list
    var remoteTcpFwd: map<string, nat>

    /** `var state State`: the zero value. */
    constructor ()
      ensures routingDeny == [] && routingAllow == []
      ensures remoteUdpFwd == map[] && remoteTcpFwd == map[]
    {
      routingDeny, routingAllow := [], [];
      remoteUdpFwd, remoteTcpFwd := map[], map[];
    }

    /** Make both registries and append the deny and allow tables. */
    method InstallTables()
      modifies this
      ensures remoteUdpFwd == map[] && remoteTcpFwd == map[]
      ensures routingDeny == old(routingDeny) + DenyTable
      ensures routingAllow == old(routingAllow) + AllowTable
    {
      remoteUdpFwd := map[];
      remoteTcpFwd := map[];
      routingDeny := routingDeny + DenyTable;
      routingAllow := routingAllow + AllowTable;
    }

    /**
     * Register every remote-forward rule in the registry of its transport,
     * keyed by `rf.BindAddr().String()` (given as `bindKey`); rules of any
     * other transport are skipped.
     */
    method RegisterRemoteForwards(remoteFwd: seq<FwdAddr>, bindKey: FwdAddr -> string)
      modifies this
      ensures remoteTcpFwd == old(remoteTcpFwd) + Registry(remoteFwd, "tcp", bindKey)
      ensures remoteUdpFwd == old(remoteUdpFwd) + Registry(remoteFwd, "udp", bindKey)
      ensures routingDeny == old(routingDeny) && routingAllow == old(routingAllow)
    {
      var i := 0;
      while i < |remoteFwd|
        invariant 0 <= i <= |remoteFwd|
        invariant remoteTcpFwd == old(remoteTcpFwd) + Registry(remoteFwd[..i], "tcp", bindKey)
        invariant remoteUdpFwd == old(remoteUdpFwd) + Registry(remoteFwd[..i], "udp", bindKey)
        invariant routingDeny == old(routingDeny) && routingAllow == old(routingAllow)
      {
        var rf := remoteFwd[i];
        RegistryStep(remoteFwd, i, "tcp", bindKey);
        RegistryStep(remoteFwd, i, "udp", bindKey);
        if rf.network == "tcp" {
          MergeUpdate(old(remoteTcpFwd), Registry(remoteFwd[..i], "tcp", bindKey), bindKey(rf), i);
          remoteTcpFwd := remoteTcpFwd[bindKey(rf) := i];
        } else if rf.network == "udp" {
          MergeUpdate(old(remoteUdpFwd), Registry(remoteFwd[..i], "udp", bindKey), bindKey(rf), i);
          remoteUdpFwd := remoteUdpFwd[bindKey(rf) := i];
        }
        i := i + 1;
      }
      assert remoteFwd[..i] == remoteFwd;
    }
  }

  /**
   * The local-forward dispatch loop: one listen per rule, in order.  A failed
   * listen is reported and the loop goes on; a rule of any other transport
   * leaves no listener and no error, and the loop stops there.
   */
  method DispatchLocalForwards(localFwd: seq<FwdAddr>, listen: seq<ListenResult>) returns (reports: seq<DispatchReport>)
    requires |listen| == |localFwd|
    ensures |reports| <= |localFwd|
    ensures forall j :: 0 <= j < |reports| ==> reports[j] == ReportFor(localFwd[j], listen[j])
    ensures forall j :: 0 <= j < |reports| - 1 ==> !reports[j].NilListener?
    ensures |reports| < |localFwd| ==> 0 < |reports| && reports[|reports| - 1].NilListener?
    ensures (forall j :: 0 <= j < |localFwd| ==> localFwd[j].network in {"tcp", "udp"}) ==> |reports| == |localFwd|
  {
    reports := [];
    var i := 0;
    while i < |localFwd|
      invariant i == |reports| <= |localFwd|
      invariant forall j :: 0 <= j < i ==> reports[j] == ReportFor(localFwd[j], listen[j])
      invariant forall j :: 0 <= j < i ==> !reports[j].NilListener?
    {
      var lf := localFwd[i];
      var report: DispatchReport;
      if lf.network == "tcp" || lf.network == "udp" {
        match listen[i]
        case ListenFailed(err) =>
          report := Failed(lf.network, lf.bind, err);
        case Listening(laddr) =>
          report := Listened(laddr);
      } else {
        reports := reports + [NilListener];
        return;
      }
      reports := reports + [report];
      i := i + 1;
    }
  }

  /**
   * The start-up sequence: connection logging is on unless quiet, the tables
   * are installed, the local-forward listeners are started, and, unless the
   * dispatch stopped on a nil listener, the remote-forward rules are registered.
   */
  method StartGateway(quiet: bool, localFwd: seq<FwdAddr>, listen: seq<ListenResult>,
                      remoteFwd: seq<FwdAddr>, bindKey: FwdAddr -> string)
    returns (state: State, logConnections: bool, reports: seq<DispatchReport>)
    requires |listen| == |localFwd|
    ensures fresh(state)
    ensures logConnections == !quiet
    ensures state.routingDeny == DenyTable && state.routingAllow == AllowTable
    ensures |reports| <= |localFwd|
    ensures forall j :: 0 <= j < |reports| ==> reports[j] == ReportFor(localFwd[j], listen[j])
    ensures (|reports| == 0 || !reports[|reports| - 1].NilListener?) ==>
              state.remoteTcpFwd == Registry(remoteFwd, "tcp", bindKey)
              && state.remoteUdpFwd == Registry(remoteFwd, "udp", bindKey)
  {
    state := new State();
    logConnections := !quiet;
    state.InstallTables();
    reports := DispatchLocalForwards(localFwd, listen);
    if 0 < |reports| && reports[|reports| - 1].NilListener? {
      return;
    }
    state.RegisterRemoteForwards(remoteFwd, bindKey);
  }
}
