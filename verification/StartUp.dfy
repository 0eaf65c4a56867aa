/** From the command line to running services (src/args.py, src/initialize.py): what the runs of the services start from. */
module StartUp {
  import opened Basics
  import opened Types
  import opened AttestationRuns
  import AttestationService
  import Args
  import BeaconNodes

  /**
   With an accepted command line and a threshold of nodes initialized, the runs start where the main theorems need them
   to; unless the user sets a threshold of their own, it is a majority.
   */
  lemma AcceptedBoots(
    urls: seq<string>, parse: string -> Args.Url, threshold: Option<int>, ready: set<Host>, slotsPerEpoch: nat,
    detectionOff: bool, now: nat, duties: AttestationService.Duties, roots: map<nat, Root>)
    requires slotsPerEpoch > 0 && Args.ParseArgs(urls, parse, threshold).Ok?
    requires var config := Args.ParseArgs(urls, parse, threshold).value;
             ready <= Elements(config.hosts) && config.threshold <= |ready|
    ensures var config := Args.ParseArgs(urls, parse, threshold).value;
            var b := Boot(now, Elements(config.hosts), ready, duties, roots);
            && Booted(Params(slotsPerEpoch, config.threshold, detectionOff), b)
            && (threshold.None? ==> 2 * config.threshold > |b.configured|)
  {
    Args.AcceptedIff(urls, parse, threshold);
    DistinctIffSetAsLarge(Args.ParseArgs(urls, parse, threshold).value.hosts);
  }

  /**
   The services are created only once the beacon nodes are ready. Without a test set-up and with the comparison of specs
   in force, each of these nodes has reported the client's own spec.
   */
  method RunServices(
    node: BeaconNodes.MultiBeaconNode, skipInit: bool, deadline: real, first: seq<BeaconNodes.Report>,
    checks: seq<BeaconNodes.Check>, ghost c: Params, now: nat, duties: AttestationService.Duties, roots: map<nat, Root>)
    returns (boot: Option<Boot>, looks: nat)
    requires Args.Sound(node.config) && node.initialized == {}
    requires c.slotsPerEpoch > 0 && c.threshold == node.config.threshold
    modifies node
    ensures looks <= |checks|
    ensures boot.Some? <==> |node.initialized| >= c.threshold
    ensures boot.Some? ==> boot.value == Boot(now, Elements(node.config.hosts), node.initialized, duties, roots) && Booted(c, boot.value)
    ensures boot.Some? && !skipInit && !node.vetting.ignoreMismatch ==>
              BeaconNodes.AllReported(BeaconNodes.Reports(first, checks[..looks]), boot.value.ready, node.vetting.spec)
  {
    var outcome;
    outcome, looks := node.Initialize(skipInit, deadline, first, checks);
    if outcome != BeaconNodes.Ready {
      return None, looks;
    }
    return Some(Boot(now, Elements(node.config.hosts), node.initialized, duties, roots)), looks;
  }
}
