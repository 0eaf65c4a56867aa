/** Validation of the beacon node list and of the attestation consensus threshold (src/args.py). */
module Args {
  import opened Basics
  import opened Types

  datatype Url = Malformed | Parsed(hostname: Host)

  datatype ArgError =
    | NotEnoughUrls
    | DuplicateUrls
    | InvalidUrl
    | DuplicateHostnames
    | InvalidThreshold

  datatype Config = Config(hosts: seq<Host>, threshold: nat)

  function ProcessThreshold(value: Option<int>, nodes: nat): (r: Result<nat, ArgError>)
  {
    match value
    case None => Ok(nodes / 2 + 1)
    case Some(v) =>
      if v <= 0 then Err(InvalidThreshold)
      else if nodes < v then Err(InvalidThreshold)
      else Ok(v)
  }

  /** The parsing of one URL is left to the caller; everything the list as a whole must satisfy is checked here. */
  function ParseArgs(urls: seq<string>, parse: string -> Url, threshold: Option<int>): (r: Result<Config, ArgError>)
  {
    if |urls| < 1 then Err(NotEnoughUrls)
    else if |urls| != |Elements(urls)| then Err(DuplicateUrls)
    else if exists u :: u in urls && parse(u).Malformed? then Err(InvalidUrl)
    else
      var hosts := seq(|urls|, i requires 0 <= i < |urls| && parse(urls[i]).Parsed? => parse(urls[i]).hostname);
      if |Elements(hosts)| != |urls| then Err(DuplicateHostnames)
      else
        match ProcessThreshold(threshold, |urls|)
        case Err(e) => Err(e)
        case Ok(t) => Ok(Config(hosts, t))
  }

  /** What the rest of the client may rely on once start-up got past argument parsing. */
  ghost predicate Sound(c: Config) {
    Distinct(c.hosts) && 1 <= c.threshold <= |c.hosts|
  }

  ghost predicate Majority(c: Config) {
    2 * c.threshold > |c.hosts|
  }

  /** Exactly which command lines are accepted, and what an accepted one guarantees. */
  lemma AcceptedIff(urls: seq<string>, parse: string -> Url, threshold: Option<int>)
    ensures ParseArgs(urls, parse, threshold).Ok? <==>
            && urls != []
            && Distinct(urls)
            && (forall u :: u in urls ==> parse(u).Parsed?)
            && (forall i, j :: 0 <= i < j < |urls| ==> parse(urls[i]) != parse(urls[j]))
            && (threshold.Some? ==> 1 <= threshold.value <= |urls|)
    ensures var r := ParseArgs(urls, parse, threshold);
            r.Ok? ==> && Sound(r.value)
                      && |r.value.hosts| == |urls|
                      && (threshold.None? ==> Majority(r.value) && 2 * (r.value.threshold - 1) <= |urls|)
                      && r.value.threshold == (if threshold.Some? then threshold.value else |urls| / 2 + 1)
                      && (forall i :: 0 <= i < |urls| ==> Parsed(r.value.hosts[i]) == parse(urls[i]))
  {
    DistinctIffSetAsLarge(urls);
    if forall u :: u in urls ==> parse(u).Parsed? {
      assert forall i :: 0 <= i < |urls| ==> urls[i] in urls;
      var hosts := seq(|urls|, i requires 0 <= i < |urls| && parse(urls[i]).Parsed? => parse(urls[i]).hostname);
      DistinctIffSetAsLarge(hosts);
      assert forall i :: 0 <= i < |urls| ==> parse(urls[i]) == Parsed(hosts[i]);
    }
  }

  ghost predicate Repeated(urls: seq<string>) {
    exists i, j :: 0 <= i < j < |urls| && urls[i] == urls[j]
  }

  ghost predicate SomeMalformed(urls: seq<string>, parse: string -> Url) {
    exists i :: 0 <= i < |urls| && parse(urls[i]).Malformed?
  }

  ghost predicate SharedHost(urls: seq<string>, parse: string -> Url) {
    exists i, j :: 0 <= i < j < |urls| && parse(urls[i]) == parse(urls[j])
  }

  lemma HostsDistinctIff(urls: seq<string>, parse: string -> Url, hosts: seq<Host>)
    requires |hosts| == |urls| && forall i :: 0 <= i < |urls| ==> parse(urls[i]) == Parsed(hosts[i])
    ensures |Elements(hosts)| == |urls| <==> !SharedHost(urls, parse)
    ensures Repeated(urls) ==> SharedHost(urls, parse)
  {
    DistinctIffSetAsLarge(hosts);
  }

  lemma MalformedIff(urls: seq<string>, parse: string -> Url)
    ensures (exists u :: u in urls && parse(u).Malformed?) <==> SomeMalformed(urls, parse)
  {
  }

  /** Each refused command line is refused for the first of these reasons that applies. */
  lemma RefusedFor(urls: seq<string>, parse: string -> Url, threshold: Option<int>)
    ensures var r := ParseArgs(urls, parse, threshold);
            && (r == Err(NotEnoughUrls) <==> urls == [])
            && (r == Err(DuplicateUrls) <==> Repeated(urls))
            && (r == Err(InvalidUrl) <==> urls != [] && !Repeated(urls) && SomeMalformed(urls, parse))
            && (r == Err(DuplicateHostnames) <==>
                  urls != [] && !Repeated(urls) && !SomeMalformed(urls, parse) && SharedHost(urls, parse))
            && (r == Err(InvalidThreshold) <==>
                  urls != [] && !SomeMalformed(urls, parse) && !SharedHost(urls, parse)
                  && threshold.Some? && !(1 <= threshold.value <= |urls|))
  {
    DistinctIffSetAsLarge(urls);
    assert Repeated(urls) <==> !Distinct(urls);
    MalformedIff(urls, parse);
    if !SomeMalformed(urls, parse) {
      var hosts := seq(|urls|, i requires 0 <= i < |urls| && parse(urls[i]).Parsed? => parse(urls[i]).hostname);
      HostsDistinctIff(urls, parse, hosts);
    } else if Repeated(urls) {
      var i, j :| 0 <= i < j < |urls| && urls[i] == urls[j];
      assert SharedHost(urls, parse);
    }
  }
}
