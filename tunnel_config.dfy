/**
 * The cloudflared configuration file (`CloudflareTunnelConfig`) as a record,
 * and `cfIngressMapping`, which replaces its ingress list with one rule per
 * exposed host followed by a catch-all 404 rule.
 */
module TunnelConfig {
  import opened Wrappers

  /** The two origin-request settings the provisioner writes; the others are not modelled. */
  datatype OriginRequest = OriginRequest(httpHostHeader: Option<string>, noTLSVerify: Option<bool>)

  /** `CloudflareTunnelIngress` */
  datatype TunnelIngress = TunnelIngress(
    service: string,
    hostname: Option<string>,
    path: Option<string>,
    originRequest: Option<OriginRequest>)

  /** `CloudflareTunnelConfig` */
  datatype Config = Config(
    tunnel: string,
    credentialsFile: string,
    metrics: string,
    noAutoupdate: bool,
    loglevel: Option<string>,
    ingress: seq<TunnelIngress>)

  const NotFoundService: string := "http_status:404"

  /** The rule routing `hostname` to `service` with the host header kept and TLS verification off. */
  function HostRule(service: string, hostname: string): TunnelIngress {
    TunnelIngress(service, Some(hostname), None, Some(OriginRequest(Some(hostname), Some(true))))
  }

  /** `{ service: 'http_status:404' }` */
  const CatchAll: TunnelIngress := TunnelIngress(NotFoundService, None, None, None)

  function HostRules(service: string, hosts: seq<string>): (r: seq<TunnelIngress>)
    ensures |r| == |hosts|
    ensures forall i :: 0 <= i < |hosts| ==> r[i] == HostRule(service, hosts[i])
  {
    seq(|hosts|, i requires 0 <= i < |hosts| => HostRule(service, hosts[i]))
  }

  /** cfIngressMapping(service, hosts)(config) */
  function CfIngressMapping(service: string, hosts: seq<string>, config: Config): Config {
    config.(ingress := HostRules(service, hosts) + [CatchAll])
  }

  /** The hostnames a config routes, in rule order. */
  function RoutedHosts(ingress: seq<TunnelIngress>): seq<string> {
    if |ingress| == 0 then []
    else
      (match ingress[0].hostname case Some(h) => [h] case None => [])
      + RoutedHosts(ingress[1..])
  }

  /**
   * The rebuilt ingress: one rule per host, in order, each with the host as
   * hostname and Host header, the given service and TLS verification off,
   * then the 404 catch-all; every other field is the input's.
   */
  lemma CfIngressMappingShape(service: string, hosts: seq<string>, config: Config)
    ensures var r := CfIngressMapping(service, hosts, config);
      && |r.ingress| == |hosts| + 1
      && r.ingress[|hosts|] == TunnelIngress("http_status:404", None, None, None)
      && (forall i :: 0 <= i < |hosts| ==>
            && r.ingress[i].hostname == Some(hosts[i])
            && r.ingress[i].service == service
            && r.ingress[i].path == None
            && r.ingress[i].originRequest == Some(OriginRequest(Some(hosts[i]), Some(true))))
      && r.tunnel == config.tunnel
      && r.credentialsFile == config.credentialsFile
      && r.metrics == config.metrics
      && r.noAutoupdate == config.noAutoupdate
      && r.loglevel == config.loglevel
  {
  }

  lemma {:induction false} RoutedHostsOfRules(service: string, hosts: seq<string>)
    ensures RoutedHosts(HostRules(service, hosts)) == hosts
    decreases |hosts|
  {
    if |hosts| > 0 {
      assert HostRules(service, hosts)[1..] == HostRules(service, hosts[1..]);
      RoutedHostsOfRules(service, hosts[1..]);
    }
  }

  lemma {:induction false} RoutedHostsConcat(a: seq<TunnelIngress>, b: seq<TunnelIngress>)
    ensures RoutedHosts(a + b) == RoutedHosts(a) + RoutedHosts(b)
    decreases |a|
  {
    if |a| > 0 {
      assert (a + b)[1..] == a[1..] + b;
      RoutedHostsConcat(a[1..], b);
    } else {
      assert a + b == b;
    }
  }

  /** The rewritten config routes exactly the given hosts, in order; the old ingress list is gone. */
  lemma CfIngressMappingRoutes(service: string, hosts: seq<string>, config: Config)
    ensures RoutedHosts(CfIngressMapping(service, hosts, config).ingress) == hosts
  {
    RoutedHostsConcat(HostRules(service, hosts), [CatchAll]);
    RoutedHostsOfRules(service, hosts);
  }

  /** Rewriting twice with the same hosts is the same as rewriting once. */
  lemma CfIngressMappingIdempotent(service: string, hosts: seq<string>, config: Config)
    ensures CfIngressMapping(service, hosts, CfIngressMapping(service, hosts, config))
         == CfIngressMapping(service, hosts, config)
  {
  }
}
