/** cni/pkg/types: the 0.2.0 result and the current one, and the conversions between them. */
module Results {
  import opened Options
  import opened GoNet
  import opened CniTypes

  const CURRENT_VERSION := "0.4.0"
  const OLD_VERSION := "0.2.0"

  datatype Interface = Interface(name: string, mac: string, sandbox: string)
  datatype IPConfig = IPConfig(version: string, iface: Option<int>, address: IPNet, gateway: Option<IP>)
  datatype OldIPConfig = OldIPConfig(ip: IPNet, gateway: Option<IP>, routes: seq<Route>)

  /** The values of the two kinds of result; `D` is the type of the DNS part, which is only copied. */
  datatype Old<D> = Old(version: string, ip4: Option<OldIPConfig>, ip6: Option<OldIPConfig>, dns: D)
  datatype Current<D> = Current(version: string, interfaces: seq<Interface>, ips: seq<IPConfig>,
                                routes: seq<Route>, dns: D)

  // ---------- The conversions as functions ----------

  function NewConfigs(version: string, c: Option<OldIPConfig>): seq<IPConfig> {
    if c.Some? then [IPConfig(version, None, c.value.ip, c.value.gateway)] else []
  }

  function RoutesUnder(c: Option<OldIPConfig>): seq<Route> { if c.Some? then c.value.routes else [] }

  function From020<D>(o: Old<D>): Current<D> {
    Current(CURRENT_VERSION, [], NewConfigs("4", o.ip4) + NewConfigs("6", o.ip6),
            RoutesUnder(o.ip4) + RoutesUnder(o.ip6), o.dns)
  }

  /** The first address of a version. */
  function FirstOf(ips: seq<IPConfig>, version: string): Option<IPConfig> {
    if ips == [] then None else if ips[0].version == version then Some(ips[0]) else FirstOf(ips[1..], version)
  }

  predicate IsV4(route: Route) { To4(route.dst.ip).Some? }

  function RoutesOf(routes: seq<Route>, v4: bool): seq<Route> {
    if routes == [] then []
    else
      var last := routes[|routes| - 1];
      RoutesOf(routes[..|routes| - 1], v4) + (if IsV4(last) == v4 then [last] else [])
  }

  function OldConfig(ip: Option<IPConfig>, routes: seq<Route>): Option<OldIPConfig> {
    if ip.Some? then Some(OldIPConfig(ip.value.address, ip.value.gateway, routes)) else None
  }

  /** Fails only when there is no address at all; routes of a family without an address are dropped. */
  function To020<D>(r: Current<D>): Option<Old<D>> {
    var ip4, ip6 := FirstOf(r.ips, "4"), FirstOf(r.ips, "6");
    if ip4.None? && ip6.None? then None
    else Some(Old(OLD_VERSION, OldConfig(ip4, RoutesOf(r.routes, true)), OldConfig(ip6, RoutesOf(r.routes, false)),
                  r.dns))
  }

  // ---------- The result objects ----------

  class Result020<D> {
    var cniVersion: string
    var ip4: Option<OldIPConfig>
    var ip6: Option<OldIPConfig>
    var dns: D

    function View(): Old<D>
      reads this
    {
      Old(cniVersion, ip4, ip6, dns)
    }

    constructor (o: Old<D>)
      ensures View() == o
    {
      cniVersion, ip4, ip6, dns := o.version, o.ip4, o.ip6, o.dns;
    }

    /** Stays the same object, under the version asked for. */
    method GetAsVersion(version: string) returns (ok: bool)
      modifies this`cniVersion
      ensures ok <==> version in {"", "0.1.0", OLD_VERSION}
      ensures View() == if ok then old(View()).(version := version) else old(View())
    {
      var versions := ["", "0.1.0", OLD_VERSION];
      ok := false;
      for i := 0 to |versions|
        invariant !ok && cniVersion == old(cniVersion) && forall k :: 0 <= k < i ==> versions[k] != version
      {
        if version == versions[i] {
          cniVersion := version;
          return true;
        }
      }
      assert version != versions[0] && version != versions[1] && version != versions[2];
    }
  }

  datatype Versioned<D> = Same | Older(value: Old<D>) | NotConvertible

  class Result<D> {
    var cniVersion: string
    var interfaces: seq<Interface>
    var ips: seq<IPConfig>
    var routes: seq<Route>
    var dns: D

    function View(): Current<D>
      reads this
    {
      Current(cniVersion, interfaces, ips, routes, dns)
    }

    constructor (c: Current<D>)
      ensures View() == c
    {
      cniVersion, interfaces, ips, routes, dns := c.version, c.interfaces, c.ips, c.routes, c.dns;
    }

    method GetAsVersion(version: string) returns (r: Versioned<D>)
      modifies this`cniVersion
      ensures r.Same? <==> version in {"0.3.0", "0.3.1", CURRENT_VERSION}
      ensures View() == if r.Same? then old(View()).(version := version) else old(View())
      ensures !r.Same? ==> r == if version in {"", "0.1.0", OLD_VERSION} && To020(old(View())).Some?
                               then Older(To020(old(View())).value) else NotConvertible
    {
      if version == "0.3.0" || version == "0.3.1" || version == CURRENT_VERSION {
        cniVersion := version;
        return Same;
      }
      if version == "" || version == "0.1.0" || version == OLD_VERSION {
        var old020 := ConvertTo020();
        return if old020.Some? then Older(old020.value) else NotConvertible;
      }
      return NotConvertible;
    }

    method ConvertTo020() returns (r: Option<Old<D>>)
      ensures r == To020(View())
    {
      var ip4: Option<OldIPConfig>, ip6: Option<OldIPConfig> := FirstConfigs();
      ip4, ip6 := SortRoutes(ip4, ip6);
      if ip4.None? && ip6.None? { return None; }
      return Some(Old(OLD_VERSION, ip4, ip6, dns));
    }

    /** The first loop: the first address of each version, until both are found. */
    method FirstConfigs() returns (ip4: Option<OldIPConfig>, ip6: Option<OldIPConfig>)
      ensures ip4 == OldConfig(FirstOf(ips, "4"), []) && ip6 == OldConfig(FirstOf(ips, "6"), [])
    {
      ip4, ip6 := None, None;
      for i := 0 to |ips|
        invariant OldConfig(FirstOf(ips, "4"), []) == if ip4.Some? then ip4 else OldConfig(FirstOf(ips[i..], "4"), [])
        invariant OldConfig(FirstOf(ips, "6"), []) == if ip6.Some? then ip6 else OldConfig(FirstOf(ips[i..], "6"), [])
      {
        var ip := ips[i];
        assert ips[i..][0] == ip && ips[i..][1..] == ips[i + 1..];
        if ip.version == "4" && ip4.None? {
          ip4 := Some(OldIPConfig(ip.address, ip.gateway, []));
        } else if ip.version == "6" && ip6.None? {
          ip6 := Some(OldIPConfig(ip.address, ip.gateway, []));
        }
        if ip4.Some? && ip6.Some? { return; }
      }
      assert ips[|ips|..] == [];
    }

    /** The second loop: every route under its own family, if that has an address. */
    method SortRoutes(c4: Option<OldIPConfig>, c6: Option<OldIPConfig>)
      returns (ip4: Option<OldIPConfig>, ip6: Option<OldIPConfig>)
      requires RoutesUnder(c4) == [] && RoutesUnder(c6) == []
      ensures ip4 == WithRoutes(c4, RoutesOf(routes, true)) && ip6 == WithRoutes(c6, RoutesOf(routes, false))
    {
      ip4, ip6 := c4, c6;
      for i := 0 to |routes|
        invariant ip4 == WithRoutes(c4, RoutesOf(routes[..i], true))
        invariant ip6 == WithRoutes(c6, RoutesOf(routes[..i], false))
      {
        assert routes[..i + 1][..i] == routes[..i];
        var is4 := IsV4(routes[i]);
        RoutesOfStep(routes, i);
        if is4 && ip4.Some? {
          ip4 := Some(ip4.value.(routes := ip4.value.routes + [routes[i]]));
        } else if !is4 && ip6.Some? {
          ip6 := Some(ip6.value.(routes := ip6.value.routes + [routes[i]]));
        }
      }
      assert routes[..|routes|] == routes;
    }
  }

  lemma RoutesOfStep(routes: seq<Route>, i: nat)
    requires i < |routes|
    ensures forall v4 :: RoutesOf(routes[..i + 1], v4) ==
              if IsV4(routes[i]) == v4 then RoutesOf(routes[..i], v4) + [routes[i]] else RoutesOf(routes[..i], v4)
  {
    assert routes[..i + 1][..i] == routes[..i];
  }

  function WithRoutes(c: Option<OldIPConfig>, routes: seq<Route>): Option<OldIPConfig> {
    if c.Some? then Some(c.value.(routes := routes)) else None
  }

  /** Also sets the old result's own version. */
  method ConvertFrom020<D>(result: Result020<D>) returns (r: Result<D>)
    modifies result`cniVersion
    ensures fresh(r) && r.View() == From020(old(result.View()))
    ensures result.View() == old(result.View()).(version := OLD_VERSION)
  {
    var _ := result.GetAsVersion(OLD_VERSION);
    var ips, routes := [], [];
    if result.ip4.Some? {
      var c := result.ip4.value;
      ips := ips + [IPConfig("4", None, c.ip, c.gateway)];
      var copied := CopyRoutes(c.routes);
      routes := routes + copied;
    }
    if result.ip6.Some? {
      var c := result.ip6.value;
      ips := ips + [IPConfig("6", None, c.ip, c.gateway)];
      var copied := CopyRoutes(c.routes);
      routes := routes + copied;
    }
    r := new Result(Current(CURRENT_VERSION, [], ips, routes, result.dns));
  }

  method CopyRoutes(routes: seq<Route>) returns (copied: seq<Route>)
    ensures copied == routes
  {
    copied := [];
    for i := 0 to |routes|
      invariant copied == routes[..i]
    {
      copied := copied + [Route(routes[i].dst, routes[i].gw)];
    }
  }

  // ---------- Round trips ----------

  predicate AllOf(routes: seq<Route>, v4: bool) {
    forall i {:trigger routes[i]} :: 0 <= i < |routes| ==> IsV4(routes[i]) == v4
  }

  lemma {:induction false} RoutesOfFacts(routes: seq<Route>, v4: bool)
    ensures AllOf(RoutesOf(routes, v4), v4)
    ensures AllOf(routes, v4) ==> RoutesOf(routes, v4) == routes
    ensures AllOf(routes, !v4) ==> RoutesOf(routes, v4) == []
  {
    if routes != [] {
      var init := routes[..|routes| - 1];
      RoutesOfFacts(init, v4);
      assert forall i :: 0 <= i < |init| ==> init[i] == routes[i];
      assert routes == init + [routes[|routes| - 1]];
    }
  }

  lemma {:induction false} RoutesOfAppend(a: seq<Route>, b: seq<Route>, v4: bool)
    ensures RoutesOf(a + b, v4) == RoutesOf(a, v4) + RoutesOf(b, v4)
    decreases |b|
  {
    if b == [] {
      assert a + b == a;
    } else {
      assert (a + b)[..|a + b| - 1] == a + b[..|b| - 1];
      RoutesOfAppend(a, b[..|b| - 1], v4);
    }
  }

  /** Some address is there, and every route sits under its own family. */
  predicate Proper<D>(o: Old<D>) {
    && (o.ip4.Some? || o.ip6.Some?)
    && AllOf(RoutesUnder(o.ip4), true) && AllOf(RoutesUnder(o.ip6), false)
  }

  lemma FirstOfNew<D>(o: Old<D>)
    ensures FirstOf(From020(o).ips, "4") == if o.ip4.Some? then Some(NewConfigs("4", o.ip4)[0]) else None
    ensures FirstOf(From020(o).ips, "6") == if o.ip6.Some? then Some(NewConfigs("6", o.ip6)[0]) else None
  {
    var a, b := NewConfigs("4", o.ip4), NewConfigs("6", o.ip6);
    if o.ip4.Some? { assert (a + b)[1..] == b; } else { assert a + b == b; }
    if o.ip6.Some? { assert b[1..] == []; }
  }

  /** 0.2.0 to current and back is the identity, but for the version, exactly on proper results. */
  lemma OldRoundTrip<D>(o: Old<D>)
    ensures To020(From020(o)) == Some(o.(version := OLD_VERSION)) <==> Proper(o)
  {
    var a, b := RoutesUnder(o.ip4), RoutesUnder(o.ip6);
    FirstOfNew(o);
    OwnRoutes(a, b);
    if Proper(o) {
      assert RoutesOf(a + b, true) == a && RoutesOf(a + b, false) == b;
    }
  }

  lemma OwnRoutes(a: seq<Route>, b: seq<Route>)
    ensures RoutesOf(a + b, true) == a ==> AllOf(a, true)
    ensures RoutesOf(a + b, false) == b ==> AllOf(b, false)
    ensures AllOf(a, true) && AllOf(b, false) ==> RoutesOf(a + b, true) == a && RoutesOf(a + b, false) == b
  {
    RoutesOfAppend(a, b, true);
    RoutesOfAppend(a, b, false);
    RoutesOfFacts(a + b, true);
    RoutesOfFacts(a + b, false);
    RoutesOfFacts(a, true);
    RoutesOfFacts(a, false);
    RoutesOfFacts(b, true);
    RoutesOfFacts(b, false);
  }

  lemma To020IsProper<D>(r: Current<D>)
    requires To020(r).Some?
    ensures Proper(To020(r).value)
  {
    RoutesOfFacts(r.routes, true);
    RoutesOfFacts(r.routes, false);
  }

  // ---------- The conversions, field by field ----------

  /** The first configuration of a version. */
  predicate FirstWith(ips: seq<IPConfig>, version: string, i: nat) {
    i < |ips| && ips[i].version == version && forall j :: 0 <= j < i ==> ips[j].version != version
  }

  lemma {:induction false} FirstOfExactly(ips: seq<IPConfig>, version: string)
    ensures forall i: nat :: FirstWith(ips, version, i) ==> FirstOf(ips, version) == Some(ips[i])
    ensures FirstOf(ips, version).None? <==> forall i :: 0 <= i < |ips| ==> ips[i].version != version
  {
    if ips != [] {
      FirstOfExactly(ips[1..], version);
      assert forall j :: 0 < j < |ips| ==> ips[j] == ips[1..][j - 1];
      assert forall j :: 0 <= j < |ips[1..]| ==> ips[1..][j] == ips[j + 1];
      forall i: nat | FirstWith(ips, version, i) ensures FirstOf(ips, version) == Some(ips[i]) {
        if i > 0 { assert FirstWith(ips[1..], version, i - 1); }
      }
    }
  }

  /** The routes of one family, in order: `kept` are their positions. */
  lemma {:induction false} RoutesOfExactly(routes: seq<Route>, v4: bool) returns (kept: seq<nat>)
    ensures |kept| == |RoutesOf(routes, v4)| && forall m, n :: 0 <= m < n < |kept| ==> kept[m] < kept[n]
    ensures forall m :: 0 <= m < |kept| ==> kept[m] < |routes| && RoutesOf(routes, v4)[m] == routes[kept[m]]
    ensures forall k :: 0 <= k < |routes| ==> (k in kept <==> To4(routes[k].dst.ip).Some? == v4)
  {
    kept := [];
    if routes != [] {
      var n := |routes| - 1;
      kept := RoutesOfExactly(routes[..n], v4);
      assert forall m :: 0 <= m < |kept| ==> kept[m] in kept;
      if To4(routes[n].dst.ip).Some? == v4 { kept := kept + [n]; }
    }
  }

  /** What the older result holds for the family whose version is `version`: the first address of that version, with
      the routes of the family. */
  ghost predicate HoldsFamily(c: Option<OldIPConfig>, ips: seq<IPConfig>, routes: seq<Route>, version: string) {
    && (c.None? <==> forall i :: 0 <= i < |ips| ==> ips[i].version != version)
    && forall i: nat :: FirstWith(ips, version, i) ==> c == Some(OldIPConfig(ips[i].address, ips[i].gateway, routes))
  }

  /** To the older result: version 0.2.0, the same DNS part, each family as it should be, or an error exactly if there
      is no address of version "4" or "6". */
  lemma To020Exactly<D>(r: Current<D>)
    ensures To020(r).None? <==> forall i :: 0 <= i < |r.ips| ==> r.ips[i].version != "4" && r.ips[i].version != "6"
    ensures To020(r).Some? ==>
              var o := To020(r).value;
              && o.version == "0.2.0" && o.dns == r.dns
              && HoldsFamily(o.ip4, r.ips, RoutesOf(r.routes, true), "4")
              && HoldsFamily(o.ip6, r.ips, RoutesOf(r.routes, false), "6")
  {
    FirstOfExactly(r.ips, "4");
    FirstOfExactly(r.ips, "6");
  }

  /** From the older result: version 0.4.0, no interfaces, the same DNS part, the IPv4 address and its routes before
      the IPv6 ones. */
  lemma From020Exactly<D>(o: Old<D>)
    ensures var c := From020(o);
      && c.version == "0.4.0" && c.interfaces == [] && c.dns == o.dns
      && |c.ips| == (if o.ip4.Some? then 1 else 0) + (if o.ip6.Some? then 1 else 0)
      && (o.ip4.Some? ==> c.ips[0] == IPConfig("4", None, o.ip4.value.ip, o.ip4.value.gateway))
      && (o.ip6.Some? ==> c.ips[|c.ips| - 1] == IPConfig("6", None, o.ip6.value.ip, o.ip6.value.gateway))
      && c.routes == (if o.ip4.Some? then o.ip4.value.routes else []) + (if o.ip6.Some? then o.ip6.value.routes else [])
  {
  }

  /** So on every current result that converts, converting, going back and converting again is converting once. */
  lemma CurrentRoundTrip<D>(r: Current<D>)
    requires To020(r).Some?
    ensures To020(From020(To020(r).value)) == To020(r)
  {
    To020IsProper(r);
    OldRoundTrip(To020(r).value);
  }
}
