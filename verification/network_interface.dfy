/** Choice of the host network interface on POSIX hosts: which interface
    addresses are usable, which route supplies an interface's default
    gateway, and how the configured interface name selects one of them. The
    interface-address list and the routing table are inputs. */
module NetworkInterface {
  import opened Wrappers

  /** Address family of IPv4 addresses. */
  const AfInet := 2
  /** Interface flags: up, loopback. */
  const IffUp: bv32 := 0x1
  const IffLoopback: bv32 := 0x8
  /** Route flag: the route goes through a gateway. */
  const RtfGateway: bv32 := 0x2

  datatype SockAddr = SockAddr(family: nat, ipv4: bv32)

  /** One entry of the host's interface-address list; a missing address or
      netmask is `None`. */
  datatype IfAddr = IfAddr(name: string, addr: Option<SockAddr>, netmask: Option<SockAddr>, flags: bv32)

  /** One line of the kernel routing table. */
  datatype Route = Route(ifaceName: string, dest: bv32, gateway: bv32, flags: bv32)

  datatype Interface = Interface(name: string, ipAddress: bv32, subnetMask: bv32, gateway: bv32)

  /** An entry is offered when it has an address and a netmask, the address
      is IPv4, and the interface is up and not a loopback. */
  predicate Usable(ifa: IfAddr) {
    && ifa.addr.Some? && ifa.netmask.Some?
    && ifa.addr.value.family == AfInet
    && ifa.flags & IffUp != 0
    && ifa.flags & IffLoopback == 0
  }

  /** Of the interface flags, the filter looks at the up and loopback bits
      only: any other flag may change without changing the verdict. */
  lemma UsableReadsUpAndLoopbackOnly(ifa: IfAddr, flags: bv32)
    requires flags & (IffUp | IffLoopback) == ifa.flags & (IffUp | IffLoopback)
    ensures Usable(ifa.(flags := flags)) <==> Usable(ifa)
  {
    assert flags & IffUp == (flags & (IffUp | IffLoopback)) & IffUp;
    assert ifa.flags & IffUp == (ifa.flags & (IffUp | IffLoopback)) & IffUp;
    assert flags & IffLoopback == (flags & (IffUp | IffLoopback)) & IffLoopback;
    assert ifa.flags & IffLoopback == (ifa.flags & (IffUp | IffLoopback)) & IffLoopback;
  }

  /** A default route of interface `name` through a gateway. */
  predicate IsGatewayRoute(r: Route, name: string) {
    r.ifaceName == name && r.dest == 0 && r.flags & RtfGateway != 0
  }

  /** Position of the first gateway route of `name` at or after `from`. */
  function FindGatewayRoute(routes: seq<Route>, name: string, from: nat): (r: Option<nat>)
    requires from <= |routes|
    ensures r.Some? ==> from <= r.value < |routes| && IsGatewayRoute(routes[r.value], name)
    ensures r.Some? ==> forall j :: from <= j < r.value ==> !IsGatewayRoute(routes[j], name)
    ensures r.None? ==> forall j :: from <= j < |routes| ==> !IsGatewayRoute(routes[j], name)
    decreases |routes| - from
  {
    if from == |routes| then None
    else if IsGatewayRoute(routes[from], name) then Some(from)
    else FindGatewayRoute(routes, name, from + 1)
  }

  /** The gateway of the first matching route, or 0 when none matches. */
  function Gateway(routes: seq<Route>, name: string): (gw: bv32)
    ensures (forall j :: 0 <= j < |routes| ==> !IsGatewayRoute(routes[j], name)) ==> gw == 0
    ensures forall j ::
              (0 <= j < |routes| && IsGatewayRoute(routes[j], name) && forall k :: 0 <= k < j ==> !IsGatewayRoute(routes[k], name))
              ==> gw == routes[j].gateway
  {
    match FindGatewayRoute(routes, name, 0)
    case Some(i) => routes[i].gateway
    case None => 0
  }

  function ToInterface(ifa: IfAddr, routes: seq<Route>): Interface
    requires Usable(ifa)
  {
    Interface(ifa.name, ifa.addr.value.ipv4, ifa.netmask.value.ipv4, Gateway(routes, ifa.name))
  }

  /** Positions of the usable entries, in list order. */
  function UsableIndices(ifaddrs: seq<IfAddr>): (idx: seq<nat>)
    ensures forall k :: 0 <= k < |idx| ==> idx[k] < |ifaddrs| && Usable(ifaddrs[idx[k]])
    ensures forall k, l :: 0 <= k < l < |idx| ==> idx[k] < idx[l]
    ensures forall i :: 0 <= i < |ifaddrs| && Usable(ifaddrs[i]) ==> i in idx
    decreases |ifaddrs|
  {
    if |ifaddrs| == 0 then []
    else
      var n := |ifaddrs| - 1;
      var prev := UsableIndices(ifaddrs[..n]);
      assert forall i :: 0 <= i < n ==> ifaddrs[..n][i] == ifaddrs[i];
      if Usable(ifaddrs[n]) then prev + [n] else prev
  }

  /** The interfaces offered: one per usable entry, in list order, each with
      its gateway. A failing interface query offers none. */
  function GetAvailableNetworkInterfaces(ifaddrs: Option<seq<IfAddr>>, routes: seq<Route>): (r: seq<Interface>)
    ensures ifaddrs.None? ==> r == []
    ensures ifaddrs.Some? ==>
              var idx := UsableIndices(ifaddrs.value);
              |r| == |idx| && forall k :: 0 <= k < |idx| ==> r[k] == ToInterface(ifaddrs.value[idx[k]], routes)
  {
    match ifaddrs
    case None => []
    case Some(list) => Available(list, routes)
  }

  function Available(list: seq<IfAddr>, routes: seq<Route>): (r: seq<Interface>)
    ensures var idx := UsableIndices(list);
            |r| == |idx| && forall k :: 0 <= k < |idx| ==> r[k] == ToInterface(list[idx[k]], routes)
    decreases |list|
  {
    if |list| == 0 then []
    else
      var n := |list| - 1;
      var prev := Available(list[..n], routes);
      assert forall i :: 0 <= i < n ==> list[..n][i] == list[i];
      if Usable(list[n]) then prev + [ToInterface(list[n], routes)] else prev
  }

  /** Position of the first interface called `name`. */
  function FindByName(ifaces: seq<Interface>, name: string, from: nat): (r: Option<nat>)
    requires from <= |ifaces|
    ensures r.Some? ==> from <= r.value < |ifaces| && ifaces[r.value].name == name
    ensures r.Some? ==> forall j :: from <= j < r.value ==> ifaces[j].name != name
    ensures r.None? ==> forall j :: from <= j < |ifaces| ==> ifaces[j].name != name
    decreases |ifaces| - from
  {
    if from == |ifaces| then None
    else if ifaces[from].name == name then Some(from)
    else FindByName(ifaces, name, from + 1)
  }

  /** The interface the configured name selects: none when nothing is
      offered, the first one when the name is empty, otherwise the first
      one of that name, or none. */
  function GetSelectedNetworkInterface(ifaces: seq<Interface>, selected: string): (r: Option<Interface>)
    ensures |ifaces| == 0 ==> r.None?
    ensures |ifaces| > 0 && selected == "" ==> r == Some(ifaces[0])
    ensures selected != "" ==>
              (r.None? <==> forall j :: 0 <= j < |ifaces| ==> ifaces[j].name != selected)
    ensures selected != "" && r.Some? ==>
              exists i :: 0 <= i < |ifaces| && ifaces[i] == r.value && ifaces[i].name == selected
                          && forall j :: 0 <= j < i ==> ifaces[j].name != selected
  {
    if |ifaces| == 0 then None
    else if selected == "" then Some(ifaces[0])
    else
      match FindByName(ifaces, selected, 0)
      case Some(i) => Some(ifaces[i])
      case None => None
  }

  /** The setting after "select first": the first interface's name when any
      is offered, otherwise unchanged. */
  function SelectFirstNetworkInterface(ifaces: seq<Interface>, setting: string): (r: string)
    ensures |ifaces| == 0 ==> r == setting
    ensures |ifaces| > 0 ==> r == ifaces[0].name
  {
    if |ifaces| > 0 then ifaces[0].name else setting
  }

  /** Selecting the first interface makes it the selected one. */
  lemma SelectFirstThenSelected(ifaces: seq<Interface>, setting: string)
    requires |ifaces| > 0
    ensures GetSelectedNetworkInterface(ifaces, SelectFirstNetworkInterface(ifaces, setting)) == Some(ifaces[0])
  {
  }
}
