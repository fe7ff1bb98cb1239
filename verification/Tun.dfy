/**
 The TUN allocator: the first 10.i.0.0/24 that holds no interface address,
 where membership is decided on printed text.
 */
module Tun {
  import opened Wrappers
  import opened Words
  import opened Ipv4

  //---------------------------------------------------------------------------
  // The membership test
  //---------------------------------------------------------------------------

  // `format!("10.{}.0", i)`
  function SubnetText(i: nat): string {
    "10." + Decimal(i) + ".0"
  }

  predicate InSubnet(x: Ipv4Addr, i: nat) {
    x.a == 10 && x.b == i && x.c == 0
  }

  // The text test holds exactly for the addresses of 10.i.0.0/24, whatever the numeral of i.
  lemma TextTestExact(x: Ipv4Addr, i: nat)
    ensures SubnetText(i) <= ToString(x) <==> x.a == 10 && x.b == i && x.c == 0
    ensures forall digits :: Numeral(digits, i) ==> SubnetText(i) == "10." + digits + ".0"
  {
    forall digits | Numeral(digits, i) ensures digits == Decimal(i) {
      DecimalExact(digits, i);
    }
    var tail := Decimal(x.c) + "." + Decimal(x.d);
    assert Decimal(10) == "10";
    assert SubnetText(i) == Decimal(10) + "." + (Decimal(i) + "." + "0");
    NumberPrefix(10, x.a, Decimal(i) + "." + "0", Decimal(x.b) + "." + tail);
    NumberPrefix(i, x.b, "0", tail);
    DecimalFirst(x.c);
    assert "0" <= tail <==> tail[0] == '0';
    assert tail[0] == Decimal(x.c)[0];
  }

  //---------------------------------------------------------------------------
  // The search
  //---------------------------------------------------------------------------

  predicate InUse(interfaces: seq<Interface>, i: nat) {
    exists j, k :: 0 <= j < |interfaces| && 0 <= k < |interfaces[j].ipv4| && InSubnet(interfaces[j].ipv4[k], i)
  }

  ghost predicate LeastFree(interfaces: seq<Interface>, i: nat) {
    i < 256 && !InUse(interfaces, i) && forall j :: 0 <= j < i ==> InUse(interfaces, j)
  }

  datatype Found = Found(ip: Ipv4Addr, netmask: Ipv4Addr, broadcast: Ipv4Addr)

  // What is handed out for the i-th subnet.
  predicate FoundAt(f: Found, i: nat) {
    i < 256 && f == Found(Ipv4Addr(10, i, 0, 1), Ipv4Addr(255, 255, 255, 0), Ipv4Addr(10, i, 0, 255))
  }

  lemma FoundText(i: byte)
    ensures ToString(Ipv4Addr(10, i, 0, 1)) == "10." + Decimal(i) + ".0.1"
    ensures ToString(Ipv4Addr(255, 255, 255, 0)) == "255.255.255.0"
    ensures ToString(Ipv4Addr(10, i, 0, 255)) == "10." + Decimal(i) + ".0.255"
  {
    SmallDecimals();
    Concatenated(Decimal(i), "1");
    Concatenated(Decimal(i), "255");
    assert ToString(Ipv4Addr(255, 255, 255, 0)) == "255" + "." + ("255" + "." + ("255" + "." + "0"));
  }

  lemma SmallDecimals()
    ensures Decimal(10) == "10" && Decimal(0) == "0" && Decimal(1) == "1" && Decimal(255) == "255"
  {
    assert Decimal(25) == "25";
  }

  lemma Concatenated(middle: string, last: string)
    ensures "10" + "." + (middle + "." + ("0" + "." + last)) == "10." + middle + ".0." + last
  {
    assert "10" + "." == "10." && "." + ("0" + ".") == ".0.";
  }

  // The texts the source parses denote these addresses and no others.
  lemma FoundExact(f: Found, i: nat, digits: string)
    requires i < 256 && Numeral(digits, i)
    ensures FoundAt(f, i) <==>
      && ToString(f.ip) == "10." + digits + ".0.1"
      && ToString(f.netmask) == "255.255.255.0"
      && ToString(f.broadcast) == "10." + digits + ".0.255"
  {
    DecimalExact(digits, i);
    FoundText(i);
    if ToString(f.ip) == "10." + digits + ".0.1" {
      ToStringInjective(f.ip, Ipv4Addr(10, i, 0, 1));
    }
    if ToString(f.netmask) == "255.255.255.0" {
      ToStringInjective(f.netmask, Ipv4Addr(255, 255, 255, 0));
    }
    if ToString(f.broadcast) == "10." + digits + ".0.255" {
      ToStringInjective(f.broadcast, Ipv4Addr(10, i, 0, 255));
    }
  }

  method FindAvailableSubnet(interfaces: seq<Interface>) returns (r: Result<Found>)
    ensures r.Ok? ==> exists i :: LeastFree(interfaces, i) && FoundAt(r.value, i)
    ensures r.Err? <==> forall i :: 0 <= i < 256 ==> InUse(interfaces, i)
  {
    for i := 0 to 256
      invariant forall j :: 0 <= j < i ==> InUse(interfaces, j)
    {
      var subnet := SubnetText(i);
      var inUse := false;
      for j := 0 to |interfaces|
        invariant !inUse
        invariant forall m, k :: 0 <= m < j && 0 <= k < |interfaces[m].ipv4| ==> !InSubnet(interfaces[m].ipv4[k], i)
      {
        for k := 0 to |interfaces[j].ipv4|
          invariant !inUse
          invariant forall l :: 0 <= l < k ==> !InSubnet(interfaces[j].ipv4[l], i)
        {
          TextTestExact(interfaces[j].ipv4[k], i);
          if subnet <= ToString(interfaces[j].ipv4[k]) {
            inUse := true;
            break;
          }
        }
        if inUse {
          break;
        }
      }
      if !inUse {
        assert LeastFree(interfaces, i);
        return Ok(Found(Ipv4Addr(10, i, 0, 1), Ipv4Addr(255, 255, 255, 0), Ipv4Addr(10, i, 0, 255)));
      }
    }
    return Err;
  }

  //---------------------------------------------------------------------------
  // Capacity
  //---------------------------------------------------------------------------

  function Addresses(interfaces: seq<Interface>): set<Ipv4Addr> {
    set j, k | 0 <= j < |interfaces| && 0 <= k < |interfaces[j].ipv4| :: interfaces[j].ipv4[k]
  }

  function Below(addrs: set<Ipv4Addr>, n: nat): set<Ipv4Addr> {
    set x | x in addrs && x.a == 10 && x.c == 0 && x.b < n
  }

  lemma {:induction false} OccupiedCount(interfaces: seq<Interface>, n: nat)
    requires forall i :: 0 <= i < n ==> InUse(interfaces, i)
    ensures |Below(Addresses(interfaces), n)| >= n
  {
    if n > 0 {
      var addrs := Addresses(interfaces);
      OccupiedCount(interfaces, n - 1);
      assert InUse(interfaces, n - 1);
      var j, k :| 0 <= j < |interfaces| && 0 <= k < |interfaces[j].ipv4| && InSubnet(interfaces[j].ipv4[k], n - 1);
      var x := interfaces[j].ipv4[k];
      assert x in addrs;
      Larger(Below(addrs, n - 1) + {x}, Below(addrs, n));
    }
  }

  lemma Larger<T>(a: set<T>, b: set<T>)
    requires a <= b
    ensures |a| <= |b|
  {
    assert b == a + (b - a);
  }

  // With fewer than 256 distinct addresses on the host, some subnet is free.
  lemma FewAddressesSuffice(interfaces: seq<Interface>)
    requires |Addresses(interfaces)| < 256
    ensures exists i :: 0 <= i < 256 && !InUse(interfaces, i)
  {
    if forall i :: 0 <= i < 256 ==> InUse(interfaces, i) {
      OccupiedCount(interfaces, 256);
      Larger(Below(Addresses(interfaces), 256), Addresses(interfaces));
    }
  }

  //---------------------------------------------------------------------------
  // Creating devices
  //---------------------------------------------------------------------------

  datatype TunDevice = TunDevice(name: string, ipAddr: Ipv4Addr, netmask: Ipv4Addr, broadcast: Ipv4Addr)

  datatype Configuration = Configuration(
    tunName: Option<string>,
    address: Option<Ipv4Addr>,
    destination: Option<Ipv4Addr>,
    netmask: Option<Ipv4Addr>,
    up: bool)

  class TunHost {
    var interfaces: seq<Interface>
    // The configurations the devices were made with.
    var configured: seq<Configuration>

    constructor (interfaces: seq<Interface>)
      ensures this.interfaces == interfaces && configured == []
    {
      this.interfaces := interfaces;
      this.configured := [];
    }

    // `tun::create_as_async`: `made` is the name the system gives the device, or None when it fails.
    method CreateDevice(config: Configuration, made: Option<string>) returns (r: Result<string>)
      requires config.address.Some?
      modifies this
      ensures r == if made.None? then Err else Ok(made.value)
      ensures interfaces ==
        old(interfaces) + if made.None? then [] else [Interface(made.value, [config.address.value])]
      ensures configured == old(configured) + if made.None? then [] else [config]
    {
      if made.None? {
        return Err;
      }
      interfaces := interfaces + [Interface(made.value, [config.address.value])];
      configured := configured + [config];
      return Ok(made.value);
    }

    // A device gets the least free subnet and is made with its address and mask, up, and with the
    // name asked for. It fails when there is no free subnet or the system refuses, and a failure
    // leaves the host as it was.
    method CreateTunDevice(name: Option<string>, made: Option<string>) returns (r: Result<TunDevice>)
      modifies this
      ensures r.Err? <==> made.None? || forall i :: 0 <= i < 256 ==> InUse(old(interfaces), i)
      ensures r.Err? ==> interfaces == old(interfaces) && configured == old(configured)
      ensures r.Ok? ==>
        && (exists i :: LeastFree(old(interfaces), i)
              && FoundAt(Found(r.value.ipAddr, r.value.netmask, r.value.broadcast), i))
        && r.value.name == made.value
        && interfaces == old(interfaces) + [Interface(r.value.name, [r.value.ipAddr])]
        && var ip := Some(r.value.ipAddr);
        configured == old(configured) + [Configuration(name, ip, ip, Some(r.value.netmask), true)]
    {
      var found := FindAvailableSubnet(interfaces);
      if found.Err? {
        return Err;
      }
      var Found(ip, netmask, broadcast) := found.value;
      var config := Configuration(None, None, None, None, false);
      if name.Some? {
        config := config.(tunName := name);
      }
      config := config.(address := Some(ip), destination := Some(ip), netmask := Some(netmask), up := true);
      var dev := CreateDevice(config, made);
      if dev.Err? {
        return Err;
      }
      return Ok(TunDevice(dev.value, ip, netmask, broadcast));
    }
  }

  // Successive creates, on hosts that only gain addresses: the k-th takes the least free subnet of
  // the k-th host, and the next host has its address.
  ghost predicate Creates(hosts: seq<seq<Interface>>, picks: seq<nat>) {
    && |hosts| == |picks| + 1
    && (forall k :: 0 <= k < |picks| ==> LeastFree(hosts[k], picks[k]))
    && (forall k :: 0 <= k < |picks| ==> Addresses(hosts[k]) <= Addresses(hosts[k + 1]))
    && (forall k :: 0 <= k < |picks| ==> Ipv4Addr(10, picks[k], 0, 1) in Addresses(hosts[k + 1]))
  }

  lemma StaysInUse(before: seq<Interface>, after: seq<Interface>, i: nat)
    requires Addresses(before) <= Addresses(after) && InUse(before, i)
    ensures InUse(after, i)
  {
    var j, k :| 0 <= j < |before| && 0 <= k < |before[j].ipv4| && InSubnet(before[j].ipv4[k], i);
    assert before[j].ipv4[k] in Addresses(before);
    InUseByAddress(after, before[j].ipv4[k], i);
  }

  lemma InUseByAddress(interfaces: seq<Interface>, x: Ipv4Addr, i: nat)
    requires x in Addresses(interfaces) && InSubnet(x, i)
    ensures InUse(interfaces, i)
  {
  }

  lemma PickGrows(hosts: seq<seq<Interface>>, picks: seq<nat>, k: nat)
    requires Creates(hosts, picks) && k + 1 < |picks|
    ensures picks[k] < picks[k + 1]
  {
    var i := picks[k + 1];
    assert LeastFree(hosts[k], picks[k]) && LeastFree(hosts[k + 1], i);
    InUseByAddress(hosts[k + 1], Ipv4Addr(10, picks[k], 0, 1), picks[k]);
    if i < picks[k] {
      StaysInUse(hosts[k], hosts[k + 1], i);
    }
  }

  // While no address is removed, the subnets handed out strictly increase, so at most 256 creates succeed.
  lemma {:induction false} PicksIncrease(hosts: seq<seq<Interface>>, picks: seq<nat>, k: nat)
    requires Creates(hosts, picks) && k < |picks|
    ensures k <= picks[k] < 256
    ensures forall j :: 0 <= j < k ==> picks[j] < picks[k]
  {
    assert LeastFree(hosts[k], picks[k]);
    if k > 0 {
      PicksIncrease(hosts, picks, k - 1);
      PickGrows(hosts, picks, k - 1);
    }
  }

  lemma AtMost256(hosts: seq<seq<Interface>>, picks: seq<nat>)
    requires Creates(hosts, picks)
    ensures |picks| <= 256
  {
    if |picks| > 0 {
      PicksIncrease(hosts, picks, |picks| - 1);
    }
  }

  //---------------------------------------------------------------------------
  // Any number of creates on one host
  //---------------------------------------------------------------------------

  // The name asked for, and what the system makes of it.
  datatype Request = Request(name: Option<string>, made: Option<string>)

  // The devices of the creates that succeeded.
  function Devices(results: seq<Result<TunDevice>>): seq<TunDevice> {
    if results == [] then []
    else
      var n := |results| - 1;
      Devices(results[..n]) + (if results[n].Ok? then [results[n].value] else [])
  }

  function AddressOf(i: nat): Ipv4Addr
    requires i < 256
  {
    Ipv4Addr(10, i, 0, 1)
  }

  // The picks are the subnets of the devices.
  ghost predicate PicksOf(picks: seq<nat>, devices: seq<TunDevice>) {
    |picks| == |devices| && forall k :: 0 <= k < |picks| ==> picks[k] < 256 && devices[k].ipAddr == AddressOf(picks[k])
  }

  // A host that gained the interface of a device.
  lemma CreatesOneMore(hosts: seq<seq<Interface>>, picks: seq<nat>, i: nat, after: seq<Interface>, d: TunDevice)
    requires Creates(hosts, picks) && LeastFree(hosts[|picks|], i)
    requires FoundAt(Found(d.ipAddr, d.netmask, d.broadcast), i)
    requires after == hosts[|picks|] + [Interface(d.name, [d.ipAddr])]
    ensures Creates(hosts + [after], picks + [i]) && d.ipAddr == AddressOf(i)
  {
    var before := hosts[|picks|];
    forall x | x in Addresses(before) ensures x in Addresses(after) {
      var j, k :| 0 <= j < |before| && 0 <= k < |before[j].ipv4| && before[j].ipv4[k] == x;
      assert after[j] == before[j];
    }
    assert after[|before|].ipv4[0] == AddressOf(i);
  }

  lemma DevicesOneMore(results: seq<Result<TunDevice>>, r: Result<TunDevice>)
    ensures Devices(results + [r]) == Devices(results) + if r.Ok? then [r.value] else []
  {
    assert (results + [r])[..|results|] == results;
  }

  lemma HandsOut(hosts: seq<seq<Interface>>, picks: seq<nat>)
    requires Creates(hosts, picks)
    ensures |picks| <= 256
    ensures forall j, k :: 0 <= j < k < |picks| ==> picks[j] < picks[k]
  {
    AtMost256(hosts, picks);
    forall k | 0 <= k < |picks| ensures forall j :: 0 <= j < k ==> picks[j] < picks[k] {
      PicksIncrease(hosts, picks, k);
    }
  }

  // Whatever is asked for and whatever fails, the devices that are made get the subnets of
  // successive creates on the host, so in increasing order and never more than 256.
  method CreateDevices(host: TunHost, requests: seq<Request>)
    returns (results: seq<Result<TunDevice>>, ghost hosts: seq<seq<Interface>>, ghost picks: seq<nat>)
    modifies host
    ensures |results| == |requests| && PicksOf(picks, Devices(results))
    ensures Creates(hosts, picks) && hosts[0] == old(host.interfaces) && hosts[|picks|] == host.interfaces
    ensures |Devices(results)| <= 256
    ensures forall j, k :: 0 <= j < k < |picks| ==> picks[j] < picks[k]
  {
    results, hosts, picks := [], [host.interfaces], [];
    for n := 0 to |requests|
      invariant |results| == n && PicksOf(picks, Devices(results))
      invariant Creates(hosts, picks) && hosts[0] == old(host.interfaces) && hosts[|picks|] == host.interfaces
    {
      var r := host.CreateTunDevice(requests[n].name, requests[n].made);
      DevicesOneMore(results, r);
      results := results + [r];
      if r.Ok? {
        ghost var i :| LeastFree(hosts[|picks|], i)
                       && FoundAt(Found(r.value.ipAddr, r.value.netmask, r.value.broadcast), i);
        CreatesOneMore(hosts, picks, i, host.interfaces, r.value);
        hosts, picks := hosts + [host.interfaces], picks + [i];
      }
    }
    HandsOut(hosts, picks);
  }
}
