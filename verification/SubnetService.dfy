/**
 The subnet registry of the Linux service over a modelled table of network
 interfaces, with every external command free to fail and nothing rolled back.
 Requests are served one at a time and nothing else changes the host.
 */
module SubnetService {
  import opened Wrappers
  import opened Words
  import opened Ipv4
  import opened Cidr

  datatype Subnet = Subnet(cidr: string, interface: string, network: Net)

  // Interfaces of the host by name, with their addresses.
  type Links = map<string, seq<Ipv4Addr>>

  // The host, the store, and - for the specification - the live entries in the order of creation.
  datatype Registry = Registry(links: Links, store: map<string, Subnet>, order: seq<string>)

  // `format!("dummy{}", n)`
  function Dummy(n: nat): string {
    "dummy" + Decimal(n)
  }

  const DUMMIES: nat := 255

  // The name of the k-th dummy interface: the word, then the decimal numeral of k.
  predicate Named(name: string, k: nat) {
    |name| > 5 && name[..5] == "dummy" && Numeral(name[5..], k)
  }

  ghost predicate HasDummy(links: Links, k: nat) {
    exists name :: name in links && Named(name, k)
  }

  // The dummy interfaces of the host with numbers below 255.
  ghost function DummiesOf(links: Links): set<string> {
    set name | name in links && exists k: nat :: k < 255 && Named(name, k)
  }

  // Exactly one name is that of the k-th dummy.
  lemma DummyExact(name: string, k: nat)
    ensures name == Dummy(k) <==> Named(name, k)
  {
    DecimalReads(k);
    assert Dummy(k)[5..] == Decimal(k);
    if Named(name, k) {
      DecimalExact(name[5..], k);
      assert name == name[..5] + name[5..];
    }
  }

  lemma HasDummyExact(links: Links, k: nat)
    ensures HasDummy(links, k) <==> Dummy(k) in links
  {
    DummyExact(Dummy(k), k);
    forall name | Named(name, k) ensures name == Dummy(k) {
      DummyExact(name, k);
    }
  }

  //---------------------------------------------------------------------------
  // What requests may do
  //---------------------------------------------------------------------------

  // No address of the host agrees with the network in every bit of its prefix.
  predicate NoneWithin(links: Links, n: Net) {
    forall name :: name in links ==> forall i :: 0 <= i < |links[name]| ==> !SharesPrefix(n, links[name][i])
  }

  // A new interface, and every other one as it was.
  predicate Added(links: Links, links': Links, name: string, addrs: seq<Ipv4Addr>) {
    name !in links && links' == links[name := addrs]
  }

  // A create that succeeds: the network is acceptable, holds no address of the host, and its own
  // address goes on a new interface, the first dummy the host does not have.
  ghost predicate CreatedEntry(links: Links, links': Links, subnet: Subnet, k: nat) {
    && k < 255 && Named(subnet.interface, k) && (forall j: nat :: j < k ==> HasDummy(links, j))
    && Acceptable(subnet.network) && NoneWithin(links, subnet.network)
    && Added(links, links', subnet.interface, [subnet.network.addr])
  }

  // When a create can succeed at all.
  ghost predicate Creatable(links: Links, parsed: Option<Net>) {
    && parsed.Some? && Acceptable(parsed.value) && NoneWithin(links, parsed.value)
    && |DummiesOf(links)| < 255
  }

  // The subnet's interface is there and has its address.
  predicate Carries(links: Links, subnet: Subnet) {
    subnet.interface in links && subnet.network.addr in links[subnet.interface]
  }

  // A create that fails may leave a new interface behind, with or without the address.
  ghost predicate LeftBehind(links: Links, links': Links) {
    links' == links || exists name, addrs :: Added(links, links', name, addrs)
  }

  function Without(order: seq<string>, cidr: string): seq<string> {
    if order == [] then []
    else if order[0] == cidr then Without(order[1..], cidr)
    else [order[0]] + Without(order[1..], cidr)
  }

  ghost predicate CreateOk(g: Registry, g': Registry, subnet: Subnet) {
    && (exists k :: CreatedEntry(g.links, g'.links, subnet, k))
    && g'.store == g.store[subnet.cidr := subnet]
    && g'.order == g.order + [subnet.cidr]
  }

  ghost predicate CreateFails(g: Registry, g': Registry) {
    LeftBehind(g.links, g'.links) && g'.store == g.store && g'.order == g.order
  }

  // A remove drops the entry first, and may then fail on the host: interfaces other than the
  // entry's stay as they were.
  ghost predicate Removes(g: Registry, g': Registry, cidr: string) {
    && cidr in g.store
    && g'.store == g.store - {cidr}
    && g'.order == Without(g.order, cidr)
    && forall name :: name != g.store[cidr].interface ==>
         (name in g'.links <==> name in g.links) && (name in g.links ==> g'.links[name] == g.links[name])
  }

  ghost predicate Serves(parse: string -> Option<Net>, g: Registry, g': Registry) {
    || (exists subnet: Subnet :: parse(subnet.cidr) == Some(subnet.network) && CreateOk(g, g', subnet))
    || CreateFails(g, g')
    || (exists cidr :: Removes(g, g', cidr))
  }

  //---------------------------------------------------------------------------
  // The invariant
  //---------------------------------------------------------------------------

  // An entry is keyed by its own CIDR and backed by a live dummy interface carrying its address.
  ghost predicate Backed(parse: string -> Option<Net>, g: Registry, cidr: string)
    requires cidr in g.store
  {
    var e := g.store[cidr];
    && e.cidr == cidr && parse(cidr) == Some(e.network) && Acceptable(e.network)
    && (exists k: nat :: k < 255 && Named(e.interface, k))
    && Carries(g.links, e)
  }

  // No entry's network holds the address of an older one.
  predicate ExcludesOlder(g: Registry, i: nat, j: nat)
    requires i < j < |g.order| && g.order[i] in g.store && g.order[j] in g.store
  {
    !ContainsAddr(g.store[g.order[j]].network, g.store[g.order[i]].network.addr)
  }

  // The order lists the entries of the store.
  ghost predicate Listed(g: Registry) {
    forall cidr :: cidr in g.store <==> cidr in g.order
  }

  ghost predicate InOrder(g: Registry)
    requires Listed(g)
  {
    && (forall i, j :: 0 <= i < j < |g.order| ==> g.order[i] != g.order[j])
    && (forall i, j :: 0 <= i < j < |g.order| ==> ExcludesOlder(g, i, j))
  }

  ghost predicate OwnInterfaces(g: Registry) {
    forall x, y :: x in g.store && y in g.store && x != y ==> g.store[x].interface != g.store[y].interface
  }

  ghost predicate Sound(parse: string -> Option<Net>, g: Registry) {
    && Listed(g)
    && (forall cidr :: cidr in g.store ==> Backed(parse, g, cidr))
    && OwnInterfaces(g)
    && InOrder(g)
  }

  // A create never overwrites: an entry under the same CIDR would hold an address of the host.
  lemma NeverOverwrites(parse: string -> Option<Net>, g: Registry, g': Registry, subnet: Subnet)
    requires Sound(parse, g) && parse(subnet.cidr) == Some(subnet.network) && CreateOk(g, g', subnet)
    ensures subnet.cidr !in g.store
  {
    if subnet.cidr in g.store {
      assert Backed(parse, g, subnet.cidr);
      assert SharesPrefix(subnet.network, subnet.network.addr);
    }
  }

  // A new network holds no address of a live entry.
  lemma ExcludesLive(parse: string -> Option<Net>, g: Registry, n: Net, cidr: string)
    requires Sound(parse, g) && NoneWithin(g.links, n) && cidr in g.store
    ensures !ContainsAddr(n, g.store[cidr].network.addr)
  {
    assert Backed(parse, g, cidr);
    ContainsBits(n, g.store[cidr].network.addr);
  }

  lemma CreateKeeps(parse: string -> Option<Net>, g: Registry, g': Registry, subnet: Subnet)
    requires Sound(parse, g) && parse(subnet.cidr) == Some(subnet.network) && CreateOk(g, g', subnet)
    ensures Sound(parse, g')
  {
    NeverOverwrites(parse, g, g', subnet);
    forall cidr | cidr in g'.store ensures Backed(parse, g', cidr) {
      if cidr != subnet.cidr {
        assert Backed(parse, g, cidr);
      }
    }
    forall x, y | x in g'.store && y in g'.store && x != y ensures g'.store[x].interface != g'.store[y].interface {
      assert x in g.store ==> Backed(parse, g, x);
      assert y in g.store ==> Backed(parse, g, y);
    }
    forall i, j | 0 <= i < j < |g'.order| ensures g'.order[i] != g'.order[j] && ExcludesOlder(g', i, j) {
      assert g'.order[i] == g.order[i] && g.order[i] in g.store;
      if j < |g.order| {
        assert ExcludesOlder(g, i, j);
      } else {
        ExcludesLive(parse, g, subnet.network, g.order[i]);
      }
    }
  }

  lemma FailKeeps(parse: string -> Option<Net>, g: Registry, g': Registry)
    requires Sound(parse, g) && CreateFails(g, g')
    ensures Sound(parse, g')
  {
    forall cidr | cidr in g'.store ensures Backed(parse, g', cidr) {
      assert Backed(parse, g, cidr);
    }
    forall i, j | 0 <= i < j < |g'.order| ensures ExcludesOlder(g', i, j) {
      assert ExcludesOlder(g, i, j);
    }
  }

  lemma {:induction false} WithoutKeeps(order: seq<string>, cidr: string)
    ensures forall x :: x in Without(order, cidr) <==> x in order && x != cidr
  {
    if order != [] {
      WithoutKeeps(order[1..], cidr);
    }
  }

  // Removing an element keeps the others in order.
  lemma {:induction false} WithoutInOrder(order: seq<string>, cidr: string, p: nat, q: nat) returns (i: nat, j: nat)
    requires p < q < |Without(order, cidr)|
    ensures i < j < |order| && order[i] == Without(order, cidr)[p] && order[j] == Without(order, cidr)[q]
  {
    if order[0] == cidr {
      i, j := WithoutInOrder(order[1..], cidr, p, q);
      i, j := i + 1, j + 1;
    } else if p == 0 {
      WithoutKeeps(order[1..], cidr);
      assert Without(order[1..], cidr)[q - 1] in order[1..];
      var m :| 0 <= m < |order| - 1 && order[1..][m] == Without(order[1..], cidr)[q - 1];
      i, j := 0, m + 1;
    } else {
      i, j := WithoutInOrder(order[1..], cidr, p - 1, q - 1);
      i, j := i + 1, j + 1;
    }
  }

  lemma RemoveKeepsOrder(parse: string -> Option<Net>, g: Registry, g': Registry, cidr: string, p: nat, q: nat)
    requires Sound(parse, g) && Removes(g, g', cidr) && p < q < |g'.order|
    ensures g'.order[p] in g'.store && g'.order[q] in g'.store
    ensures g'.order[p] != g'.order[q] && ExcludesOlder(g', p, q)
  {
    WithoutKeeps(g.order, cidr);
    assert g'.order[p] in g'.order && g'.order[q] in g'.order;
    var i, j := WithoutInOrder(g.order, cidr, p, q);
    assert ExcludesOlder(g, i, j);
  }

  lemma RemoveKeepsBacked(parse: string -> Option<Net>, g: Registry, g': Registry, cidr: string, x: string)
    requires Sound(parse, g) && Removes(g, g', cidr) && x in g'.store
    ensures Backed(parse, g', x)
  {
    assert Backed(parse, g, x);
  }

  lemma RemoveKeeps(parse: string -> Option<Net>, g: Registry, g': Registry, cidr: string)
    requires Sound(parse, g) && Removes(g, g', cidr)
    ensures Sound(parse, g')
  {
    forall x | x in g'.store ensures Backed(parse, g', x) {
      RemoveKeepsBacked(parse, g, g', cidr, x);
    }
    RemoveKeepsOrders(parse, g, g', cidr);
  }

  lemma RemoveKeepsOrders(parse: string -> Option<Net>, g: Registry, g': Registry, cidr: string)
    requires Sound(parse, g) && Removes(g, g', cidr)
    ensures forall x :: x in g'.store <==> x in g'.order
    ensures forall p, q :: 0 <= p < q < |g'.order| ==> g'.order[p] != g'.order[q]
    ensures forall p, q :: 0 <= p < q < |g'.order| ==> ExcludesOlder(g', p, q)
  {
    WithoutKeeps(g.order, cidr);
    forall p, q | 0 <= p < q < |g'.order| ensures g'.order[p] != g'.order[q] && ExcludesOlder(g', p, q) {
      RemoveKeepsOrder(parse, g, g', cidr, p, q);
    }
  }

  lemma ServesKeeps(parse: string -> Option<Net>, g: Registry, g': Registry)
    requires Sound(parse, g) && Serves(parse, g, g')
    ensures Sound(parse, g')
  {
    if subnet: Subnet :| parse(subnet.cidr) == Some(subnet.network) && CreateOk(g, g', subnet) {
      CreateKeeps(parse, g, g', subnet);
    } else if CreateFails(g, g') {
      FailKeeps(parse, g, g');
    } else {
      var cidr :| Removes(g, g', cidr);
      RemoveKeeps(parse, g, g', cidr);
    }
  }

  //---------------------------------------------------------------------------
  // Every run
  //---------------------------------------------------------------------------

  // The states of a run: an empty store on any host, then one request after another.
  ghost predicate IsRun(parse: string -> Option<Net>, states: seq<Registry>) {
    && states != [] && states[0].store == map[] && states[0].order == []
    && forall i :: 0 <= i < |states| - 1 ==> Serves(parse, states[i], states[i + 1])
  }

  lemma {:induction false} RunIsSound(parse: string -> Option<Net>, states: seq<Registry>, n: nat)
    requires IsRun(parse, states) && n < |states|
    ensures Sound(parse, states[n])
  {
    if n > 0 {
      RunIsSound(parse, states, n - 1);
      assert Serves(parse, states[n - 1], states[n - 1 + 1]);
      ServesKeeps(parse, states[n - 1], states[n]);
    }
  }

  // Of two live entries of any run, the younger excludes the older one's address: the younger is
  // strictly nested in the older when the older holds its address, and they are disjoint otherwise.
  lemma LiveEntriesApart(parse: string -> Option<Net>, states: seq<Registry>, n: nat, i: nat, j: nat)
    requires IsRun(parse, states) && n < |states| && i < j < |states[n].order|
    ensures states[n].order[i] in states[n].store && states[n].order[j] in states[n].store
    ensures var g := states[n];
      var older, younger := g.store[g.order[i]].network, g.store[g.order[j]].network;
      && !SharesPrefix(younger, older.addr)
      && (Overlap(younger, older) <==> SharesPrefix(older, younger.addr))
      && (Overlap(younger, older) ==> Inside(younger, older) && younger.prefix > older.prefix)
  {
    RunIsSound(parse, states, n);
    var g := states[n];
    assert g.order[i] in g.order && g.order[j] in g.order;
    assert ExcludesOlder(g, i, j);
    var older, younger := g.store[g.order[i]].network, g.store[g.order[j]].network;
    ExcludedAddress(older, younger);
    EitherContainsExact(younger, older);
    ContainsBits(younger, older.addr);
    ContainsBits(older, younger.addr);
  }

  lemma NestedRanges(older: Net, younger: Net)
    requires older == Net(Ipv4Addr(10, 0, 0, 1), 16) && younger == Net(Ipv4Addr(10, 0, 1, 0), 24)
    ensures !ContainsAddr(younger, older.addr) && Overlap(younger, older)
  {
    Powers();
    assert Pow2(8) == 0x100;
    assert First(younger) == 0xA00_0100 && Last(younger) == 0xA00_01FF;
    assert First(older) == 0xA00_0000 && Last(older) == 0xA00_FFFF;
    assert Contains(younger, 0xA00_0100) && Contains(older, 0xA00_0100);
  }

  // A network inside an older one passes every check.
  lemma NestedNets(older: Net, younger: Net)
    requires older == Net(Ipv4Addr(10, 0, 0, 1), 16) && younger == Net(Ipv4Addr(10, 0, 1, 0), 24)
    ensures Acceptable(older) && Acceptable(younger)
    ensures !SharesPrefix(younger, older.addr) && Overlap(younger, older)
  {
    NestedRanges(older, younger);
    ContainsBits(younger, older.addr);
  }

  lemma DistinctDummies(m: nat, n: nat)
    requires m != n
    ensures Dummy(m) != Dummy(n)
  {
    if Dummy(m) == Dummy(n) {
      assert Dummy(m)[5..] == Decimal(m) && Dummy(n)[5..] == Decimal(n);
      DecimalInjective(m, n);
    }
  }

  // So two live entries can overlap: a run that creates 10.0.0.1/16, then 10.0.1.0/24.
  lemma NestedEntries(parse: string -> Option<Net>, older: Subnet, younger: Subnet) returns (states: seq<Registry>)
    requires older == Subnet("10.0.0.1/16", "dummy0", Net(Ipv4Addr(10, 0, 0, 1), 16))
    requires younger == Subnet("10.0.1.0/24", "dummy1", Net(Ipv4Addr(10, 0, 1, 0), 24))
    requires parse(older.cidr) == Some(older.network) && parse(younger.cidr) == Some(younger.network)
    ensures IsRun(parse, states) && |states| == 3
    ensures states[2].store == map[older.cidr := older, younger.cidr := younger]
    ensures Overlap(younger.network, older.network)
  {
    NestedNets(older.network, younger.network);
    var links := map[older.interface := [older.network.addr]];
    var one := Registry(links, map[older.cidr := older], [older.cidr]);
    var two := Registry(links[younger.interface := [younger.network.addr]],
                        one.store[younger.cidr := younger], one.order + [younger.cidr]);
    states := [Registry(map[], map[], []), one, two];
    assert Named("dummy0", 0) && Named("dummy1", 1) by {
      assert "dummy0"[5..] == Decimal(0) && "dummy1"[5..] == Decimal(1);
      DecimalReads(0);
      DecimalReads(1);
    }
    assert CreatedEntry(map[], one.links, older, 0);
    assert CreateOk(states[0], one, older);
    assert CreatedEntry(one.links, two.links, younger, 1);
    assert CreateOk(one, two, younger);
    assert two.store == map[older.cidr := older, younger.cidr := younger] by {
      assert older.cidr != younger.cidr;
    }
  }

  //---------------------------------------------------------------------------
  // Capacity
  //---------------------------------------------------------------------------

  function DummyNames(n: nat): set<string> {
    set k: nat | k < n :: Dummy(k)
  }

  lemma {:induction false} DummyCount(n: nat)
    ensures |DummyNames(n)| == n
  {
    if n > 0 {
      DummyCount(n - 1);
      OneMoreDummy(n - 1);
    }
  }

  lemma OneMoreDummy(n: nat)
    ensures Dummy(n) !in DummyNames(n) && DummyNames(n + 1) == DummyNames(n) + {Dummy(n)}
  {
    forall k: nat | k < n ensures Dummy(k) != Dummy(n) {
      DistinctDummies(k, n);
    }
  }

  lemma SubsetCount<T>(a: set<T>, b: set<T>)
    requires a <= b
    ensures |a| <= |b| && (|a| == |b| ==> a == b)
  {
    assert b == a + (b - a);
  }

  // A dummy below 255 is free exactly when the host has fewer than 255 of them.
  lemma RoomExact(links: Links)
    ensures |DummiesOf(links)| < 255 <==> exists k: nat :: k < 255 && !HasDummy(links, k)
  {
    DummyCount(255);
    forall name, k: nat ensures name == Dummy(k) <==> Named(name, k) {
      DummyExact(name, k);
    }
    forall k: nat ensures HasDummy(links, k) <==> Dummy(k) in links {
      HasDummyExact(links, k);
    }
    SubsetCount(DummiesOf(links), DummyNames(255));
    if k: nat :| k < 255 && !HasDummy(links, k) {
      assert Dummy(k) in DummyNames(255) && Dummy(k) !in DummiesOf(links);
    } else {
      forall name | name in DummyNames(255) ensures name in DummiesOf(links) {
        var k: nat :| k < 255 && name == Dummy(k);
        assert HasDummy(links, k);
      }
      assert DummiesOf(links) == DummyNames(255);
    }
  }

  // Distinct members of a set, listed.
  lemma {:induction false} DistinctList(names: seq<string>, all: set<string>)
    requires forall i :: 0 <= i < |names| ==> names[i] in all
    requires forall i, j :: 0 <= i < j < |names| ==> names[i] != names[j]
    ensures |names| <= |all|
    decreases |names|
  {
    if names != [] {
      var n := |names| - 1;
      DistinctList(names[..n], all - {names[n]});
    }
  }

  // At most 255 entries are ever live.
  lemma AtMost255(parse: string -> Option<Net>, states: seq<Registry>, n: nat)
    requires IsRun(parse, states) && n < |states|
    ensures |states[n].store| <= 255
  {
    RunIsSound(parse, states, n);
    var g := states[n];
    assert forall i :: 0 <= i < |g.order| ==> g.order[i] in g.store;
    var names :=
      seq(|g.order|, i requires 0 <= i < |g.order| && g.order[i] in g.store => g.store[g.order[i]].interface);
    forall i | 0 <= i < |names| ensures names[i] in DummyNames(255) {
      assert Backed(parse, g, g.order[i]);
      var k: nat :| k < 255 && Named(names[i], k);
      DummyExact(names[i], k);
    }
    DistinctList(names, DummyNames(255));
    DummyCount(255);
    OrderCoversStore(g.store.Keys, g.order);
  }

  lemma {:induction false} OrderCoversStore(keys: set<string>, order: seq<string>)
    requires forall cidr :: cidr in keys ==> cidr in order
    ensures |keys| <= |order|
    decreases |order|
  {
    if order == [] {
      assert keys == {};
    } else {
      var rest := keys - {order[0]};
      forall cidr | cidr in rest ensures cidr in order[1..] {
        assert cidr in order;
      }
      OrderCoversStore(rest, order[1..]);
      assert keys <= rest + {order[0]};
      assert |keys| <= |rest + {order[0]}| by {
        assert rest + {order[0]} == keys + (rest + {order[0]} - keys);
      }
    }
  }

  //---------------------------------------------------------------------------
  // The service
  //---------------------------------------------------------------------------

  // How an external command ends: its status, or an error in starting it.
  datatype Exit = Success | Failure | NotStarted

  class Service {
    // The CIDR parser, and how each command ends when the host would allow it.
    const parse: string -> Option<Net>
    const env: nat -> Exit
    var commands: nat
    var links: Links
    var store: map<string, Subnet>
    ghost var order: seq<string>

    ghost function State(): Registry
      reads this
    {
      Registry(links, store, order)
    }

    constructor (parse: string -> Option<Net>, env: nat -> Exit, links: Links)
      ensures State() == Registry(links, map[], []) && this.parse == parse && this.env == env
    {
      this.parse := parse;
      this.env := env;
      this.commands := 0;
      this.links := links;
      this.store := map[];
      this.order := [];
    }

    // Every command the host allows succeeds.
    ghost predicate Smooth() {
      forall i: nat :: env(i).Success?
    }

    // Runs a command: it succeeds only when the host allows it and nothing else goes wrong.
    method Command(allowed: bool) returns (exit: Exit)
      modifies this`commands
      ensures exit.Success? ==> allowed
      ensures Smooth() ==> if allowed then exit.Success? else exit.Failure?
    {
      exit := env(commands);
      commands := commands + 1;
      if exit.Success? && !allowed {
        exit := Failure;
      }
    }

    method IsSubnetAvailable(network: Net) returns (r: Result<bool>)
      ensures r.Ok? <==> network.addr.a == 10 && network.prefix >= 2
      ensures r.Ok? ==> (r.value <==> NoneWithin(links, network))
    {
      var valid := ValidateNetwork(network);
      if !valid {
        return Err;
      }
      var names := links.Keys;
      while names != {}
        invariant names <= links.Keys
        invariant forall n :: n in links && n !in names ==>
          forall i :: 0 <= i < |links[n]| ==> !SharesPrefix(network, links[n][i])
        decreases names
      {
        var name :| name in names;
        for i := 0 to |links[name]|
          invariant forall j :: 0 <= j < i ==> !SharesPrefix(network, links[name][j])
        {
          ContainsBits(network, links[name][i]);
          if ContainsAddr(network, links[name][i]) {
            return Ok(false);
          }
        }
        names := names - {name};
      }
      return Ok(true);
    }

    // Takes the first dummy interface that does not show, adds it, gives it the address, and
    // brings it up. A failing command ends the request, leaving what was done.
    method ConfigureSubnet(cidr: string) returns (r: Result<Subnet>)
      modifies this`commands, this`links
      ensures r.Ok? ==>
        && r.value.cidr == cidr && parse(cidr) == Some(r.value.network)
        && exists k :: CreatedEntry(old(links), links, r.value, k)
      ensures r.Err? ==> LeftBehind(old(links), links)
      ensures Smooth() ==> (r.Ok? <==> Creatable(old(links), parse(cidr)))
      ensures Smooth() && r.Err? ==> links == old(links)
    {
      var parsed := parse(cidr);
      if parsed.None? {
        return Err;
      }
      var network := parsed.value;
      var valid := ValidateNetwork(network);
      if !valid {
        return Err;
      }
      var available := IsSubnetAvailable(network);
      if available.Err? || !available.value {
        return Err;
      }
      RoomExact(links);
      var n := 0;
      while n < DUMMIES
        invariant n <= DUMMIES && links == old(links)
        invariant forall j: nat :: j < n ==> HasDummy(links, j)
      {
        var interface := Dummy(n);
        DummyExact(interface, n);
        HasDummyExact(links, n);
        var shown := Command(interface in links);
        if shown.NotStarted? {
          return Err;
        }
        if !shown.Success? {
          var added := Command(interface !in links);
          if !added.Success? {
            return Err;
          }
          links := links[interface := []];
          assert Added(old(links), links, interface, []);
          var addressed := Command(interface in links);
          if !addressed.Success? {
            return Err;
          }
          assert links[interface] + [network.addr] == [network.addr];
          links := links[interface := links[interface] + [network.addr]];
          assert links == old(links)[interface := [network.addr]];
          assert Added(old(links), links, interface, [network.addr]);
          var up := Command(interface in links);
          if !up.Success? {
            return Err;
          }
          assert CreatedEntry(old(links), links, Subnet(cidr, interface, network), n);
          return Ok(Subnet(cidr, interface, network));
        }
        n := n + 1;
      }
      return Err;
    }

    // Takes the address off, then the interface away.
    method RemoveSubnet(subnet: Subnet) returns (r: Result<()>)
      modifies this`commands, this`links
      ensures r.Ok? ==>
        Acceptable(subnet.network) && Carries(old(links), subnet) && links == old(links) - {subnet.interface}
      ensures r.Err? ==>
        || links == old(links)
        || (Carries(old(links), subnet)
            && links == old(links)[subnet.interface := Except(old(links)[subnet.interface], subnet.network.addr)])
      ensures Smooth() ==> (r.Ok? <==> Acceptable(subnet.network) && Carries(old(links), subnet))
      ensures Smooth() && r.Err? ==> links == old(links)
    {
      var valid := ValidateNetwork(subnet.network);
      if !valid {
        return Err;
      }
      var dropped := Command(Carries(links, subnet));
      if !dropped.Success? {
        return Err;
      }
      links := links[subnet.interface := Except(links[subnet.interface], subnet.network.addr)];
      var deleted := Command(subnet.interface in links);
      if !deleted.Success? {
        return Err;
      }
      links := links - {subnet.interface};
      return Ok(());
    }

    // `create_subnet`
    method CreateSubnet(cidr: string) returns (r: Result<Subnet>)
      requires Sound(parse, State())
      modifies this
      ensures Sound(parse, State()) && Serves(parse, old(State()), State())
      ensures r.Ok? ==>
        && r.value.cidr == cidr && cidr !in old(store) && CreateOk(old(State()), State(), r.value)
      ensures r.Err? ==> CreateFails(old(State()), State())
      ensures Smooth() ==> (r.Ok? <==> Creatable(old(links), parse(cidr)))
      ensures Smooth() && r.Err? ==> State() == old(State())
    {
      r := ConfigureSubnet(cidr);
      if r.Ok? {
        store := store[r.value.cidr := r.value];
        order := order + [r.value.cidr];
        assert CreateOk(old(State()), State(), r.value);
        NeverOverwrites(parse, old(State()), State(), r.value);
      }
      ServesKeeps(parse, old(State()), State());
    }

    // `remove_subnet_handler`: the entry is gone even when a command fails.
    method RemoveSubnetHandler(cidr: string) returns (r: Result<()>)
      requires Sound(parse, State())
      modifies this
      ensures Sound(parse, State()) && Serves(parse, old(State()), State())
      ensures cidr in old(store) ==> Removes(old(State()), State(), cidr)
      ensures cidr !in old(store) ==> r.Err? && State() == old(State())
      ensures r.Ok? ==> old(store)[cidr].interface !in links
      ensures Smooth() ==> (r.Ok? <==> cidr in old(store))
    {
      if cidr !in store {
        assert CreateFails(old(State()), State());
        return Err;
      }
      assert Backed(parse, State(), cidr);
      var subnet := store[cidr];
      store := store - {cidr};
      order := Without(order, cidr);
      r := RemoveSubnet(subnet);
      assert Removes(old(State()), State(), cidr);
      ServesKeeps(parse, old(State()), State());
    }
  }

  // Every occurrence of x goes, and nothing else does.
  function Except(addrs: seq<Ipv4Addr>, x: Ipv4Addr): (r: seq<Ipv4Addr>)
    ensures multiset(r) == multiset(addrs)[x := 0]
  {
    assert addrs != [] ==> addrs == [addrs[0]] + addrs[1..];
    if addrs == [] then [] else (if addrs[0] == x then [] else [addrs[0]]) + Except(addrs[1..], x)
  }
}
