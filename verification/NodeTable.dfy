/** rpc.h: the host table every node builds, and the addresses rpc_thallium.h forms from it. */
module NodeTable {
  import opened Basics
  import Decimal
  import SlotGather

  datatype HostInfo = HostInfo(hostname: string, ipAddr: string, nodeId: u32)

  datatype RpcInfo = RpcInfo(hostNames: seq<string>, protocol: string, domain: string, port: int, numThreads: u32)

  /** The world outside: name resolution, and the addresses of the machine's own interfaces. */
  datatype Machine = Machine(resolve: string -> Option<string>, isLocal: string -> bool)

  function Dots(s: string): nat { if s == [] then 0 else Dots(s[..|s| - 1]) + (if s[|s| - 1] == '.' then 1 else 0) }

  predicate Numeric(c: char) { c == '.' || '0' <= c <= '9' }

  /** A host name that is taken for an address already. */
  predicate LooksLikeAddress(name: string) { Dots(name) == 3 && forall c | c in name :: Numeric(c) }

  function AddressOf(m: Machine, name: string): Option<string> {
    if LooksLikeAddress(name) then Some(name) else m.resolve(name)
  }

  lemma {:induction false} DotsCount(s: string)
    ensures Dots(s) == |set i: nat | i < |s| && s[i] == '.'|
  {
    if s == [] {
    } else {
      var k := |s| - 1;
      DotsCount(s[..k]);
      var before, all := set i: nat | i < |s[..k]| && s[..k][i] == '.', set i: nat | i < |s| && s[i] == '.';
      assert all == if s[k] == '.' then before + {k} else before;
    }
  }

  /** Three dots and otherwise digits make an address of a name; every other name is looked up. */
  lemma AddressOrName(m: Machine, name: string)
    ensures AddressOf(m, name) ==
            if |set i: nat | i < |name| && name[i] == '.'| == 3
              && forall i: nat | i < |name| :: name[i] in "0123456789."
            then Some(name) else m.resolve(name)
  {
    DotsCount(name);
    assert forall c: char :: c in "0123456789." <==> Numeric(c);
  }

  /** _GetIpAddress; None stands for the fatal exits of a failed lookup. */
  method GetIpAddress(m: Machine, name: string) returns (ip: Option<string>)
    ensures ip == AddressOf(m, name)
    ensures ip == if |set i: nat | i < |name| && name[i] == '.'| == 3
                    && forall i: nat | i < |name| :: name[i] in "0123456789."
                  then Some(name) else m.resolve(name)
  {
    AddressOrName(m, name);
    var count := 0;
    var i := 0;
    while i < |name|
      invariant i <= |name| && count == Dots(name[..i])
    {
      assert name[..i + 1][..i] == name[..i];
      count := if name[i] == '.' then count + 1 else count;
      i := i + 1;
    }
    assert name[..i] == name;
    if count == 3 {
      var isIp := true;
      i := 0;
      while i < |name| && isIp
        invariant i <= |name|
        invariant isIp ==> forall c | c in name[..i] :: Numeric(c)
        invariant !isIp ==> exists c | c in name :: !Numeric(c)
      {
        if !Numeric(name[i]) {
          isIp := false;
        }
        i := i + 1;
      }
      if isIp {
        assert name[..i] == name;
        return Some(name);
      }
    }
    ip := m.resolve(name);
  }

  /** Entry k of the table is host k, numbered k + 1. */
  ghost predicate TableOf(m: Machine, names: seq<string>, hosts: seq<HostInfo>) {
    && |hosts| == |names|
    && forall k | 0 <= k < |names| ::
         hosts[k].hostname == names[k] && Some(hosts[k].ipAddr) == AddressOf(m, names[k]) && hosts[k].nodeId == k + 1
  }

  /** Ids are contiguous from 1, and this node's own entry is on this machine. */
  ghost predicate WellNumbered(m: Machine, hosts: seq<HostInfo>, nodeId: nat) {
    && (forall k | 0 <= k < |hosts| :: hosts[k].nodeId == k + 1)
    && 1 <= nodeId <= |hosts|
    && m.isLocal(hosts[nodeId - 1].ipAddr)
  }

  /** Host k is the first of the list to be on this machine. */
  ghost predicate FirstLocal(m: Machine, names: seq<string>, k: nat) {
    && k < |names|
    && (forall i | 0 <= i <= k :: AddressOf(m, names[i]).Some?)
    && m.isLocal(AddressOf(m, names[k]).value)
    && forall i | 0 <= i < k :: !m.isLocal(AddressOf(m, names[i]).value)
  }

  ghost predicate AllResolve(m: Machine, names: seq<string>) {
    forall k | 0 <= k < |names| :: AddressOf(m, names[k]).Some?
  }

  class RpcContext {
    var port: int
    var protocol: string
    var domain: string
    var hosts: seq<HostInfo>
    var nodeId: nat
    var numThreads: u32

    constructor ()
      ensures hosts == [] && nodeId == 0
    {
      port, protocol, domain, hosts, nodeId, numThreads := 0, "", "", [], 0, 0;
    }

    /** _FindThisHost: None when it gives up, which is fatal. */
    method FindThisHost(m: Machine) returns (id: Option<nat>)
      ensures id.Some? ==>
                && 1 <= id.value <= |hosts| && m.isLocal(hosts[id.value - 1].ipAddr)
                && forall k | 0 <= k < id.value - 1 :: !m.isLocal(hosts[k].ipAddr)
      ensures id.None? ==> forall k | 0 <= k < |hosts| :: !m.isLocal(hosts[k].ipAddr)
    {
      var k := 0;
      while k < |hosts|
        invariant k <= |hosts| && forall i | 0 <= i < k :: !m.isLocal(hosts[i].ipAddr)
      {
        if m.isLocal(hosts[k].ipAddr) {
          return Some(k + 1);
        }
        k := k + 1;
      }
      return None;
    }

    /** Returns false where the source stops with a fatal error. */
    method ServerInit(m: Machine, rpc: RpcInfo, localOnly: bool) returns (ok: bool)
      requires |rpc.hostNames| + 1 < TWO_TO_32
      modifies this
      ensures port == rpc.port && protocol == rpc.protocol && domain == rpc.domain && numThreads == rpc.numThreads
      ensures old(hosts) != [] ==> ok && hosts == old(hosts) && nodeId == old(nodeId)
      ensures old(hosts) == [] ==>
                (ok <==> AllResolve(m, rpc.hostNames) && exists k: nat :: FirstLocal(m, rpc.hostNames, k))
      ensures ok && old(hosts) == [] && !localOnly ==>
                TableOf(m, rpc.hostNames, hosts) && nodeId >= 1 && FirstLocal(m, rpc.hostNames, nodeId - 1)
      ensures ok && old(hosts) == [] && !localOnly ==>
                && |hosts| == |rpc.hostNames| && 1 <= nodeId <= |hosts|
                && (forall k | 0 <= k < |hosts| ::
                      && hosts[k].hostname == rpc.hostNames[k] && hosts[k].nodeId == k + 1
                      && Some(hosts[k].ipAddr) == AddressOf(m, rpc.hostNames[k]))
                && m.isLocal(hosts[nodeId - 1].ipAddr)
                && forall k | 0 <= k < nodeId - 1 :: !m.isLocal(hosts[k].ipAddr)
      ensures ok && old(hosts) == [] && localOnly ==>
                && |hosts| == nodeId == 1
                && exists k: nat :: FirstLocal(m, rpc.hostNames, k)
                     && hosts[0] == HostInfo(rpc.hostNames[k], AddressOf(m, rpc.hostNames[k]).value, 1)
      ensures ok && (old(hosts) == [] || old(WellNumbered(m, hosts, nodeId))) ==> WellNumbered(m, hosts, nodeId)
    {
      port, protocol, domain, numThreads := rpc.port, rpc.protocol, rpc.domain, rpc.numThreads;
      if |hosts| > 0 {
        return true;
      }
      var names := rpc.hostNames;
      var i := 0;
      while i < |names|
        invariant i <= |names| && TableOf(m, names[..i], hosts)
        modifies this`hosts
      {
        var ip := GetIpAddress(m, names[i]);
        if ip.None? {
          return false;
        }
        hosts := hosts + [HostInfo(names[i], ip.value, i + 1)];
        i := i + 1;
      }
      assert names[..i] == names;
      var id := FindThisHost(m);
      if id.None? {
        assert forall k: nat :: !FirstLocal(m, names, k);
        return false;
      }
      nodeId := id.value;
      assert FirstLocal(m, names, nodeId - 1);
      if localOnly {
        var thisHost := hosts[nodeId - 1].(nodeId := 1);
        hosts := [];
        nodeId := 1;
        hosts := hosts + [thisHost];
      }
      return true;
    }

    method GetIpAddressFromNodeId(node: u32) returns (ip: Result<string>)
      ensures ip == if 1 <= node <= |hosts| then Ok(hosts[node - 1].ipAddr) else Err("out of range")
    {
      if node <= 0 || node > |hosts| {
        return Err("out of range");
      }
      return Ok(hosts[node - 1].ipAddr);
    }

    /** ThalliumRpc::GetServerName. */
    method GetServerName(node: u32) returns (name: Result<string>)
      ensures name.Ok? <==> 1 <= node <= |hosts|
      ensures name.Ok? ==> name.value == ServerName(protocol, hosts[node - 1].ipAddr, port)
      ensures name.Ok? ==>
                name.value == protocol + "://" + hosts[node - 1].ipAddr + ":" + Decimal.OfInt(port)
    {
      var ip := GetIpAddressFromNodeId(node);
      if ip.Err? {
        return Err(ip.error);
      }
      return Ok(protocol + "://" + ip.value + ":" + Decimal.OfInt(port));
    }
  }

  function ServerName(protocol: string, ip: string, port: int): string {
    protocol + "://" + ip + ":" + Decimal.OfInt(port)
  }

  /** A server name, read back: the protocol, the address and, after the last colon, the port. */
  lemma ServerNameReads(protocol: string, ip: string, port: int)
    ensures var name, at := ServerName(protocol, ip, port), |protocol| + 3 + |ip|;
            && |name| > at + 1
            && name[..|protocol|] == protocol && name[|protocol|..|protocol| + 3] == "://"
            && name[|protocol| + 3..at] == ip && name[at] == ':'
            && ':' !in name[at + 1..] && Decimal.IntValue(name[at + 1..]) == port
  {
    hide Decimal.OfInt;
    var name, at := ServerName(protocol, ip, port), |protocol| + 3 + |ip|;
    Decimal.ValueOfInt(port);
    assert name[at + 1..] == Decimal.OfInt(port);
  }

  lemma Cancel(prefix: string, a: string, b: string, suffix: string)
    requires prefix + a + suffix == prefix + b + suffix
    ensures a == b
  {
    var x := prefix + a + suffix;
    assert a == x[|prefix|..|x| - |suffix|];
    assert b == x[|prefix|..|x| - |suffix|];
  }

  /** Two nodes of one table share a server name exactly when they share an address. */
  lemma ServerNameDistinguishes(protocol: string, a: string, b: string, port: int)
    ensures ServerName(protocol, a, port) == ServerName(protocol, b, port) <==> a == b
  {
    hide Decimal.OfInt;
    var prefix, suffix := protocol + "://", ":" + Decimal.OfInt(port);
    assert ServerName(protocol, a, port) == prefix + a + suffix;
    assert ServerName(protocol, b, port) == prefix + b + suffix;
    if ServerName(protocol, a, port) == ServerName(protocol, b, port) {
      Cancel(prefix, a, b, suffix);
    }
  }

  lemma {:induction false} DotsAppend(a: string, b: string)
    ensures Dots(a + b) == Dots(a) + Dots(b)
  {
    if b == [] {
      assert a + b == a;
    } else {
      var k := |b| - 1;
      assert (a + b)[..|a + b| - 1] == a + b[..k];
      DotsAppend(a, b[..k]);
    }
  }

  lemma {:induction false} NoDots(s: string)
    requires '.' !in s
    ensures Dots(s) == 0
  {
    if s == [] {
    } else {
      NoDots(s[..|s| - 1]);
    }
  }

  lemma OctetThenDot(octet: string, rest: string)
    requires '.' !in octet
    ensures Dots(octet + ['.'] + rest) == 1 + Dots(rest)
  {
    assert (octet + ['.'])[..|octet|] == octet;
    NoDots(octet);
    DotsAppend(octet + ['.'], rest);
  }

  /** Every line that chi_net_find writes is a host name that needs no resolution, and leads to the address found. */
  lemma FoundHostsStandForThemselves(m: Machine, ip: SlotGather.Ipv4)
    ensures AddressOf(m, SlotGather.Dotted(ip)) == Some(SlotGather.Dotted(ip))
  {
    hide Dots;
    var a, b, c, d := SlotGather.Octet(ip.a), SlotGather.Octet(ip.b), SlotGather.Octet(ip.c), SlotGather.Octet(ip.d);
    SlotGather.OctetShort(ip.a);
    SlotGather.OctetShort(ip.b);
    SlotGather.OctetShort(ip.c);
    SlotGather.OctetShort(ip.d);
    OctetThenDot(c, d);
    OctetThenDot(b, c + ['.'] + d);
    OctetThenDot(a, b + ['.'] + (c + ['.'] + d));
    NoDots(d);
  }

  // ---- A cluster whose processes read one host list ----

  ghost predicate Everywhere(machines: seq<Machine>, address: string) {
    forall m | m in machines :: m.isLocal(address)
  }

  /**
   * One naming service, process k on the host of entry k, and every address either on one
   * machine only or, like a loopback address, on all of them.
   */
  ghost predicate OneProcessPerHost(machines: seq<Machine>, names: seq<string>, addrs: seq<string>) {
    && |machines| == |names| == |addrs|
    && (forall k, i | 0 <= k < |machines| && 0 <= i < |names| :: AddressOf(machines[k], names[i]) == Some(addrs[i]))
    && (forall k | 0 <= k < |machines| :: machines[k].isLocal(addrs[k]))
    && forall j, k, a | 0 <= j < k < |machines| && machines[j].isLocal(a) && machines[k].isLocal(a) ::
         Everywhere(machines, a)
  }

  /** The place of the first address of the list that is local everywhere. */
  ghost function FirstShared(machines: seq<Machine>, addrs: seq<string>): (e: nat)
    ensures e <= |addrs|
    ensures e < |addrs| ==> Everywhere(machines, addrs[e])
    ensures forall i | 0 <= i < e :: !Everywhere(machines, addrs[i])
  {
    if addrs == [] || Everywhere(machines, addrs[0]) then 0 else 1 + FirstShared(machines, addrs[1..])
  }

  /** A machine with a local entry in the list has a first one. */
  lemma {:induction false} SomeFirstLocal(m: Machine, names: seq<string>, k: nat)
    requires AllResolve(m, names) && k < |names| && m.isLocal(AddressOf(m, names[k]).value)
    ensures exists j: nat :: FirstLocal(m, names, j)
  {
    if i: nat :| i < k && m.isLocal(AddressOf(m, names[i]).value) {
      SomeFirstLocal(m, names, i);
    } else {
      assert FirstLocal(m, names, k);
    }
  }

  lemma ProcessStarts(machines: seq<Machine>, names: seq<string>, addrs: seq<string>, k: nat)
    requires OneProcessPerHost(machines, names, addrs) && k < |machines|
    ensures AllResolve(machines[k], names) && exists j: nat :: FirstLocal(machines[k], names, j)
  {
    assert AddressOf(machines[k], names[k]) == Some(addrs[k]);
    SomeFirstLocal(machines[k], names, k);
  }

  /** A process finds itself at its own entry, or at the first address that every machine has. */
  lemma FindsFirst(machines: seq<Machine>, names: seq<string>, addrs: seq<string>, k: nat, id: nat)
    requires OneProcessPerHost(machines, names, addrs) && k < |machines|
    requires id >= 1 && FirstLocal(machines[k], names, id - 1)
    ensures id == Min(k, FirstShared(machines, addrs)) + 1
  {
    var i, e := id - 1, FirstShared(machines, addrs);
    assert machines[k].isLocal(addrs[k]) && machines[k].isLocal(addrs[i]);
    assert AddressOf(machines[k], names[k]) == Some(addrs[k]);
    assert i <= k;
    if e <= k {
      assert machines[k] in machines && machines[k].isLocal(addrs[e]);
      assert AddressOf(machines[k], names[e]) == Some(addrs[e]);
      assert i <= e;
    }
    if i < k {
      assert machines[i].isLocal(addrs[i]);
      assert Everywhere(machines, addrs[i]);
    }
  }

  ghost predicate InListOrder(ids: seq<nat>) { forall k | 0 <= k < |ids| :: ids[k] == k + 1 }

  ghost predicate SingleDriver(ids: seq<nat>) { forall k | 0 <= k < |ids| :: ids[k] == 1 <==> k == 0 }

  /** What the first address that is local everywhere does to the ids and the drivers. */
  lemma OneDriver(machines: seq<Machine>, names: seq<string>, addrs: seq<string>, ids: seq<nat>)
    requires OneProcessPerHost(machines, names, addrs) && |ids| == |machines| > 0
    requires forall k | 0 <= k < |ids| :: ids[k] >= 1 && FirstLocal(machines[k], names, ids[k] - 1)
    ensures forall k | 0 <= k < |ids| :: ids[k] == Min(k, FirstShared(machines, addrs)) + 1
    ensures InListOrder(ids) <==> forall i | 0 <= i < |addrs| - 1 :: !Everywhere(machines, addrs[i])
    ensures SingleDriver(ids) <==> |ids| == 1 || !Everywhere(machines, addrs[0])
  {
    hide FirstLocal, OneProcessPerHost, Everywhere, InListOrder, SingleDriver, FirstShared;
    forall k | 0 <= k < |ids|
      ensures ids[k] == Min(k, FirstShared(machines, addrs)) + 1
    {
      FindsFirst(machines, names, addrs, k, ids[k]);
    }
    SameLength(machines, names, addrs);
    IdsCappedAt(ids, FirstShared(machines, addrs));
    FirstSharedAfter(machines, addrs, |addrs| - 1);
    FirstSharedAfter(machines, addrs, 1);
  }

  lemma SameLength(machines: seq<Machine>, names: seq<string>, addrs: seq<string>)
    requires OneProcessPerHost(machines, names, addrs)
    ensures |machines| == |names| == |addrs|
  {}

  lemma FirstSharedAfter(machines: seq<Machine>, addrs: seq<string>, n: nat)
    requires n <= |addrs|
    ensures FirstShared(machines, addrs) >= n <==> forall i | 0 <= i < n :: !Everywhere(machines, addrs[i])
  {
    hide Everywhere;
  }

  lemma IdsCappedAt(ids: seq<nat>, e: nat)
    requires ids != [] && forall k | 0 <= k < |ids| :: ids[k] == Min(k, e) + 1
    ensures InListOrder(ids) <==> e >= |ids| - 1
    ensures SingleDriver(ids) <==> |ids| == 1 || e > 0
  {
    assert ids[|ids| - 1] == Min(|ids| - 1, e) + 1;
    assert |ids| > 1 ==> ids[1] == Min(1, e) + 1;
  }

  /** What one process does before it decides whether it drives; None is a fatal end. */
  method StartProcess(m: Machine, rpc: RpcInfo) returns (id: Option<nat>)
    requires |rpc.hostNames| + 1 < TWO_TO_32
    ensures id.Some? <==> AllResolve(m, rpc.hostNames) && exists k: nat :: FirstLocal(m, rpc.hostNames, k)
    ensures id.Some? ==> id.value >= 1 && FirstLocal(m, rpc.hostNames, id.value - 1)
  {
    hide FirstLocal, AllResolve, WellNumbered, TableOf;
    var context := new RpcContext();
    var ok := context.ServerInit(m, rpc, false);
    id := if ok then Some(context.nodeId) else None;
  }

  /** Every process builds its own table from the same list; the result is their node ids. */
  method StartCluster(machines: seq<Machine>, rpc: RpcInfo, ghost addrs: seq<string>) returns (ids: seq<nat>)
    requires |rpc.hostNames| + 1 < TWO_TO_32 && machines != []
    requires OneProcessPerHost(machines, rpc.hostNames, addrs)
    ensures |ids| == |machines|
    ensures forall k | 0 <= k < |ids| :: ids[k] == Min(k, FirstShared(machines, addrs)) + 1
    ensures InListOrder(ids) <==> forall i | 0 <= i < |addrs| - 1 :: !Everywhere(machines, addrs[i])
    ensures SingleDriver(ids) <==> |ids| == 1 || !Everywhere(machines, addrs[0])
  {
    hide FirstLocal, AllResolve, OneProcessPerHost, FirstShared, InListOrder, SingleDriver, Everywhere;
    ids := [];
    var k := 0;
    while k < |machines|
      invariant k == |ids| <= |machines|
      invariant forall i | 0 <= i < k :: ids[i] >= 1 && FirstLocal(machines[i], rpc.hostNames, ids[i] - 1)
    {
      ProcessStarts(machines, rpc.hostNames, addrs, k);
      var id := StartProcess(machines[k], rpc);
      ids := ids + [id.value];
      k := k + 1;
    }
    OneDriver(machines, rpc.hostNames, addrs, ids);
  }

  /** Two hosts with a loopback address each; naming leads "a" to the given address. */
  function TwoHosts(first: string): seq<Machine> {
    var resolve := (name: string) => Some(if name == "a" then first else "10.0.0.2");
    [ Machine(resolve, address => address == "127.0.0.1" || address == "10.0.0.1"),
      Machine(resolve, address => address == "127.0.0.1" || address == "10.0.0.2") ]
  }

  /** A list that opens with the loopback address: both processes get id 1 and drive. */
  lemma LoopbackMakesTwoDrivers()
    ensures OneProcessPerHost(TwoHosts("127.0.0.1"), ["a", "b"], ["127.0.0.1", "10.0.0.2"])
    ensures forall m | m in TwoHosts("127.0.0.1") :: FirstLocal(m, ["a", "b"], 0)
  {
    hide AddressOf, TwoHosts;
    var machines, names, addrs := TwoHosts("127.0.0.1"), ["a", "b"], ["127.0.0.1", "10.0.0.2"];
    TwoHostsKnow("127.0.0.1", 0);
    TwoHostsKnow("127.0.0.1", 1);
    assert machines == [machines[0], machines[1]];
    forall k, i | 0 <= k < 2 && 0 <= i < 2
      ensures AddressOf(machines[k], names[i]) == Some(addrs[i])
    {}
    assert "10.0.0.1"[7] != "10.0.0.2"[7];
    assert forall a | machines[0].isLocal(a) && machines[1].isLocal(a) :: a == "127.0.0.1";
  }

  lemma TwoHostsKnow(first: string, k: nat)
    requires k < 2
    ensures |TwoHosts(first)| == 2
    ensures AddressOf(TwoHosts(first)[k], "a") == Some(first) && AddressOf(TwoHosts(first)[k], "b") == Some("10.0.0.2")
    ensures forall a :: TwoHosts(first)[k].isLocal(a) <==> a == "127.0.0.1" || a == ["10.0.0.1", "10.0.0.2"][k]
  {
    hide LooksLikeAddress;
    NotAnAddress("a");
    NotAnAddress("b");
  }

  lemma NotAnAddress(name: string)
    requires |name| == 1
    ensures !LooksLikeAddress(name)
  {
    assert Dots(name[..0]) == 0;
  }
}
