/**
 * The interface directory: the host's interface table, read and filtered.
 *
 * The two host queries the Go code makes, `net.Interfaces()` and
 * `Interface.Addrs()`, are inputs here: the first is the `host` parameter of
 * the listing operations, the second is the `addrs` field of each interface.
 * Either is an answer or a failure.
 */
module Interfaces {
  import opened Wrappers
  import opened Addr

  /** `net.Flags`, a Go `uint`; only bits 0x4 and 0x20 are ever tested, so the width plays no role. */
  type Flags = bv64

  /** `net.FlagLoopback`: the interface is a loopback interface. */
  const FlagLoopback: Flags := 0x4
  /** `net.FlagRunning`: the interface is in the running state. */
  const FlagRunning: Flags := 0x20

  datatype Error =
    | HostError(reason: string)    // a failed host query, passed on unchanged
    | NoIPv4Address(name: string)  // the interface has no address with an IPv4 form

  /** The errors a host query can fail with. */
  type HostFailure = e: Error | e.HostError? witness HostError("")

  /** The outcome of a host query. */
  datatype Query<T> = Answer(value: T) | Failed(error: HostFailure)

  /** One row of the host's interface table, with the host's answer to its address query. */
  datatype Interface = Interface(index: int, name: string, flags: Flags, addrs: Query<seq<IP>>)

  /** `NetAddr`: what the directory reports for one interface. */
  datatype NetAddr = NetAddr(index: int, name: string, ip: string)

  /** The `(string, error)` pair `GetInterfaceIPv4Addr` returns. */
  datatype Lookup = Lookup(ip: string, err: Option<Error>)

  // ----- checkFlag -----

  /** A mask with exactly one bit set. */
  predicate IsBit(m: Flags) { m != 0 && m & (m - 1) == 0 }

  /** The lowest bit set in `f` but not in `x`. */
  lemma LowestMissingBit(x: Flags, f: Flags) returns (m: Flags)
    requires f & !x != 0
    ensures IsBit(m) && f & m == m && x & m != m
  {
    m := (f & !x) & (0 - (f & !x));
  }

  /** If `f` is not contained in `x`, some single bit of `f` is missing from `x`. */
  lemma MissingBit(x: Flags, f: Flags) returns (m: Flags)
    requires x & f != f
    ensures IsBit(m) && f & m == m && x & m != m
  {
    m := LowestMissingBit(x, f);
  }

  lemma BitOfSubset(x: Flags, f: Flags, m: Flags)
    requires x & f == f && f & m == m
    ensures x & m == m
  {
  }

  /** If `f` is contained in `x`, so is every single bit of `f`. */
  lemma SubsetHasEveryBit(x: Flags, f: Flags)
    requires x & f == f
    ensures forall m :: IsBit(m) && f & m == m ==> x & m == m
  {
    forall m | IsBit(m) && f & m == m ensures x & m == m {
      BitOfSubset(x, f, m);
    }
  }

  /** `x & f == f` says, bit by bit, that `f` is contained in `x`. */
  lemma ContainmentByBits(x: Flags, f: Flags)
    ensures x & f == f <==> forall m :: IsBit(m) && f & m == m ==> x & m == m
  {
    if x & f == f {
      SubsetHasEveryBit(x, f);
    } else {
      var m := MissingBit(x, f);
    }
  }

  /** `checkFlag`: every bit set in `f` is also set in the interface's flags. */
  function CheckFlag(ni: Interface, f: Flags): (r: bool)
    ensures r <==> forall m :: IsBit(m) && f & m == m ==> ni.flags & m == m
  {
    ContainmentByBits(ni.flags, f);
    ni.flags & f == f
  }

  /** The empty mask is contained in every interface's flags. */
  lemma CheckFlagEmptyMask(ni: Interface)
    ensures CheckFlag(ni, 0)
  {
  }

  // ----- GetInterfaceIPv4Addr -----

  /** The IPv4 form of the first address, in list order, that has one. */
  function FirstIPv4(addrs: seq<IP>): (r: Option<IP>)
    ensures r.Some? ==> |r.value| == 4
  {
    if addrs == [] then None
    else if To4(addrs[0]).Some? then To4(addrs[0])
    else FirstIPv4(addrs[1..])
  }

  /** The address at `k` is the first with an IPv4 form, so it is the one chosen. */
  lemma {:induction false} FirstIPv4Picks(addrs: seq<IP>, k: nat)
    requires k < |addrs| && To4(addrs[k]).Some?
    requires forall j :: 0 <= j < k ==> To4(addrs[j]).None?
    ensures FirstIPv4(addrs) == To4(addrs[k])
  {
    if k > 0 {
      FirstIPv4Picks(addrs[1..], k - 1);
    }
  }

  /** No address is chosen exactly when none has an IPv4 form. */
  lemma {:induction false} FirstIPv4None(addrs: seq<IP>)
    ensures FirstIPv4(addrs).None? <==> forall j :: 0 <= j < |addrs| ==> To4(addrs[j]).None?
  {
    if addrs != [] {
      FirstIPv4None(addrs[1..]);
      assert forall j :: 1 <= j < |addrs| ==> addrs[j] == addrs[1..][j - 1];
    }
  }

  /** Once an address with an IPv4 form has been seen, later addresses do not matter. */
  lemma {:induction false} FirstIPv4IgnoresLater(addrs: seq<IP>, later: seq<IP>)
    requires FirstIPv4(addrs).Some?
    ensures FirstIPv4(addrs + later) == FirstIPv4(addrs)
  {
    assert (addrs + later)[0] == addrs[0];
    if To4(addrs[0]).None? {
      assert (addrs + later)[1..] == addrs[1..] + later;
      FirstIPv4IgnoresLater(addrs[1..], later);
    }
  }

  /** What `GetInterfaceIPv4Addr` answers for an interface. */
  function InterfaceIPv4(ifi: Interface): (r: Lookup)
    ensures r.err.Some? ==> r.ip == ""
  {
    match ifi.addrs
    case Failed(e) => Lookup("", Some(e))
    case Answer(addrs) =>
      match FirstIPv4(addrs)
      case Some(v4) => Lookup(Render(v4), None)
      case None => Lookup("", Some(NoIPv4Address(ifi.name)))
  }

  /**
   * Resolution fails exactly when the address query fails (and then with its
   * error) or when no address has an IPv4 form; otherwise the answer is the
   * rendering of the first IPv4 form.
   */
  lemma ResolutionOutcome(ifi: Interface)
    ensures InterfaceIPv4(ifi).err.Some? <==>
      ifi.addrs.Failed? || forall j :: 0 <= j < |ifi.addrs.value| ==> To4(ifi.addrs.value[j]).None?
    ensures ifi.addrs.Failed? ==> InterfaceIPv4(ifi).err == Some(ifi.addrs.error)
    ensures ifi.addrs.Answer? && InterfaceIPv4(ifi).err.Some? ==> InterfaceIPv4(ifi).err == Some(NoIPv4Address(ifi.name))
    ensures InterfaceIPv4(ifi).err.None? ==> InterfaceIPv4(ifi).ip == Render(FirstIPv4(ifi.addrs.value).value)
  {
    if ifi.addrs.Answer? {
      FirstIPv4None(ifi.addrs.value);
    }
  }

  /** `GetInterfaceIPv4Addr`: scans the addresses in order and stops at the first IPv4 form. */
  method GetInterfaceIPv4Addr(ifi: Interface) returns (ip: string, err: Option<Error>)
    ensures Lookup(ip, err) == InterfaceIPv4(ifi)
  {
    if ifi.addrs.Failed? {
      return "", Some(ifi.addrs.error);
    }
    var addrs := ifi.addrs.value;
    for k := 0 to |addrs|
      invariant FirstIPv4(addrs[k..]) == FirstIPv4(addrs)
    {
      assert addrs[k..][1..] == addrs[k + 1..];
      var ipv4 := To4(addrs[k]);
      if ipv4.Some? {
        return Render(ipv4.value), None;
      }
    }
    return "", Some(NoIPv4Address(ifi.name));
  }

  // ----- InterfaceCount -----

  /** `InterfaceCount`: the number of host interfaces, or 0 and the query's error. */
  function InterfaceCount(host: Query<seq<Interface>>): (r: (int, Option<Error>))
    ensures r.1.None? <==> host.Answer?
    ensures host.Answer? ==> r.0 == |host.value|
    ensures host.Failed? ==> r.0 == 0 && r.1 == Some(host.error)
  {
    match host
    case Answer(ifaces) => (|ifaces|, None)
    case Failed(e) => (0, Some(e))
  }

  // ----- AllInterfaces -----

  /** The address `AllInterfaces` reports: the resolved one, or "0.0.0.0" when resolution fails. */
  function IPOrUnspecified(ifi: Interface): (ip: string)
    ensures InterfaceIPv4(ifi).err.None? ==> ip == InterfaceIPv4(ifi).ip
    ensures ip == Unspecified <==>
      InterfaceIPv4(ifi).err.Some? || (ifi.addrs.Answer? && FirstIPv4(ifi.addrs.value) == Some([0, 0, 0, 0]))
  {
    var r := InterfaceIPv4(ifi);
    if r.err.Some? then Unspecified
    else
      RenderUnspecified(FirstIPv4(ifi.addrs.value).value);
      r.ip
  }

  /**
   * `AllInterfaces`: one record per host interface, in the host's order, with
   * index and name copied and the address substituted by "0.0.0.0" when it
   * cannot be resolved; a failed host query gives no records and its error.
   */
  method AllInterfaces(host: Query<seq<Interface>>) returns (na: seq<NetAddr>, err: Option<Error>)
    ensures host.Failed? ==> na == [] && err == Some(host.error)
    ensures host.Answer? ==> err == None && |na| == InterfaceCount(host).0
    ensures host.Answer? ==> forall k :: 0 <= k < |na| ==>
      na[k] == NetAddr(host.value[k].index, host.value[k].name, IPOrUnspecified(host.value[k]))
  {
    if host.Failed? {
      return [], Some(host.error);
    }
    var ifaces := host.value;
    na := [];
    for k := 0 to |ifaces|
      invariant |na| == k
      invariant forall j :: 0 <= j < k ==> na[j] == NetAddr(ifaces[j].index, ifaces[j].name, IPOrUnspecified(ifaces[j]))
    {
      var i := ifaces[k];
      var ip, e := GetInterfaceIPv4Addr(i);
      if e.Some? {
        ip := Unspecified;
      }
      na := na + [NetAddr(i.index, i.name, ip)];
    }
    return na, None;
  }

  // ----- InterfaceList -----

  /** The filter of `InterfaceList`: not loopback, running, and with a resolvable address. */
  predicate Listed(ifi: Interface): (b: bool)
    ensures b <==>
      ifi.flags & FlagLoopback == 0 && ifi.flags & FlagRunning == FlagRunning &&
      ifi.addrs.Answer? && exists j :: 0 <= j < |ifi.addrs.value| && To4(ifi.addrs.value[j]).Some?
  {
    ResolutionOutcome(ifi);
    !CheckFlag(ifi, FlagLoopback) && CheckFlag(ifi, FlagRunning) && InterfaceIPv4(ifi).err.None?
  }

  /** The records `InterfaceList` reports for `ifaces`, built front to back. */
  function ListedEntries(ifaces: seq<Interface>): (na: seq<NetAddr>)
    ensures |na| <= |ifaces|
  {
    if ifaces == [] then []
    else
      var last := ifaces[|ifaces| - 1];
      ListedEntries(ifaces[..|ifaces| - 1]) +
        (if Listed(last) then [NetAddr(last.index, last.name, InterfaceIPv4(last).ip)] else [])
  }

  /** The positions in `ifaces` of the interfaces `InterfaceList` keeps, in order. */
  function ListedPositions(ifaces: seq<Interface>): (p: seq<nat>) {
    if ifaces == [] then []
    else
      ListedPositions(ifaces[..|ifaces| - 1]) + (if Listed(ifaces[|ifaces| - 1]) then [|ifaces| - 1] else [])
  }

  /**
   * The listed positions pick out, in increasing order, exactly the
   * interfaces that pass the filter.
   */
  lemma {:induction false} ListedPositionsSpec(ifaces: seq<Interface>)
    ensures |ListedPositions(ifaces)| <= |ifaces|
    ensures forall j :: 0 <= j < |ListedPositions(ifaces)| ==>
      ListedPositions(ifaces)[j] < |ifaces| && Listed(ifaces[ListedPositions(ifaces)[j]])
    ensures forall j, j' :: 0 <= j < j' < |ListedPositions(ifaces)| ==>
      ListedPositions(ifaces)[j] < ListedPositions(ifaces)[j']
    ensures forall k :: 0 <= k < |ifaces| && Listed(ifaces[k]) ==> k in ListedPositions(ifaces)
  {
    if ifaces != [] {
      var init := ifaces[..|ifaces| - 1];
      ListedPositionsSpec(init);
      assert forall k :: 0 <= k < |init| ==> init[k] == ifaces[k];
    }
  }

  /** Record `j` of the listing describes the interface at the `j`-th listed position. */
  lemma {:induction false} ListedEntriesAtPositions(ifaces: seq<Interface>)
    ensures |ListedEntries(ifaces)| == |ListedPositions(ifaces)|
    ensures forall j :: 0 <= j < |ListedEntries(ifaces)| ==>
      ListedPositions(ifaces)[j] < |ifaces| &&
      (var ifi := ifaces[ListedPositions(ifaces)[j]];
       ListedEntries(ifaces)[j] == NetAddr(ifi.index, ifi.name, InterfaceIPv4(ifi).ip))
  {
    if ifaces != [] {
      var init := ifaces[..|ifaces| - 1];
      ListedEntriesAtPositions(init);
      ListedPositionsSpec(init);
      assert forall k :: 0 <= k < |init| ==> init[k] == ifaces[k];
    }
  }

  /**
   * The listing is an order-preserving subsequence of what `AllInterfaces`
   * reports: each listed record is the `AllInterfaces` record of its
   * interface, and holds the resolved address, never the "0.0.0.0" substitute.
   */
  lemma ListedAmongAll(ifaces: seq<Interface>, j: nat)
    requires j < |ListedEntries(ifaces)|
    ensures j < |ListedPositions(ifaces)| && ListedPositions(ifaces)[j] < |ifaces|
    ensures var ifi := ifaces[ListedPositions(ifaces)[j]];
      InterfaceIPv4(ifi).err.None? &&
      ListedEntries(ifaces)[j] == NetAddr(ifi.index, ifi.name, IPOrUnspecified(ifi))
  {
    ListedEntriesAtPositions(ifaces);
    ListedPositionsSpec(ifaces);
  }

  /**
   * `InterfaceList`: the host's interfaces that are not loopback, are running
   * and whose address resolves, in the host's order; a failed host query
   * gives no records and its error.
   */
  method InterfaceList(host: Query<seq<Interface>>) returns (na: seq<NetAddr>, err: Option<Error>)
    ensures host.Failed? ==> na == [] && err == Some(host.error)
    ensures host.Answer? ==> err == None && na == ListedEntries(host.value)
  {
    if host.Failed? {
      return [], Some(host.error);
    }
    var ifaces := host.value;
    na := [];
    for k := 0 to |ifaces|
      invariant na == ListedEntries(ifaces[..k])
    {
      assert ifaces[..k + 1][..k] == ifaces[..k];
      var i := ifaces[k];
      if CheckFlag(i, FlagLoopback) {
        continue;
      }
      if !CheckFlag(i, FlagRunning) {
        continue;
      }
      var ip, e := GetInterfaceIPv4Addr(i);
      if e.Some? {
        continue;
      }
      na := na + [NetAddr(i.index, i.name, ip)];
    }
    assert ifaces[..|ifaces|] == ifaces;
    return na, None;
  }
}
