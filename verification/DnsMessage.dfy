/** DNS messages as far as the client looks into them (record TTLs, SOA minimums, EDNS options), and query options. */
module DnsMessage {
  import opened Prelude

  const TWO32: int := 0x1_0000_0000

  type u32 = x: int | 0 <= x < 0x1_0000_0000

  /** An address prefix; `v4` tells its family. */
  datatype Prefix = Prefix(v4: bool, bits: nat, address: seq<nat>)

  datatype Strategy = AsIS | PreferIPv4 | PreferIPv6 | IPv4Only | IPv6Only

  /** The options of one query, as the router passes them to the client. */
  datatype Options = Options(strategy: Strategy, disableCache: bool, rewriteTTL: Option<u32>, clientSubnet: Option<Prefix>)

  datatype EdnsOption =
    | Subnet(family: nat, netmask: nat, scope: nat, address: seq<nat>)
    | OtherOption(code: nat)

  datatype RR =
    | OPT(class_: nat, ttl: u32, options: seq<EdnsOption>)
    | SOA(ttl: u32, minimum: u32)
    | Plain(rrtype: nat, ttl: u32)

  datatype Msg = Msg(rcode: nat, answer: seq<RR>, ns: seq<RR>, extra: seq<RR>)

  function Records(m: Msg): seq<RR> {
    m.answer + m.ns + m.extra
  }

  function CountOpt(rs: seq<RR>): nat {
    if rs == [] then 0 else CountOpt(rs[..|rs| - 1]) + if rs[|rs| - 1].OPT? then 1 else 0
  }

  lemma {:induction false} CountOptUpdate(rs: seq<RR>, i: nat, r: RR)
    requires i < |rs| && rs[i].OPT? && r.OPT?
    ensures CountOpt(rs[i := r]) == CountOpt(rs)
  {
    var n := |rs| - 1;
    if i < n {
      assert rs[i := r][..n] == rs[..n][i := r];
      CountOptUpdate(rs[..n], i, r);
    } else {
      assert rs[i := r][..n] == rs[..n];
    }
  }

  lemma CountOptAppend(rs: seq<RR>, r: RR)
    ensures CountOpt(rs + [r]) == CountOpt(rs) + if r.OPT? then 1 else 0
  {
    assert (rs + [r])[..|rs|] == rs;
  }

  lemma {:induction false} CountOptZero(rs: seq<RR>)
    ensures CountOpt(rs) == 0 <==> forall r :: r in rs ==> !r.OPT?
  {
    if rs != [] {
      CountOptZero(rs[..|rs| - 1]);
      assert rs == rs[..|rs| - 1] + [rs[|rs| - 1]];
    }
  }
}
