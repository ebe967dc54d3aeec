/**
 The response cache of the DNS client (dns/client.go) as values: how a TTL is chosen and stored, how the EDNS record of
 a stored response is edited, and how a cached response ages.
 */
module DnsCache {
  import opened Prelude
  import opened DnsMessage

  /** Time is counted in nanoseconds. */
  const SECOND: int := 1_000_000_000
  const TYPE_A := 1
  const TYPE_AAAA := 28
  const RCODE_SUCCESS := 0
  const RCODE_NAME_ERROR := 3
  /** The DNSSEC-OK bit, which EDNS keeps in the TTL field of its record. */
  const DO_BIT := 0x8000

  // ---- Choosing and writing TTLs ----

  /** `t` is the least positive TTL of the records, or zero when none is positive. */
  ghost predicate LeastPositive(rs: seq<RR>, t: u32) {
    && (t == 0 ==> forall r :: r in rs ==> r.ttl == 0)
    && (t > 0 ==> (exists r :: r in rs && r.ttl == t) && forall r :: r in rs && r.ttl > 0 ==> t <= r.ttl)
  }

  /** The client's scan for a TTL. */
  function ScanTTL(rs: seq<RR>): (t: u32)
    ensures LeastPositive(rs, t)
  {
    if rs == [] then 0
    else
      var t := ScanTTL(rs[..|rs| - 1]);
      var r := rs[|rs| - 1].ttl;
      assert rs == rs[..|rs| - 1] + [rs[|rs| - 1]];
      if t == 0 || (r > 0 && r < t) then r else t
  }

  lemma LeastPositiveIsUnique(rs: seq<RR>, t: u32, u: u32)
    requires LeastPositive(rs, t) && LeastPositive(rs, u)
    ensures t == u
  {
  }

  /** The negative-caching TTL of section 5 of RFC 2308: of the first SOA record, the smaller of its TTL and MINIMUM. */
  function NegativeTTL(ns: seq<RR>): Option<u32> {
    if ns == [] then None
    else if ns[0].SOA? then Some(if ns[0].ttl < ns[0].minimum then ns[0].ttl else ns[0].minimum)
    else NegativeTTL(ns[1..])
  }

  function ChooseTTL(m: Msg, rewrite: Option<u32>): u32 {
    if rewrite.Some? then rewrite.value
    else
      var negative := if m.answer == [] then NegativeTTL(m.ns) else None;
      if negative.Some? && negative.value != 0 then negative.value else ScanTTL(Records(m))
  }

  /** Barring a rewrite, the chosen TTL is the negative TTL of an empty answer, or else the least positive record TTL. */
  lemma ChooseTTLMeaning(m: Msg)
    ensures var t := ChooseTTL(m, None);
            if m.answer == [] && NegativeTTL(m.ns).Some? && NegativeTTL(m.ns).value > 0
            then exists k :: 0 <= k < |m.ns| && m.ns[k].SOA? && (forall j :: 0 <= j < k ==> !m.ns[j].SOA?)
                             && t <= m.ns[k].ttl && t <= m.ns[k].minimum && (t == m.ns[k].ttl || t == m.ns[k].minimum)
            else LeastPositive(Records(m), t)
  {
    if m.answer == [] && NegativeTTL(m.ns).Some? && NegativeTTL(m.ns).value > 0 {
      var k := FirstSOA(m.ns);
    }
  }

  /** A rewrite decides, whatever the response says. */
  lemma RewriteDecides(m: Msg, t: u32)
    ensures ChooseTTL(m, Some(t)) == t
  {
  }

  lemma {:induction false} FirstSOA(ns: seq<RR>) returns (k: nat)
    requires NegativeTTL(ns).Some?
    ensures k < |ns| && ns[k].SOA? && (forall j :: 0 <= j < k ==> !ns[j].SOA?)
    ensures NegativeTTL(ns) == Some(if ns[k].ttl < ns[k].minimum then ns[k].ttl else ns[k].minimum)
  {
    if ns[0].SOA? {
      k := 0;
    } else {
      k := FirstSOA(ns[1..]);
      k := k + 1;
    }
  }

  function SetTTL(rs: seq<RR>, t: u32): (r: seq<RR>)
    ensures |r| == |rs| && forall i :: 0 <= i < |rs| ==> r[i] == rs[i].(ttl := t)
  {
    seq(|rs|, i requires 0 <= i < |rs| => rs[i].(ttl := t))
  }

  function WithTTL(m: Msg, t: u32): Msg {
    Msg(m.rcode, SetTTL(m.answer, t), SetTTL(m.ns, t), SetTTL(m.extra, t))
  }

  /** Every record has TTL `t`. */
  ghost predicate AllTTL(rs: seq<RR>, t: int) {
    forall i :: 0 <= i < |rs| ==> rs[i].ttl == t
  }

  // ---- The EDNS adjustment made to the stored object ----

  function LastOpt(extra: seq<RR>): (o: Option<RR>)
    ensures o.Some? ==> o.value in extra && o.value.OPT?
    ensures o.None? <==> forall r :: r in extra ==> !r.OPT?
  {
    if extra == [] then None
    else if extra[|extra| - 1].OPT? then Some(extra[|extra| - 1])
    else
      assert extra == extra[..|extra| - 1] + [extra[|extra| - 1]];
      LastOpt(extra[..|extra| - 1])
  }

  /** The EDNS version is kept in the TTL field. */
  function Version(opt: RR): nat {
    (opt.ttl / 0x10000) % 0x100
  }

  function DnssecOk(opt: RR): bool {
    (opt.ttl / DO_BIT) % 2 == 1
  }

  function WithoutOpt(extra: seq<RR>): (r: seq<RR>)
    ensures forall x :: x in r <==> x in extra && !x.OPT?
  {
    if extra == [] then []
    else
      var n := |extra| - 1;
      assert extra == extra[..n] + [extra[n]];
      WithoutOpt(extra[..n]) + if extra[n].OPT? then [] else [extra[n]]
  }

  /** The response announces a higher EDNS version than the request's own EDNS record. */
  predicate Downgraded(requestExtra: seq<RR>, m: Msg) {
    && LastOpt(m.extra).Some? && LastOpt(requestExtra).Some?
    && Version(LastOpt(requestExtra).value) < Version(LastOpt(m.extra).value)
  }

  /** The EDNS record a downgrade puts in place of the response's own. */
  function Replacement(opt: RR): RR
    requires opt.OPT?
  {
    OPT(opt.class_, if DnssecOk(opt) then DO_BIT else 0, [])
  }

  function EdnsEdit(requestExtra: seq<RR>, m: Msg): Msg {
    var opt := LastOpt(m.extra);
    if opt.None? then m
    else if LastOpt(requestExtra).None? then m.(extra := WithoutOpt(m.extra))
    else if Downgraded(requestExtra, m) then
      m.(extra := WithoutOpt(m.extra) + [Replacement(opt.value)])
    else m
  }

  /**
   What the edit does, case by case: without an EDNS record in the response nothing; an EDNS record the request did not
   ask for goes; one of a higher version than the request's is replaced by a plain one of the same size and DNSSEC
   flag; any other stays. Everything that is not EDNS stays, in order.
   */
  lemma EditMeaning(requestExtra: seq<RR>, m: Msg)
    ensures var e, asked, given := EdnsEdit(requestExtra, m), LastOpt(requestExtra), LastOpt(m.extra);
            && e.rcode == m.rcode && e.answer == m.answer && e.ns == m.ns
            && (given.None? ==> e == m)
            && (given.Some? && asked.None? ==> e.extra == WithoutOpt(m.extra) && LastOpt(e.extra).None?)
            && (given.Some? && asked.Some? && (given.value.ttl / 0x10000) % 0x100 <= (asked.value.ttl / 0x10000) % 0x100 ==> e == m)
            && (given.Some? && asked.Some? && (given.value.ttl / 0x10000) % 0x100 > (asked.value.ttl / 0x10000) % 0x100 ==>
                  e.extra == WithoutOpt(m.extra)
                             + [OPT(given.value.class_, if (given.value.ttl / 0x8000) % 2 == 1 then 0x8000 else 0, [])])
  {
  }

  /** The records that are not EDNS stay in their order. */
  lemma WithoutOptAppend(extra: seq<RR>, r: RR)
    ensures WithoutOpt(extra + [r]) == WithoutOpt(extra) + if r.OPT? then [] else [r]
  {
    assert (extra + [r])[..|extra|] == extra;
  }

  /** The record the library's search finds is the last EDNS record of the list. */
  lemma {:induction false} LastOptMeaning(extra: seq<RR>) returns (k: nat)
    requires LastOpt(extra).Some?
    ensures k < |extra| && extra[k] == LastOpt(extra).value && extra[k].OPT? && forall j :: k < j < |extra| ==> !extra[j].OPT?
  {
    k := |extra| - 1;
    if !extra[k].OPT? {
      k := LastOptMeaning(extra[..k]);
    }
  }

  // ---- Ageing a cached response ----

  /** Subtraction of unsigned 32-bit numbers, with wrap-around. */
  function Sub32(a: u32, b: u32): u32 {
    if a >= b then a - b else a - b + TWO32
  }

  function AgedTTL(ttl: u32, origin: u32, left: u32): u32 {
    if origin > 0 then Sub32(ttl, Sub32(origin, left)) else left
  }

  function AgeRecords(rs: seq<RR>, origin: u32, left: u32): (r: seq<RR>)
    ensures |r| == |rs| && forall i :: 0 <= i < |rs| ==> r[i] == rs[i].(ttl := AgedTTL(rs[i].ttl, origin, left))
  {
    seq(|rs|, i requires 0 <= i < |rs| => rs[i].(ttl := AgedTTL(rs[i].ttl, origin, left)))
  }

  function Aged(m: Msg, left: u32): Msg {
    var origin := ScanTTL(Records(m));
    Msg(m.rcode, AgeRecords(m.answer, origin, left), AgeRecords(m.ns, origin, left), AgeRecords(m.extra, origin, left))
  }

  lemma AgedRecords(m: Msg, left: u32)
    ensures Records(Aged(m, left)) == AgeRecords(Records(m), ScanTTL(Records(m)), left)
  {
  }

  /** Whole seconds until `expireAt`, as the client's 32-bit arithmetic sees them. */
  function SecondsLeft(expireAt: int, now: int): u32 {
    if expireAt <= now then 0 else ((expireAt - now) / SECOND) % TWO32
  }

  /**
   Every record shows the time left exactly when all records were stored with one and the same TTL (or with
   none positive): that is, when the least positive TTL is everybody's TTL.
   */
  lemma AgedExact(rs: seq<RR>, left: u32)
    ensures AllTTL(AgeRecords(rs, ScanTTL(rs), left), left) <==> (ScanTTL(rs) > 0 ==> AllTTL(rs, ScanTTL(rs)))
  {
    var origin := ScanTTL(rs);
    var aged := AgeRecords(rs, origin, left);
    forall i | 0 <= i < |rs| && origin > 0 ensures aged[i].ttl == left <==> rs[i].ttl == origin {
    }
  }

  // ---- Store, then load ----

  /** A record other than EDNS remains in the stored response. */
  ghost predicate HasOthers(m: Msg) {
    m.answer != [] || m.ns != [] || exists r :: r in m.extra && !r.OPT?
  }

  lemma WithTTLUniform(m: Msg, t: u32)
    ensures AllTTL(Records(WithTTL(m, t)), t)
  {
  }

  lemma UniformMember(rs: seq<RR>, t: int)
    ensures AllTTL(rs, t) <==> forall r :: r in rs ==> r.ttl == t
  {
  }

  lemma EditKeepsUniform(requestExtra: seq<RR>, m: Msg, t: u32)
    requires AllTTL(Records(m), t) && !Downgraded(requestExtra, m)
    ensures AllTTL(Records(EdnsEdit(requestExtra, m)), t)
  {
    var e := EdnsEdit(requestExtra, m);
    UniformMember(Records(m), t);
    UniformMember(Records(e), t);
    assert forall r :: r in Records(e) ==> r in Records(m);
  }

  lemma DowngradeShape(requestExtra: seq<RR>, m: Msg, t: u32) returns (added: RR)
    requires AllTTL(Records(m), t) && Downgraded(requestExtra, m)
    ensures EdnsEdit(requestExtra, m) == m.(extra := WithoutOpt(m.extra) + [added])
    ensures added.OPT? && added.ttl != t
  {
    var opt := LastOpt(m.extra).value;
    added := Replacement(opt);
    UniformMember(Records(m), t);
    assert opt in Records(m);
    assert Version(opt) > 0;
    assert t >= 0x10000;
  }

  /** After a downgrade the fresh EDNS record has its flags where everybody else has the TTL. */
  lemma DowngradeUniform(requestExtra: seq<RR>, m: Msg, t: u32)
    requires AllTTL(Records(m), t) && Downgraded(requestExtra, m)
    ensures var rs := Records(EdnsEdit(requestExtra, m));
            (ScanTTL(rs) > 0 ==> AllTTL(rs, ScanTTL(rs))) <==> !HasOthers(m)
  {
    var added := DowngradeShape(requestExtra, m, t);
    var others := m.answer + m.ns + WithoutOpt(m.extra);
    var rs := Records(EdnsEdit(requestExtra, m));
    assert rs == others + [added];
    OthersMeaning(m);
    if HasOthers(m) {
      UniformMember(Records(m), t);
      assert others[0] in others;
      assert others[0] in Records(m);
      assert rs[0] == others[0] && rs[|rs| - 1] == added;
      MixedTTL(rs, others[0], added);
    } else {
      assert rs == [added];
      UniformScan(rs, added.ttl);
    }
  }

  lemma OthersMeaning(m: Msg)
    ensures HasOthers(m) <==> m.answer + m.ns + WithoutOpt(m.extra) != []
  {
    if WithoutOpt(m.extra) != [] {
      assert WithoutOpt(m.extra)[0] in WithoutOpt(m.extra);
    }
  }

  lemma MixedTTL(rs: seq<RR>, a: RR, b: RR)
    requires a in rs && b in rs && a.ttl != b.ttl
    ensures ScanTTL(rs) > 0 && !AllTTL(rs, ScanTTL(rs))
  {
  }

  /** What Exchange leaves in the cache for a response whose chosen TTL is `t`. */
  function StoredMsg(requestExtra: seq<RR>, m: Msg, t: u32): Msg {
    EdnsEdit(requestExtra, WithTTL(m, t))
  }

  /** The EDNS version is read after the TTLs were overwritten, so a large TTL alone looks like a newer version. */
  predicate DowngradedBy(requestExtra: seq<RR>, m: Msg, t: u32) {
    && LastOpt(m.extra).Some? && LastOpt(requestExtra).Some?
    && Version(LastOpt(requestExtra).value) < (t / 0x10000) % 0x100
  }

  lemma {:induction false} LastOptSetTTL(extra: seq<RR>, t: u32)
    ensures LastOpt(SetTTL(extra, t)).Some? <==> LastOpt(extra).Some?
    ensures LastOpt(extra).Some? ==> LastOpt(SetTTL(extra, t)).value.ttl == t
  {
    if extra != [] && !extra[|extra| - 1].OPT? {
      var n := |extra| - 1;
      assert SetTTL(extra, t)[..n] == SetTTL(extra[..n], t);
      LastOptSetTTL(extra[..n], t);
    }
  }

  /** A response aged to `left` remaining seconds shows exactly that on every record. */
  ghost predicate ShowsTimeLeft(m: Msg, left: u32) {
    AllTTL(Records(Aged(m, left)), left)
  }

  lemma StoredShowsTimeLeft(requestExtra: seq<RR>, m: Msg, t: u32, left: u32)
    ensures ShowsTimeLeft(StoredMsg(requestExtra, m, t), left) <==> !DowngradedBy(requestExtra, m, t) || !HasOthers(m)
  {
    var m1 := WithTTL(m, t);
    var e := StoredMsg(requestExtra, m, t);
    WithTTLUniform(m, t);
    LastOptSetTTL(m.extra, t);
    assert Downgraded(requestExtra, m1) <==> DowngradedBy(requestExtra, m, t);
    OthersSetTTL(m, t);
    AgedRecords(e, left);
    AgedExact(Records(e), left);
    if Downgraded(requestExtra, m1) {
      DowngradeUniform(requestExtra, m1, t);
    } else {
      EditKeepsUniform(requestExtra, m1, t);
      UniformScan(Records(e), t);
    }
  }

  /**
   Loading a response `m` that was stored with TTL `t`, before it expires: every record's TTL is the whole
   number of seconds left, which never exceeds the stored TTL, exactly when the store did not downgrade EDNS
   or nothing but EDNS was stored.
   */
  lemma LoadedTTL(requestExtra: seq<RR>, m: Msg, t: u32, storedAt: int, expireAt: int, now: int)
    requires expireAt == storedAt + t * SECOND && storedAt <= now <= expireAt
    ensures var left := SecondsLeft(expireAt, now);
            left <= t && left * SECOND <= expireAt - now < (left + 1) * SECOND
    ensures ShowsTimeLeft(StoredMsg(requestExtra, m, t), SecondsLeft(expireAt, now)) <==>
            !DowngradedBy(requestExtra, m, t) || !HasOthers(m)
  {
    LeftBound(t, expireAt, now);
    StoredShowsTimeLeft(requestExtra, m, t, SecondsLeft(expireAt, now));
  }

  lemma LeftBound(t: u32, expireAt: int, now: int)
    requires 0 <= expireAt - now <= t * SECOND
    ensures var left := SecondsLeft(expireAt, now);
            left <= t && left * SECOND <= expireAt - now < (left + 1) * SECOND
  {
    var rest := expireAt - now;
    assert rest / SECOND <= t;
  }

  lemma UniformScan(rs: seq<RR>, t: u32)
    requires AllTTL(rs, t)
    ensures ScanTTL(rs) > 0 ==> AllTTL(rs, ScanTTL(rs))
  {
  }

  lemma OthersSetTTL(m: Msg, t: u32)
    ensures HasOthers(WithTTL(m, t)) <==> HasOthers(m)
  {
    var m1 := WithTTL(m, t);
    if r :| r in m.extra && !r.OPT? {
      var i :| 0 <= i < |m.extra| && m.extra[i] == r;
      assert m1.extra[i] in m1.extra && !m1.extra[i].OPT?;
    }
    if r :| r in m1.extra && !r.OPT? {
      var i :| 0 <= i < |m1.extra| && m1.extra[i] == r;
      assert m.extra[i] in m.extra && !m.extra[i].OPT?;
    }
  }

  const EDNS_REQUEST: seq<RR> := [OPT(1232, 0, [])]
  const DAY_RESPONSE := Msg(RCODE_SUCCESS, [Plain(TYPE_A, 100000)], [], [OPT(1232, 0, [])])

  /** A concrete downgrade: with 99999 seconds left of 100000, the client serves a TTL of 167231. */
  lemma DowngradeServesTooLong()
    ensures DowngradedBy(EDNS_REQUEST, DAY_RESPONSE, 100000)
    ensures var stored := StoredMsg(EDNS_REQUEST, DAY_RESPONSE, 100000);
            Records(Aged(stored, 99999))[0] == Plain(TYPE_A, 167231)
  {
    var m1 := WithTTL(DAY_RESPONSE, 100000);
    assert m1.extra == [OPT(1232, 100000, [])];
    assert WithoutOpt(m1.extra) == [] by {
      assert m1.extra[1..] == [];
    }
    var stored := StoredMsg(EDNS_REQUEST, DAY_RESPONSE, 100000);
    var rs := Records(stored);
    assert rs == [Plain(TYPE_A, 100000), OPT(1232, DO_BIT, [])];
    assert LeastPositive(rs, DO_BIT) by {
      assert rs[1] in rs;
    }
    LeastPositiveIsUnique(rs, DO_BIT, ScanTTL(rs));
    AgedRecords(stored, 99999);
  }
}
