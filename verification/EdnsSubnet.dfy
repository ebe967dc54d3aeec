/**
 Adding a client subnet to a query (dns/extension_edns0_subnet.go): find the EDNS record and option to write,
 clone the message if it already has an EDNS record, then write in place.
 */
module EdnsSubnet {
  import opened DnsMessage

  /** Where the option goes: a record and an existing subnet option of it, a record alone, or nowhere yet. */
  datatype Target = Existing(record: nat, option: nat) | LastRecord | NoRecord

  predicate HasSubnet(options: seq<EdnsOption>) {
    exists j :: 0 <= j < |options| && options[j].Subnet?
  }

  predicate CarriesSubnet(r: RR) {
    r.OPT? && HasSubnet(r.options)
  }

  /** `t` is the place the search settles on. */
  ghost predicate IsTarget(extra: seq<RR>, t: Target) {
    match t
    case Existing(i, j) =>
      && i < |extra| && extra[i].OPT? && j < |extra[i].options| && extra[i].options[j].Subnet?
      && (forall k :: 0 <= k < i ==> !CarriesSubnet(extra[k]))
      && (forall k :: 0 <= k < j ==> !extra[i].options[k].Subnet?)
    case LastRecord =>
      extra != [] && extra[|extra| - 1].OPT? && forall k :: 0 <= k < |extra| ==> !CarriesSubnet(extra[k])
    case NoRecord =>
      (extra == [] || !extra[|extra| - 1].OPT?) && forall k :: 0 <= k < |extra| ==> !CarriesSubnet(extra[k])
  }

  lemma TargetIsUnique(extra: seq<RR>, t: Target, u: Target)
    requires IsTarget(extra, t) && IsTarget(extra, u)
    ensures t == u
  {
    if t.Existing? {
      assert CarriesSubnet(extra[t.record]);
    }
    if u.Existing? {
      assert CarriesSubnet(extra[u.record]);
    }
  }

  function FirstSubnet(options: seq<EdnsOption>): (j: nat)
    requires HasSubnet(options)
    ensures j < |options| && options[j].Subnet? && forall k :: 0 <= k < j ==> !options[k].Subnet?
  {
    if options[0].Subnet? then 0
    else
      assert HasSubnet(options[1..]) by {
        var j :| 0 <= j < |options| && options[j].Subnet?;
        assert options[1..][j - 1].Subnet?;
      }
      1 + FirstSubnet(options[1..])
  }

  function FirstCarrier(extra: seq<RR>): (i: nat)
    ensures i <= |extra| && (i < |extra| ==> CarriesSubnet(extra[i])) && forall k :: 0 <= k < i ==> !CarriesSubnet(extra[k])
  {
    if extra == [] || CarriesSubnet(extra[0]) then 0 else 1 + FirstCarrier(extra[1..])
  }

  function TargetOf(extra: seq<RR>): (t: Target)
    ensures IsTarget(extra, t)
  {
    var i := FirstCarrier(extra);
    if i < |extra| then Existing(i, FirstSubnet(extra[i].options))
    else if extra != [] && extra[|extra| - 1].OPT? then LastRecord
    else NoRecord
  }

  function Family(p: Prefix): nat {
    if p.v4 then 1 else 2
  }

  /** The records after writing prefix `p` at target `t`. */
  function Write(extra: seq<RR>, t: Target, p: Prefix): seq<RR>
    requires t.Existing? ==> t.record < |extra| && extra[t.record].OPT?
                             && t.option < |extra[t.record].options| && extra[t.record].options[t.option].Subnet?
    requires t.LastRecord? ==> extra != [] && extra[|extra| - 1].OPT?
  {
    match t
    case Existing(i, j) =>
      var old_ := extra[i].options[j];
      extra[i := extra[i].(options := extra[i].options[j := Subnet(Family(p), p.bits, old_.scope, p.address)])]
    case LastRecord =>
      var n := |extra| - 1;
      extra[n := extra[n].(options := extra[n].options + [Subnet(Family(p), p.bits, 0, p.address)])]
    case NoRecord =>
      extra + [OPT(0, 0, [Subnet(Family(p), p.bits, 0, p.address)])]
  }

  predicate Matches(o: EdnsOption, p: Prefix) {
    o.Subnet? && o.family == Family(p) && o.netmask == p.bits && o.address == p.address
  }

  /** The first subnet option of the message, the one a reader of the message finds, is the prefix just set. */
  lemma WriteIsFound(extra: seq<RR>, t: Target, p: Prefix)
    requires IsTarget(extra, t)
    ensures var i := if t.Existing? then t.record else if t.LastRecord? then |extra| - 1 else |extra|;
            var j := if t.Existing? then t.option else if t.LastRecord? then |extra[i].options| else 0;
            var after := Write(extra, t, p);
            && IsTarget(after, Existing(i, j)) && Matches(after[i].options[j], p)
            && forall k :: 0 <= k < |extra| && k != i ==> after[k] == extra[k]
  {
    var i := if t.Existing? then t.record else if t.LastRecord? then |extra| - 1 else |extra|;
    var j := if t.Existing? then t.option else if t.LastRecord? then |extra[i].options| else 0;
    var after := Write(extra, t, p);
    assert forall k :: 0 <= k < i ==> after[k] == extra[k];
    if t.LastRecord? {
      assert !CarriesSubnet(extra[i]);
    }
  }

  /**
   What the written option says, and what stays: the family is 1 for IPv4 and 2 for IPv6 (section 6 of RFC 7871), an
   existing option keeps its scope, and class, TTL and every other option of the record stay.
   */
  lemma WriteMeaning(extra: seq<RR>, t: Target, p: Prefix)
    requires IsTarget(extra, t)
    ensures var after := Write(extra, t, p);
            match t
            case Existing(i, j) =>
              && |after| == |extra| && after[i].OPT? && |after[i].options| == |extra[i].options|
              && after[i].class_ == extra[i].class_ && after[i].ttl == extra[i].ttl
              && after[i].options[j] == Subnet(if p.v4 then 1 else 2, p.bits, extra[i].options[j].scope, p.address)
              && forall k :: 0 <= k < |extra[i].options| && k != j ==> after[i].options[k] == extra[i].options[k]
            case LastRecord =>
              var i := |extra| - 1;
              && |after| == |extra| && after[i].OPT?
              && after[i].class_ == extra[i].class_ && after[i].ttl == extra[i].ttl
              && after[i].options == extra[i].options + [Subnet(if p.v4 then 1 else 2, p.bits, 0, p.address)]
            case NoRecord => after == extra + [OPT(0, 0, [Subnet(if p.v4 then 1 else 2, p.bits, 0, p.address)])]
  {
  }

  /** Setting a subnet twice is setting the second one. */
  lemma LastWriteWins(extra: seq<RR>, t: Target, p: Prefix, u: Target, q: Prefix)
    requires IsTarget(extra, t) && IsTarget(Write(extra, t, p), u)
    ensures Write(Write(extra, t, p), u, q) == Write(extra, t, q)
  {
    WriteIsFound(extra, t, p);
    var i := if t.Existing? then t.record else if t.LastRecord? then |extra| - 1 else |extra|;
    var j := if t.Existing? then t.option else if t.LastRecord? then |extra[i].options| else 0;
    TargetIsUnique(Write(extra, t, p), u, Existing(i, j));
    var once, twice, direct := Write(extra, t, p), Write(Write(extra, t, p), u, q), Write(extra, t, q);
    assert twice[i].options == direct[i].options;
    assert forall k :: 0 <= k < |direct| ==> twice[k] == direct[k];
  }

  /** Replacing the only EDNS record by another. */
  lemma OneOptReplaced(extra: seq<RR>, i: nat, r: RR)
    requires i < |extra| && extra[i].OPT? && r.OPT? && CountOpt(extra) <= 1
    ensures CountOpt(extra[i := r]) == 1
  {
    CountOptUpdate(extra, i, r);
    CountOptZero(extra);
    assert extra[i] in extra;
  }

  /** A query that carries at most one EDNS record still has exactly one afterwards, except when that record is neither last nor carries a subnet. */
  lemma WriteKeepsOneOpt(extra: seq<RR>, t: Target, p: Prefix)
    requires IsTarget(extra, t) && CountOpt(extra) <= 1
    ensures CountOpt(Write(extra, t, p)) == 1 <==> CountOpt(extra) == 0 || !t.NoRecord?
  {
    var after := Write(extra, t, p);
    match t {
      case Existing(i, j) =>
        assert after == extra[i := after[i]];
        OneOptReplaced(extra, i, after[i]);
      case LastRecord =>
        var n := |extra| - 1;
        assert after == extra[n := after[n]];
        OneOptReplaced(extra, n, after[n]);
      case NoRecord =>
        assert after == extra + [after[|extra|]];
        CountOptAppend(extra, after[|extra|]);
    }
  }

  /** The excluded case: an EDNS record followed by another record ends up with a second EDNS record. */
  lemma WriteAddsSecondOpt(p: Prefix)
    ensures var extra := [OPT(4096, 0, []), Plain(250, 0)];
            IsTarget(extra, NoRecord) && CountOpt(extra) == 1 && CountOpt(Write(extra, NoRecord, p)) == 2
  {
    var extra := [OPT(4096, 0, []), Plain(250, 0)];
    assert extra[..1] == [OPT(4096, 0, [])] && extra[..1][..0] == [];
    assert CountOpt(extra[..1]) == 1;
    assert Write(extra, NoRecord, p)[..2] == extra;
  }

  // ---- Messages on the heap ----

  class OptRecord {
    var class_: nat
    var ttl: u32
    var options: seq<EdnsOption>

    constructor (class_: nat, ttl: u32, options: seq<EdnsOption>)
      ensures this.class_ == class_ && this.ttl == ttl && this.options == options
    {
      this.class_, this.ttl, this.options := class_, ttl, options;
    }
  }

  datatype Record = OptRef(opt: OptRecord) | Other(rr: RR)

  ghost function Opts(extra: seq<Record>): set<OptRecord> {
    set r | r in extra && r.OptRef? :: r.opt
  }

  /** Every record that is not an EDNS record is held by value. */
  predicate WellTyped(extra: seq<Record>) {
    forall i :: 0 <= i < |extra| && extra[i].Other? ==> !extra[i].rr.OPT?
  }

  ghost function RecordView(r: Record): RR
    reads if r.OptRef? then {r.opt} else {}
  {
    if r.OptRef? then OPT(r.opt.class_, r.opt.ttl, r.opt.options) else r.rr
  }

  ghost function View(extra: seq<Record>): (v: seq<RR>)
    reads Opts(extra)
    ensures |v| == |extra| && forall i :: 0 <= i < |extra| ==> v[i] == RecordView(extra[i])
  {
    if extra == [] then [] else View(extra[..|extra| - 1]) + [RecordView(extra[|extra| - 1])]
  }

  class Message {
    var extra: seq<Record>

    constructor (extra: seq<Record>)
      ensures this.extra == extra
    {
      this.extra := extra;
    }

    /** A deep copy: no EDNS record is shared with the original, nor between two places of the copy. */
    method Copy() returns (m: Message)
      requires WellTyped(extra)
      ensures fresh(m) && fresh(Opts(m.extra)) && WellTyped(m.extra) && View(m.extra) == View(extra)
      ensures Unshared(m.extra)
    {
      var copied: seq<Record> := [];
      for k := 0 to |extra|
        invariant |copied| == k && fresh(Opts(copied)) && WellTyped(copied)
        invariant forall i :: 0 <= i < k ==> RecordView(copied[i]) == RecordView(extra[i])
        invariant forall i, j :: 0 <= i < j < k && copied[i].OptRef? ==> copied[i] != copied[j]
      {
        match extra[k] {
          case OptRef(opt) =>
            var o := new OptRecord(opt.class_, opt.ttl, opt.options);
            assert Opts(copied + [OptRef(o)]) == Opts(copied) + {o};
            copied := copied + [OptRef(o)];
          case Other(rr) =>
            assert Opts(copied + [Other(rr)]) == Opts(copied);
            copied := copied + [Other(rr)];
        }
      }
      m := new Message(copied);
    }
  }

  /** The search of the record list, with its reset of the candidate at every record that is not an EDNS record. */
  method FindTarget(message: Message) returns (t: Target)
    requires WellTyped(message.extra)
    ensures IsTarget(View(message.extra), t)
  {
    ghost var view := View(message.extra);
    var candidate := false;
    for i := 0 to |message.extra|
      invariant candidate <==> i > 0 && view[i - 1].OPT?
      invariant forall k :: 0 <= k < i ==> !CarriesSubnet(view[k])
    {
      candidate := message.extra[i].OptRef?;
      if candidate {
        var options := message.extra[i].opt.options;
        for j := 0 to |options|
          invariant forall k :: 0 <= k < j ==> !options[k].Subnet?
        {
          if options[j].Subnet? {
            return Existing(i, j);
          }
        }
      }
    }
    return if candidate then LastRecord else NoRecord;
  }

  /** No EDNS record object stands at two places of the list. */
  predicate Unshared(extra: seq<Record>) {
    forall i, j :: 0 <= i < j < |extra| && extra[i].OptRef? ==> extra[i] != extra[j]
  }

  /** `before` is what the message's records were when the search looked at them. */
  method WriteInPlace(message: Message, t: Target, p: Prefix, ghost before: seq<RR>)
    requires WellTyped(message.extra) && Unshared(message.extra) && before == View(message.extra)
    requires IsTarget(before, t) && !t.NoRecord?
    modifies Opts(message.extra)
    ensures message.extra == old(message.extra) && View(message.extra) == Write(before, t, p)
  {
    var i := if t.Existing? then t.record else |message.extra| - 1;
    var opt := message.extra[i].opt;
    assert message.extra[i] in message.extra;
    if t.Existing? {
      opt.options := opt.options[t.option := Subnet(Family(p), p.bits, opt.options[t.option].scope, p.address)];
    } else {
      opt.options := opt.options + [Subnet(Family(p), p.bits, 0, p.address)];
    }
    forall k | 0 <= k < |message.extra| ensures RecordView(message.extra[k]) == Write(before, t, p)[k] {
      if k != i && message.extra[k].OptRef? {
        assert message.extra[k].opt != opt;
      }
    }
  }

  /** A message without a place for the option is copied shallowly and gets a new EDNS record. */
  method AddRecord(message: Message, p: Prefix, ghost before: seq<RR>) returns (result: Message)
    requires WellTyped(message.extra) && before == View(message.extra) && IsTarget(before, NoRecord)
    ensures fresh(result) && WellTyped(result.extra) && View(result.extra) == Write(before, NoRecord, p)
  {
    var opt := new OptRecord(0, 0, [Subnet(Family(p), p.bits, 0, p.address)]);
    result := new Message(message.extra + [OptRef(opt)]);
    forall k | 0 <= k < |result.extra| ensures RecordView(result.extra[k]) == Write(before, NoRecord, p)[k] {
    }
  }

  method WriteCopy(message: Message, t: Target, p: Prefix, ghost before: seq<RR>) returns (result: Message)
    requires WellTyped(message.extra) && before == View(message.extra) && IsTarget(before, t) && !t.NoRecord?
    ensures fresh(result) && WellTyped(result.extra) && View(result.extra) == Write(before, t, p)
  {
    result := message.Copy();
    WriteInPlace(result, t, p, before);
  }

  /**
   SetClientSubnet: the result is a new message, and neither the caller's message nor any of its records changes.
   The source repeats the search on the copy; it finds the same place, because the place is unique.
   */
  method SetClientSubnet(message: Message, p: Prefix, ghost before: seq<RR>) returns (result: Message, ghost t: Target)
    requires WellTyped(message.extra) && before == View(message.extra)
    ensures IsTarget(before, t)
    ensures fresh(result) && WellTyped(result.extra) && View(result.extra) == Write(before, t, p)
  {
    var target := FindTarget(message);
    t := target;
    if target.NoRecord? {
      result := AddRecord(message, p, before);
    } else {
      result := WriteCopy(message, target, p, before);
    }
  }
}
