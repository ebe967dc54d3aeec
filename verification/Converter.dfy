/**
 The share link converter (ray2sing/convert.go): every line is a chain of links joined by arrows, visited from the
 last link to the first; each link that parses becomes a numbered outbound or endpoint whose traffic is sent
 through the one made just before it. The configuration check of option/options.go then demands distinct tags.
 The parsers of the single protocols are a parameter.
 */
module Converter {
  import opened Prelude
  import opened Base64

  /** What a parser makes of a link; the detour is absent when its options carry no dialer settings. */
  datatype Item = Item(kind: Text, tag: Text, detour: Option<Text>)

  datatype Parsed = Failed | Parsed(outbound: Option<Item>, endpoint: Option<Item>)

  type Parser = Text -> Parsed

  /** One produced entry, with the input line it came from. */
  datatype Node = Node(outbound: bool, item: Item, line: nat)

  datatype Config = Config(outbounds: seq<Item>, endpoints: seq<Item>)

  // ---- Decimal numbers ----

  function Itoa(n: nat): (r: Text)
    ensures r != [] && forall i :: 0 <= i < |r| ==> 48 <= r[i] <= 57
  {
    if n < 10 then [48 + n] else Itoa(n / 10) + [48 + n % 10]
  }

  /** The number that decimal digits denote. */
  function Decimal(digits: Text): int {
    if digits == [] then 0 else Decimal(digits[..|digits| - 1]) * 10 + digits[|digits| - 1] - '0' as int
  }

  /** The digits denote the number, and there is no leading zero. */
  lemma {:induction false} ItoaMeaning(n: nat)
    ensures Decimal(Itoa(n)) == n && (Itoa(n)[0] == '0' as int ==> n == 0)
  {
    if n >= 10 {
      ItoaMeaning(n / 10);
      assert Itoa(n)[..|Itoa(n)| - 1] == Itoa(n / 10);
    } else {
      assert Itoa(n)[..0] == [];
    }
  }

  lemma {:induction false} ItoaInjective(m: nat, n: nat)
    requires Itoa(m) == Itoa(n)
    ensures m == n
  {
    var r := Itoa(m);
    if |r| > 1 {
      assert Itoa(m / 10) == r[..|r| - 1] && Itoa(n / 10) == r[..|r| - 1];
      ItoaInjective(m / 10, n / 10);
    }
  }

  /** Space, section sign, space, in UTF-8. */
  const MARK: Text := [32, 0xC2, 0xA7, 32]

  function Numbered(tag: Text, n: nat): Text {
    tag + MARK + Itoa(n)
  }

  /** The digits at the end of a text reach back no further than the last blank. */
  lemma DigitsEndAtBlank(x: Text, p: nat, q: Text)
    requires p < |x| && x[|x| - p - 1] == 32
    requires |q| <= |x| && x[|x| - |q|..] == q && forall i :: 0 <= i < |q| ==> q[i] != 32
    ensures |q| <= p
  {
    assert forall i :: |x| - |q| <= i < |x| ==> x[i] == q[i - (|x| - |q|)];
  }

  /** The number can be read back from a numbered tag, whatever the tag was. */
  lemma NumberIsRecoverable(s: Text, m: nat, t: Text, n: nat)
    requires Numbered(s, m) == Numbered(t, n)
    ensures m == n
  {
    var x := Numbered(s, m);
    var p, q := Itoa(m), Itoa(n);
    assert x[|x| - |p|..] == p && x[|x| - |q|..] == q;
    assert x[|x| - |p| - 1] == 32 && x[|x| - |q| - 1] == 32;
    DigitsEndAtBlank(x, |p|, q);
    DigitsEndAtBlank(x, |q|, p);
    ItoaInjective(m, n);
  }

  // ---- Lines and links ----

  const ARROW: Text := [32, 45, 62, 32]

  function Join(parts: seq<Text>): Text {
    if parts == [] then [] else if |parts| == 1 then parts[0] else parts[0] + ARROW + Join(parts[1..])
  }

  /** The parts of a line between arrows, searching on from position `i`. */
  function Split(t: Text, i: nat): (parts: seq<Text>)
    requires i <= |t|
    ensures parts != [] && Join(parts) == t
    decreases |t| - i
  {
    if i + |ARROW| > |t| then [t]
    else if t[i..i + |ARROW|] == ARROW then
      assert t == t[..i] + ARROW + t[i + |ARROW|..];
      [t[..i]] + Split(t[i + |ARROW|..], 0)
    else Split(t, i + 1)
  }

  predicate ArrowAt(t: Text, i: nat) {
    i + |ARROW| <= |t| && t[i..i + |ARROW|] == ARROW
  }

  /** No part of a line contains an arrow. */
  lemma {:induction false} PartsHaveNoArrow(t: Text, i: nat, k: nat, j: nat)
    requires i <= |t| && (forall h: nat :: h < i ==> !ArrowAt(t, h)) && k < |Split(t, i)|
    ensures !ArrowAt(Split(t, i)[k], j)
    decreases |t| - i
  {
    if i + |ARROW| > |t| {
    } else if ArrowAt(t, i) {
      if k > 0 {
        PartsHaveNoArrow(t[i + |ARROW|..], 0, k - 1, j);
      } else if j + |ARROW| <= i {
        assert !ArrowAt(t, j);
        assert t[..i][j..j + |ARROW|] == t[j..j + |ARROW|];
      }
    } else {
      PartsHaveNoArrow(t, i + 1, k, j);
    }
  }

  predicate Skipped(line: Text) {
    |line| < 5 || line[0] == 35 || line[0] == 47
  }

  function Links(line: Text): seq<Text> {
    if Skipped(line) then [] else Split(line, 0)
  }

  /** The entry a link yields, if any: an outbound before an endpoint, tagged with its type when it has no tag. */
  function Process(parse: Parser, link: Text): Option<(bool, Item)> {
    var p := parse(DecodeIfNeeded(link));
    if p.Failed? then None
    else if p.outbound.Some? then Some((true, DefaultTag(p.outbound.value)))
    else if p.endpoint.Some? then Some((false, DefaultTag(p.endpoint.value)))
    else None
  }

  function DefaultTag(i: Item): Item {
    if i.tag == [] then i.(tag := i.kind) else i
  }

  /** A link that was itself base64 encoded, in any form the decoder reads, yields what the plain link yields. */
  lemma EncodedLinkIsTheLink(parse: Parser, link: Text, c: Byte, raw: Text, a: Alphabet, cut: nat, pre: Text, post: Text)
    requires c in TrimSpace(link) && !Legal(c) && IsWriting(raw, a, link, cut, pre, post)
    ensures Process(parse, raw) == Process(parse, link)
  {
    TolerantRoundTrip(raw, a, link, cut, pre, post);
    LinksAreUntouched(link, c);
  }

  /** How links become entries. */
  type Maker = Text -> Option<(bool, Item)>

  function Making(parse: Parser): Maker {
    (link: Text) => Process(parse, link)
  }

  // ---- What is produced ----

  function LastTag(nodes: seq<Node>, line: nat): Text {
    if nodes != [] && nodes[|nodes| - 1].line == line then nodes[|nodes| - 1].item.tag else []
  }

  function Extend(nodes: seq<Node>, line: nat, made: Option<(bool, Item)>): seq<Node> {
    match made
    case None => nodes
    case Some((outbound, item)) =>
      var detour := if item.detour.Some? then Some(LastTag(nodes, line)) else None;
      nodes + [Node(outbound, Item(item.kind, Numbered(item.tag, |nodes|), detour), line)]
  }

  /** The nodes after the links of one line from its last down to position `from`. */
  function AfterLinks(make: Maker, nodes: seq<Node>, line: nat, links: seq<Text>, from: nat): seq<Node>
    requires from <= |links|
    decreases |links| - from
  {
    if from == |links| then nodes
    else Extend(AfterLinks(make, nodes, line, links, from + 1), line, make(links[from]))
  }

  function Nodes(make: Maker, lines: seq<Text>): seq<Node> {
    if lines == [] then []
    else AfterLinks(make, Nodes(make, lines[..|lines| - 1]), |lines| - 1, Links(lines[|lines| - 1]), 0)
  }

  /** Node `i` sends its traffic through node `j`. */
  predicate Through(nodes: seq<Node>, i: nat, j: nat)
    requires i < |nodes| && j < |nodes|
  {
    nodes[i].item.detour == Some(nodes[j].item.tag)
  }

  /** Node k is numbered k, lines do not go back, and a detour names the node made just before in the same line, or none. */
  ghost predicate WellMade(nodes: seq<Node>, k: nat)
    requires k < |nodes|
  {
    && (exists base :: nodes[k].item.tag == Numbered(base, k))
    && (k > 0 ==> nodes[k - 1].line <= nodes[k].line)
    && (nodes[k].item.detour.Some? ==> nodes[k].item.detour.value == LastTag(nodes[..k], nodes[k].line))
  }

  ghost predicate AllMade(nodes: seq<Node>, line: nat) {
    && (forall k :: 0 <= k < |nodes| ==> WellMade(nodes, k))
    && (nodes != [] ==> nodes[|nodes| - 1].line <= line)
  }

  lemma ExtendMakesWell(nodes: seq<Node>, line: nat, made: Option<(bool, Item)>)
    requires AllMade(nodes, line)
    ensures AllMade(Extend(nodes, line, made), line)
  {
    var r := Extend(nodes, line, made);
    forall k | 0 <= k < |r| ensures WellMade(r, k) {
      if k < |nodes| {
        assert WellMade(nodes, k);
        assert r[..k] == nodes[..k];
      } else {
        assert r[k].item.tag == Numbered(made.value.1.tag, k);
        assert r[..k] == nodes;
      }
    }
  }

  lemma {:induction false} AfterLinksMadeWell(make: Maker, nodes: seq<Node>, line: nat, links: seq<Text>, from: nat)
    requires AllMade(nodes, line) && from <= |links|
    ensures AllMade(AfterLinks(make, nodes, line, links, from), line)
    decreases |links| - from
  {
    if from < |links| {
      AfterLinksMadeWell(make, nodes, line, links, from + 1);
      ExtendMakesWell(AfterLinks(make, nodes, line, links, from + 1), line, make(links[from]));
    }
  }

  lemma NextLine(nodes: seq<Node>, line: nat)
    requires AllMade(nodes, line)
    ensures AllMade(nodes, line + 1) && LastTag(nodes, line + 1) == []
  {
  }

  lemma {:induction false} NodesMadeWell(make: Maker, lines: seq<Text>)
    ensures AllMade(Nodes(make, lines), |lines|) && LastTag(Nodes(make, lines), |lines|) == []
  {
    if lines != [] {
      var n := |lines| - 1;
      NodesMadeWell(make, lines[..n]);
      AfterLinksMadeWell(make, Nodes(make, lines[..n]), n, Links(lines[n]), 0);
      NextLine(AfterLinks(make, Nodes(make, lines[..n]), n, Links(lines[n]), 0), n);
    }
  }

  /** Whatever the parsers return, no two produced entries share a tag. */
  lemma TagsAreDistinct(make: Maker, lines: seq<Text>, i: nat, j: nat)
    requires i < j < |Nodes(make, lines)|
    ensures Nodes(make, lines)[i].item.tag != Nodes(make, lines)[j].item.tag
  {
    NodesMadeWell(make, lines);
    var nodes := Nodes(make, lines);
    assert WellMade(nodes, i) && WellMade(nodes, j);
    var s :| nodes[i].item.tag == Numbered(s, i);
    var t :| nodes[j].item.tag == Numbered(t, j);
    if nodes[i].item.tag == nodes[j].item.tag {
      NumberIsRecoverable(s, i, t, j);
    }
  }

  /**
   Exactly which entry a detour reaches: the one made just before from the same line, when the entry has dialer
   settings at all. So the detours of a line form one path, and following them never comes back.
   */
  lemma DetoursFormChains(make: Maker, lines: seq<Text>, i: nat, j: nat)
    requires i < |Nodes(make, lines)| && j < |Nodes(make, lines)|
    ensures var nodes := Nodes(make, lines);
            Through(nodes, i, j) <==> i == j + 1 && nodes[i].line == nodes[j].line && nodes[i].item.detour.Some?
  {
    var nodes := Nodes(make, lines);
    NodesMadeWell(make, lines);
    assert WellMade(nodes, i) && WellMade(nodes, j);
    if Through(nodes, i, j) && i != j + 1 && i > 0 {
      TagsAreDistinct(make, lines, if i - 1 < j then i - 1 else j, if i - 1 < j then j else i - 1);
    }
  }

  // ---- From links to entries ----

  /** How many of the links yield an entry. */
  function Yield(make: Maker, links: seq<Text>): nat {
    if links == [] then 0 else (if make(links[0]).Some? then 1 else 0) + Yield(make, links[1..])
  }

  lemma {:induction false} LineYields(make: Maker, nodes: seq<Node>, line: nat, links: seq<Text>, from: nat)
    requires from <= |links|
    ensures |AfterLinks(make, nodes, line, links, from)| == |nodes| + Yield(make, links[from..])
    ensures nodes <= AfterLinks(make, nodes, line, links, from)
    decreases |links| - from
  {
    if from < |links| {
      LineYields(make, nodes, line, links, from + 1);
      assert links[from..][0] == links[from] && links[from..][1..] == links[from + 1..];
    }
  }

  /** Later links do not disturb the entry of an earlier visited one. */
  lemma {:induction false} LineKeeps(make: Maker, nodes: seq<Node>, line: nat, links: seq<Text>, from: nat, h: nat)
    requires from <= h <= |links|
    ensures AfterLinks(make, nodes, line, links, h) <= AfterLinks(make, nodes, line, links, from)
    decreases h - from
  {
    if from < h {
      LineKeeps(make, nodes, line, links, from + 1, h);
    }
  }

  /** Node `k` is the entry of a link that yields `made`, in a line whose first entry is `base`. */
  ghost predicate IsEntry(nodes: seq<Node>, base: nat, k: nat, line: nat, made: (bool, Item)) {
    && k < |nodes| && nodes[k].outbound == made.0 && nodes[k].line == line
    && nodes[k].item.kind == made.1.kind && nodes[k].item.tag == Numbered(made.1.tag, k)
    && nodes[k].item.detour ==
       (if made.1.detour.None? then None else if k > base then Some(nodes[k - 1].item.tag) else Some([]))
  }

  lemma EntryStays(nodes: seq<Node>, more: seq<Node>, base: nat, k: nat, line: nat, made: (bool, Item))
    requires nodes <= more && IsEntry(nodes, base, k, line, made)
    ensures IsEntry(more, base, k, line, made)
  {
  }

  /** What link `h` contributes when it is visited. */
  lemma LinkExtends(make: Maker, nodes: seq<Node>, line: nat, links: seq<Text>, h: nat)
    requires h < |links| && make(links[h]).Some? && (nodes != [] ==> nodes[|nodes| - 1].line < line)
    ensures IsEntry(AfterLinks(make, nodes, line, links, h), |nodes|, |nodes| + Yield(make, links[h + 1..]), line, make(links[h]).value)
  {
    var before := AfterLinks(make, nodes, line, links, h + 1);
    LineYields(make, nodes, line, links, h + 1);
    if |before| > |nodes| {
      LastIsOfLine(make, nodes, line, links, h + 1);
    }
  }

  lemma {:induction false} LastIsOfLine(make: Maker, nodes: seq<Node>, line: nat, links: seq<Text>, from: nat)
    requires from <= |links| && |AfterLinks(make, nodes, line, links, from)| > |nodes|
    ensures var after := AfterLinks(make, nodes, line, links, from); after[|after| - 1].line == line
    decreases |links| - from
  {
    if from < |links| && make(links[from]).None? {
      LastIsOfLine(make, nodes, line, links, from + 1);
    }
  }

  lemma LineEnds(make: Maker, nodes: seq<Node>, line: nat, links: seq<Text>)
    requires nodes != [] ==> nodes[|nodes| - 1].line < line
    ensures var after := AfterLinks(make, nodes, line, links, 0); after != [] ==> after[|after| - 1].line <= line
  {
    LineYields(make, nodes, line, links, 0);
    if |AfterLinks(make, nodes, line, links, 0)| > |nodes| {
      LastIsOfLine(make, nodes, line, links, 0);
    }
  }

  lemma {:induction false} LinesAreOld(make: Maker, lines: seq<Text>)
    ensures var nodes := Nodes(make, lines); nodes != [] ==> nodes[|nodes| - 1].line < |lines|
  {
    if lines != [] {
      var n := |lines| - 1;
      LinesAreOld(make, lines[..n]);
      LineEnds(make, Nodes(make, lines[..n]), n, Links(lines[n]));
    }
  }

  /** What earlier lines produced stays in front. */
  lemma {:induction false} LinesKeep(make: Maker, lines: seq<Text>, n: nat)
    requires n <= |lines|
    ensures Nodes(make, lines[..n]) <= Nodes(make, lines)
  {
    if n < |lines| {
      var m := |lines| - 1;
      LinesKeep(make, lines[..m], n);
      assert lines[..m][..n] == lines[..n];
      LineYields(make, Nodes(make, lines[..m]), m, Links(lines[m]), 0);
    } else {
      assert lines[..n] == lines;
    }
  }

  /**
   From the input to the entries: a link that parses, in line n at position h, becomes the entry whose number counts the
   entries of the lines before and of the links that follow it in its own line. It carries its own kind and tag, and its
   traffic goes through the entry of the next link of the line that parses, if there is one. So the last link of a chain
   is reached directly and the first through all others.
   */
  lemma LinkBecomesEntry(make: Maker, lines: seq<Text>, n: nat, h: nat)
    requires n < |lines| && h < |Links(lines[n])| && make(Links(lines[n])[h]).Some?
    ensures var base := |Nodes(make, lines[..n])|;
            IsEntry(Nodes(make, lines), base, base + Yield(make, Links(lines[n])[h + 1..]), n, make(Links(lines[n])[h]).value)
  {
    var base, made := |Nodes(make, lines[..n])|, make(Links(lines[n])[h]).value;
    var k := base + Yield(make, Links(lines[n])[h + 1..]);
    assert IsEntry(Nodes(make, lines[..n + 1]), base, k, n, made) by {
      LinesAreOld(make, lines[..n]);
      LineEntry(make, Nodes(make, lines[..n]), n, Links(lines[n]), h);
      OneMoreLine(make, lines, n);
    }
    LinesKeep(make, lines, n + 1);
    EntryStays(Nodes(make, lines[..n + 1]), Nodes(make, lines), base, k, n, made);
  }

  lemma OneMoreLine(make: Maker, lines: seq<Text>, n: nat)
    requires n < |lines|
    ensures Nodes(make, lines[..n + 1]) == AfterLinks(make, Nodes(make, lines[..n]), n, Links(lines[n]), 0)
  {
    assert lines[..n + 1][..n] == lines[..n];
  }

  lemma LineEntry(make: Maker, nodes: seq<Node>, line: nat, links: seq<Text>, h: nat)
    requires h < |links| && make(links[h]).Some? && (nodes != [] ==> nodes[|nodes| - 1].line < line)
    ensures IsEntry(AfterLinks(make, nodes, line, links, 0), |nodes|, |nodes| + Yield(make, links[h + 1..]), line, make(links[h]).value)
  {
    LinkExtends(make, nodes, line, links, h);
    LineKeeps(make, nodes, line, links, 0, h);
    EntryStays(AfterLinks(make, nodes, line, links, h), AfterLinks(make, nodes, line, links, 0), |nodes|,
               |nodes| + Yield(make, links[h + 1..]), line, make(links[h]).value);
  }

  /** Every entry is the entry of a link: a line adds as many entries as it has links that parse. */
  lemma EntriesAreLinks(make: Maker, lines: seq<Text>, n: nat)
    requires n < |lines|
    ensures |Nodes(make, lines[..n + 1])| == |Nodes(make, lines[..n])| + Yield(make, Links(lines[n]))
  {
    OneMoreLine(make, lines, n);
    LineYields(make, Nodes(make, lines[..n]), n, Links(lines[n]), 0);
    assert Links(lines[n])[0..] == Links(lines[n]);
  }

  /** In a chain of two links that both parse and dial, the first is sent through the second. */
  lemma TwoLinkChain(make: Maker, line: Text, a: Item, b: Item)
    requires |Links(line)| == 2 && make(Links(line)[0]) == Some((true, a)) && make(Links(line)[1]) == Some((true, b))
    requires a.detour.Some? && b.detour.Some?
    ensures var nodes := Nodes(make, [line]);
            && |nodes| == 2
            && nodes[0].item == Item(b.kind, Numbered(b.tag, 0), Some([]))
            && nodes[1].item == Item(a.kind, Numbered(a.tag, 1), Some(nodes[0].item.tag))
  {
    var lines, links := [line], Links(line);
    assert |lines[..0]| == 0 && lines[..1] == lines && |links[2..]| == 0 && |links[1..]| == 1;
    var tail: seq<Text> := links[1..];
    assert |tail[1..]| == 0 && Yield(make, tail) == 1;
    LinkBecomesEntry(make, lines, 0, 1);
    LinkBecomesEntry(make, lines, 0, 0);
    EntriesAreLinks(make, lines, 0);
    assert Yield(make, links) == 1 + Yield(make, links[1..]);
  }

  /** Lines that yield nothing: too short, or comments. */
  lemma LinksMeaning(line: Text)
    ensures Links(line) == [] <==> |line| < 5 || line[0] == '#' as int || line[0] == '/' as int
    ensures Links(line) != [] ==> Join(Links(line)) == line
  {
  }

  /** An outbound comes before an endpoint; an entry without tag is called by its type; the link is decoded first. */
  lemma ProcessMeaning(parse: Parser, link: Text)
    ensures var p, r := parse(DecodeIfNeeded(link)), Making(parse)(link);
            && (r.None? <==> p.Failed? || (p.outbound.None? && p.endpoint.None?))
            && (r.Some? ==>
                  var item := if p.outbound.Some? then p.outbound.value else p.endpoint.value;
                  && r.value.0 == p.outbound.Some? && r.value.1.kind == item.kind && r.value.1.detour == item.detour
                  && r.value.1.tag == (if |item.tag| > 0 then item.tag else item.kind))
  {
  }

  /** How a tag is numbered: a section sign between blanks, then the decimal number. */
  lemma NumberedMeaning(tag: Text, n: nat)
    ensures Numbered(tag, n) == tag + (Utf8(0x20) + Utf8(0xA7) + Utf8(0x20)) + Itoa(n) && Decimal(Itoa(n)) == n
    ensures ARROW == [' ' as int, '-' as int, '>' as int, ' ' as int]
  {
    ItoaMeaning(n);
  }

  // ---- The two lists and the configuration check ----

  function Items(nodes: seq<Node>, outbound: bool): seq<Item> {
    if nodes == [] then []
    else
      var last := nodes[|nodes| - 1];
      Items(nodes[..|nodes| - 1], outbound) + (if last.outbound == outbound then [last.item] else [])
  }

  /** How many of the nodes are outbounds, or endpoints. */
  function CountKind(nodes: seq<Node>, outbound: bool): nat {
    if nodes == [] then 0
    else CountKind(nodes[..|nodes| - 1], outbound) + if nodes[|nodes| - 1].outbound == outbound then 1 else 0
  }

  /** Each list holds exactly the entries of its kind, in the order they were made. */
  lemma {:induction false} ItemsMeaning(nodes: seq<Node>, outbound: bool, k: nat)
    requires k <= |nodes|
    ensures |Items(nodes, outbound)| == CountKind(nodes, outbound) && CountKind(nodes[..k], outbound) <= CountKind(nodes, outbound)
    ensures k < |nodes| && nodes[k].outbound == outbound ==>
              && CountKind(nodes[..k], outbound) < |Items(nodes, outbound)|
              && Items(nodes, outbound)[CountKind(nodes[..k], outbound)] == nodes[k].item
  {
    if k < |nodes| {
      var n := |nodes| - 1;
      ItemsMeaning(nodes[..n], outbound, if k < n then k else n);
      assert k <= n ==> nodes[..n][..k] == nodes[..k];
    } else {
      assert nodes[..k] == nodes;
      if nodes != [] {
        ItemsMeaning(nodes[..k - 1], outbound, k - 1);
      }
    }
  }

  function TagsOf(items: seq<Item>): (r: seq<Text>)
    ensures |r| == |items|
  {
    seq(|items|, i requires 0 <= i < |items| => items[i].tag)
  }

  /** The tag an entry is known by: its position when it has none. */
  function Effective(tags: seq<Text>): (r: seq<Text>)
    ensures |r| == |tags|
  {
    seq(|tags|, i requires 0 <= i < |tags| => if tags[i] == [] then Itoa(i) else tags[i])
  }

  /** An entry without tag is known by the decimal form of its position in its list. */
  lemma EffectiveMeaning(tags: seq<Text>, i: nat)
    requires i < |tags|
    ensures if |tags[i]| > 0 then Effective(tags)[i] == tags[i] else Decimal(Effective(tags)[i]) == i
  {
    ItoaMeaning(i);
  }

  /** `x` is the first tag that occurred before. */
  ghost predicate FirstRepeat(s: seq<Text>, k: nat, x: Text) {
    k < |s| && s[k] == x && x in s[..k] && Distinct(s[..k])
  }

  ghost function Elements(s: seq<Text>): set<Text> {
    set x | x in s
  }

  /** The first `k` tags are distinct, and `now` are these tags. */
  ghost predicate SeenTo(all: seq<Text>, k: nat, now: set<Text>) {
    k <= |all| && Distinct(all[..k]) && now == Elements(all[..k])
  }

  lemma SeenStep(all: seq<Text>, k: nat, now: set<Text>)
    requires SeenTo(all, k, now) && k < |all|
    ensures if all[k] in now then FirstRepeat(all, k, all[k]) else SeenTo(all, k + 1, now + {all[k]})
  {
    assert all[..k + 1] == all[..k] + [all[k]];
  }

  lemma SeenPrefix(s: seq<Text>, t: seq<Text>, now: set<Text>)
    requires SeenTo(s, |s|, now)
    ensures SeenTo(s + t, |s|, now) && Distinct(s)
  {
    assert (s + t)[..|s|] == s && s[..|s|] == s;
  }

  lemma EffectiveAt(tags: seq<Text>, all: seq<Text>, start: nat, i: nat)
    requires start <= |all| && all[start..] == Effective(tags) && i < |tags|
    ensures start + i < |all| && all[start + i] == if tags[i] == [] then Itoa(i) else tags[i]
  {
    assert all[start..][i] == all[start + i];
  }

  /** Checks the list whose effective tags are those of `all` from `start` on. */
  method CheckTags(tags: seq<Text>, seen: set<Text>, ghost all: seq<Text>, ghost start: nat)
    returns (now: set<Text>, duplicate: Option<Text>)
    requires SeenTo(all, start, seen) && all[start..] == Effective(tags)
    ensures duplicate.None? ==> SeenTo(all, |all|, now)
    ensures duplicate.Some? ==> exists k :: FirstRepeat(all, k, duplicate.value)
  {
    now, duplicate := seen, None;
    for i := 0 to |tags|
      invariant duplicate.None? && SeenTo(all, start + i, now)
    {
      var tag := if tags[i] == [] then Itoa(i) else tags[i];
      EffectiveAt(tags, all, start, i);
      SeenStep(all, start + i, now);
      if tag in now {
        duplicate := Some(tag);
        return;
      }
      now := now + {tag};
    }
  }

  lemma RepeatFound(s: seq<Text>, k: nat, x: Text, t: seq<Text>)
    requires FirstRepeat(s, k, x)
    ensures FirstRepeat(s + t, k, x) && !Distinct(s + t)
  {
    var i :| 0 <= i < k && s[..k][i] == x;
    assert (s + t)[i] == (s + t)[k];
    assert (s + t)[..k] == s[..k];
  }

  /**
   The configuration check accepts exactly when the effective tags of both lists together are distinct; otherwise
   it names the first tag that comes up again.
   */
  method CheckOutbounds(outbounds: seq<Text>, endpoints: seq<Text>) returns (duplicate: Option<Text>)
    ensures duplicate.None? <==> Distinct(Effective(outbounds) + Effective(endpoints))
    ensures duplicate.Some? ==> exists k :: FirstRepeat(Effective(outbounds) + Effective(endpoints), k, duplicate.value)
  {
    ghost var s, t := Effective(outbounds), Effective(endpoints);
    var seen;
    assert s[0..] == s && SeenTo(s, 0, {});
    seen, duplicate := CheckTags(outbounds, {}, s, 0);
    if duplicate.None? {
      SeenPrefix(s, t, seen);
      assert (s + t)[|s|..] == t;
      seen, duplicate := CheckTags(endpoints, seen, s + t, |s|);
      if duplicate.None? {
        SeenPrefix(s + t, [], seen);
      }
      if duplicate.Some? {
        ghost var k :| FirstRepeat(s + t, k, duplicate.value);
        RepeatFound(s + t, k, duplicate.value, []);
        assert s + t + [] == s + t;
      }
    } else {
      ghost var k :| FirstRepeat(s, k, duplicate.value);
      RepeatFound(s, k, duplicate.value, t);
    }
  }

  // ---- The converter ----

  lemma ItemsGrow(nodes: seq<Node>, n: Node, outbound: bool)
    ensures Items(nodes + [n], outbound) == Items(nodes, outbound) + if n.outbound == outbound then [n.item] else []
  {
    assert (nodes + [n])[..|nodes|] == nodes;
  }

  /** Adds the entries of one line to both lists, its last link first. */
  method ConvertLine(make: Maker, n: nat, links: seq<Text>, outs: seq<Item>, ends: seq<Item>, count: nat,
                     ghost start: seq<Node>)
    returns (outbounds: seq<Item>, endpoints: seq<Item>, counter: nat)
    requires outs == Items(start, true) && ends == Items(start, false) && count == |start| && LastTag(start, n) == []
    ensures var nodes := AfterLinks(make, start, n, links, 0);
            outbounds == Items(nodes, true) && endpoints == Items(nodes, false) && counter == |nodes|
  {
    outbounds, endpoints, counter := outs, ends, count;
    ghost var nodes := start;
    var detourTag: Text := [];
    var i := |links|;
    while i > 0
      invariant 0 <= i <= |links| && nodes == AfterLinks(make, start, n, links, i) && counter == |nodes|
      invariant detourTag == LastTag(nodes, n)
      invariant outbounds == Items(nodes, true) && endpoints == Items(nodes, false)
    {
      i := i - 1;
      var made := make(links[i]);
      if made.Some? {
        var (outbound, item) := made.value;
        item := item.(tag := Numbered(item.tag, counter));
        if item.detour.Some? {
          item := item.(detour := Some(detourTag));
        }
        ItemsGrow(nodes, Node(outbound, item, n), true);
        ItemsGrow(nodes, Node(outbound, item, n), false);
        nodes := nodes + [Node(outbound, item, n)];
        detourTag := item.tag;
        if outbound {
          outbounds := outbounds + [item];
        } else {
          endpoints := endpoints + [item];
        }
        counter := counter + 1;
      }
    }
  }

  /** Converts the lines of an input; nothing when no link parses. */
  method GenerateConfigLite(parse: Parser, lines: seq<Text>) returns (r: Option<Config>)
    ensures var nodes := Nodes(Making(parse), lines);
            r == if nodes == [] then None else Some(Config(Items(nodes, true), Items(nodes, false)))
  {
    var make := Making(parse);
    var outbounds: seq<Item>, endpoints: seq<Item>, counter := [], [], 0;
    for n := 0 to |lines|
      invariant var nodes := Nodes(make, lines[..n]);
                outbounds == Items(nodes, true) && endpoints == Items(nodes, false) && counter == |nodes|
    {
      assert lines[..n + 1][..n] == lines[..n];
      if !Skipped(lines[n]) {
        NodesMadeWell(make, lines[..n]);
        outbounds, endpoints, counter :=
          ConvertLine(make, n, Split(lines[n], 0), outbounds, endpoints, counter, Nodes(make, lines[..n]));
      }
    }
    assert lines[..|lines|] == lines;
    EmptyLists(Nodes(make, lines));
    r := if |outbounds| == 0 && |endpoints| == 0 then None else Some(Config(outbounds, endpoints));
  }

  lemma EmptyLists(nodes: seq<Node>)
    ensures nodes == [] <==> Items(nodes, true) == [] && Items(nodes, false) == []
  {
  }

  lemma {:induction false} ItemsAreNodes(nodes: seq<Node>, outbound: bool, tag: Text)
    requires tag in TagsOf(Items(nodes, outbound))
    ensures exists k :: 0 <= k < |nodes| && nodes[k].item.tag == tag
  {
    var all := Items(nodes, outbound);
    var i :| 0 <= i < |all| && all[i].tag == tag;
    var last := |nodes| - 1;
    if nodes[last].item.tag != tag {
      var rest := Items(nodes[..last], outbound);
      assert rest[i] == all[i] && TagsOf(rest)[i] == tag;
      ItemsAreNodes(nodes[..last], outbound, tag);
      var k :| 0 <= k < last && nodes[..last][k].item.tag == tag;
      assert nodes[k].item.tag == tag;
    }
  }

  lemma InsertDistinct(s: seq<Text>, t: seq<Text>, x: Text)
    requires Distinct(s + t) && x !in s && x !in t
    ensures Distinct(s + [x] + t) && Distinct(s + (t + [x]))
  {
    var u, v := s + [x] + t, s + (t + [x]);
    forall i, j | 0 <= i < j < |u| ensures u[i] != u[j] {
      if i != |s| && j != |s| {
        assert (s + t)[if i < |s| then i else i - 1] == u[i] && (s + t)[if j < |s| then j else j - 1] == u[j];
      }
    }
    forall i, j | 0 <= i < j < |v| ensures v[i] != v[j] {
      if j < |v| - 1 {
        assert (s + t)[i] == v[i] && (s + t)[j] == v[j];
      }
    }
  }

  lemma {:induction false} ListsAreDistinct(nodes: seq<Node>)
    requires forall i, j :: 0 <= i < j < |nodes| ==> nodes[i].item.tag != nodes[j].item.tag
    ensures Distinct(TagsOf(Items(nodes, true)) + TagsOf(Items(nodes, false)))
  {
    if nodes != [] {
      var front, last := nodes[..|nodes| - 1], nodes[|nodes| - 1];
      ListsAreDistinct(front);
      var s, t, x := TagsOf(Items(front, true)), TagsOf(Items(front, false)), last.item.tag;
      if x in s {
        ItemsAreNodes(front, true, x);
      }
      if x in t {
        ItemsAreNodes(front, false, x);
      }
      InsertDistinct(s, t, x);
      if last.outbound {
        assert TagsOf(Items(nodes, true)) == s + [x] && TagsOf(Items(nodes, false)) == t;
      } else {
        assert TagsOf(Items(nodes, true)) == s && TagsOf(Items(nodes, false)) == t + [x];
      }
    }
  }

  /** Whatever the parsers return, the configuration check accepts what the converter produces. */
  lemma GeneratedConfigPasses(make: Maker, lines: seq<Text>)
    ensures var nodes := Nodes(make, lines);
            Distinct(Effective(TagsOf(Items(nodes, true))) + Effective(TagsOf(Items(nodes, false))))
  {
    var nodes := Nodes(make, lines);
    forall i, j | 0 <= i < j < |nodes| ensures nodes[i].item.tag != nodes[j].item.tag {
      TagsAreDistinct(make, lines, i, j);
    }
    ListsAreDistinct(nodes);
    TagsAreEffective(make, lines, true);
    TagsAreEffective(make, lines, false);
  }

  lemma TagsAreEffective(make: Maker, lines: seq<Text>, outbound: bool)
    ensures var tags := TagsOf(Items(Nodes(make, lines), outbound)); Effective(tags) == tags
  {
    var nodes := Nodes(make, lines);
    var tags := TagsOf(Items(nodes, outbound));
    NodesMadeWell(make, lines);
    forall i | 0 <= i < |tags| ensures tags[i] != [] {
      assert tags[i] in tags;
      ItemsAreNodes(nodes, outbound, tags[i]);
      var k :| 0 <= k < |nodes| && nodes[k].item.tag == tags[i];
      assert WellMade(nodes, k);
    }
  }
}
