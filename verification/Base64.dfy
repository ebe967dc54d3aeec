/**
 The fault tolerant base64 decoder of the share link converter (ray2sing/hb64.go): trim the blanks, complete the
 padding, try the standard alphabet and then the URL-safe one. The library decoder it calls follows RFC 4648 with
 the leniency of the Go implementation: line breaks are skipped and the unused bits of the last symbol are ignored.
 Texts are sequences of bytes, as in the source.
 */
module Base64 {
  import opened Prelude

  type Byte = x: int | 0 <= x < 256
  type Text = seq<Byte>

  datatype Alphabet = Standard | UrlSafe

  const EQUALS: Byte := 61

  // ---- The library's encoding ----

  /** The symbol of a 6-bit value (tables 1 and 2 of RFC 4648). */
  function Symbol(a: Alphabet, v: int): Byte
    requires 0 <= v < 64
  {
    if v < 26 then 65 + v
    else if v < 52 then 71 + v
    else if v < 62 then v - 4
    else if v == 62 then (if a.UrlSafe? then 45 else 43)
    else if a.UrlSafe? then 95 else 47
  }

  /** The 6-bit value of a symbol, or -1. */
  function Value(a: Alphabet, c: Byte): (v: int)
    ensures -1 <= v < 64
    ensures v >= 0 ==> Symbol(a, v) == c
  {
    if 65 <= c <= 90 then c - 65
    else if 97 <= c <= 122 then c - 71
    else if 48 <= c <= 57 then c + 4
    else if c == (if a.UrlSafe? then 45 else 43) then 62
    else if c == (if a.UrlSafe? then 95 else 47) then 63
    else -1
  }

  lemma SymbolHasValue(a: Alphabet, v: int)
    requires 0 <= v < 64
    ensures Value(a, Symbol(a, v)) == v
  {
  }

  /** The two alphabets, as tables 1 and 2 of RFC 4648 list them. */
  lemma AlphabetTable(a: Alphabet, v: int)
    requires 0 <= v < 64
    ensures v < 26 ==> Symbol(a, v) == 'A' as int + v
    ensures 26 <= v < 52 ==> Symbol(a, v) == 'a' as int + v - 26
    ensures 52 <= v < 62 ==> Symbol(a, v) == '0' as int + v - 52
    ensures Symbol(Standard, 62) == '+' as int && Symbol(Standard, 63) == '/' as int
    ensures Symbol(UrlSafe, 62) == '-' as int && Symbol(UrlSafe, 63) == '_' as int
  {
  }

  function Group(a: Alphabet, x: Byte, y: Byte, z: Byte): (r: Text)
    ensures |r| == 4
  {
    [Symbol(a, x / 4), Symbol(a, x % 4 * 16 + y / 16), Symbol(a, y % 16 * 4 + z / 64), Symbol(a, z % 64)]
  }

  function Encode(a: Alphabet, d: Text): (r: Text)
    ensures |r| % 4 == 0
  {
    if d == [] then []
    else if |d| == 1 then Group(a, d[0], 0, 0)[..2] + [EQUALS, EQUALS]
    else if |d| == 2 then Group(a, d[0], d[1], 0)[..3] + [EQUALS]
    else Group(a, d[0], d[1], d[2]) + Encode(a, d[3..])
  }

  /** The three bytes of four 6-bit values. */
  function Bytes(v0: int, v1: int, v2: int, v3: int): (r: Text)
    requires 0 <= v0 < 64 && 0 <= v1 < 64 && 0 <= v2 < 64 && 0 <= v3 < 64
    ensures |r| == 3
  {
    [v0 * 4 + v1 / 16, v1 % 16 * 16 + v2 / 4, v2 % 4 * 64 + v3]
  }

  predicate IsBreak(c: Byte) {
    c == 10 || c == 13
  }

  function WithoutBreaks(t: Text): Text {
    if t == [] then []
    else if IsBreak(t[0]) then WithoutBreaks(t[1..])
    else [t[0]] + WithoutBreaks(t[1..])
  }

  /** Decoding of a text without line breaks: whole groups, padding only in the last one. */
  function DecodeGroups(a: Alphabet, t: Text): Option<Text> {
    if t == [] then Some([])
    else if |t| < 4 || Value(a, t[0]) < 0 || Value(a, t[1]) < 0 then None
    else
      var v0, v1, v2, v3 := Value(a, t[0]), Value(a, t[1]), Value(a, t[2]), Value(a, t[3]);
      if v2 >= 0 && v3 >= 0 then
        match DecodeGroups(a, t[4..])
        case None => None
        case Some(rest) => Some(Bytes(v0, v1, v2, v3) + rest)
      else if |t| == 4 && t[3] == EQUALS && v2 >= 0 then Some(Bytes(v0, v1, v2, 0)[..2])
      else if |t| == 4 && t[3] == EQUALS && t[2] == EQUALS then Some(Bytes(v0, v1, 0, 0)[..1])
      else None
  }

  function Decode(a: Alphabet, t: Text): Option<Text> {
    DecodeGroups(a, WithoutBreaks(t))
  }

  // ---- The repository's decoder ----

  /** The length of the white space character a text starts with, 0 when there is none (UTF-8 of Unicode White_Space). */
  function LeadingSpace(t: Text): (n: nat)
    ensures n <= |t|
  {
    if |t| >= 1 && (9 <= t[0] <= 13 || t[0] == 32) then 1
    else if |t| >= 2 && t[0] == 0xC2 && (t[1] == 0x85 || t[1] == 0xA0) then 2
    else if |t| >= 3 && WideSpace(t[0], t[1], t[2]) then 3
    else 0
  }

  function TrailingSpace(t: Text): (n: nat)
    ensures n <= |t|
  {
    var k := |t|;
    if k >= 1 && (9 <= t[k - 1] <= 13 || t[k - 1] == 32) then 1
    else if k >= 2 && t[k - 2] == 0xC2 && (t[k - 1] == 0x85 || t[k - 1] == 0xA0) then 2
    else if k >= 3 && WideSpace(t[k - 3], t[k - 2], t[k - 1]) then 3
    else 0
  }

  predicate WideSpace(x: Byte, y: Byte, z: Byte) {
    || (x == 0xE1 && y == 0x9A && z == 0x80)
    || (x == 0xE2 && y == 0x80 && (0x80 <= z <= 0x8A || z == 0xA8 || z == 0xA9 || z == 0xAF))
    || (x == 0xE2 && y == 0x81 && z == 0x9F)
    || (x == 0xE3 && y == 0x80 && z == 0x80)
  }

  /** The UTF-8 encoding of a code point of up to three bytes. */
  function Utf8(c: nat): Text
    requires c < 0x10000
  {
    if c < 0x80 then [c]
    else if c < 0x800 then [0xC0 + c / 0x40, 0x80 + c % 0x40]
    else [0xE0 + c / 0x1000, 0x80 + c / 0x40 % 0x40, 0x80 + c % 0x40]
  }

  /** The code points with the Unicode property White_Space. */
  predicate WhiteSpace(c: nat) {
    9 <= c <= 13 || c == 0x20 || c == 0x85 || c == 0xA0 || c == 0x1680 || 0x2000 <= c <= 0x200A || c == 0x2028 || c == 0x2029
    || c == 0x202F || c == 0x205F || c == 0x3000
  }

  /** Exactly the encodings of white space are blanks, at either end. */
  lemma BlanksAreWhiteSpace(c: nat, t: Text)
    requires c < 0x10000 && WhiteSpace(c)
    ensures LeadingSpace(Utf8(c) + t) == |Utf8(c)| && TrailingSpace(t + Utf8(c)) == |Utf8(c)|
  {
  }

  lemma BlanksAreOnlyWhiteSpace(t: Text) returns (c: nat)
    requires LeadingSpace(t) > 0
    ensures c < 0x10000 && WhiteSpace(c) && Utf8(c) <= t && |Utf8(c)| == LeadingSpace(t)
  {
    var x: int, n := t[0], LeadingSpace(t);
    if n == 1 {
      c := x;
    } else {
      var y: int := t[1];
      if n == 2 {
        c := y;
      } else {
        var z: int := t[2];
        c := (x - 0xE0) * 0x1000 + (y - 0x80) * 0x40 + z - 0x80;
      }
    }
  }

  function TrimLeft(t: Text): Text
    decreases |t|
  {
    if LeadingSpace(t) == 0 then t else TrimLeft(t[LeadingSpace(t)..])
  }

  function TrimRight(t: Text): Text
    decreases |t|
  {
    if TrailingSpace(t) == 0 then t else TrimRight(t[..|t| - TrailingSpace(t)])
  }

  function TrimSpace(t: Text): Text {
    TrimRight(TrimLeft(t))
  }

  function CompletePadding(t: Text): Text {
    if |t| % 4 == 0 then t else t + seq(4 - |t| % 4, i => EQUALS)
  }

  datatype Decoded = Decoded(text: Text, ok: bool)

  function DecodeFaultTolerant(raw: Text): Decoded {
    var t := CompletePadding(TrimSpace(raw));
    match Decode(Standard, t)
    case Some(d) => Decoded(d, true)
    case None =>
      match Decode(UrlSafe, t)
      case Some(d) => Decoded(d, true)
      case None => Decoded(t, false)
  }

  function DecodeIfNeeded(raw: Text): Text {
    var r := DecodeFaultTolerant(raw);
    if r.ok then r.text else raw
  }

  // ---- Round trips ----

  /** A text of blanks only. */
  predicate Blank(t: Text)
    decreases |t|
  {
    t == [] || (LeadingSpace(t) > 0 && Blank(t[LeadingSpace(t)..]))
  }

  lemma BlankIsLeading(pre: Text, t: Text)
    requires LeadingSpace(pre) > 0
    ensures LeadingSpace(pre + t) == LeadingSpace(pre)
    ensures (pre + t)[LeadingSpace(pre)..] == pre[LeadingSpace(pre)..] + t
  {
  }

  lemma {:induction false} BlankIsTrimmedLeft(pre: Text, t: Text)
    requires Blank(pre)
    ensures TrimLeft(pre + t) == TrimLeft(t)
    decreases |pre|
  {
    if pre == [] {
      assert pre + t == t;
    } else {
      BlankIsLeading(pre, t);
      BlankIsTrimmedLeft(pre[LeadingSpace(pre)..], t);
    }
  }

  lemma BlankIsTrailing(t: Text, u: Text)
    requires LeadingSpace(u) == |u| > 0
    ensures TrailingSpace(t + u) == |u| && (t + u)[..|t|] == t
  {
  }

  lemma {:induction false} BlankIsTrimmedRight(t: Text, post: Text)
    requires Blank(post)
    ensures TrimRight(t + post) == TrimRight(t)
    decreases |post|
  {
    if post == [] {
      assert t + post == t;
    } else {
      var u := post[..LeadingSpace(post)];
      assert t + post == (t + u) + post[|u|..];
      BlankIsTrimmedRight(t + u, post[|u|..]);
      BlankIsTrailing(t, u);
    }
  }

  /** A byte of one of the alphabets, a padding byte or a line break. */
  predicate Legal(c: Byte) {
    Value(Standard, c) >= 0 || Value(UrlSafe, c) >= 0 || c == EQUALS || IsBreak(c)
  }

  lemma {:induction false} EncodingIsPlain(a: Alphabet, d: Text, i: nat)
    requires i < |Encode(a, d)|
    ensures Value(a, Encode(a, d)[i]) >= 0 || Encode(a, d)[i] == EQUALS
    decreases |d|
  {
    if |d| >= 3 && i >= 4 {
      EncodingIsPlain(a, d[3..], i - 4);
    }
  }

  lemma {:induction false} NoBreaks(t: Text)
    requires forall i :: 0 <= i < |t| ==> !IsBreak(t[i])
    ensures WithoutBreaks(t) == t
  {
    if t != [] {
      NoBreaks(t[1..]);
    }
  }

  lemma Repack(x: Byte, y: Byte, z: Byte)
    ensures Bytes(x / 4, x % 4 * 16 + y / 16, y % 16 * 4 + z / 64, z % 64) == [x, y, z]
    ensures Bytes(x / 4, x % 4 * 16 + y / 16, y % 16 * 4, 0) == [x, y, 0]
    ensures Bytes(x / 4, x % 4 * 16, 0, 0) == [x, 0, 0]
  {
  }

  lemma GroupValues(a: Alphabet, x: Byte, y: Byte, z: Byte)
    ensures var g := Group(a, x, y, z);
            && Value(a, g[0]) == x / 4 && Value(a, g[1]) == x % 4 * 16 + y / 16
            && Value(a, g[2]) == y % 16 * 4 + z / 64 && Value(a, g[3]) == z % 64
  {
    SymbolHasValue(a, x / 4);
    SymbolHasValue(a, x % 4 * 16 + y / 16);
    SymbolHasValue(a, y % 16 * 4 + z / 64);
    SymbolHasValue(a, z % 64);
  }

  /** A whole group decodes to its bytes, and the rest follows. */
  lemma DecodeGroup(a: Alphabet, x: Byte, y: Byte, z: Byte, rest: Text)
    ensures DecodeGroups(a, Group(a, x, y, z) + rest)
         == match DecodeGroups(a, rest) { case None => None case Some(d) => Some([x, y, z] + d) }
  {
    GroupValues(a, x, y, z);
    Repack(x, y, z);
    assert (Group(a, x, y, z) + rest)[4..] == rest;
  }

  lemma TailRoundTrip(a: Alphabet, d: Text)
    requires 1 <= |d| <= 2
    ensures DecodeGroups(a, Encode(a, d)) == Some(d)
  {
    var y := if |d| == 2 then d[1] else 0;
    GroupValues(a, d[0], y, 0);
    Repack(d[0], y, 0);
    if |d| == 2 {
      assert [d[0], y, 0][..2] == d;
    } else {
      assert [d[0], 0, 0][..1] == d;
    }
  }

  lemma {:induction false} GroupsRoundTrip(a: Alphabet, d: Text)
    ensures DecodeGroups(a, Encode(a, d)) == Some(d)
    decreases |d|
  {
    if 1 <= |d| <= 2 {
      TailRoundTrip(a, d);
    } else if |d| >= 3 {
      GroupsRoundTrip(a, d[3..]);
      DecodeGroup(a, d[0], d[1], d[2], Encode(a, d[3..]));
      assert d == [d[0], d[1], d[2]] + d[3..];
    }
  }

  /** Decoding inverts encoding, for every byte string and both alphabets. */
  lemma RoundTrip(a: Alphabet, d: Text)
    ensures Decode(a, Encode(a, d)) == Some(d)
  {
    forall i | 0 <= i < |Encode(a, d)|
      ensures !IsBreak(Encode(a, d)[i])
    {
      EncodingIsPlain(a, d, i);
    }
    NoBreaks(Encode(a, d));
    GroupsRoundTrip(a, d);
  }

  /** How many padding bytes the encoding of n bytes carries. */
  function Pads(n: nat): nat {
    if n % 3 == 0 then 0 else 3 - n % 3
  }

  lemma {:induction false} PadsAreLast(a: Alphabet, d: Text)
    ensures var e := Encode(a, d);
            Pads(|d|) <= |e| && forall i :: |e| - Pads(|d|) <= i < |e| ==> e[i] == EQUALS
    decreases |d|
  {
    if |d| >= 3 {
      PadsAreLast(a, d[3..]);
      var g := Group(a, d[0], d[1], d[2]);
      assert Pads(|d|) == Pads(|d[3..]|) && Encode(a, d) == g + Encode(a, d[3..]);
    }
  }

  lemma PadsComeBack(e: Text, cut: nat)
    requires |e| % 4 == 0 && cut < 4 && cut <= |e| && forall i :: |e| - cut <= i < |e| ==> e[i] == EQUALS
    ensures CompletePadding(e[..|e| - cut]) == e
  {
    if cut > 0 {
      assert (|e| - cut) % 4 == 4 - cut;
    }
  }

  /** Completing the padding restores an encoding from which some or all of the padding was cut. */
  lemma PaddingRestored(a: Alphabet, d: Text, cut: nat)
    requires cut <= Pads(|d|)
    ensures |Encode(a, d)| >= cut && CompletePadding(Encode(a, d)[..|Encode(a, d)| - cut]) == Encode(a, d)
  {
    PadsAreLast(a, d);
    PadsComeBack(Encode(a, d), cut);
  }

  /** Where both alphabets can read a text, they read the same. */
  lemma {:induction false} AlphabetsAgree(t: Text)
    requires DecodeGroups(Standard, t).Some? && DecodeGroups(UrlSafe, t).Some?
    ensures DecodeGroups(Standard, t) == DecodeGroups(UrlSafe, t)
  {
    if |t| >= 4 && Value(Standard, t[2]) >= 0 && Value(Standard, t[3]) >= 0 {
      AlphabetsAgree(t[4..]);
    }
  }

  /** Whatever either alphabet reads is what the decoder returns: trying the standard one first changes nothing. */
  lemma EitherAlphabet(raw: Text, a: Alphabet)
    requires Decode(a, CompletePadding(TrimSpace(raw))).Some?
    ensures DecodeFaultTolerant(raw) == Decoded(Decode(a, CompletePadding(TrimSpace(raw))).value, true)
  {
    var t := CompletePadding(TrimSpace(raw));
    if Decode(Standard, t).Some? && Decode(UrlSafe, t).Some? {
      AlphabetsAgree(WithoutBreaks(t));
    }
  }

  /** A byte that is neither a blank nor part of one. */
  predicate Visible(c: Byte) {
    32 < c < 128
  }

  lemma PlainIsVisible(a: Alphabet, c: Byte)
    requires Value(a, c) >= 0 || c == EQUALS
    ensures Visible(c)
  {
  }

  lemma VisibleStart(t: Text)
    requires t != [] && Visible(t[0])
    ensures TrimLeft(t) == t
  {
  }

  lemma VisibleEnd(t: Text)
    requires t != [] && Visible(t[|t| - 1])
    ensures TrimRight(t) == t
  {
  }

  lemma BlankTrimsToNothing(t: Text)
    requires Blank(t)
    ensures TrimLeft(t) == []
  {
    BlankIsTrimmedLeft(t, []);
    assert t + [] == t;
  }

  lemma TrimmedAway(pre: Text, post: Text)
    requires Blank(pre) && Blank(post)
    ensures TrimSpace(pre + post) == []
  {
    assert TrimLeft(pre + post) == [] by {
      BlankIsTrimmedLeft(pre, post);
      BlankTrimsToNothing(post);
    }
  }

  lemma TrimmedBetween(pre: Text, e: Text, post: Text)
    requires Blank(pre) && Blank(post) && e != [] && Visible(e[0]) && Visible(e[|e| - 1])
    ensures TrimSpace(pre + (e + post)) == e
  {
    BlankIsTrimmedLeft(pre, e + post);
    VisibleStart(e + post);
    BlankIsTrimmedRight(e, post);
    VisibleEnd(e);
  }

  /** `raw` is an encoding of `d` with blanks around it and `cut` bytes of its padding left out. */
  predicate IsWriting(raw: Text, a: Alphabet, d: Text, cut: nat, pre: Text, post: Text) {
    && cut <= Pads(|d|) <= |Encode(a, d)| && Blank(pre) && Blank(post)
    && raw == pre + (Encode(a, d)[..|Encode(a, d)| - cut] + post)
  }

  lemma EncodingIsTrimmed(raw: Text, a: Alphabet, d: Text, cut: nat, pre: Text, post: Text)
    requires IsWriting(raw, a, d, cut, pre, post)
    ensures TrimSpace(raw) == Encode(a, d)[..|Encode(a, d)| - cut]
  {
    var e := Encode(a, d)[..|Encode(a, d)| - cut];
    if e != [] {
      EncodingIsPlain(a, d, 0);
      EncodingIsPlain(a, d, |e| - 1);
      PlainIsVisible(a, e[0]);
      PlainIsVisible(a, e[|e| - 1]);
      TrimmedBetween(pre, e, post);
    } else {
      TrimmedAway(pre, post);
      assert e + post == post;
    }
  }

  lemma EncodingIsRead(raw: Text, a: Alphabet, d: Text)
    requires CompletePadding(TrimSpace(raw)) == Encode(a, d)
    ensures DecodeFaultTolerant(raw) == Decoded(d, true)
  {
    RoundTrip(a, d);
    EitherAlphabet(raw, a);
  }

  /**
   For every byte string: its encoding in either alphabet, with any part of the padding cut off and any blanks
   around it, is decoded to that byte string.
   */
  lemma TolerantRoundTrip(raw: Text, a: Alphabet, d: Text, cut: nat, pre: Text, post: Text)
    requires IsWriting(raw, a, d, cut, pre, post)
    ensures DecodeFaultTolerant(raw) == Decoded(d, true)
  {
    assert CompletePadding(TrimSpace(raw)) == Encode(a, d) by {
      EncodingIsTrimmed(raw, a, d, cut, pre, post);
      PaddingRestored(a, d, cut);
    }
    EncodingIsRead(raw, a, d);
  }

  // ---- What is decoded at all ----

  /** Where the unused bits of an encoding of n bytes sit: its last symbol, when the last group is not full. */
  predicate Spare(n: nat, i: nat) {
    n % 3 != 0 && i == n / 3 * 4 + n % 3
  }

  lemma GroupOfBytes(a: Alphabet, v0: int, v1: int, v2: int, v3: int)
    requires 0 <= v0 < 64 && 0 <= v1 < 64 && 0 <= v2 < 64 && 0 <= v3 < 64
    ensures var b := Bytes(v0, v1, v2, v3);
            Group(a, b[0], b[1], b[2]) == [Symbol(a, v0), Symbol(a, v1), Symbol(a, v2), Symbol(a, v3)]
  {
    var b := Bytes(v0, v1, v2, v3);
    assert b[0] / 4 == v0 && b[0] % 4 * 16 + b[1] / 16 == v1;
    assert b[1] % 16 * 4 + b[2] / 64 == v2 && b[2] % 64 == v3;
  }

  /** The only texts read as d are its encoding and the texts that differ from it in unused bits. */
  lemma {:induction false} OnlyEncodingsAreRead(a: Alphabet, t: Text, i: nat)
    requires DecodeGroups(a, t).Some? && i < |t|
    ensures var d := DecodeGroups(a, t).value;
            |Encode(a, d)| == |t| && (!Spare(|d|, i) ==> t[i] == Encode(a, d)[i])
  {
    if Value(a, t[2]) >= 0 && Value(a, t[3]) >= 0 {
      WholeGroupIsRead(a, t);
      var d := DecodeGroups(a, t[4..]).value;
      if |t| > 4 {
        var j := if i >= 4 then i - 4 else 0;
        OnlyEncodingsAreRead(a, t[4..], j);
        SpareMovesOn(|d|, j);
      }
    } else {
      LastGroupIsRead(a, t, i);
    }
  }

  lemma SpareMovesOn(n: nat, i: nat)
    ensures Spare(n + 3, i + 4) <==> Spare(n, i)
  {
    assert (n + 3) / 3 == n / 3 + 1 && (n + 3) % 3 == n % 3;
  }

  lemma WholeGroupIsRead(a: Alphabet, t: Text)
    requires DecodeGroups(a, t).Some? && |t| >= 4 && Value(a, t[2]) >= 0 && Value(a, t[3]) >= 0
    ensures DecodeGroups(a, t[4..]).Some?
    ensures |DecodeGroups(a, t).value| == 3 + |DecodeGroups(a, t[4..]).value|
    ensures Encode(a, DecodeGroups(a, t).value) == t[..4] + Encode(a, DecodeGroups(a, t[4..]).value)
  {
    var v0, v1, v2, v3 := Value(a, t[0]), Value(a, t[1]), Value(a, t[2]), Value(a, t[3]);
    var d := DecodeGroups(a, t).value;
    assert d[3..] == DecodeGroups(a, t[4..]).value;
    GroupOfBytes(a, v0, v1, v2, v3);
    assert d[..3] == Bytes(v0, v1, v2, v3);
  }

  lemma LastGroupIsRead(a: Alphabet, t: Text, i: nat)
    requires DecodeGroups(a, t).Some? && |t| >= 4 && (Value(a, t[2]) < 0 || Value(a, t[3]) < 0) && i < |t|
    ensures var d := DecodeGroups(a, t).value;
            1 <= |d| <= 2 && |t| == 4 && (i != |d| ==> t[i] == Encode(a, d)[i])
  {
    var v0, v1, v2 := Value(a, t[0]), Value(a, t[1]), Value(a, t[2]);
    GroupOfBytes(a, v0, v1, if v2 >= 0 then v2 else 0, 0);
  }

  lemma {:induction false} ReadIsLegal(a: Alphabet, t: Text, i: nat)
    requires DecodeGroups(a, t).Some? && i < |t|
    ensures Legal(t[i])
  {
    if i >= 4 {
      ReadIsLegal(a, t[4..], i - 4);
    }
  }

  lemma {:induction false} BreaksKeepOthers(t: Text, c: Byte)
    requires c in t && !IsBreak(c)
    ensures c in WithoutBreaks(t)
  {
    if c != t[0] {
      BreaksKeepOthers(t[1..], c);
    }
  }

  /** Line breaks anywhere in a text are ignored. */
  lemma {:induction false} BreaksIgnored(x: Text, y: Text, c: Byte)
    requires c == '\n' as int || c == '\r' as int
    ensures WithoutBreaks(x + [c] + y) == WithoutBreaks(x + y)
  {
    if x == [] {
      assert x + [c] + y == [c] + y && ([c] + y)[1..] == y && x + y == y;
    } else {
      BreaksIgnored(x[1..], y, c);
      assert (x + [c] + y)[1..] == x[1..] + [c] + y && (x + y)[1..] == x[1..] + y;
    }
  }

  /** A text with a byte of neither alphabet inside, such as the colon of a share link, is handed on untouched. */
  lemma LinksAreUntouched(raw: Text, c: Byte)
    requires c in TrimSpace(raw) && !Legal(c)
    ensures DecodeIfNeeded(raw) == raw
  {
    var t := CompletePadding(TrimSpace(raw));
    assert c in t by {
      assert TrimSpace(raw) <= t;
    }
    BreaksKeepOthers(t, c);
    var f := WithoutBreaks(t);
    var i :| 0 <= i < |f| && f[i] == c;
    if DecodeGroups(Standard, f).Some? {
      ReadIsLegal(Standard, f, i);
    }
    if DecodeGroups(UrlSafe, f).Some? {
      ReadIsLegal(UrlSafe, f, i);
    }
  }
}
