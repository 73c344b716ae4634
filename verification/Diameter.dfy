/** The Diameter message and AVP parser (sections 3 and 4.1 of RFC 6733). */
module Diameter {
  import opened Octets
  import opened Wrappers

  datatype Result<+T> = Ok(value: T) | Err(error: string)

  datatype Avp = Avp(code: nat, flags: Octet, vendor: Option<nat>, data: seq<Octet>)

  // ------------------------------------------------------------------------
  // Serialised form: code | flags | length (24 bits) | vendor id, if the V flag is set | data | padding
  // ------------------------------------------------------------------------

  /** The V flag is the highest bit. */
  predicate HasVendor(flags: Octet) {
    flags >= 0x80
  }

  function HeaderLen(flags: Octet): nat {
    if HasVendor(flags) then 12 else 8
  }

  function Len(a: Avp): nat {
    HeaderLen(a.flags) + |a.data|
  }

  function PadLen(len: nat): (p: nat)
    ensures p < 4 && (len + p) % 4 == 0
  {
    (4 - len % 4) % 4
  }

  /** Every field fits its place, and the V flag says whether a vendor id is present. */
  predicate WellFormed(a: Avp) {
    && a.code < 0x100000000
    && (a.vendor.Some? <==> HasVendor(a.flags))
    && (a.vendor.Some? ==> a.vendor.value < 0x100000000)
    && Len(a) < 0x1000000
  }

  /** An AVP without its padding. */
  function Bare(a: Avp): (s: seq<Octet>)
    requires WellFormed(a)
    ensures |s| == Len(a)
  {
    BigEndian(a.code, 4) + [a.flags] + BigEndian(Len(a), 3)
    + (if a.vendor.Some? then BigEndian(a.vendor.value, 4) else []) + a.data
  }

  /** Where the fields of an AVP stand. The V flag, bit 7, says whether a vendor id is there. */
  lemma BareOctets(a: Avp)
    requires WellFormed(a)
    ensures a.vendor.Some? <==> Bit(a.flags, 7) == 1
    ensures Bare(a) == FourOctets(a.code) + [a.flags] + ThreeOctets(|Bare(a)|)
                       + (if a.vendor.Some? then FourOctets(a.vendor.value) else []) + a.data
  {
    BigEndianOctets(a.code);
    BigEndianOctets(Len(a));
    TopBit(a.flags);
    if a.vendor.Some? {
      BigEndianOctets(a.vendor.value);
    }
  }

  function Zeros(n: nat): (s: seq<Octet>)
    ensures |s| == n
  {
    seq(n, _ => 0)
  }

  function Serialise(avps: seq<Avp>): seq<Octet>
    requires forall a :: a in avps ==> WellFormed(a)
  {
    if avps == [] then []
    else Bare(avps[0]) + Zeros(PadLen(Len(avps[0]))) + Serialise(avps[1..])
  }

  // ------------------------------------------------------------------------
  // Reading one AVP
  // ------------------------------------------------------------------------

  /** The AVP at the front of `d`, if a whole one is there. Padding is not looked at. */
  function Front(d: seq<Octet>): (r: Option<Avp>)
    ensures r.Some? ==> WellFormed(r.value) && Len(r.value) <= |d|
  {
    if |d| < 8 then None
    else
      var flags, len := d[4], Read24(d[5..8]);
      if len < HeaderLen(flags) || |d| < len then None
      else Some(Avp(Read32(d[..4]), flags, if HasVendor(flags) then Some(Read32(d[8..12])) else None,
                    d[HeaderLen(flags)..len]))
  }

  /** The parser as a function: AVPs are read until no whole one is left at the front. */
  function Parsed(d: seq<Octet>): (r: seq<Avp>)
    ensures forall a :: a in r ==> WellFormed(a)
    decreases |d|
  {
    match Front(d)
    case None => []
    case Some(a) => [a] + Parsed(Rest(d, a))
  }

  /** What follows an AVP and its padding; the last padding may be cut short. */
  function Rest(d: seq<Octet>, a: Avp): (r: seq<Octet>)
    requires Len(a) <= |d|
    ensures |r| < |d|
  {
    var n := Len(a) + PadLen(Len(a));
    if n <= |d| then d[n..] else []
  }

  /** The front of `d` is a given AVP exactly when that AVP is well formed and its octets are a prefix of `d`. */
  lemma FrontIffPrefix(d: seq<Octet>, a: Avp)
    ensures Front(d) == Some(a) <==> WellFormed(a) && Bare(a) <= d
  {
    if WellFormed(a) && Bare(a) <= d {
      BareReadsBack(d, a);
    }
    if Front(d) == Some(a) {
      FrontWritesBack(d, a);
    }
  }

  lemma BareReadsBack(d: seq<Octet>, a: Avp)
    requires WellFormed(a) && Bare(a) <= d
    ensures Front(d) == Some(a)
  {
    BareParts(a);
    var b := Bare(a);
    assert d[..4] == b[..4] && d[4] == b[4] && d[5..8] == b[5..8];
    assert d[HeaderLen(a.flags)..Len(a)] == b[HeaderLen(a.flags)..Len(a)];
    if a.vendor.Some? {
      assert d[8..12] == b[8..12];
    }
  }

  lemma BareParts(a: Avp)
    requires WellFormed(a)
    ensures var b := Bare(a);
            && Read32(b[..4]) == a.code && b[4] == a.flags && Read24(b[5..8]) == Len(a)
            && (a.vendor.Some? ==> Read32(b[8..12]) == a.vendor.value)
            && b[HeaderLen(a.flags)..Len(a)] == a.data
  {
    var b := Bare(a);
    Widths();
    BigEndianReadsBack(a.code, 4);
    assert b[..4] == BigEndian(a.code, 4);
    BigEndianReadsBack(Len(a), 3);
    assert b[5..8] == BigEndian(Len(a), 3);
    if a.vendor.Some? {
      BigEndianReadsBack(a.vendor.value, 4);
      assert b[8..12] == BigEndian(a.vendor.value, 4);
    }
  }

  lemma FrontWritesBack(d: seq<Octet>, a: Avp)
    requires Front(d) == Some(a)
    ensures Bare(a) == d[..Len(a)]
  {
    BigEndianWritesBack(d[..4]);
    BigEndianWritesBack(d[5..8]);
    if HasVendor(a.flags) {
      BigEndianWritesBack(d[8..12]);
      assert d[..Len(a)] == d[..4] + [d[4]] + d[5..8] + d[8..12] + d[12..Len(a)];
    } else {
      assert d[..Len(a)] == d[..4] + [d[4]] + d[5..8] + d[8..Len(a)];
    }
  }

  // ------------------------------------------------------------------------
  // What the parser promises
  // ------------------------------------------------------------------------

  /** Parsing the padded serialisation of a list gives the list back. */
  lemma {:induction false} ParseUndoesSerialise(avps: seq<Avp>)
    requires forall a :: a in avps ==> WellFormed(a)
    ensures Parsed(Serialise(avps)) == avps
  {
    if avps == [] {
    } else {
      var a, pad, rest := avps[0], Zeros(PadLen(Len(avps[0]))), Serialise(avps[1..]);
      var d := Bare(a) + pad + rest;
      assert d == Bare(a) + (pad + rest);
      BareReadsBack(d, a);
      assert Rest(d, a) == rest;
      ParseUndoesSerialise(avps[1..]);
    }
  }

  /** The list is laid out in `d`: each AVP stands at the front of what its predecessors and their padding leave,
      and no AVP at all stands at the front of what is left at the end. */
  ghost predicate LaidOut(d: seq<Octet>, avps: seq<Avp>)
    decreases |avps|
  {
    if avps == [] then forall a :: WellFormed(a) ==> !(Bare(a) <= d)
    else WellFormed(avps[0]) && Bare(avps[0]) <= d && LaidOut(Rest(d, avps[0]), avps[1..])
  }

  /** For every input the result is the one list laid out in it: nothing is invented, dropped or reordered, and
      parsing stops only where no AVP stands. */
  lemma {:induction false} ParseIsTheLayout(d: seq<Octet>, avps: seq<Avp>)
    ensures LaidOut(d, avps) <==> avps == Parsed(d)
    decreases |d|
  {
    if Front(d).Some? {
      FrontIffPrefix(d, Front(d).value);
    }
    if avps == [] {
      if Front(d).None? {
        forall a | WellFormed(a) ensures !(Bare(a) <= d) {
          FrontIffPrefix(d, a);
        }
      }
    } else {
      FrontIffPrefix(d, avps[0]);
      if Front(d) == Some(avps[0]) {
        ParseIsTheLayout(Rest(d, avps[0]), avps[1..]);
        assert avps == [avps[0]] + avps[1..];
      }
    }
  }

  /** Where AVP `k` starts in a serialisation. */
  function Offset(avps: seq<Avp>, k: nat): nat
    requires k <= |avps|
  {
    if k == 0 then 0 else Len(avps[0]) + PadLen(Len(avps[0])) + Offset(avps[1..], k - 1)
  }

  /** The octets of an AVP stand at offset `at`. */
  predicate StandsAt(s: seq<Octet>, at: nat, a: Avp)
    requires WellFormed(a)
  {
    at + Len(a) <= |s| && s[at..at + Len(a)] == Bare(a)
  }

  lemma StandsFurtherOn(s: seq<Octet>, n: nat, at: nat, a: Avp)
    requires WellFormed(a) && n <= |s| && StandsAt(s[n..], at, a)
    ensures StandsAt(s, n + at, a)
  {
    assert s[n..][at..at + Len(a)] == s[n + at..n + at + Len(a)];
  }

  lemma {:induction false} SerialisedAt(avps: seq<Avp>, k: nat)
    requires (forall a :: a in avps ==> WellFormed(a)) && k < |avps|
    ensures StandsAt(Serialise(avps), Offset(avps, k), avps[k])
    decreases k
  {
    hide Bare;
    var first := Bare(avps[0]) + Zeros(PadLen(Len(avps[0])));
    var tail := Serialise(avps[1..]);
    assert Serialise(avps) == first + tail;
    if k == 0 {
    } else {
      SerialisedAt(avps[1..], k - 1);
      assert Serialise(avps)[|first|..] == tail;
      StandsFurtherOn(Serialise(avps), |first|, Offset(avps[1..], k - 1), avps[k]);
    }
  }

  lemma ParsedFirst(d: seq<Octet>)
    requires Parsed(d) != []
    ensures var a := Parsed(d)[0];
            Len(a) <= |d| && StandsAt(d, 0, a) && Parsed(d)[1..] == Parsed(Rest(d, a))
  {
    FrontWritesBack(d, Parsed(d)[0]);
  }

  lemma ParsedNothing(d: seq<Octet>)
    requires Parsed(d) == []
    ensures Front(d).None?
  {
  }

  lemma ParsedOfNothing()
    ensures Parsed([]) == []
  {
  }

  lemma {:induction false} ParsedAt(d: seq<Octet>, k: nat)
    requires k < |Parsed(d)|
    ensures StandsAt(d, Offset(Parsed(d), k), Parsed(d)[k])
    decreases k
  {
    hide Parsed, Front, Bare, WellFormed, StandsAt;
    ParsedFirst(d);
    ParsedOfNothing();
    var all := Parsed(d);
    var a := all[0];
    var rest := Rest(d, a);
    if k == 0 {
      assert Offset(all, 0) == 0;
    } else {
      var n := Len(a) + PadLen(Len(a));
      assert rest == d[n..];
      ParsedAt(rest, k - 1);
      assert all[k] == all[1..][k - 1] && Offset(all, k) == n + Offset(all[1..], k - 1);
      StandsFurtherOn(d, n, Offset(all[1..], k - 1), all[k]);
    }
  }

  lemma {:induction false} OffsetStep(avps: seq<Avp>, k: nat)
    requires k < |avps|
    ensures Offset(avps, k + 1) == Offset(avps, k) + Len(avps[k]) + PadLen(Len(avps[k]))
  {
    hide Len, PadLen;
    if k == 0 {
      assert Offset(avps[1..], 0) == 0;
    } else {
      OffsetStep(avps[1..], k - 1);
    }
  }

  lemma {:induction false} SerialisedLength(avps: seq<Avp>)
    requires forall a :: a in avps ==> WellFormed(a)
    ensures |Serialise(avps)| == Offset(avps, |avps|)
  {
    hide Bare, PadLen;
    if avps == [] {
    } else {
      SerialisedLength(avps[1..]);
    }
  }

  /** Position `p` is in the padding after some AVP. */
  ghost predicate InPadding(avps: seq<Avp>, p: nat) {
    exists k :: 0 <= k < |avps| && Offset(avps, k) + Len(avps[k]) <= p < Offset(avps, k + 1)
  }

  /** Every position before the end belongs to one AVP and its padding. */
  lemma {:induction false} Located(avps: seq<Avp>, n: nat, p: nat) returns (k: nat)
    requires n <= |avps| && p < Offset(avps, n)
    ensures k < n && Offset(avps, k) <= p < Offset(avps, k + 1)
  {
    if Offset(avps, n - 1) <= p {
      k := n - 1;
    } else {
      k := Located(avps, n - 1, p);
    }
  }

  /** The octets from `offset` on; the padding of the last AVP may lead past the end. */
  function From(data: seq<Octet>, offset: nat): seq<Octet> {
    if offset <= |data| then data[offset..] else []
  }

  /** Nothing that is an AVP follows the last one. */
  lemma {:induction false} ParsedEnds(d: seq<Octet>)
    ensures Front(From(d, Offset(Parsed(d), |Parsed(d)|))).None?
    decreases |d|
  {
    hide Bare, WellFormed, Front, Parsed, PadLen, StandsAt;
    var all := Parsed(d);
    if all == [] {
      ParsedNothing(d);
      assert From(d, 0) == d;
    } else {
      ParsedFirst(d);
      var a := all[0];
      var rest, n, m := Rest(d, a), Len(a) + PadLen(Len(a)), Offset(all[1..], |all| - 1);
      ParsedEnds(rest);
      assert From(rest, m) == From(d, n + m);
    }
  }

  /** Re-serialising the parsed AVPs reproduces the input octet for octet outside the padding, up to the point where no
      AVP follows, which is past the end of the input at most by the padding of the last AVP. */
  lemma ReserialisesUpToPadding(d: seq<Octet>)
    ensures var r, s := Parsed(d), Serialise(Parsed(d));
            && |s| == Offset(r, |r|) < |d| + 4
            && (forall a :: WellFormed(a) ==> !(Bare(a) <= From(d, |s|)))
            && (forall k :: 0 <= k < |r| ==> StandsAt(d, Offset(r, k), r[k]) && StandsAt(s, Offset(r, k), r[k]))
            && (forall p :: 0 <= p < |s| && !InPadding(r, p) ==> p < |d| && d[p] == s[p])
  {
    hide Bare, Front, Parsed, Serialise, WellFormed, StandsAt, InPadding;
    var r := Parsed(d);
    var s := Serialise(r);
    SerialisedLength(r);
    forall k | 0 <= k < |r|
      ensures StandsAt(d, Offset(r, k), r[k]) && StandsAt(s, Offset(r, k), r[k])
    {
      ParsedAt(d, k);
      SerialisedAt(r, k);
    }
    EndsBeforeItsPadding(d);
    ParsedEnds(d);
    forall a | WellFormed(a)
      ensures !(Bare(a) <= From(d, |s|))
    {
      FrontIffPrefix(From(d, |s|), a);
    }
    forall p | 0 <= p < |s| && !InPadding(r, p)
      ensures p < |d| && d[p] == s[p]
    {
      SameOctet(d, p);
    }
  }

  lemma EndsBeforeItsPadding(d: seq<Octet>)
    ensures Offset(Parsed(d), |Parsed(d)|) < |d| + 4
  {
    hide Bare, Parsed, WellFormed;
    var r := Parsed(d);
    if r != [] {
      ParsedAt(d, |r| - 1);
      OffsetStep(r, |r| - 1);
    }
  }

  lemma SameOctet(d: seq<Octet>, p: nat)
    requires p < Offset(Parsed(d), |Parsed(d)|) && !InPadding(Parsed(d), p)
    ensures p < |d| && p < |Serialise(Parsed(d))| && d[p] == Serialise(Parsed(d))[p]
  {
    hide Bare, Parsed, Serialise, WellFormed, Offset;
    var r := Parsed(d);
    var k := Located(r, |r|, p);
    var at := Offset(r, k);
    ParsedAt(d, k);
    SerialisedAt(r, k);
    assert p - at < Len(r[k]);
    assert d[at..at + Len(r[k])][p - at] == d[p];
    assert Serialise(r)[at..at + Len(r[k])][p - at] == Serialise(r)[p];
  }

  // ------------------------------------------------------------------------
  // The code
  // ------------------------------------------------------------------------

  predicate IsGrouped(code: nat) {
    code in {260, 279, 297, 628, 630, 1001, 1002, 1003}
  }

  /** One round of the parsing loop: the AVP at `start` and the offset after its padding, or nothing when the
      loop must stop. */
  method ReadAvp(data: seq<Octet>, start: nat) returns (r: Option<(Avp, nat)>)
    requires start + 8 <= |data|
    ensures r.None? <==> Front(data[start..]).None?
    ensures r.Some? ==> Front(data[start..]) == Some(r.value.0)
    ensures r.Some? ==> r.value.1 == start + Len(r.value.0) + PadLen(Len(r.value.0))
  {
    ghost var d := data[start..];
    var code := Read32(data[start..start + 4]);
    var flags := data[start + 4];
    var hasVendor := flags >= 0x80;
    var avpLen := Read24(data[start + 5..start + 8]);
    var offset := start + 8;
    assert d[..4] == data[start..start + 4] && d[5..8] == data[start + 5..start + 8];
    var minLen := if hasVendor then 12 else 8;
    if avpLen < minLen {
      return None;
    }
    var vendor := None;
    if hasVendor {
      if offset + 4 > |data| {
        return None;
      }
      vendor := Some(Read32(data[offset..offset + 4]));
      assert d[8..12] == data[start + 8..start + 12];
      offset := offset + 4;
    }
    var dataLen := avpLen - minLen;
    if offset + dataLen > |data| {
      return None;
    }
    assert d[minLen..avpLen] == data[offset..offset + dataLen];
    var avp := Avp(code, flags, vendor, data[offset..offset + dataLen]);
    return Some((avp, offset + dataLen + (4 - avpLen % 4) % 4));
  }

  lemma ParsedUnfolds(d: seq<Octet>)
    ensures |d| < 8 ==> Parsed(d) == []
    ensures Front(d).None? ==> Parsed(d) == []
    ensures Front(d).Some? ==> Parsed(d) == [Front(d).value] + Parsed(Rest(d, Front(d).value))
  {
  }

  method ParseAvps(data: seq<Octet>) returns (avps: seq<Avp>)
    ensures avps == Parsed(data)
    decreases |data|
  {
    hide Front, Bare, WellFormed, Parsed, PadLen;
    avps := [];
    var offset := 0;
    while offset + 8 <= |data|
      invariant avps + Parsed(From(data, offset)) == Parsed(data)
      decreases |data| - offset
    {
      var next := ReadAvp(data, offset);
      ParsedUnfolds(data[offset..]);
      if next.None? {
        return;
      }
      var (avp, after) := next.value;
      assert From(data, after) == Rest(data[offset..], avp);
      assert (avps + [avp]) + Parsed(From(data, after)) == avps + Parsed(data[offset..]);
      avps, offset := avps + [avp], after;
      if IsGrouped(avp.code) && avp.data != [] {
        var _ := ParseAvps(avp.data);
      }
    }
    ParsedUnfolds(From(data, offset));
  }

  // ------------------------------------------------------------------------
  // Messages
  // ------------------------------------------------------------------------

  datatype Message = Message(
    flags: Octet, command: nat, application: nat, hopByHop: nat, endToEnd: nat, avps: seq<Avp>)

  /** Every field of the header fits its place. */
  predicate FieldsFit(m: Message) {
    && m.command < 0x1000000 && m.application < 0x100000000
    && m.hopByHop < 0x100000000 && m.endToEnd < 0x100000000
  }

  predicate WellFormedMessage(m: Message) {
    FieldsFit(m) && (forall a :: a in m.avps ==> WellFormed(a)) && 20 + |Serialise(m.avps)| < 0x1000000
  }

  function HeaderStart(m: Message, len: nat): (h: seq<Octet>)
    requires FieldsFit(m) && len < 0x1000000
    ensures |h| == 8
  {
    [1] + BigEndian(len, 3) + [m.flags] + BigEndian(m.command, 3)
  }

  function Identifiers(m: Message): (h: seq<Octet>)
    requires FieldsFit(m)
    ensures |h| == 12
  {
    BigEndian(m.application, 4) + BigEndian(m.hopByHop, 4) + BigEndian(m.endToEnd, 4)
  }

  /** The header of a message of `len` octets: version 1 | length | flags | command | the three identifiers. */
  function Header(m: Message, len: nat): (h: seq<Octet>)
    requires FieldsFit(m) && len < 0x1000000
    ensures |h| == 20
  {
    HeaderStart(m, len) + Identifiers(m)
  }

  /** Where the fields of the header stand. */
  lemma HeaderOctets(m: Message, len: nat)
    requires FieldsFit(m) && len < 0x1000000
    ensures Header(m, len)
            == ([1] + ThreeOctets(len) + [m.flags] + ThreeOctets(m.command))
               + (FourOctets(m.application) + FourOctets(m.hopByHop) + FourOctets(m.endToEnd))
  {
    hide BigEndian, ThreeOctets, FourOctets;
    BigEndianOctets(len);
    BigEndianOctets(m.command);
    BigEndianOctets(m.application);
    BigEndianOctets(m.hopByHop);
    BigEndianOctets(m.endToEnd);
  }

  /** The first `len` octets are the message: its header, and its AVPs laid out in what remains. */
  ghost predicate MessageAt(d: seq<Octet>, len: nat, m: Message) {
    && 20 <= len < 0x1000000 && len <= |d|
    && FieldsFit(m) && Header(m, len) <= d
    && LaidOut(d[20..len], m.avps)
  }

  function ParsedMessage(d: seq<Octet>): Result<Message> {
    if |d| < 20 then Err("Too short for Diameter header")
    else if d[0] != 1 then Err("Unsupported Diameter version")
    else
      var len := Read24(d[1..4]);
      if len < 20 then Err("Invalid message length")
      else if |d| < len then Err("Message truncated")
      else Ok(Message(d[4], Read24(d[5..8]), Read32(d[8..12]), Read32(d[12..16]), Read32(d[16..20]),
                      Parsed(d[20..len])))
  }

  lemma HeaderReadsBack(d: seq<Octet>, len: nat, m: Message)
    requires FieldsFit(m) && len < 0x1000000 && Header(m, len) <= d
    ensures d[0] == 1 && d[4] == m.flags && Read24(d[1..4]) == len && Read24(d[5..8]) == m.command
    ensures Read32(d[8..12]) == m.application && Read32(d[12..16]) == m.hopByHop && Read32(d[16..20]) == m.endToEnd
  {
    HeaderStartParts(m, len);
    IdentifiersParts(m);
    var h, ids := HeaderStart(m, len), Identifiers(m);
    assert d[..20] == h + ids;
    assert d[1..4] == h[1..4] && d[5..8] == h[5..8];
    assert d[8..12] == ids[..4] && d[12..16] == ids[4..8] && d[16..20] == ids[8..12];
  }

  lemma HeaderWritesBack(d: seq<Octet>, m: Message)
    requires |d| >= 20 && d[0] == 1 && d[4] == m.flags && Read24(d[5..8]) == m.command
    requires Read32(d[8..12]) == m.application && Read32(d[12..16]) == m.hopByHop && Read32(d[16..20]) == m.endToEnd
    ensures FieldsFit(m) && Read24(d[1..4]) < 0x1000000 && Header(m, Read24(d[1..4])) <= d
  {
    BigEndianWritesBack(d[1..4]);
    BigEndianWritesBack(d[5..8]);
    BigEndianWritesBack(d[8..12]);
    BigEndianWritesBack(d[12..16]);
    BigEndianWritesBack(d[16..20]);
    assert HeaderStart(m, Read24(d[1..4])) == d[..8];
    assert Identifiers(m) == d[8..20];
    assert Header(m, Read24(d[1..4])) == d[..20];
  }

  /** For every input, a message is the result exactly when it stands at the front of the input. */
  lemma ParsedMessageIff(d: seq<Octet>, m: Message)
    ensures ParsedMessage(d) == Ok(m) <==> exists len: nat :: MessageAt(d, len, m)
  {
    hide Header, LaidOut, Parsed;
    if len: nat :| MessageAt(d, len, m) {
      HeaderReadsBack(d, len, m);
      ParseIsTheLayout(d[20..len], m.avps);
    }
    if ParsedMessage(d) == Ok(m) {
      HeaderWritesBack(d, m);
      ParseIsTheLayout(d[20..Read24(d[1..4])], m.avps);
      assert MessageAt(d, Read24(d[1..4]), m);
    }
  }

  /** The result is the message that stands at the front of the input; without one, the error says which of the four
      conditions on the header fails first. */
  method ParseMessage(d: seq<Octet>) returns (r: Result<Message>)
    ensures forall len: nat, m :: MessageAt(d, len, m) ==> r == Ok(m)
    ensures r.Ok? ==> exists len: nat :: MessageAt(d, len, r.value)
    ensures r == Err("Too short for Diameter header") <==> |d| < 20
    ensures r == Err("Unsupported Diameter version") <==> |d| >= 20 && d[0] != 1
    ensures r == Err("Invalid message length") <==> |d| >= 20 && d[0] == 1 && Read24(d[1..4]) < 20
    ensures r == Err("Message truncated") <==> |d| >= 20 && d[0] == 1 && Read24(d[1..4]) > |d|
    ensures r == ParsedMessage(d)
  {
    hide MessageAt;
    forall len: nat, m | MessageAt(d, len, m)
      ensures ParsedMessage(d) == Ok(m)
    {
      ParsedMessageIff(d, m);
    }
    if ParsedMessage(d).Ok? {
      ParsedMessageIff(d, ParsedMessage(d).value);
    }
    if |d| < 20 {
      return Err("Too short for Diameter header");
    }
    if d[0] != 1 {
      return Err("Unsupported Diameter version");
    }
    var len := Read24(d[1..4]);
    if len < 20 {
      return Err("Invalid message length");
    }
    if |d| < len {
      return Err("Message truncated");
    }
    var avps := ParseAvps(d[20..len]);
    return Ok(Message(d[4], Read24(d[5..8]), Read32(d[8..12]), Read32(d[12..16]), Read32(d[16..20]), avps));
  }

  lemma HeaderStartParts(m: Message, len: nat)
    requires FieldsFit(m) && len < 0x1000000
    ensures var h := HeaderStart(m, len);
            && h[0] == 1 && h[4] == m.flags && Read24(h[1..4]) == len && Read24(h[5..8]) == m.command
  {
    var h := HeaderStart(m, len);
    Widths();
    BigEndianReadsBack(len, 3);
    BigEndianReadsBack(m.command, 3);
    assert h[1..4] == BigEndian(len, 3) && h[5..8] == BigEndian(m.command, 3);
  }

  lemma IdentifiersParts(m: Message)
    requires FieldsFit(m)
    ensures var h := Identifiers(m);
            && Read32(h[..4]) == m.application && Read32(h[4..8]) == m.hopByHop && Read32(h[8..12]) == m.endToEnd
  {
    var h := Identifiers(m);
    Widths();
    BigEndianReadsBack(m.application, 4);
    BigEndianReadsBack(m.hopByHop, 4);
    BigEndianReadsBack(m.endToEnd, 4);
    assert h[..4] == BigEndian(m.application, 4) && h[4..8] == BigEndian(m.hopByHop, 4);
    assert h[8..12] == BigEndian(m.endToEnd, 4);
  }

  /** A serialised message, whatever octets follow it in the buffer, parses back to itself. */
  lemma MessageRoundTrip(m: Message, trailing: seq<Octet>)
    requires WellFormedMessage(m)
    ensures ParsedMessage(Header(m, 20 + |Serialise(m.avps)|) + Serialise(m.avps) + trailing) == Ok(m)
  {
    hide Header, Parsed, LaidOut;
    var body := Serialise(m.avps);
    var len := 20 + |body|;
    var d := Header(m, len) + body + trailing;
    assert d[20..len] == body;
    ParseUndoesSerialise(m.avps);
    ParseIsTheLayout(body, m.avps);
    assert MessageAt(d, len, m);
    ParsedMessageIff(d, m);
  }
}
