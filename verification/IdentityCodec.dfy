/** The 5G-GUTI mobile identity (section 9.11.3.4 of TS 24.501) and the NSSAI value (section 9.11.3.37). */
module IdentityCodec {
  import opened Octets
  import opened Wrappers

  // ------------------------------------------------------------------------
  // 5G-GUTI. Fields have the widths of the source; shifts and masks are on machine words.
  // ------------------------------------------------------------------------

  datatype Plmn = Plmn(mcc1: bv8, mcc2: bv8, mcc3: bv8, mnc1: bv8, mnc2: bv8, mnc3: bv8)

  datatype Guti = Guti(plmn: Plmn, region: bv8, setId: bv16, pointer: bv8, tmsi: bv32)

  const DEFAULT_GUTI := Guti(Plmn(0, 0, 0, 0, 0, 0), 0, 0, 0, 0)

  function Nibbles(high: bv8, low: bv8): bv8 {
    (high << 4) | low
  }

  function EncodeGuti(g: Guti): (r: seq<bv8>)
    ensures |r| == 11
  {
    [0xf2,
     Nibbles(g.plmn.mcc2, g.plmn.mcc1),
     Nibbles(g.plmn.mnc3, g.plmn.mcc3),
     Nibbles(g.plmn.mnc2, g.plmn.mnc1),
     g.region,
     ((g.setId >> 2) & 0xff) as bv8,
     ((((g.setId & 0x03) << 6) & 0xff) as bv8) | (g.pointer & 0x3f),
     ((g.tmsi >> 24) & 0xff) as bv8,
     ((g.tmsi >> 16) & 0xff) as bv8,
     ((g.tmsi >> 8) & 0xff) as bv8,
     (g.tmsi & 0xff) as bv8]
  }

  function ParseGuti(b: seq<bv8>): Option<Guti> {
    if |b| < 11 then None
    else Some(Guti(
      Plmn(b[1] & 0x0f, (b[1] >> 4) & 0x0f, b[2] & 0x0f, b[3] & 0x0f, (b[3] >> 4) & 0x0f, (b[2] >> 4) & 0x0f),
      b[4],
      ((b[5] as bv16) << 2) | ((b[6] >> 6) as bv16),
      b[6] & 0x3f,
      ((b[7] as bv32) << 24) | ((b[8] as bv32) << 16) | ((b[9] as bv32) << 8) | (b[10] as bv32)))
  }

  predicate Digits(p: Plmn) {
    p.mcc1 < 16 && p.mcc2 < 16 && p.mcc3 < 16 && p.mnc1 < 16 && p.mnc2 < 16 && p.mnc3 < 16
  }

  /** Every field fits the bits the identity reserves for it. */
  predicate Encodable(g: Guti) {
    Digits(g.plmn) && g.setId < 1024 && g.pointer < 64
  }

  lemma NibblesRoundTrip(high: bv8, low: bv8)
    ensures Nibbles(high, low) & 0x0f == low && (Nibbles(high, low) >> 4) & 0x0f == high <==> high < 16 && low < 16
  {
  }

  lemma SetIdRoundTrip(setId: bv16, pointer: bv8)
    ensures var a, b := ((setId >> 2) & 0xff) as bv8, ((((setId & 0x03) << 6) & 0xff) as bv8) | (pointer & 0x3f);
            ((a as bv16) << 2) | ((b >> 6) as bv16) == setId && b & 0x3f == pointer <==> setId < 1024 && pointer < 64
  {
  }

  lemma TmsiRoundTrip(tmsi: bv32)
    ensures ((((tmsi >> 24) & 0xff) as bv8 as bv32) << 24) | ((((tmsi >> 16) & 0xff) as bv8 as bv32) << 16)
            | ((((tmsi >> 8) & 0xff) as bv8 as bv32) << 8) | ((tmsi & 0xff) as bv8 as bv32) == tmsi
  {
  }

  lemma PlmnField(g: Guti)
    ensures ParseGuti(EncodeGuti(g)).Some?
    ensures ParseGuti(EncodeGuti(g)).value.plmn == g.plmn <==> Digits(g.plmn)
    ensures ParseGuti(EncodeGuti(g)).value.region == g.region
  {
    NibblesRoundTrip(g.plmn.mcc2, g.plmn.mcc1);
    NibblesRoundTrip(g.plmn.mnc3, g.plmn.mcc3);
    NibblesRoundTrip(g.plmn.mnc2, g.plmn.mnc1);
  }

  lemma SetIdField(g: Guti)
    ensures var p := ParseGuti(EncodeGuti(g));
            p.Some? && (p.value.setId == g.setId && p.value.pointer == g.pointer <==> g.setId < 1024 && g.pointer < 64)
  {
    SetIdRoundTrip(g.setId, g.pointer);
  }

  lemma TmsiField(g: Guti)
    ensures ParseGuti(EncodeGuti(g)).Some? && ParseGuti(EncodeGuti(g)).value.tmsi == g.tmsi
  {
    TmsiRoundTrip(g.tmsi);
  }

  /** parse_guti undoes encode_guti exactly on the GUTIs whose fields fit. */
  lemma GutiRoundTrip(g: Guti)
    ensures ParseGuti(EncodeGuti(g)) == Some(g) <==> Encodable(g)
  {
    PlmnField(g);
    SetIdField(g);
    TmsiField(g);
  }

  /** The octet holds two digits, the first in its low half. */
  predicate HoldsDigits(octet: bv8, low: bv8, high: bv8) {
    octet & 0x0f == low && octet >> 4 == high
  }

  /** Two octets hold ten bits of set id and six of pointer. */
  predicate HoldsSetId(a: bv8, b: bv8, setId: bv16, pointer: bv8) {
    (a as bv16) * 4 + ((b >> 6) as bv16) == setId && b & 0x3f == pointer
  }

  /** Four octets hold the TMSI from the top down. */
  predicate HoldsTmsi(a: bv8, b: bv8, c: bv8, d: bv8, tmsi: bv32) {
    (a as bv32) * 0x1000000 + (b as bv32) * 0x10000 + (c as bv32) * 0x100 + (d as bv32) == tmsi
  }

  /** Where the fields of a GUTI that fits stand: the identity type, the digits of MCC and MNC, the region, set id and
      pointer, and the TMSI. */
  lemma GutiOctets(g: Guti)
    requires Encodable(g)
    ensures var r, p := EncodeGuti(g), g.plmn;
            && r[0] == 0xf2 && r[4] == g.region
            && HoldsDigits(r[1], p.mcc1, p.mcc2) && HoldsDigits(r[2], p.mcc3, p.mnc3)
            && HoldsDigits(r[3], p.mnc1, p.mnc2)
            && HoldsSetId(r[5], r[6], g.setId, g.pointer) && HoldsTmsi(r[7], r[8], r[9], r[10], g.tmsi)
  {
    hide HoldsDigits, HoldsSetId, HoldsTmsi, Nibbles;
    NibbleOctet(g.plmn.mcc2, g.plmn.mcc1);
    NibbleOctet(g.plmn.mnc3, g.plmn.mcc3);
    NibbleOctet(g.plmn.mnc2, g.plmn.mnc1);
    SetIdOctets(g.setId, g.pointer);
    TmsiOctets(g.tmsi);
  }

  lemma NibbleOctet(high: bv8, low: bv8)
    requires high < 16 && low < 16
    ensures HoldsDigits(Nibbles(high, low), low, high)
  {
  }

  lemma SetIdOctets(setId: bv16, pointer: bv8)
    requires setId < 1024 && pointer < 64
    ensures HoldsSetId(((setId >> 2) & 0xff) as bv8, ((((setId & 0x03) << 6) & 0xff) as bv8) | (pointer & 0x3f),
                       setId, pointer)
  {
  }

  lemma TmsiOctets(tmsi: bv32)
    ensures HoldsTmsi(((tmsi >> 24) & 0xff) as bv8, ((tmsi >> 16) & 0xff) as bv8, ((tmsi >> 8) & 0xff) as bv8,
                      (tmsi & 0xff) as bv8, tmsi)
  {
  }

  lemma UnpackNibbles(b: bv8)
    ensures Nibbles((b >> 4) & 0x0f, b & 0x0f) == b
  {
  }

  lemma UnpackSetId(a: bv8, b: bv8)
    ensures var setId := ((a as bv16) << 2) | ((b >> 6) as bv16);
            ((setId >> 2) & 0xff) as bv8 == a && ((((setId & 0x03) << 6) & 0xff) as bv8) | (b & 0x3f & 0x3f) == b
  {
  }

  lemma UnpackTmsi(a: bv8, b: bv8, c: bv8, d: bv8)
    ensures var t := ((a as bv32) << 24) | ((b as bv32) << 16) | ((c as bv32) << 8) | (d as bv32);
            && ((t >> 24) & 0xff) as bv8 == a && ((t >> 16) & 0xff) as bv8 == b
            && ((t >> 8) & 0xff) as bv8 == c && (t & 0xff) as bv8 == d
  {
  }

  /** Re-encoding a parsed identity gives the buffer back exactly when it is 11 octets that start with 0xf2. */
  lemma GutiReencodes(b: seq<bv8>)
    requires |b| >= 11
    ensures ParseGuti(b).Some?
    ensures EncodeGuti(ParseGuti(b).value) == b <==> |b| == 11 && b[0] == 0xf2
  {
    ReencodePlmn(b);
    ReencodeSetId(b);
    ReencodeTmsi(b);
    Pieces(EncodeGuti(ParseGuti(b).value), b);
  }

  lemma Pieces(r: seq<bv8>, b: seq<bv8>)
    requires |r| == 11 && |b| >= 11 && r[0] == 0xf2
    requires r[1..5] == b[1..5] && r[5] == b[5] && r[6] == b[6] && r[7..11] == b[7..11]
    ensures r == b <==> |b| == 11 && b[0] == 0xf2
  {
    assert r == [r[0]] + r[1..5] + [r[5], r[6]] + r[7..11];
    assert b[..11] == [b[0]] + b[1..5] + [b[5], b[6]] + b[7..11];
    if |b| == 11 {
      assert b[..11] == b;
    }
  }

  lemma ReencodePlmn(b: seq<bv8>)
    requires |b| >= 11
    ensures EncodeGuti(ParseGuti(b).value)[1..5] == b[1..5]
  {
    UnpackNibbles(b[1]);
    UnpackNibbles(b[2]);
    UnpackNibbles(b[3]);
  }

  lemma ReencodeSetId(b: seq<bv8>)
    requires |b| >= 11
    ensures EncodeGuti(ParseGuti(b).value)[5] == b[5] && EncodeGuti(ParseGuti(b).value)[6] == b[6]
  {
    var x, y := b[5], b[6];
    var g := ParseGuti(b).value;
    assert g.setId == ((x as bv16) << 2) | ((y >> 6) as bv16) && g.pointer == y & 0x3f;
    UnpackSetId(x, y);
    assert ((g.setId >> 2) & 0xff) as bv8 == x;
    assert ((((g.setId & 0x03) << 6) & 0xff) as bv8) | (g.pointer & 0x3f) == y;
  }

  lemma ReencodeTmsi(b: seq<bv8>)
    requires |b| >= 11
    ensures EncodeGuti(ParseGuti(b).value)[7..11] == b[7..11]
  {
    UnpackTmsi(b[7], b[8], b[9], b[10]);
  }

  // ------------------------------------------------------------------------
  // NSSAI
  // ------------------------------------------------------------------------

  datatype SNssai = SNssai(sst: Octet, sd: Option<U32>)

  /** One S-NSSAI with its length octet; the source keeps only the low 24 bits of the SD. */
  function EncodeSlice(s: SNssai): (r: seq<Octet>)
    ensures |r| == if s.sd.Some? then 5 else 2
  {
    match s.sd
    case Some(sd) => [4, s.sst] + BigEndian(sd, 3)
    case None => [1, s.sst]
  }

  /** The octets of a slice: the length of what follows, the SST, and the SD from the top down. */
  lemma SliceOctets(s: SNssai)
    ensures EncodeSlice(s)[0] == |EncodeSlice(s)| - 1 && EncodeSlice(s)[1] == s.sst
    ensures s.sd.Some? ==> EncodeSlice(s)[2..] == ThreeOctets(s.sd.value)
    ensures s.sd.None? ==> EncodeSlice(s)[2..] == []
  {
    if s.sd.Some? {
      BigEndianOctets(s.sd.value);
    }
  }

  /** Slice after slice. */
  function Encoding(slices: seq<SNssai>): seq<Octet> {
    if slices == [] then [] else EncodeSlice(slices[0]) + Encoding(slices[1..])
  }

  lemma {:induction false} EncodingSnoc(slices: seq<SNssai>, s: SNssai)
    ensures Encoding(slices + [s]) == Encoding(slices) + EncodeSlice(s)
  {
    if slices == [] {
    } else {
      EncodingSnoc(slices[1..], s);
      assert (slices + [s])[1..] == slices[1..] + [s];
    }
  }

  method EncodeNssai(slices: seq<SNssai>) returns (data: seq<Octet>)
    ensures data == Encoding(slices)
  {
    data := [];
    for i := 0 to |slices|
      invariant data == Encoding(slices[..i])
    {
      match slices[i].sd {
        case Some(sd) =>
          data := data + [4];
          data := data + [slices[i].sst];
          data := data + BigEndian(sd, 3);
        case None =>
          data := data + [1];
          data := data + [slices[i].sst];
      }
      assert slices[..i + 1] == slices[..i] + [slices[i]];
      EncodingSnoc(slices[..i], slices[i]);
    }
    assert slices[..|slices|] == slices;
  }

  /** The two slices are told apart by nothing but the SD bits above 2^24. */
  predicate SameOnWire(a: SNssai, b: SNssai) {
    a.sst == b.sst && a.sd.Some? == b.sd.Some? && (a.sd.Some? ==> a.sd.value % 0x1000000 == b.sd.value % 0x1000000)
  }

  lemma {:induction false} SliceIsPrefixFree(a: SNssai, b: SNssai, x: seq<Octet>, y: seq<Octet>)
    ensures EncodeSlice(a) + x == EncodeSlice(b) + y <==> SameOnWire(a, b) && x == y
  {
    var p, q := EncodeSlice(a) + x, EncodeSlice(b) + y;
    assert p == EncodeSlice(a) + p[|EncodeSlice(a)|..] && q == EncodeSlice(b) + q[|EncodeSlice(b)|..];
    assert p[0] == EncodeSlice(a)[0] && p[1] == a.sst && q[0] == EncodeSlice(b)[0] && q[1] == b.sst;
    if a.sd.Some? && b.sd.Some? {
      assert p[2..5] == BigEndian(a.sd.value, 3) && q[2..5] == BigEndian(b.sd.value, 3);
      Be24SameIff(a.sd.value, b.sd.value);
    }
  }

  lemma Be24SameIff(m: nat, n: nat)
    ensures BigEndian(m, 3) == BigEndian(n, 3) <==> m % 0x1000000 == n % 0x1000000
  {
    hide BigEndian;
    var a, b := m % 0x1000000, n % 0x1000000;
    Widths();
    BigEndianTruncates(a, m / 0x1000000, 3);
    BigEndianTruncates(b, n / 0x1000000, 3);
    BigEndianReadsBack(a, 3);
    BigEndianReadsBack(b, 3);
  }

  /** The NSSAI value is uniquely decodable: two lists of any length have the same octets exactly when they agree
      slice by slice up to SD bits above 2^24, so lists whose SDs fit 24 bits are never confused. */
  lemma {:induction false} NssaiIsInjective(a: seq<SNssai>, b: seq<SNssai>)
    ensures Encoding(a) == Encoding(b) <==> |a| == |b| && forall i :: 0 <= i < |a| ==> SameOnWire(a[i], b[i])
    decreases |a|
  {
    if a == [] || b == [] {
    } else {
      SliceIsPrefixFree(a[0], b[0], Encoding(a[1..]), Encoding(b[1..]));
      NssaiIsInjective(a[1..], b[1..]);
      if |a| == |b| && forall i :: 0 <= i < |a[1..]| ==> SameOnWire(a[1..][i], b[1..][i]) {
        assert forall i :: 1 <= i < |a| ==> a[i] == a[1..][i - 1] && b[i] == b[1..][i - 1];
      }
    }
  }
}
