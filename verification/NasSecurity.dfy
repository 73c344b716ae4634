/** NAS message protection of one UE (section 4.4.3 of TS 24.501): the hand-rolled encoder and decoder
    of nas_security.rs, their state, and the value-level functions that specify them.

    The integrity and ciphering primitives are parameters: every theorem holds for every choice of
    MAC function and keystream. Ciphering is exclusive-or with the keystream. */
module NasSecurity {
  import opened Octets

  type Mac = m: seq<Octet> | |m| == 4 witness [0, 0, 0, 0]

  const NULL_MAC: Mac := [0, 0, 0, 0]

  datatype Direction = Uplink | Downlink

  datatype CipherInput = CipherInput(
    algorithm: Octet, key: seq<Octet>, count: U32, bearer: Octet, direction: Direction)

  /** The primitives behind algorithm identities 1, 2 and 3. */
  datatype Crypto = Crypto(
    mac: (CipherInput, seq<Octet>) -> Mac,
    keystream: (CipherInput, nat) -> Octet)

  // Security header types (gmm_build.rs)
  const PLAIN: Octet := 0
  const INTEGRITY: Octet := 1
  const INTEGRITY_CIPHERED: Octet := 2
  const INTEGRITY_NEW: Octet := 3
  const INTEGRITY_CIPHERED_NEW: Octet := 4

  datatype Flags = Flags(integrity: bool, newContext: bool, ciphered: bool)

  function FlagsOf(sht: Octet): (f: Flags)
    ensures f.integrity <==> 1 <= sht <= 4
    ensures f.newContext <==> sht == 3 || sht == 4
    ensures f.ciphered <==> sht == 2 || sht == 4
  {
    if sht == INTEGRITY then Flags(true, false, false)
    else if sht == INTEGRITY_CIPHERED then Flags(true, false, true)
    else if sht == INTEGRITY_NEW then Flags(true, true, false)
    else if sht == INTEGRITY_CIPHERED_NEW then Flags(true, true, true)
    else Flags(false, false, false)
  }

  datatype Error = MessageTooShort | EmptyPayload | MacVerificationFailed

  datatype Outcome = Delivered(body: seq<Octet>) | Refused(error: Error)

  /** The selected algorithms, their keys, and the access the bearer is derived from. */
  datatype Keys = Keys(
    encAlgorithm: Octet, intAlgorithm: Octet, knasEnc: seq<Octet>, knasInt: seq<Octet>, accessType: Octet)

  /** The security fields of AmfUe. */
  datatype Security = Security(
    contextAvailable: bool, macFailed: bool, keys: Keys,
    dlCount: U32, ulCount: U32, ulEstablished: bool)

  // ------------------------------------------------------------------------
  // Primitives
  // ------------------------------------------------------------------------

  function Bearer(accessType: Octet): Octet {
    if accessType == 0 then 1 else accessType
  }

  predicate Supported(algorithm: Octet) {
    1 <= algorithm <= 3
  }

  /** Exclusive-or of the message with the keystream from `offset` on. */
  function Combine(crypto: Crypto, input: CipherInput, message: seq<Octet>, offset: nat): (r: seq<Octet>)
    ensures |r| == |message|
  {
    if message == [] then []
    else [Xor(message[0], crypto.keystream(input, offset))] + Combine(crypto, input, message[1..], offset + 1)
  }

  lemma {:induction false} CombineCancels(crypto: Crypto, input: CipherInput, message: seq<Octet>, offset: nat)
    ensures Combine(crypto, input, Combine(crypto, input, message, offset), offset) == message
    decreases |message|
  {
    if message == [] {
    } else {
      XorCancels(message[0], crypto.keystream(input, offset));
      CombineCancels(crypto, input, message[1..], offset + 1);
      assert Combine(crypto, input, message, offset)[1..] == Combine(crypto, input, message[1..], offset + 1);
    }
  }

  function EncInput(keys: Keys, count: U32, direction: Direction): CipherInput {
    CipherInput(keys.encAlgorithm, keys.knasEnc, count, Bearer(keys.accessType), direction)
  }

  /** nas_encrypt: null and unsupported algorithms leave the message alone. */
  function Encrypt(crypto: Crypto, keys: Keys, count: U32, direction: Direction, message: seq<Octet>)
    : (r: seq<Octet>)
    ensures |r| == |message|
  {
    if Supported(keys.encAlgorithm) then
      Combine(crypto, EncInput(keys, count, direction), message, 0)
    else message
  }

  /** nas_mac_calculate: null and unsupported algorithms give the all-zero MAC. */
  function MacOf(crypto: Crypto, keys: Keys, count: U32, direction: Direction, data: seq<Octet>): Mac {
    if Supported(keys.intAlgorithm) then
      crypto.mac(CipherInput(keys.intAlgorithm, keys.knasInt, count, Bearer(keys.accessType), direction), data)
    else NULL_MAC
  }

  lemma {:induction false} CombineAt(crypto: Crypto, input: CipherInput, message: seq<Octet>, offset: nat, i: nat)
    requires i < |message|
    ensures Combine(crypto, input, message, offset)[i] == Xor(message[i], crypto.keystream(input, offset + i))
    decreases |message|
  {
    if i > 0 {
      CombineAt(crypto, input, message[1..], offset + 1, i - 1);
    }
  }

  /** What ciphering does to each bit: under algorithms 1, 2 and 3 it turns bit `j` of octet `i` exactly when that bit
      of the keystream for the key, COUNT, bearer and direction is set; under any other algorithm it does nothing. */
  lemma CipherTurnsBits(
    crypto: Crypto, keys: Keys, count: U32, direction: Direction, message: seq<Octet>, i: nat, j: nat)
    requires i < |message| && j < 8
    ensures var bearer := if keys.accessType == 0 then 1 else keys.accessType;
            var input := CipherInput(keys.encAlgorithm, keys.knasEnc, count, bearer, direction);
            Bit(Encrypt(crypto, keys, count, direction, message)[i], j) != Bit(message[i], j)
            <==> 1 <= keys.encAlgorithm <= 3 && Bit(crypto.keystream(input, i), j) == 1
  {
    if Supported(keys.encAlgorithm) {
      var input := EncInput(keys, count, direction);
      CombineAt(crypto, input, message, 0, i);
      XorTurnsBits(message[i], crypto.keystream(input, i), 8, j);
    }
  }

  lemma EncryptCancels(crypto: Crypto, keys: Keys, count: U32, direction: Direction, message: seq<Octet>)
    ensures Encrypt(crypto, keys, count, direction, Encrypt(crypto, keys, count, direction, message)) == message
  {
    if Supported(keys.encAlgorithm) {
      CombineCancels(crypto, EncInput(keys, count, direction), message, 0);
    }
  }

  // ------------------------------------------------------------------------
  // Frames: EPD | security header type | MAC | SQN | payload
  // ------------------------------------------------------------------------

  function Assemble(sht: Octet, mac: Mac, sqn: Octet, payload: seq<Octet>): (f: seq<Octet>)
    ensures |f| == 7 + |payload| && f[1] == sht && f[2..6] == mac && f[6] == sqn && f[7..] == payload
  {
    [0x7e, sht] + mac + [sqn] + payload
  }

  /** The frame that either end sends for `body` at `count`: the frame of the test peer for the uplink,
      and what the encoder must produce for the downlink. */
  function Frame(crypto: Crypto, keys: Keys, direction: Direction, count: U32, sht: Octet, body: seq<Octet>)
    : (f: seq<Octet>)
  {
    var flags := FlagsOf(sht);
    var payload := if flags.ciphered then Encrypt(crypto, keys, count, direction, body) else body;
    var sqn := count % 0x100;
    var mac := if flags.integrity then MacOf(crypto, keys, count, direction, [sqn] + payload) else NULL_MAC;
    Assemble(sht, mac, sqn, payload)
  }

  /** The frame's MAC verifies under `count`. */
  predicate Verifies(crypto: Crypto, keys: Keys, count: U32, frame: seq<Octet>)
    requires |frame| >= 7
  {
    MacOf(crypto, keys, count, Uplink, frame[6..]) == frame[2..6]
  }

  // ------------------------------------------------------------------------
  // Specification of the decoder and the encoder
  // ------------------------------------------------------------------------

  /** The header flags that remain in force: none without a security context; no ciphering or
      integrity under a null algorithm. */
  function InForce(ue: Security, sht: Octet): Flags {
    var flags := FlagsOf(sht);
    Flags(flags.integrity && ue.contextAvailable && ue.keys.intAlgorithm != 0,
          flags.newContext && ue.contextAvailable,
          flags.ciphered && ue.contextAvailable && ue.keys.encAlgorithm != 0)
  }

  /** The full COUNT estimated for a received sequence number. */
  function Candidate(stored: nat, sqn: Octet): (c: nat)
    ensures c < 0x1000000
  {
    var epoch: nat := stored - stored % 0x100;
    (if stored % 0x100 > sqn as int then epoch + 0x100 + sqn as int else epoch + sqn as int) % 0x1000000
  }

  function Renewed(ue: Security, sht: Octet): Security {
    if InForce(ue, sht).newContext then ue.(ulCount := 0, ulEstablished := false) else ue
  }

  predicate Passes(crypto: Crypto, ue: Security, frame: seq<Octet>)
    requires |frame| >= 7
  {
    var stored := ue.ulCount % 0x1000000;
    var candidate := Candidate(stored, frame[6]);
    !(ue.ulEstablished && candidate <= stored) && Verifies(crypto, ue.keys, candidate, frame)
  }

  /** What the decoder does with one uplink frame: the state after it and the outcome. */
  function Opened(crypto: Crypto, ue: Security, sht: Octet, frame: seq<Octet>): (Security, Outcome) {
    var flags, base := InForce(ue, sht), Renewed(ue, sht);
    if !flags.ciphered && !flags.integrity then (base, Delivered(frame))
    else if |frame| < 7 then (base, Refused(MessageTooShort))
    else if flags.integrity && !Passes(crypto, base, frame) then
      (base.(macFailed := true), Refused(MacVerificationFailed))
    else
      var count := Candidate(base.ulCount % 0x1000000, frame[6]);
      var committed := base.(ulCount := count, ulEstablished := base.ulEstablished || flags.integrity);
      if !flags.ciphered then (committed, Delivered(frame[7..]))
      else if |frame| == 7 then (committed, Refused(EmptyPayload))
      else (committed, Delivered(Encrypt(crypto, ue.keys, count, Uplink, frame[7..])))
  }

  /** The state before the encoder uses its COUNT: a new-context header zeroes both COUNTs. */
  function Rekeyed(ue: Security, sht: Octet): Security {
    if FlagsOf(sht).newContext then ue.(dlCount := 0, ulCount := 0) else ue
  }

  /** The state after the encoder has sent one message. */
  function AfterSending(ue: Security, sht: Octet): Security {
    if sht == PLAIN then ue
    else
      var base := Rekeyed(ue, sht);
      base.(dlCount := (base.dlCount + 1) % 0x1000000, contextAvailable := true)
  }

  /** The octets the encoder sends for one message. */
  function Sealed(crypto: Crypto, ue: Security, sht: Octet, message: seq<Octet>): seq<Octet> {
    if sht == PLAIN then message
    else Frame(crypto, ue.keys, Downlink, Rekeyed(ue, sht).dlCount, sht, message)
  }

  // ------------------------------------------------------------------------
  // The code
  // ------------------------------------------------------------------------

  class UeSecurity {
    var contextAvailable: bool
    var macFailed: bool
    var encAlgorithm: Octet
    var intAlgorithm: Octet
    var knasEnc: seq<Octet>
    var knasInt: seq<Octet>
    var accessType: Octet
    var dlCount: U32
    var ulCount: U32
    var ulEstablished: bool

    ghost function KeysInUse(): Keys
      reads this
    {
      Keys(encAlgorithm, intAlgorithm, knasEnc, knasInt, accessType)
    }

    ghost function View(): Security
      reads this
    {
      Security(contextAvailable, macFailed, KeysInUse(), dlCount, ulCount, ulEstablished)
    }

    constructor (enc: Octet, integrity: Octet, knasEnc: seq<Octet>, knasInt: seq<Octet>)
      ensures View() == Security(false, false, Keys(enc, integrity, knasEnc, knasInt, 1), 0, 0, false)
    {
      this.encAlgorithm, this.intAlgorithm := enc, integrity;
      this.knasEnc, this.knasInt := knasEnc, knasInt;
      contextAvailable, macFailed, accessType := false, false, 1;
      dlCount, ulCount, ulEstablished := 0, 0, false;
    }

    method ApplyCipher(crypto: Crypto, count: U32, direction: Direction, message: seq<Octet>)
      returns (r: seq<Octet>)
      ensures r == Encrypt(crypto, KeysInUse(), count, direction, message)
    {
      if message == [] || !Supported(encAlgorithm) {
        return message;
      }
      var input := CipherInput(encAlgorithm, knasEnc, count, Bearer(accessType), direction);
      r := [];
      for i := 0 to |message|
        invariant r + Combine(crypto, input, message[i..], i) == Combine(crypto, input, message, 0)
      {
        assert message[i..][1..] == message[i + 1..];
        r := r + [Xor(message[i], crypto.keystream(input, i))];
      }
    }

    method ComputeMac(crypto: Crypto, count: U32, direction: Direction, data: seq<Octet>) returns (m: Mac)
      ensures m == MacOf(crypto, KeysInUse(), count, direction, data)
      ensures m == if 1 <= intAlgorithm <= 3 then
                     crypto.mac(CipherInput(intAlgorithm, knasInt, count, if accessType == 0 then 1 else accessType,
                                            direction), data)
                   else [0, 0, 0, 0]
    {
      if Supported(intAlgorithm) {
        m := crypto.mac(CipherInput(intAlgorithm, knasInt, count, Bearer(accessType), direction), data);
      } else {
        m := NULL_MAC;
      }
    }

    method Encode(crypto: Crypto, message: seq<Octet>, sht: Octet) returns (r: seq<Octet>)
      modifies `contextAvailable, `macFailed, `dlCount, `ulCount, `ulEstablished
      ensures View() == AfterSending(old(View()), sht)
      ensures r == Sealed(crypto, old(View()), sht, message)
      ensures sht == 0 ==> View() == old(View()) && r == message
      ensures var renews := sht == 3 || sht == 4;
              var count := if renews then 0 else old(dlCount);
              sht != 0 ==>
                && r == Frame(crypto, KeysInUse(), Downlink, count, sht, message)
                && View() == old(View()).(dlCount := (count + 1) % 0x1000000, contextAvailable := true,
                                          ulCount := if renews then 0 else old(ulCount))
    {
      var flags := FlagsOf(sht);
      if sht == PLAIN {
        return message;
      }
      var integrity, ciphered := flags.integrity, flags.ciphered;
      if flags.newContext {
        dlCount := 0;
        ulCount := 0;
      }
      if encAlgorithm == 0 {
        ciphered := false;
      }
      if intAlgorithm == 0 {
        integrity := false;
      }
      var sqn: Octet := dlCount % 0x100;
      var protected := message;
      if ciphered {
        protected := ApplyCipher(crypto, dlCount, Downlink, protected);
      }
      var mac := NULL_MAC;
      if integrity {
        mac := ComputeMac(crypto, dlCount, Downlink, [sqn] + protected);
      }
      dlCount := (dlCount + 1) % 0x1000000;
      contextAvailable := true;
      r := Assemble(sht, mac, sqn, protected);
    }

    /** The candidate COUNT: the overflow of the stored one, bumped once when the sequence number has wrapped. */
    static method EstimateCount(stored: nat, sqn: Octet) returns (candidate: nat)
      ensures candidate == Candidate(stored, sqn)
    {
      if stored % 0x100 > sqn as int {
        candidate := (stored - stored % 0x100 + 0x100 + sqn as int) % 0x1000000;
      } else {
        candidate := (stored - stored % 0x100 + sqn as int) % 0x1000000;
      }
    }

    method Decode(crypto: Crypto, sht: Octet, message: seq<Octet>) returns (r: Outcome)
      modifies `contextAvailable, `macFailed, `dlCount, `ulCount, `ulEstablished
      ensures (View(), r) == Opened(crypto, old(View()), sht, message)
    {
      hide Encrypt, MacOf, Candidate, FlagsOf;
      var flags := FlagsOf(sht);
      if !contextAvailable {
        flags := Flags(false, false, false);
      }
      if flags.newContext {
        ulCount := 0;
        ulEstablished := false;
      }
      if encAlgorithm == 0 {
        flags := flags.(ciphered := false);
      }
      if intAlgorithm == 0 {
        flags := flags.(integrity := false);
      }
      if !flags.ciphered && !flags.integrity {
        return Delivered(message);
      }
      if |message| < 7 {
        return Refused(MessageTooShort);
      }
      var sqn := message[6];
      var stored: nat := ulCount % 0x1000000;
      var candidate := EstimateCount(stored, sqn);
      if flags.integrity && ulEstablished && candidate <= stored {
        macFailed := true;
        return Refused(MacVerificationFailed);
      }
      var payload := message[7..];
      if flags.integrity {
        assert [sqn] + payload == message[6..];
        var mac := ComputeMac(crypto, candidate, Uplink, [sqn] + payload);
        if mac != message[2..6] {
          macFailed := true;
          return Refused(MacVerificationFailed);
        }
      }
      ulCount := candidate;
      if flags.integrity {
        ulEstablished := true;
      }
      if flags.ciphered {
        if payload == [] {
          return Refused(EmptyPayload);
        }
        payload := ApplyCipher(crypto, ulCount, Uplink, payload);
      }
      return Delivered(payload);
    }
  }
}
