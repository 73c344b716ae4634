/** Run properties of the NAS security channel: COUNT estimation, replay safety over whole runs,
    synchronisation over a lossy channel with hostile frames mixed in, and uniqueness of downlink COUNTs. */
module NasChannel {
  import opened Octets
  import opened NasSecurity

  // ------------------------------------------------------------------------
  // COUNT estimation
  // ------------------------------------------------------------------------

  predicate CarriesSqn(count: nat, sqn: Octet) {
    count % 0x100 == sqn as int
  }

  /** The estimate carries the received SQN. It falls below the stored COUNT exactly when the 24-bit
      COUNT wraps, and otherwise it is the least COUNT from the stored one on that carries the SQN. */
  lemma CandidateIsLeast(stored: nat, sqn: Octet)
    requires stored < 0x1000000
    ensures CarriesSqn(Candidate(stored, sqn), sqn)
    ensures Candidate(stored, sqn) < stored <==> 0x1000000 - 0x100 <= stored && (sqn as int) < stored % 0x100
    ensures stored <= Candidate(stored, sqn) ==>
              forall d: nat :: stored <= d && CarriesSqn(d, sqn) ==> Candidate(stored, sqn) <= d
  {
    var page := CandidateValue(stored, sqn);
    if stored <= Candidate(stored, sqn) {
      forall d: nat | stored <= d && CarriesSqn(d, sqn)
        ensures Candidate(stored, sqn) <= d
      {
        var other := d / 0x100;
        assert d == other * 0x100 + sqn as int;
      }
    }
  }

  /** The estimate by its pages of 256: the stored one, or the next, modulo 2^16. */
  lemma CandidateValue(stored: nat, sqn: Octet) returns (page: nat)
    requires stored < 0x1000000
    ensures page == stored / 0x100 < 0x10000 && stored == page * 0x100 + stored % 0x100
    ensures var c := Candidate(stored, sqn);
            && c % 0x100 == sqn as int
            && c == if stored % 0x100 <= sqn as int then page * 0x100 + sqn as int
                    else if page + 1 < 0x10000 then (page + 1) * 0x100 + sqn as int
                    else sqn as int
  {
    page := stored / 0x100;
    var raw := (if stored % 0x100 <= sqn as int then page else page + 1) * 0x100 + sqn as int;
    assert Candidate(stored, sqn) == raw % 0x1000000;
  }

  /** How far `count` is ahead of `stored` on the 24-bit circle. */
  function Ahead(stored: nat, count: nat): int
    requires stored < 0x1000000 && count < 0x1000000
  {
    if stored <= count then count - stored else count - stored + 0x1000000
  }

  lemma CandidateIsClose(stored: nat, sqn: Octet)
    requires stored < 0x1000000
    ensures Ahead(stored, Candidate(stored, sqn)) < 0x100
  {
    CandidateIsLeast(stored, sqn);
    assert stored - stored % 0x100 <= 0x1000000 - 0x100;
  }

  /** Two COUNTs less than 256 ahead with the same low octet are equal. */
  lemma CloseIsEqual(stored: nat, c: nat, d: nat)
    requires stored < 0x1000000 && c < 0x1000000 && d < 0x1000000
    requires Ahead(stored, c) < 0x100 && Ahead(stored, d) < 0x100 && c % 0x100 == d % 0x100
    ensures c == d
  {
    assert (c - d) % 0x100 == 0;
  }

  /** The estimate recovers the sender's COUNT exactly when the sender is 0 to 255 ahead on the 24-bit circle. */
  lemma CandidateRecovers(stored: nat, count: nat)
    requires stored < 0x1000000 && count < 0x1000000
    ensures Candidate(stored, count % 0x100) == count <==> Ahead(stored, count) < 0x100
  {
    hide Candidate;
    var c := Candidate(stored, count % 0x100);
    CandidateIsLeast(stored, count % 0x100);
    CandidateIsClose(stored, count % 0x100);
    if Ahead(stored, count) < 0x100 {
      CloseIsEqual(stored, c, count);
    }
  }

  /** A sender that is ahead by less than 256 without a wrap is recovered. */
  lemma CandidateAhead(stored: nat, count: nat)
    requires stored <= count < stored + 0x100 && count < 0x1000000
    ensures Candidate(stored, count % 0x100) == count
  {
    CandidateRecovers(stored, count);
  }

  // ------------------------------------------------------------------------
  // One frame
  // ------------------------------------------------------------------------

  /** A refusal for a bad MAC, a replay or a short frame keeps the COUNT and the replay baseline unless
      a new-context header resets them, and changes nothing else but the failure mark. */
  lemma RefusalKeepsCount(crypto: Crypto, ue: Security, sht: Octet, frame: seq<Octet>)
    requires Opened(crypto, ue, sht, frame).1 in {Refused(MacVerificationFailed), Refused(MessageTooShort)}
    ensures var after := Opened(crypto, ue, sht, frame).0;
            && (after.ulCount == ue.ulCount && after.ulEstablished == ue.ulEstablished
                <==> !InForce(ue, sht).newContext || (ue.ulCount == 0 && !ue.ulEstablished))
            && after == ue.(ulCount := after.ulCount, ulEstablished := after.ulEstablished,
                            macFailed := ue.macFailed
                                         || Opened(crypto, ue, sht, frame).1 == Refused(MacVerificationFailed))
  {
  }

  /** Ciphering without integrity: nothing is checked, the estimated COUNT is taken over, the replay baseline stays as
      it is, and the payload is deciphered under that COUNT. */
  lemma UncheckedFrameOpens(crypto: Crypto, ue: Security, sht: Octet, frame: seq<Octet>)
    requires ue.contextAvailable && ue.keys.intAlgorithm == 0 && ue.keys.encAlgorithm != 0
    requires FlagsOf(sht).ciphered && |frame| >= 7
    ensures var base := Renewed(ue, sht);
            var count := Candidate(base.ulCount % 0x1000000, frame[6]);
            Opened(crypto, ue, sht, frame)
            == (base.(ulCount := count),
                if |frame| == 7 then Refused(EmptyPayload)
                else Delivered(Encrypt(crypto, ue.keys, count, Uplink, frame[7..])))
  {
  }

  /** Without a security context, and under null algorithms, the frame is handed through, whatever its header. */
  lemma UnsecuredPasses(crypto: Crypto, ue: Security, sht: Octet, frame: seq<Octet>)
    requires !ue.contextAvailable || (ue.keys.intAlgorithm == 0 && ue.keys.encAlgorithm == 0)
    ensures Opened(crypto, ue, sht, frame).1 == Delivered(frame)
    ensures Opened(crypto, ue, sht, frame).0
            == if ue.contextAvailable && (sht == 3 || sht == 4) then ue.(ulCount := 0, ulEstablished := false) else ue
  {
  }

  /** The frame moved the uplink COUNT: it was delivered, or it was ciphered and empty. */
  predicate Commits(crypto: Crypto, ue: Security, sht: Octet, frame: seq<Octet>) {
    var outcome := Opened(crypto, ue, sht, frame).1;
    outcome.Delivered? || outcome == Refused(EmptyPayload)
  }

  /** A security context with integrity. */
  predicate Guarded(ue: Security) {
    ue.contextAvailable && ue.keys.intAlgorithm != 0 && ue.ulCount < 0x1000000
  }

  /** A header type of the running context: protected, and not renewing. */
  predicate Protected(ue: Security, sht: Octet) {
    Guarded(ue) && (sht == INTEGRITY || sht == INTEGRITY_CIPHERED)
  }

  /** Header types without protection, 0 and 5 upwards, hand the frame through and touch nothing. */
  lemma UnprotectedPasses(crypto: Crypto, ue: Security, sht: Octet, frame: seq<Octet>)
    requires !FlagsOf(sht).integrity
    ensures Opened(crypto, ue, sht, frame) == (ue, Delivered(frame))
  {
  }

  /** For all four protected header types: a frame that commits has a MAC that verifies under the committed COUNT,
      that COUNT carries the frame's SQN, and it is beyond the baseline left by a renewing header; a frame that does
      not commit leaves COUNT and baseline as a renewing header left them. */
  lemma CommitIsVerified(crypto: Crypto, ue: Security, sht: Octet, frame: seq<Octet>)
    requires Guarded(ue) && FlagsOf(sht).integrity
    ensures var after, base := Opened(crypto, ue, sht, frame).0, Renewed(ue, sht);
            && Guarded(after)
            && after == ue.(ulCount := after.ulCount, ulEstablished := after.ulEstablished,
                            macFailed := after.macFailed)
            && (if Commits(crypto, ue, sht, frame) then
                  && |frame| >= 7 && after.ulEstablished
                  && CarriesSqn(after.ulCount, frame[6])
                  && Verifies(crypto, ue.keys, after.ulCount, frame)
                  && (base.ulEstablished ==> base.ulCount < after.ulCount)
                else after.ulCount == base.ulCount && after.ulEstablished == base.ulEstablished)
  {
    hide Verifies, Encrypt, Candidate;
    if |frame| >= 7 {
      CandidateIsLeast(Renewed(ue, sht).ulCount, frame[6]);
    }
  }

  /** A ciphered frame without payload is refused, but only after its COUNT has been committed. */
  lemma EmptyPayloadCommits(crypto: Crypto, ue: Security, count: U32)
    requires Protected(ue, INTEGRITY_CIPHERED) && ue.keys.encAlgorithm != 0
    requires ue.ulCount <= count < ue.ulCount + 0x100 && count < 0x1000000 && (ue.ulEstablished ==> ue.ulCount < count)
    ensures Opened(crypto, ue, INTEGRITY_CIPHERED, Frame(crypto, ue.keys, Uplink, count, INTEGRITY_CIPHERED, []))
            == (ue.(ulCount := count, ulEstablished := true), Refused(EmptyPayload))
  {
    hide Candidate, MacOf;
    CandidateAhead(ue.ulCount, count);
    var frame := Frame(crypto, ue.keys, Uplink, count, INTEGRITY_CIPHERED, []);
    assert frame[6..] == [frame[6]] + frame[7..];
  }

  /** A frame reads back, in either direction: its SQN is the low octet of its COUNT, its MAC verifies under that
      COUNT, and applying the cipher again to its payload gives the body. Types beyond the protected ones carry the
      body as it is under an all-zero MAC. */
  lemma FrameReadsBack(crypto: Crypto, keys: Keys, direction: Direction, count: U32, sht: Octet, body: seq<Octet>)
    ensures var f := Frame(crypto, keys, direction, count, sht, body);
            && |f| == 7 + |body| && f[0] == 0x7e && f[1] == sht && f[6] == count % 0x100
            && f[2..6] == (if 1 <= sht <= 4 then MacOf(crypto, keys, count, direction, f[6..]) else [0, 0, 0, 0])
            && body == if sht == 2 || sht == 4 then Encrypt(crypto, keys, count, direction, f[7..]) else f[7..]
  {
    hide Encrypt, MacOf;
    var f := Frame(crypto, keys, direction, count, sht, body);
    assert f[6..] == [f[6]] + f[7..];
    EncryptCancels(crypto, keys, count, direction, body);
  }

  /** Once a baseline exists, a frame whose estimated COUNT has wrapped past 2^24 is refused. */
  lemma WrappedCountIsRefused(crypto: Crypto, ue: Security, sht: Octet, frame: seq<Octet>)
    requires Protected(ue, sht) && ue.ulEstablished && 0x1000000 - 0x100 <= ue.ulCount < 0x1000000
    requires |frame| >= 7 && (frame[6] as int) < ue.ulCount % 0x100
    ensures Opened(crypto, ue, sht, frame) == (ue.(macFailed := true), Refused(MacVerificationFailed))
  {
    hide Encrypt, MacOf;
    CandidateIsLeast(ue.ulCount, frame[6]);
  }

  /** What a genuine frame opens to: its body, unless the code refuses it as empty after deciphering. */
  function Verdict(keys: Keys, sht: Octet, body: seq<Octet>): Outcome {
    if FlagsOf(sht).ciphered && keys.encAlgorithm != 0 && body == [] then Refused(EmptyPayload) else Delivered(body)
  }

  /** The COUNT is within reach of the receiver: 0 to 255 ahead of the stored one on the 24-bit circle, and beyond it
      once a baseline exists. */
  predicate InReach(ue: Security, count: nat)
    requires ue.ulCount < 0x1000000 && count < 0x1000000
  {
    Ahead(ue.ulCount, count) < 0x100 && (ue.ulEstablished ==> ue.ulCount < count)
  }

  /** A frame of the peer, of any of the four protected types, opens to exactly the body that was protected when its
      COUNT is within reach of what its header leaves stored. */
  lemma PeerFrameOpens(crypto: Crypto, ue: Security, count: U32, sht: Octet, body: seq<Octet>)
    requires Guarded(ue) && FlagsOf(sht).integrity && count < 0x1000000 && InReach(Renewed(ue, sht), count)
    ensures Opened(crypto, ue, sht, Frame(crypto, ue.keys, Uplink, count, sht, body))
            == (Renewed(ue, sht).(ulCount := count, ulEstablished := true), Verdict(ue.keys, sht, body))
  {
    hide Candidate, MacOf;
    CandidateRecovers(Renewed(ue, sht).ulCount, count);
    var frame := Frame(crypto, ue.keys, Uplink, count, sht, body);
    assert frame[6..] == [frame[6]] + frame[7..];
    EncryptCancels(crypto, ue.keys, count, Uplink, body);
  }

  /** Being within reach is also necessary: for every MAC function and keystream, the frame opens as it should and
      leaves the sender's COUNT if and only if the COUNT is within reach. */
  lemma PeerFrameOpensIff(crypto: Crypto, ue: Security, count: U32, sht: Octet, body: seq<Octet>)
    requires Guarded(ue) && FlagsOf(sht).integrity && count < 0x1000000
    ensures var (after, outcome) := Opened(crypto, ue, sht, Frame(crypto, ue.keys, Uplink, count, sht, body));
            outcome == Verdict(ue.keys, sht, body) && after.ulCount == count <==> InReach(Renewed(ue, sht), count)
  {
    if InReach(Renewed(ue, sht), count) {
      PeerFrameOpens(crypto, ue, count, sht, body);
    } else {
      hide Candidate, Opened;
      CandidateRecovers(Renewed(ue, sht).ulCount, count);
      CommitsCandidate(crypto, ue, sht, Frame(crypto, ue.keys, Uplink, count, sht, body));
    }
  }

  /** Whatever a frame commits is the COUNT estimated for it, and is beyond the baseline. */
  lemma CommitsCandidate(crypto: Crypto, ue: Security, sht: Octet, frame: seq<Octet>)
    requires Guarded(ue) && FlagsOf(sht).integrity && |frame| >= 7
    ensures var after, base := Opened(crypto, ue, sht, frame).0, Renewed(ue, sht);
            Commits(crypto, ue, sht, frame) ==>
              && after.ulCount == Candidate(base.ulCount, frame[6])
              && (base.ulEstablished ==> base.ulCount < after.ulCount)
  {
    hide Candidate, Verifies, Encrypt;
  }

  /** The limit of 254 lost frames is tight: after 255 losses in a row the next frame looks like a copy of the
      last one delivered and is refused. */
  lemma LossLimitIsTight(crypto: Crypto, ue: Security, sht: Octet, body: seq<Octet>)
    requires Protected(ue, sht) && ue.ulEstablished && ue.ulCount + 0x100 < 0x1000000
    ensures Opened(crypto, ue, sht, Frame(crypto, ue.keys, Uplink, ue.ulCount + 0x100, sht, body))
            == (ue.(macFailed := true), Refused(MacVerificationFailed))
  {
    hide Candidate, MacOf, Encrypt;
    CandidateAhead(ue.ulCount, ue.ulCount);
    assert (ue.ulCount + 0x100) % 0x100 == ue.ulCount % 0x100;
  }

  /** The encoder's new-context reset zeroes the uplink COUNT but keeps the replay baseline: the peer's first
      frame (COUNT 0) under that context opens if and only if no baseline had been set before the reset. */
  lemma EncoderResetKeepsBaseline(
    crypto: Crypto, ue: Security, newSht: Octet, sht: Octet, body: seq<Octet>)
    requires newSht == INTEGRITY_NEW || newSht == INTEGRITY_CIPHERED_NEW
    requires Protected(ue, sht)
    ensures var (after, outcome) := Opened(crypto, AfterSending(ue, newSht), sht,
                                           Frame(crypto, ue.keys, Uplink, 0, sht, body));
            outcome == Verdict(ue.keys, sht, body) && after.ulCount == 0 <==> !ue.ulEstablished
  {
    PeerFrameOpensIff(crypto, AfterSending(ue, newSht), 0, sht, body);
  }

  /** A renewing header clears COUNT and baseline before any check, even on a frame that is then refused: after it a
      frame of the running context opens if and only if its COUNT is below 256, delivered before or not. */
  lemma RenewingRefusalReopens(
    crypto: Crypto, ue: Security, newSht: Octet, forged: seq<Octet>, sht: Octet, count: U32, body: seq<Octet>)
    requires Protected(ue, sht) && FlagsOf(newSht).newContext && count < 0x1000000
    requires Opened(crypto, ue, newSht, forged).1 in {Refused(MacVerificationFailed), Refused(MessageTooShort)}
    ensures var (after, outcome) := Opened(crypto, Opened(crypto, ue, newSht, forged).0, sht,
                                           Frame(crypto, ue.keys, Uplink, count, sht, body));
            outcome == Verdict(ue.keys, sht, body) && after.ulCount == count <==> count < 0x100
  {
    var reset := Opened(crypto, ue, newSht, forged).0;
    assert reset.ulCount == 0 && !reset.ulEstablished && reset.keys == ue.keys && reset.contextAvailable;
    hide Opened;
    PeerFrameOpensIff(crypto, reset, count, sht, body);
  }

  /** So one refused frame of type 3, too short to hold a MAC, lets the last delivered frame in again. */
  lemma ShortRenewalReplays(crypto: Crypto, ue: Security, forged: seq<Octet>, sht: Octet, body: seq<Octet>)
    requires Protected(ue, sht) && ue.ulEstablished && ue.ulCount < 0x100 && |forged| < 7 && body != []
    ensures var last := Frame(crypto, ue.keys, Uplink, ue.ulCount, sht, body);
            var reset := Opened(crypto, ue, INTEGRITY_NEW, forged);
            && Opened(crypto, ue, sht, last).1 == Refused(MacVerificationFailed)
            && reset.1 == Refused(MessageTooShort)
            && Opened(crypto, reset.0, sht, last).1 == Delivered(body)
  {
    hide Encrypt, MacOf;
    CandidateAhead(ue.ulCount, ue.ulCount);
    RenewingRefusalReopens(crypto, ue, INTEGRITY_NEW, forged, sht, ue.ulCount, body);
  }

  // ------------------------------------------------------------------------
  // Replay safety over whole runs
  // ------------------------------------------------------------------------

  datatype Event = Received(sht: Octet, frame: seq<Octet>) | Sent(sht: Octet, message: seq<Octet>)

  function Next(crypto: Crypto, ue: Security, e: Event): Security {
    match e
    case Received(sht, frame) => Opened(crypto, ue, sht, frame).0
    case Sent(sht, _) => AfterSending(ue, sht)
  }

  /** The state after the first `n` events. */
  function After(crypto: Crypto, ue: Security, run: seq<Event>, n: nat): Security
    requires n <= |run|
  {
    if n == 0 then ue else Next(crypto, After(crypto, ue, run, n - 1), run[n - 1])
  }

  /** The event renews the security context: a type 3 or 4 header, received or sent. */
  predicate Renews(e: Event) {
    FlagsOf(e.sht).newContext
  }

  /** Event `i` is a protected frame that the decoder lets in. */
  predicate AcceptedAt(crypto: Crypto, ue: Security, run: seq<Event>, i: nat)
    requires i < |run|
  {
    run[i].Received? && FlagsOf(run[i].sht).integrity
    && Commits(crypto, After(crypto, ue, run, i), run[i].sht, run[i].frame)
  }

  /** What one event does to COUNT and baseline. */
  lemma EventKeepsContext(crypto: Crypto, ue: Security, e: Event)
    requires Guarded(ue)
    ensures Guarded(Next(crypto, ue, e)) && Next(crypto, ue, e).keys == ue.keys
    ensures !Renews(e) && ue.ulEstablished ==>
              Next(crypto, ue, e).ulEstablished && ue.ulCount <= Next(crypto, ue, e).ulCount
  {
    if e.Received? {
      if FlagsOf(e.sht).integrity {
        hide Opened;
        CommitIsVerified(crypto, ue, e.sht, e.frame);
      } else {
        UnprotectedPasses(crypto, ue, e.sht, e.frame);
      }
    }
  }

  lemma {:induction false} ContextHolds(crypto: Crypto, ue: Security, run: seq<Event>, n: nat)
    requires Guarded(ue) && n <= |run|
    ensures Guarded(After(crypto, ue, run, n)) && After(crypto, ue, run, n).keys == ue.keys
  {
    hide Next, Guarded;
    if n == 0 {
    } else {
      ContextHolds(crypto, ue, run, n - 1);
      EventKeepsContext(crypto, After(crypto, ue, run, n - 1), run[n - 1]);
    }
  }

  /** A genuine frame with a renewing header brings its own reset along: at every point of every run it opens if and
      only if its COUNT is below 256, however often it has been delivered before. */
  lemma RenewingFrameReplays(
    crypto: Crypto, ue: Security, run: seq<Event>, n: nat, sht: Octet, count: U32, body: seq<Octet>)
    requires Guarded(ue) && n <= |run| && FlagsOf(sht).newContext && count < 0x1000000
    ensures var (after, outcome) := Opened(crypto, After(crypto, ue, run, n), sht,
                                           Frame(crypto, ue.keys, Uplink, count, sht, body));
            outcome == Verdict(ue.keys, sht, body) && after.ulCount == count <==> count < 0x100
  {
    hide Opened, Frame, Verdict, Next;
    ContextHolds(crypto, ue, run, n);
    PeerFrameOpensIff(crypto, After(crypto, ue, run, n), count, sht, body);
  }

  /** An accepted frame verifies, under the context's own keys, under the COUNT it commits. */
  lemma AcceptedIsVerified(crypto: Crypto, ue: Security, run: seq<Event>, i: nat)
    requires Guarded(ue) && i < |run| && AcceptedAt(crypto, ue, run, i)
    ensures var before, after := After(crypto, ue, run, i), After(crypto, ue, run, i + 1);
            && after.ulCount < 0x1000000 && after.ulEstablished && |run[i].frame| >= 7
            && Verifies(crypto, ue.keys, after.ulCount, run[i].frame) && CarriesSqn(after.ulCount, run[i].frame[6])
            && (!Renews(run[i]) && before.ulEstablished ==> before.ulCount < after.ulCount)
  {
    hide Opened, Verifies;
    ContextHolds(crypto, ue, run, i);
    CommitIsVerified(crypto, After(crypto, ue, run, i), run[i].sht, run[i].frame);
  }

  /** After an accepted frame, and until a context is renewed, the baseline stands and the COUNT never drops below the
      accepted one. */
  lemma {:induction false} CountHolds(crypto: Crypto, ue: Security, run: seq<Event>, i: nat, n: nat)
    requires Guarded(ue) && i < n <= |run| && AcceptedAt(crypto, ue, run, i)
    requires forall k :: i < k < n ==> !Renews(run[k])
    ensures After(crypto, ue, run, n).ulEstablished
    ensures After(crypto, ue, run, i + 1).ulCount <= After(crypto, ue, run, n).ulCount
  {
    hide Next, Opened;
    if n == i + 1 {
      AcceptedIsVerified(crypto, ue, run, i);
    } else {
      CountHolds(crypto, ue, run, i, n - 1);
      ContextHolds(crypto, ue, run, n - 1);
      EventKeepsContext(crypto, After(crypto, ue, run, n - 1), run[n - 1]);
    }
  }

  /** Replay safety, for runs of frames and messages of every header type. Between two accepted frames with no renewal
      after the first up to the second, the committed COUNT strictly increases; so a frame accepted twice carries a
      MAC that verifies under two different COUNTs. */
  lemma ReplaySafety(crypto: Crypto, ue: Security, run: seq<Event>, i: nat, j: nat)
    requires Guarded(ue) && i < j < |run|
    requires AcceptedAt(crypto, ue, run, i) && AcceptedAt(crypto, ue, run, j)
    requires forall k :: i < k <= j ==> !Renews(run[k])
    ensures var c, d := After(crypto, ue, run, i + 1).ulCount, After(crypto, ue, run, j + 1).ulCount;
            && c < d < 0x1000000
            && |run[i].frame| >= 7 && Verifies(crypto, ue.keys, c, run[i].frame)
            && |run[j].frame| >= 7 && Verifies(crypto, ue.keys, d, run[j].frame)
            && (run[i].frame == run[j].frame ==> c % 0x100 == d % 0x100)
  {
    hide Next, Opened, Verifies;
    AcceptedIsVerified(crypto, ue, run, i);
    AcceptedIsVerified(crypto, ue, run, j);
    CountHolds(crypto, ue, run, i, j);
  }

  /** How many of the first `n` events are accepted uplink frames. */
  function AcceptedCount(crypto: Crypto, ue: Security, run: seq<Event>, n: nat): (k: nat)
    requires n <= |run|
  {
    if n == 0 then 0
    else AcceptedCount(crypto, ue, run, n - 1) + if AcceptedAt(crypto, ue, run, n - 1) then 1 else 0
  }

  /** As long as the context is not renewed, at most 2^24 frames are accepted. */
  lemma {:induction false} AtMostModulusAccepted(crypto: Crypto, ue: Security, run: seq<Event>, n: nat)
    requires Guarded(ue) && n <= |run| && forall k :: 0 <= k < n ==> !Renews(run[k])
    ensures AcceptedCount(crypto, ue, run, n) <= 0x1000000
    ensures AcceptedCount(crypto, ue, run, n) > 0 ==>
              && After(crypto, ue, run, n).ulEstablished
              && AcceptedCount(crypto, ue, run, n) <= After(crypto, ue, run, n).ulCount + 1
  {
    hide Next, Opened, Commits;
    if n == 0 {
    } else {
      AtMostModulusAccepted(crypto, ue, run, n - 1);
      ContextHolds(crypto, ue, run, n - 1);
      ContextHolds(crypto, ue, run, n);
      EventKeepsContext(crypto, After(crypto, ue, run, n - 1), run[n - 1]);
      if AcceptedAt(crypto, ue, run, n - 1) {
        AcceptedIsVerified(crypto, ue, run, n - 1);
      }
    }
  }

  // ------------------------------------------------------------------------
  // Synchronisation over a lossy, hostile channel
  // ------------------------------------------------------------------------

  datatype Message = Message(sht: Octet, body: seq<Octet>)

  /** What the receiver sees next: a message that the peer protected with `count`, or any other frame under any header
      type. */
  datatype Delivery = Genuine(count: nat, message: Message) | Noise(sht: Octet, frame: seq<Octet>)

  /** Every genuine delivery is protected, with any of the four types, and its COUNT fits 24 bits. */
  predicate FromPeer(d: Delivery) {
    d.Genuine? ==> d.count < 0x1000000 && FlagsOf(d.message.sht).integrity
  }

  predicate AllFromPeer(channel: seq<Delivery>) {
    forall k :: 0 <= k < |channel| ==> FromPeer(channel[k])
  }

  function Arrival(crypto: Crypto, keys: Keys, d: Delivery): (Octet, seq<Octet>)
    requires FromPeer(d)
  {
    match d
    case Genuine(count, m) => (m.sht, Frame(crypto, keys, Uplink, count, m.sht, m.body))
    case Noise(sht, frame) => (sht, frame)
  }

  /** What the receiver makes of a delivery. */
  function Met(crypto: Crypto, ue: Security, d: Delivery): (Security, Outcome)
    requires FromPeer(d)
  {
    var (sht, frame) := Arrival(crypto, ue.keys, d);
    Opened(crypto, ue, sht, frame)
  }

  /** The frame does not verify under any COUNT still open to the receiver: a forgery, or a copy of a
      frame that was delivered before. */
  predicate Stale(crypto: Crypto, ue: Security, frame: seq<Octet>) {
    |frame| >= 7 ==>
      forall c: U32 :: c < 0x1000000 && (ue.ulEstablished ==> ue.ulCount < c) ==> !Verifies(crypto, ue.keys, c, frame)
  }

  /** Protected noise is stale when it arrives; noise without protection may be anything. */
  predicate NoiseIsStale(crypto: Crypto, ue: Security, channel: seq<Delivery>)
    requires AllFromPeer(channel)
    decreases |channel|
  {
    channel == [] ||
    (&& (channel[0].Noise? && FlagsOf(channel[0].sht).integrity ==>
           Stale(crypto, Renewed(ue, channel[0].sht), channel[0].frame))
     && NoiseIsStale(crypto, Met(crypto, ue, channel[0]).0, channel[1..]))
  }

  /** A genuine delivery opens as it should and leaves the sender's COUNT in the receiver. Protected noise is refused;
      noise without protection is handed through as the plain octets it is. */
  predicate Right(ue: Security, d: Delivery, result: (Security, Outcome))
    requires FromPeer(d)
  {
    match d
    case Genuine(sent, m) => result.1 == Verdict(ue.keys, m.sht, m.body) && result.0.ulCount == sent
    case Noise(sht, frame) => if FlagsOf(sht).integrity then result.1.Refused? else result.1 == Delivered(frame)
  }

  /** Every delivery of the channel comes out right. */
  predicate AllRight(crypto: Crypto, ue: Security, channel: seq<Delivery>)
    requires AllFromPeer(channel)
    decreases |channel|
  {
    channel == [] ||
    (&& Right(ue, channel[0], Met(crypto, ue, channel[0]))
     && AllRight(crypto, Met(crypto, ue, channel[0]).0, channel[1..]))
  }

  /** Every genuine COUNT is within reach of what the receiver stores when it arrives, or of nothing stored when its own
      header renews the context. */
  predicate AllInReach(crypto: Crypto, ue: Security, channel: seq<Delivery>)
    requires AllFromPeer(channel)
    decreases |channel|
  {
    channel == [] ||
    (&& ue.ulCount < 0x1000000
     && (channel[0].Genuine? ==> InReach(Renewed(ue, channel[0].message.sht), channel[0].count))
     && AllInReach(crypto, Met(crypto, ue, channel[0]).0, channel[1..]))
  }

  /** Noise is refused or handed through, and moves COUNT and baseline only by the reset of a renewing header. */
  lemma NoiseIsHandled(crypto: Crypto, ue: Security, sht: Octet, frame: seq<Octet>)
    requires Guarded(ue) && (FlagsOf(sht).integrity ==> Stale(crypto, Renewed(ue, sht), frame))
    ensures var (after, outcome) := Opened(crypto, ue, sht, frame);
            && (if FlagsOf(sht).integrity then outcome.Refused? && outcome.error != EmptyPayload
                else outcome == Delivered(frame))
            && after == Renewed(ue, sht).(macFailed := after.macFailed)
  {
    hide Verifies, Encrypt, Candidate;
    if |frame| >= 7 {
      CandidateIsLeast(Renewed(ue, sht).ulCount, frame[6]);
    }
  }

  /** One delivery: noise comes out right, and a genuine frame does if and only if it is within reach. */
  lemma DeliveryIsRightIff(crypto: Crypto, ue: Security, d: Delivery)
    requires Guarded(ue) && FromPeer(d)
    requires d.Noise? && FlagsOf(d.sht).integrity ==> Stale(crypto, Renewed(ue, d.sht), d.frame)
    ensures Guarded(Met(crypto, ue, d).0) && Met(crypto, ue, d).0.keys == ue.keys
    ensures Right(ue, d, Met(crypto, ue, d)) <==> (d.Genuine? ==> InReach(Renewed(ue, d.message.sht), d.count))
  {
    hide Opened, Frame, Verdict, InReach, Stale;
    var (sht, frame) := Arrival(crypto, ue.keys, d);
    if d.Genuine? {
      PeerFrameOpensIff(crypto, ue, d.count, sht, d.message.body);
      CommitIsVerified(crypto, ue, sht, frame);
    } else {
      NoiseIsHandled(crypto, ue, sht, frame);
    }
  }

  /** Synchronisation under attack, exactly. Whatever stale frames of whatever header types are mixed in, all
      deliveries come out right if and only if each genuine COUNT is within reach when it arrives. */
  lemma {:induction false} ChannelIsRightIff(crypto: Crypto, ue: Security, channel: seq<Delivery>)
    requires Guarded(ue) && AllFromPeer(channel) && NoiseIsStale(crypto, ue, channel)
    ensures AllRight(crypto, ue, channel) <==> AllInReach(crypto, ue, channel)
    decreases |channel|
  {
    hide Met, Right, InReach, Stale, FromPeer;
    if channel == [] {
    } else {
      DeliveryIsRightIff(crypto, ue, channel[0]);
      ChannelIsRightIff(crypto, Met(crypto, ue, channel[0]).0, channel[1..]);
    }
  }

  // Noise that does not renew the context costs nothing at all: only the genuine COUNTs matter.

  /** The genuine COUNTs of a channel, each with whether its header renews the context. */
  function GenuineCounts(channel: seq<Delivery>): seq<(nat, bool)> {
    if channel == [] then []
    else
      (if channel[0].Genuine? then [(channel[0].count, FlagsOf(channel[0].message.sht).newContext)] else [])
      + GenuineCounts(channel[1..])
  }

  /** Each COUNT is within reach of the one before, starting from the stored COUNT, and of zero when it renews. */
  predicate CountsInReach(stored: nat, baseline: bool, counts: seq<(nat, bool)>)
    decreases |counts|
  {
    counts == [] ||
    var (count, renews) := counts[0];
    var floor, established := if renews then 0 else stored, baseline && !renews;
    && floor < 0x1000000 && count < 0x1000000
    && Ahead(floor, count) < 0x100 && (established ==> floor < count)
    && CountsInReach(count, true, counts[1..])
  }

  /** With stale noise of any header type but 3 and 4, all deliveries come out right if and only if the genuine COUNTs
      alone are within reach of one another. */
  lemma {:induction false} HarmlessNoise(crypto: Crypto, ue: Security, channel: seq<Delivery>)
    requires Guarded(ue) && AllFromPeer(channel) && NoiseIsStale(crypto, ue, channel)
    requires forall k :: 0 <= k < |channel| && channel[k].Noise? ==> !FlagsOf(channel[k].sht).newContext
    ensures AllRight(crypto, ue, channel) <==>
            CountsInReach(ue.ulCount, ue.ulEstablished, GenuineCounts(channel))
    decreases |channel|
  {
    hide Met, Right, Stale;
    if channel == [] {
    } else {
      var d, rest := channel[0], channel[1..];
      var after := Met(crypto, ue, d).0;
      DeliveryIsRightIff(crypto, ue, d);
      HarmlessNoise(crypto, after, rest);
      MetState(crypto, ue, d);
      assert d.Noise? ==> GenuineCounts(channel) == GenuineCounts(rest);
      if d.Genuine? {
        assert GenuineCounts(channel)[0] == (d.count, FlagsOf(d.message.sht).newContext);
        assert GenuineCounts(channel)[1..] == GenuineCounts(rest);
      }
    }
  }

  /** The COUNT and baseline left by noise that does not renew, and by a genuine frame within reach: the sender's. */
  lemma MetState(crypto: Crypto, ue: Security, d: Delivery)
    requires Guarded(ue) && FromPeer(d)
    requires d.Noise? ==> !FlagsOf(d.sht).newContext
    requires d.Noise? && FlagsOf(d.sht).integrity ==> Stale(crypto, Renewed(ue, d.sht), d.frame)
    ensures var after := Met(crypto, ue, d).0;
            && (d.Noise? ==> after.ulCount == ue.ulCount && after.ulEstablished == ue.ulEstablished)
            && (d.Genuine? && InReach(Renewed(ue, d.message.sht), d.count) ==>
                  after.ulCount == d.count && after.ulEstablished)
  {
    hide Opened, Frame, Verdict, InReach, Stale;
    var (sht, frame) := Arrival(crypto, ue.keys, d);
    if d.Noise? {
      NoiseIsHandled(crypto, ue, sht, frame);
    } else if InReach(Renewed(ue, d.message.sht), d.count) {
      PeerFrameOpens(crypto, ue, d.count, sht, d.message.body);
    }
  }

  // The plain form of the theorem: no noise, and the frames that survive given by their COUNTs.

  /** The receiver's outcomes on a channel, one per delivery, each with the COUNT stored after it. */
  function Outcomes(crypto: Crypto, ue: Security, channel: seq<Delivery>)
    : (r: seq<(Outcome, U32)>)
    requires AllFromPeer(channel)
    ensures |r| == |channel|
    decreases |channel|
  {
    if channel == [] then []
    else
      var (after, outcome) := Met(crypto, ue, channel[0]);
      [(outcome, after.ulCount)] + Outcomes(crypto, after, channel[1..])
  }

  /** In order, with at most 254 frames lost in a row. */
  predicate Survivors(picks: seq<nat>, floor: nat, established: bool) {
    && (picks != [] ==> floor <= picks[0] <= floor + 255 && (established ==> floor < picks[0]))
    && forall i :: 0 < i < |picks| ==> picks[i - 1] < picks[i] <= picks[i - 1] + 255
  }

  /** The picked messages are in the running context: protected with type 1 or 2, with COUNTs below 2^24. */
  predicate InContext(peer: seq<Message>, picks: seq<nat>) {
    forall i :: 0 <= i < |picks| ==>
      && picks[i] < |peer| && picks[i] < 0x1000000
      && (peer[picks[i]].sht == INTEGRITY || peer[picks[i]].sht == INTEGRITY_CIPHERED)
  }

  function Surviving(peer: seq<Message>, picks: seq<nat>): (channel: seq<Delivery>)
    requires InContext(peer, picks)
    ensures |channel| == |picks| && AllFromPeer(channel)
    ensures forall i :: 0 <= i < |picks| ==> channel[i] == Genuine(picks[i], peer[picks[i]])
  {
    seq(|picks|, i requires 0 <= i < |picks| => Genuine(picks[i], peer[picks[i]]))
  }

  /** Lossy-channel synchronisation. The peer's COUNTs increase by one from the receiver's stored COUNT, the
      channel keeps order and loses at most 254 frames in a row, and COUNT stays below 2^24: every delivered frame
      opens to its body, or is refused as empty exactly when it is ciphered and empty, and the receiver's COUNT equals
      the sender's. */
  lemma {:induction false} LossyChannelSynchronises(
    crypto: Crypto, ue: Security, peer: seq<Message>, picks: seq<nat>, i: nat)
    requires Guarded(ue) && Survivors(picks, ue.ulCount, ue.ulEstablished) && InContext(peer, picks)
    requires i < |picks|
    ensures var m := peer[picks[i]];
            Outcomes(crypto, ue, Surviving(peer, picks))[i] == (Verdict(ue.keys, m.sht, m.body), picks[i])
    decreases |picks|
  {
    hide Opened, Verdict, Frame;
    var channel, m := Surviving(peer, picks), peer[picks[0]];
    PeerFrameOpens(crypto, ue, picks[0], m.sht, m.body);
    if i > 0 {
      var after := Met(crypto, ue, channel[0]).0;
      assert channel[1..] == Surviving(peer, picks[1..]);
      LossyChannelSynchronises(crypto, after, peer, picks[1..], i - 1);
    }
  }

  // ------------------------------------------------------------------------
  // Downlink COUNTs
  // ------------------------------------------------------------------------

  /** The state after the first `n` of a sequence of downlink messages. */
  function SentUpTo(ue: Security, messages: seq<Message>, n: nat): Security
    requires n <= |messages|
  {
    if n == 0 then ue else AfterSending(SentUpTo(ue, messages, n - 1), messages[n - 1].sht)
  }

  /** The octets sent for message `k` of the sequence. */
  function OctetsSent(crypto: Crypto, ue: Security, messages: seq<Message>, k: nat): seq<Octet>
    requires k < |messages|
  {
    Sealed(crypto, SentUpTo(ue, messages, k), messages[k].sht, messages[k].body)
  }

  /** How many of the messages from `r` up to `k` use up a COUNT: all but the plain ones. */
  function Sent(messages: seq<Message>, r: nat, k: nat): nat
    requires r <= k <= |messages|
  {
    if k == r then 0 else Sent(messages, r, k - 1) + if messages[k - 1].sht == PLAIN then 0 else 1
  }

  /** No message from `r` up to `k` renews the context. */
  predicate NoRenewal(messages: seq<Message>, r: nat, k: nat)
    requires r <= k <= |messages|
  {
    forall i :: r <= i < k ==> messages[i].sht != 3 && messages[i].sht != 4
  }

  lemma {:induction false} SentAdds(messages: seq<Message>, r: nat, i: nat, k: nat)
    requires r <= i <= k <= |messages|
    ensures Sent(messages, r, k) == Sent(messages, r, i) + Sent(messages, i, k)
  {
    if i < k {
      SentAdds(messages, r, i, k - 1);
    }
  }

  lemma StepsOnCircle(n: nat)
    ensures (n % 0x1000000 + 1) % 0x1000000 == (n + 1) % 0x1000000
  {
  }

  /** Between renewals the stored COUNT is the one at `r` and one more for each message that is not plain. */
  lemma {:induction false} DownlinkState(ue: Security, messages: seq<Message>, r: nat, k: nat)
    requires r <= k <= |messages| && NoRenewal(messages, r, k) && SentUpTo(ue, messages, r).dlCount < 0x1000000
    ensures SentUpTo(ue, messages, k).keys == SentUpTo(ue, messages, r).keys
    ensures SentUpTo(ue, messages, k).dlCount == (SentUpTo(ue, messages, r).dlCount + Sent(messages, r, k)) % 0x1000000
  {
    if r < k {
      DownlinkState(ue, messages, r, k - 1);
      StepsOnCircle(SentUpTo(ue, messages, r).dlCount + Sent(messages, r, k - 1));
    }
  }

  lemma {:induction false} DownlinkKeys(ue: Security, messages: seq<Message>, k: nat)
    requires k <= |messages| && ue.dlCount < 0x1000000
    ensures SentUpTo(ue, messages, k).keys == ue.keys && SentUpTo(ue, messages, k).dlCount < 0x1000000
  {
    if k > 0 {
      DownlinkKeys(ue, messages, k - 1);
    }
  }

  /** What a new-context header does: the message goes out under COUNT zero, and both COUNTs start over. */
  lemma RenewalStartsOver(crypto: Crypto, ue: Security, sht: Octet, body: seq<Octet>)
    requires sht == 3 || sht == 4
    ensures Sealed(crypto, ue, sht, body) == Frame(crypto, ue.keys, Downlink, 0, sht, body)
    ensures AfterSending(ue, sht) == ue.(dlCount := 1, ulCount := 0, contextAvailable := true)
  {
  }

  /** The COUNT under which message `k` of the sequence goes out. */
  function CountUsed(ue: Security, messages: seq<Message>, k: nat): U32
    requires k < |messages|
  {
    if messages[k].sht == 3 || messages[k].sht == 4 then 0 else SentUpTo(ue, messages, k).dlCount
  }

  /** A plain message goes out as it is, every other one as the frame of its COUNT. */
  lemma SentUnderCount(crypto: Crypto, ue: Security, messages: seq<Message>, k: nat)
    requires k < |messages| && ue.dlCount < 0x1000000
    ensures OctetsSent(crypto, ue, messages, k) ==
            if messages[k].sht == 0 then messages[k].body
            else Frame(crypto, ue.keys, Downlink, CountUsed(ue, messages, k), messages[k].sht, messages[k].body)
  {
    hide Frame, SentUpTo;
    DownlinkKeys(ue, messages, k);
  }

  /** The COUNT of a message is the number of messages since the last renewal, at `r`, that were not plain, modulo
      2^24. */
  lemma CountSinceRenewal(ue: Security, messages: seq<Message>, r: nat, k: nat)
    requires ue.dlCount < 0x1000000 && r <= k < |messages|
    requires (messages[r].sht == 3 || messages[r].sht == 4) && NoRenewal(messages, r + 1, k + 1)
    ensures CountUsed(ue, messages, k) == Sent(messages, r, k) % 0x1000000
  {
    if r < k {
      var before := SentUpTo(ue, messages, r);
      assert SentUpTo(ue, messages, r + 1) == AfterSending(before, messages[r].sht);
      assert SentUpTo(ue, messages, r + 1).dlCount == 1;
      hide SentUpTo, AfterSending;
      DownlinkState(ue, messages, r + 1, k);
      SentAdds(messages, r, r + 1, k);
      SentOne(messages, r);
    }
  }

  lemma SentOne(messages: seq<Message>, r: nat)
    requires r < |messages|
    ensures Sent(messages, r, r + 1) == if messages[r].sht == 0 then 0 else 1
  {
    assert Sent(messages, r, r) == 0;
  }

  /** Without a renewal it is counted on from the stored COUNT. */
  lemma CountWithoutRenewal(ue: Security, messages: seq<Message>, k: nat)
    requires ue.dlCount < 0x1000000 && k < |messages| && NoRenewal(messages, 0, k + 1)
    ensures CountUsed(ue, messages, k) == (ue.dlCount + Sent(messages, 0, k)) % 0x1000000
  {
    assert SentUpTo(ue, messages, 0) == ue;
    hide SentUpTo;
    DownlinkState(ue, messages, 0, k);
  }

  lemma SameOnCircleIff(m: nat, d: nat)
    ensures m % 0x1000000 == (m + d) % 0x1000000 <==> d % 0x1000000 == 0
  {
    var p, q := m / 0x1000000, (m + d) / 0x1000000;
    var a, b := m % 0x1000000, (m + d) % 0x1000000;
    assert d == (q - p) * 0x1000000 + (b - a);
    if d % 0x1000000 == 0 {
      var k := d / 0x1000000;
      assert b - a == (k - (q - p)) * 0x1000000;
    }
  }

  /** After a message that is not plain, the COUNT of a later one before the next renewal is counted on from its own. */
  lemma CountFollows(ue: Security, messages: seq<Message>, i: nat, j: nat)
    requires ue.dlCount < 0x1000000 && i < j < |messages| && NoRenewal(messages, i + 1, j + 1)
    requires messages[i].sht != 0
    ensures CountUsed(ue, messages, j) == (CountUsed(ue, messages, i) + Sent(messages, i, j)) % 0x1000000
  {
    hide SentUpTo, Sent;
    CountIsSmall(ue, messages, i);
    DownlinkState(ue, messages, i + 1, j);
    SentAdds(messages, i, i + 1, j);
    SentOne(messages, i);
    AddsOnCircle(CountUsed(ue, messages, i) + 1, Sent(messages, i + 1, j));
  }

  lemma AddsOnCircle(n: nat, m: nat)
    ensures (n % 0x1000000 + m) % 0x1000000 == (n + m) % 0x1000000
  {
  }

  /** Two messages that are not plain, with no renewal after the first up to the second, go out under the same COUNT
      exactly when the number of COUNTs used from the one to the other is a multiple of 2^24; each carries the low octet
      of its COUNT as SQN. */
  lemma DownlinkCountsAreUnique(crypto: Crypto, ue: Security, messages: seq<Message>, i: nat, j: nat)
    requires ue.dlCount < 0x1000000 && i < j < |messages| && NoRenewal(messages, i + 1, j + 1)
    requires messages[i].sht != 0 && messages[j].sht != 0
    ensures var c, d := CountUsed(ue, messages, i), CountUsed(ue, messages, j);
            var first, second := OctetsSent(crypto, ue, messages, i), OctetsSent(crypto, ue, messages, j);
            && first == Frame(crypto, ue.keys, Downlink, c, messages[i].sht, messages[i].body)
            && second == Frame(crypto, ue.keys, Downlink, d, messages[j].sht, messages[j].body)
            && |first| >= 7 && first[6] == c % 0x100 && |second| >= 7 && second[6] == d % 0x100
            && (c == d <==> Sent(messages, i, j) % 0x1000000 == 0)
            && (j < i + 0x1000000 ==> c != d)
  {
    hide Frame, CountUsed, OctetsSent;
    var c, d := CountUsed(ue, messages, i), CountUsed(ue, messages, j);
    SentUnderCount(crypto, ue, messages, i);
    SentUnderCount(crypto, ue, messages, j);
    FrameReadsBack(crypto, ue.keys, Downlink, c, messages[i].sht, messages[i].body);
    FrameReadsBack(crypto, ue.keys, Downlink, d, messages[j].sht, messages[j].body);
    CountsDiffer(ue, messages, i, j);
  }

  lemma CountsDiffer(ue: Security, messages: seq<Message>, i: nat, j: nat)
    requires ue.dlCount < 0x1000000 && i < j < |messages| && NoRenewal(messages, i + 1, j + 1)
    requires messages[i].sht != 0
    ensures CountUsed(ue, messages, i) == CountUsed(ue, messages, j) <==> Sent(messages, i, j) % 0x1000000 == 0
    ensures j < i + 0x1000000 ==> CountUsed(ue, messages, i) != CountUsed(ue, messages, j)
  {
    CountIsSmall(ue, messages, i);
    hide CountUsed, Sent;
    CountFollows(ue, messages, i, j);
    SameOnCircleIff(CountUsed(ue, messages, i), Sent(messages, i, j));
    SentIsBounded(messages, i, j);
  }

  lemma CountIsSmall(ue: Security, messages: seq<Message>, i: nat)
    requires ue.dlCount < 0x1000000 && i < |messages|
    ensures CountUsed(ue, messages, i) < 0x1000000
    ensures messages[i].sht != 0 ==>
              SentUpTo(ue, messages, i + 1).dlCount == (CountUsed(ue, messages, i) + 1) % 0x1000000
  {
    DownlinkKeys(ue, messages, i);
  }

  lemma {:induction false} SentIsBounded(messages: seq<Message>, r: nat, k: nat)
    requires r <= k <= |messages|
    ensures Sent(messages, r, k) <= k - r
    ensures r < k && messages[r].sht != PLAIN ==> Sent(messages, r, k) > 0
  {
    if r < k {
      SentIsBounded(messages, r, k - 1);
    }
  }
}
