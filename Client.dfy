/**
 * The client side of the rotator: the salt check made at start-up, the
 * period seed derived from the clock, and the knock sequence derived from
 * the seed, the service name and the salt.
 *
 * The clock is the parameter `now` (whole seconds since the epoch), the
 * environment is a `Settings` value, and SHA-256 is the parameter `digest`:
 * for a string s it stands for int(sha256(s.encode()).hexdigest()[:8], 16),
 * the first 32 bits of the digest read as a number.
 */
module Client {
  import opened Wrappers
  import opened Text
  import opened Codec
  import opened Arithmetic

  /** Why the client stops at start-up. */
  datatype StartupError = SaltMissing | SaltTooShort

  /** KNOCKD_ROTATOR_SALT: unset or empty stops the program, and so does a
      salt shorter than 10 characters. */
  function ValidateSalt(salt: Option<string>): (r: Result<string, StartupError>)
    ensures r.Ok? <==> salt.Some? && |salt.value| >= 10
    ensures r.Ok? ==> r.value == salt.value
    ensures salt.None? || salt == Some("") ==> r == Err(SaltMissing)
    ensures salt.Some? && 0 < |salt.value| < 10 ==> r == Err(SaltTooShort)
  {
    if salt.None? || salt.value == "" then Err(SaltMissing)
    else if |salt.value| < 10 then Err(SaltTooShort)
    else Ok(salt.value)
  }

  /** The values the client reads from its environment: the salt, the
      sequence length, the protocol modulo and the period in seconds. */
  datatype Settings = Settings(salt: string, sequenceLength: int, modulo: int, period: int)

  // ---------------------------------------------------------------------
  // Period seed
  // ---------------------------------------------------------------------

  /** Which of calculate_shared_seed's two assertions fails. */
  datatype SeedError = ZeroSeed | SuspiciousSeed(start: int)

  /** ((now // period) + offset) * period: the start of the period `offset`
      periods away from the one holding `now`. */
  function PeriodStart(now: int, period: int, offset: int): (start: int)
    requires period > 0
    ensures start % period == 0
    ensures offset == 0 ==> start <= now < start + period
  {
    var q := now / period;
    assert (q + offset) * period % period == 0 by {
      MultipleMod(q + offset, period);
    }
    (q + offset) * period
  }

  /** Each unit of offset moves the seed by exactly one period. */
  lemma PeriodStartShift(now: int, period: int, offset: int)
    requires period > 0
    ensures PeriodStart(now, period, offset + 1) == PeriodStart(now, period, offset) + period
  {
    var q := now / period;
    assert (q + offset + 1) * period == (q + offset) * period + period;
  }

  /** calculate_shared_seed: the period start, unless it is 0 or its decimal
      text has at most 5 characters (a minus sign counts). */
  function SharedSeed(now: int, period: int, offset: int): (r: Result<int, SeedError>)
    requires period > 0
    ensures r.Ok? ==> r.value == PeriodStart(now, period, offset) && r.value != 0
    ensures r.Err? ==> (r.error ==
      if PeriodStart(now, period, offset) == 0 then ZeroSeed else SuspiciousSeed(PeriodStart(now, period, offset)))
  {
    var start := PeriodStart(now, period, offset);
    if start == 0 then Err(ZeroSeed)
    else if |IntToDecimal(start)| <= 5 then Err(SuspiciousSeed(start))
    else Ok(start)
  }

  /** The sanity check in numbers: a seed is accepted exactly when it is at
      least 100000, or at most -10000 (whose text "-10000" has 6 characters). */
  lemma SeedAccepted(now: int, period: int, offset: int)
    requires period > 0
    ensures SharedSeed(now, period, offset).Ok? <==>
      PeriodStart(now, period, offset) >= 100000 || PeriodStart(now, period, offset) <= -10000
  {
    var start := PeriodStart(now, period, offset);
    assert Pow10(5) == 100000 && Pow10(4) == 10000;
    if start >= 0 {
      DecimalWidth(start, 5);
    } else {
      DecimalWidth(-start, 4);
      assert |IntToDecimal(start)| == 1 + |NatToDecimal(-start)|;
    }
  }

  /** Two readings of the clock inside the same period give the same seed. */
  lemma SamePeriodSameSeed(now: int, later: int, period: int, offset: int)
    requires period > 0
    requires PeriodStart(now, period, 0) <= later < PeriodStart(now, period, 0) + period
    ensures SharedSeed(later, period, offset) == SharedSeed(now, period, offset)
  {
    DivUnique(later, period, now / period);
  }

  // ---------------------------------------------------------------------
  // Knock sequence
  // ---------------------------------------------------------------------

  const Suffix: string := "_ROTATOR"

  /** The service name, with "_ROTATOR" appended when it does not already end so. */
  function NormaliseName(name: string): (r: string)
    ensures EndsWith(r, Suffix)
    ensures EndsWith(name, Suffix) ==> r == name
    ensures |r| <= |name| + |Suffix|
  {
    if EndsWith(name, Suffix) then name
    else
      assert (name + Suffix)[|name|..] == Suffix;
      name + Suffix
  }

  lemma NormaliseIdempotent(name: string)
    ensures NormaliseName(NormaliseName(name)) == NormaliseName(name)
  {
  }

  /** The first 32 bits of a SHA-256 digest, read as a number. */
  type Word32 = x: int | 0 <= x < 0x1_0000_0000

  /** (decimal % 63536) + 2000 */
  function ScalePort(decimal: Word32): (port: int)
    ensures 2000 <= port <= 65535
  {
    decimal % 63536 + 2000
  }

  /** The text hashed for the i-th port: f"{seed}{name}{salt}{i}". */
  function HashInput(seed: int, name: string, salt: string, i: nat): (text: string)
    ensures |text| == |IntToDecimal(seed)| + |name| + |salt| + |NatToDecimal(i)|
    ensures text[..|IntToDecimal(seed)|] == IntToDecimal(seed)
    ensures text[|text| - |NatToDecimal(i)|..] == NatToDecimal(i)
  {
    IntToDecimal(seed) + name + salt + NatToDecimal(i)
  }

  /** 'tcp' when MODULO is 0; otherwise 'tcp' when MODULO divides the port, 'udp' when not. */
  function Protocol(port: int, modulo: int): (protocol: string)
    ensures protocol == "tcp" || protocol == "udp"
    ensures protocol == "tcp" <==> modulo == 0 || port % modulo == 0
  {
    if modulo == 0 then "tcp"
    else if port % modulo == 0 then "tcp"
    else "udp"
  }

  /** The i-th port of a service's sequence: the digest of the i-th hash input, scaled. */
  function PortAt(settings: Settings, digest: string -> Word32, seed: int, name: string, i: nat): (port: int)
    ensures 2000 <= port <= 65535
  {
    ScalePort(digest(HashInput(seed, name, settings.salt, i)))
  }

  /** The knocks of one period for one service: for i = 1 .. length, the
      port scaled from the digest of the i-th hash input, with its protocol. */
  function KnockSequence(settings: Settings, digest: string -> Word32, seed: int, serviceName: string): (knocks: seq<Knock>)
    ensures |knocks| == if settings.sequenceLength > 0 then settings.sequenceLength else 0
    ensures forall i :: 0 <= i < |knocks| ==>
      knocks[i] == KnockFor(PortAt(settings, digest, seed, NormaliseName(serviceName), i + 1), settings.modulo)
    ensures forall k :: k in knocks ==> 2000 <= k.port <= 65535
    ensures forall k :: k in knocks ==> k.protocol == "tcp" || k.protocol == "udp"
    ensures forall k :: k in knocks ==> (k.protocol == "tcp" <==> settings.modulo == 0 || k.port % settings.modulo == 0)
  {
    var name := NormaliseName(serviceName);
    var n := if settings.sequenceLength > 0 then settings.sequenceLength else 0;
    seq(n, i requires 0 <= i < n => KnockFor(PortAt(settings, digest, seed, name, i + 1), settings.modulo))
  }

  function KnockFor(port: int, modulo: int): (k: Knock)
    ensures k.port == port && k.protocol == Protocol(port, modulo)
  {
    Knock(port, Protocol(port, modulo))
  }

  /** generate_knock_sequence as a value: the seed's failure, or the formatted sequence. */
  function Generated(settings: Settings, digest: string -> Word32, now: int, serviceName: string, offset: int): (r: Result<string, SeedError>)
    requires settings.period > 0
    ensures r.Err? <==> SharedSeed(now, settings.period, offset).Err?
    ensures r.Err? ==> r.error == SharedSeed(now, settings.period, offset).error
    ensures r.Ok? ==>
      ReadBack(r.value) == Some(KnockSequence(settings, digest, PeriodStart(now, settings.period, offset), serviceName))
  {
    var seed :- SharedSeed(now, settings.period, offset);
    var knocks := KnockSequence(settings, digest, seed, serviceName);
    assert ReadBack(Format(knocks)) == Some(knocks) by {
      KnocksArePlain(knocks);
      ReadBackFormat(knocks);
    }
    Ok(Format(knocks))
  }

  lemma KnocksArePlain(knocks: seq<Knock>)
    requires forall i :: 0 <= i < |knocks| ==> knocks[i].protocol == "tcp" || knocks[i].protocol == "udp"
    ensures Plain(knocks)
  {
    forall i | 0 <= i < |knocks| ensures PlainProtocol(knocks[i].protocol) {
      var p := knocks[i].protocol;
      assert forall j :: 0 <= j < |p| ==> 'a' <= p[j] <= 'u';
    }
  }

  /** The generated text reads back, token by token, as exactly the knocks of
      KnockSequence: so the client's range and protocol assertions never fail. */
  lemma GeneratedReadsBack(settings: Settings, digest: string -> Word32, now: int, serviceName: string, offset: int)
    requires settings.period > 0
    requires Generated(settings, digest, now, serviceName, offset).Ok?
    ensures ReadBack(Generated(settings, digest, now, serviceName, offset).value)
      == Some(KnockSequence(settings, digest, PeriodStart(now, settings.period, offset), serviceName))
  {
    var knocks := KnockSequence(settings, digest, PeriodStart(now, settings.period, offset), serviceName);
    KnocksArePlain(knocks);
    ReadBackFormat(knocks);
  }

  /** Calls made anywhere inside one period agree: the linchpin that lets
      client and server meet without talking to each other. */
  lemma SamePeriodSameSequence(settings: Settings, digest: string -> Word32, now: int, later: int, serviceName: string, offset: int)
    requires settings.period > 0
    requires PeriodStart(now, settings.period, 0) <= later < PeriodStart(now, settings.period, 0) + settings.period
    ensures Generated(settings, digest, later, serviceName, offset) == Generated(settings, digest, now, serviceName, offset)
  {
    SamePeriodSameSeed(now, later, settings.period, offset);
  }

  /** The ports computed one by one, paired with their protocols, are the knocks of KnockSequence. */
  lemma PortsMakeKnocks(settings: Settings, digest: string -> Word32, seed: int, serviceName: string, ports: seq<int>, knocks: seq<Knock>)
    requires |ports| == if settings.sequenceLength > 0 then settings.sequenceLength else 0
    requires forall k :: 0 <= k < |ports| ==> ports[k] == PortAt(settings, digest, seed, NormaliseName(serviceName), k + 1)
    requires |knocks| == |ports|
    requires forall k :: 0 <= k < |knocks| ==> knocks[k] == Knock(ports[k], Protocol(ports[k], settings.modulo))
    ensures knocks == KnockSequence(settings, digest, seed, serviceName)
  {
    var expected := KnockSequence(settings, digest, seed, serviceName);
    assert forall k :: 0 <= k < |knocks| ==> knocks[k] == expected[k];
  }

  /** The check generate_knock_sequence makes on its own text never fails:
      every whitespace-separated token splits on ':' into two halves, the
      first reads as a port in 2000..65535 and the second is tcp or udp. */
  lemma ValidationPasses(knocks: seq<Knock>)
    requires forall i :: 0 <= i < |knocks| ==> 2000 <= knocks[i].port <= 65535
    requires forall i :: 0 <= i < |knocks| ==> knocks[i].protocol == "tcp" || knocks[i].protocol == "udp"
    ensures |Words(Format(knocks))| == |knocks|
    ensures forall j :: 0 <= j < |knocks| ==>
      var halves := Split(Words(Format(knocks))[j], ':');
      && |halves| == 2
      && ParseInt(halves[0]).Some?
      && 2000 <= ParseInt(halves[0]).value <= 65535
      && (halves[1] == "tcp" || halves[1] == "udp")
  {
    KnocksArePlain(knocks);
    var tokens := Tokens(knocks);
    assert Words(Format(knocks)) == tokens;
    forall j | 0 <= j < |knocks|
      ensures var halves := Split(tokens[j], ':');
        && |halves| == 2
        && ParseInt(halves[0]) == Some(knocks[j].port)
        && halves[1] == knocks[j].protocol
    {
      assert tokens[j] == Token(knocks[j]);
      ParseIntDecimal(knocks[j].port);
    }
  }

  /** generate_knock_sequence: normalise the name, derive the seed, hash
      seed+name+salt+i for i = 1 .. SEQUENCE_LENGTH, pick each protocol,
      join the tokens with spaces, then re-read the text and assert that every
      port lies in 2000..65535 and every protocol is tcp or udp. */
  method GenerateKnockSequence(settings: Settings, digest: string -> Word32, now: int, serviceName: string, offset: int)
    returns (r: Result<string, SeedError>)
    requires settings.period > 0
    ensures r == Generated(settings, digest, now, serviceName, offset)
  {
    var name := serviceName;
    if !EndsWith(name, Suffix) {
      name := name + Suffix;
    }
    var currentSeed := SharedSeed(now, settings.period, offset);
    if currentSeed.Err? {
      return Err(currentSeed.error);
    }
    var sectionSeed := IntToDecimal(currentSeed.value) + name + settings.salt;

    ghost var seed := currentSeed.value;
    assert name == NormaliseName(serviceName);
    var ports: seq<int> := [];
    var i := 1;
    while i <= settings.sequenceLength
      invariant 1 <= i && |ports| == i - 1
      invariant i <= if settings.sequenceLength >= 1 then settings.sequenceLength + 1 else 1
      invariant forall k :: 0 <= k < |ports| ==> ports[k] == PortAt(settings, digest, seed, name, k + 1)
    {
      assert sectionSeed + NatToDecimal(i) == HashInput(seed, name, settings.salt, i);
      var decimal := digest(sectionSeed + NatToDecimal(i));
      var port := decimal % 63536 + 2000;
      ports := ports + [port];
      i := i + 1;
    }

    var knocks: seq<Knock>;
    if settings.modulo == 0 {
      knocks := seq(|ports|, k requires 0 <= k < |ports| => Knock(ports[k], "tcp"));
    } else {
      knocks := seq(|ports|, k requires 0 <= k < |ports| =>
        Knock(ports[k], if ports[k] % settings.modulo == 0 then "tcp" else "udp"));
    }
    assert forall k :: 0 <= k < |knocks| ==> knocks[k] == Knock(ports[k], Protocol(ports[k], settings.modulo));
    PortsMakeKnocks(settings, digest, seed, serviceName, ports, knocks);
    var sequence := Format(knocks);

    ValidationPasses(knocks);
    var tokens := Words(sequence);
    for j := 0 to |tokens| {
      var halves := Split(tokens[j], ':');
      assert |halves| == 2;
      var port := ParseInt(halves[0]);
      assert port.Some? && 2000 <= port.value <= 65535;
      assert halves[1] == "tcp" || halves[1] == "udp";
    }
    r := Ok(sequence);
  }
}
