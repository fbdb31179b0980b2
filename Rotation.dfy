/** The server and the client together: process_knockd_conf with
    generate_knock_sequence(section) as its generator, in a period whose seed
    calculate_shared_seed accepts. */
module Rotation {
  import opened Wrappers
  import opened Text
  import opened Codec
  import Client
  import opened KnockdConf

  /** The generator the server calls for a section: the formatted knocks of
      that section in the period with this seed. */
  function ServerGen(settings: Client.Settings, digest: string -> Client.Word32, seed: int): string -> string {
    name => Format(Client.KnockSequence(settings, digest, seed, name))
  }

  /** The generator agrees with generate_knock_sequence at offset 0. */
  lemma ServerGenIsClient(settings: Client.Settings, digest: string -> Client.Word32, now: int, name: string)
    requires settings.period > 0
    requires Client.SharedSeed(now, settings.period, 0).Ok?
    ensures Client.Generated(settings, digest, now, name, 0)
      == Ok(ServerGen(settings, digest, Client.SharedSeed(now, settings.period, 0).value)(name))
  {
  }

  /** A token "port:proto" of a port in 2000..65535 with tcp or udp holds only
      digits, ':' and letters. */
  lemma TokenChars(k: Knock)
    requires 2000 <= k.port <= 65535 && (k.protocol == "tcp" || k.protocol == "udp")
    ensures Token(k) != [] && IsDigit(Token(k)[0])
    ensures '\n' !in Token(k) && '[' !in Token(k)
  {
    var d := NatToDecimal(k.port);
    assert IntToDecimal(k.port) == d;
    assert forall i :: 0 <= i < |d| ==> IsDigit(d[i]);
    var t := Token(k);
    assert t == d + ":" + k.protocol;
    assert forall i :: 0 <= i < |t| ==> IsDigit(t[i]) || t[i] == ':' || 'a' <= t[i] <= 'u';
  }

  /** The sequence the server writes for a non-empty list of generated knocks
      is a value a second run reads back as written. */
  lemma FormattedIsGood(knocks: seq<Knock>)
    requires |knocks| > 0
    requires forall k :: k in knocks ==> 2000 <= k.port <= 65535
    requires forall k :: k in knocks ==> k.protocol == "tcp" || k.protocol == "udp"
    ensures GoodValue(Commas(Format(knocks)))
  {
    var tokens := Tokens(knocks);
    forall i | 0 <= i < |tokens|
      ensures '\n' !in tokens[i] && '[' !in tokens[i]
    {
      assert knocks[i] in knocks;
      TokenChars(knocks[i]);
    }
    assert knocks[0] in knocks;
    TokenChars(knocks[0]);
    JoinFree('\n', " ", tokens);
    JoinFree('[', " ", tokens);
    var s := Format(knocks);
    assert s[0] == tokens[0][0];
    var r := Commas(s);
    assert r[0] == s[0];
    assert forall i :: 0 <= i < |r| ==> r[i] == s[i] || r[i] == ',';
  }

  /** With at least one knock per sequence, the server's generator meets
      what the pass needs for a second run to find nothing to do. */
  lemma ServerGenIsGood(settings: Client.Settings, digest: string -> Client.Word32, seed: int)
    requires settings.sequenceLength >= 1
    ensures GoodGenerator(ServerGen(settings, digest, seed))
  {
    forall name ensures GoodValue(Commas(ServerGen(settings, digest, seed)(name))) {
      FormattedIsGood(Client.KnockSequence(settings, digest, seed, name));
    }
  }

  /** Two sections are given the same written sequence exactly when they
      are given the same knocks: with DuplicatesIff, the server gives up on
      duplicates exactly when two sections it found were generated the same
      knocks. */
  lemma SameWrittenSameKnocks(settings: Client.Settings, digest: string -> Client.Word32, seed: int, a: string, b: string)
    ensures Commas(ServerGen(settings, digest, seed)(a)) == Commas(ServerGen(settings, digest, seed)(b))
      <==> Client.KnockSequence(settings, digest, seed, a) == Client.KnockSequence(settings, digest, seed, b)
  {
    var ka := Client.KnockSequence(settings, digest, seed, a);
    var kb := Client.KnockSequence(settings, digest, seed, b);
    Client.KnocksArePlain(ka);
    Client.KnocksArePlain(kb);
    ParseCommaFormat(ka);
    ParseCommaFormat(kb);
  }

  /** The sequence the server writes for a section parses back, through
      parse_sequence, as the knocks generated for it. */
  lemma WrittenParses(settings: Client.Settings, digest: string -> Client.Word32, seed: int, name: string)
    ensures ParsePieces(Pieces(Commas(ServerGen(settings, digest, seed)(name))))
      == Ok(Client.KnockSequence(settings, digest, seed, name))
  {
    var knocks := Client.KnockSequence(settings, digest, seed, name);
    Client.KnocksArePlain(knocks);
    ParseCommaFormat(knocks);
  }

  /** Every sequence line the server rewrites is read, by any way of reading
      lines that reads written lines back (KindOf does, by KindOfReadsBack),
      as a sequence line whose value parse_sequence turns back into the knocks
      generated for the section it lies in. */
  lemma RewrittenLinesParse(kind: string -> Kind, settings: Client.Settings, digest: string -> Client.Word32, seed: int,
                            lines: seq<string>, dryRun: bool, j: nat)
    requires ReadsBack(kind) && settings.sequenceLength >= 1
    requires Process(kind, lines, ServerGen(settings, digest, seed), dryRun).Done?
    requires j < |lines|
    requires Process(kind, lines, ServerGen(settings, digest, seed), dryRun).output[j] != lines[j]
    ensures var section := SectionAt(kind, lines, ServerGen(settings, digest, seed), j);
      var read := kind(Process(kind, lines, ServerGen(settings, digest, seed), dryRun).output[j]);
      && section.Some?
      && read.ValueLine?
      && ParsePieces(Pieces(read.value)) == Ok(Client.KnockSequence(settings, digest, seed, section.value))
  {
    var gen := ServerGen(settings, digest, seed);
    ServerGenIsGood(settings, digest, seed);
    RewrittenReadsBack(kind, lines, gen, dryRun, j);
    WrittenParses(settings, digest, seed, SectionAt(kind, lines, gen, j).value);
  }

  /** A second run anywhere in the same period, on the file the first run
      wrote, finds every sequence up to date: it returns False and writes
      nothing, so the knockd service is not restarted again. */
  lemma SamePeriodNoRewrite(settings: Client.Settings, digest: string -> Client.Word32, now: int, later: int,
                            lines: seq<string>, dryRun: bool, dryRunAgain: bool)
    requires settings.period > 0 && settings.sequenceLength >= 1
    requires Client.SharedSeed(now, settings.period, 0).Ok?
    requires Client.PeriodStart(now, settings.period, 0) <= later < Client.PeriodStart(now, settings.period, 0) + settings.period
    requires Process(KindOf, lines, ServerGen(settings, digest, Client.SharedSeed(now, settings.period, 0).value), dryRun).Done?
    ensures Client.SharedSeed(later, settings.period, 0).Ok?
    ensures var first := Process(KindOf, lines, ServerGen(settings, digest, Client.SharedSeed(now, settings.period, 0).value), dryRun);
      Process(KindOf, first.output, ServerGen(settings, digest, Client.SharedSeed(later, settings.period, 0).value), dryRunAgain)
        == Done(first.output, false, false)
  {
    Client.SamePeriodSameSeed(now, later, settings.period, 0);
    var seed := Client.SharedSeed(now, settings.period, 0).value;
    KindOfReadsBack();
    ServerGenIsGood(settings, digest, seed);
    Idempotent(KindOf, lines, ServerGen(settings, digest, seed), dryRun, dryRunAgain);
  }
}
