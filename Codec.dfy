/**
 * The knock-sequence text: the client writes "port:proto port:proto ...",
 * the configuration file holds the same tokens joined by commas, and the
 * server's parser reads either form back into (port, protocol) pairs.
 */
module Codec {
  import opened Wrappers
  import opened Text

  /** One knock: a port and the protocol it is knocked with. */
  datatype Knock = Knock(port: int, protocol: string)

  /** A protocol that survives the text form unchanged: no whitespace, colon or comma. */
  predicate PlainProtocol(protocol: string) {
    NoSpace(protocol) && ':' !in protocol && ',' !in protocol
  }

  predicate Plain(knocks: seq<Knock>) {
    forall i :: 0 <= i < |knocks| ==> PlainProtocol(knocks[i].protocol)
  }

  /** The token f"{port}:{proto}". */
  function Token(k: Knock): (t: string)
    ensures ':' !in k.protocol ==> Split(t, ':') == [IntToDecimal(k.port), k.protocol]
  {
    var d := IntToDecimal(k.port);
    assert ':' !in k.protocol ==> Split(d + [':'] + k.protocol, ':') == [d, k.protocol] by {
      if ':' !in k.protocol {
        DecimalIsPlain(k.port);
        SplitAfter(d, ':', k.protocol);
        SplitFree(k.protocol, ':');
      }
    }
    d + ":" + k.protocol
  }

  function Tokens(knocks: seq<Knock>): (tokens: seq<string>)
    ensures |tokens| == |knocks|
  {
    seq(|knocks|, i requires 0 <= i < |knocks| => Token(knocks[i]))
  }

  /** The client's output: the tokens joined by single spaces. */
  function Format(knocks: seq<Knock>): (r: string)
    ensures r == [] <==> knocks == []
    ensures Plain(knocks) ==> Words(r) == Tokens(knocks)
  {
    assert Plain(knocks) ==> Words(Join(" ", Tokens(knocks))) == Tokens(knocks) by {
      if Plain(knocks) {
        TokensArePlain(knocks);
        WordsJoin(Tokens(knocks));
      }
    }
    Join(" ", Tokens(knocks))
  }

  lemma DecimalIsPlain(i: int)
    ensures NoSpace(IntToDecimal(i)) && ':' !in IntToDecimal(i) && ',' !in IntToDecimal(i)
    ensures IntToDecimal(i) != []
  {
    var d := NatToDecimal(if i < 0 then -i else i);
    assert forall k :: 0 <= k < |d| ==> IsDigit(d[k]);
    if i < 0 {
      var s := ['-'] + d;
      assert s == IntToDecimal(i);
      assert forall k :: 0 < k < |s| ==> s[k] == d[k - 1];
    }
  }

  lemma TokenIsPlain(k: Knock)
    requires PlainProtocol(k.protocol)
    ensures Token(k) != [] && NoSpace(Token(k)) && ',' !in Token(k)
    ensures Split(Token(k), ':') == [IntToDecimal(k.port), k.protocol]
  {
    var d := IntToDecimal(k.port);
    DecimalIsPlain(k.port);
    var t := Token(k);
    assert forall i :: 0 <= i < |d| ==> t[i] == d[i];
    assert forall i :: |d| < i < |t| ==> t[i] == k.protocol[i - |d| - 1];
    assert Join([':'], [d, k.protocol]) == t;
    SplitJoin([d, k.protocol], ':');
  }

  lemma TokensArePlain(knocks: seq<Knock>)
    requires Plain(knocks)
    ensures forall i :: 0 <= i < |knocks| ==> Tokens(knocks)[i] != [] && NoSpace(Tokens(knocks)[i])
    ensures forall i :: 0 <= i < |knocks| ==> ' ' !in Tokens(knocks)[i] && ',' !in Tokens(knocks)[i]
  {
    forall i | 0 <= i < |knocks|
      ensures Tokens(knocks)[i] != [] && NoSpace(Tokens(knocks)[i])
      ensures ' ' !in Tokens(knocks)[i] && ',' !in Tokens(knocks)[i]
    {
      TokenIsPlain(knocks[i]);
    }
  }

  // ---------------------------------------------------------------------
  // The client's own check of its output: split on whitespace, then each
  // token on ':' into exactly two pieces, the first read with int().
  // ---------------------------------------------------------------------

  /** `port_str, proto = token.split(":")` and `int(port_str)`; None where Python raises ValueError. */
  function ReadToken(token: string): (r: Option<Knock>)
    ensures r.Some? ==> ':' !in r.value.protocol
  {
    var pieces := Split(token, ':');
    if |pieces| != 2 then None
    else
      match ParseInt(pieces[0])
      case None => None
      case Some(port) =>
        assert ':' !in pieces[1] by {
          SplitPartsFree(token, ':');
        }
        Some(Knock(port, pieces[1]))
  }

  /** A token the validation accepts is integer text, a colon, and a protocol. */
  lemma ReadTokenShape(token: string)
    requires ReadToken(token).Some?
    ensures exists p :: ParseInt(p) == Some(ReadToken(token).value.port) && token == p + ":" + ReadToken(token).value.protocol
  {
    var pieces := Split(token, ':');
    JoinSplit(token, ':');
    assert pieces[1..] == [pieces[1]];
    assert token == pieces[0] + ":" + pieces[1];
  }

  function ReadTokens(tokens: seq<string>): Option<seq<Knock>>
    decreases |tokens|
  {
    if tokens == [] then Some([])
    else
      var init :- ReadTokens(tokens[..|tokens| - 1]);
      var k :- ReadToken(tokens[|tokens| - 1]);
      Some(init + [k])
  }

  /** What the client's validation loop reads back from a sequence string. */
  function ReadBack(s: string): Option<seq<Knock>> {
    ReadTokens(Words(s))
  }

  /** The client's validation reads its own token for a knock back as that knock. */
  lemma ReadTokenOfToken(k: Knock)
    requires PlainProtocol(k.protocol)
    ensures ReadToken(Token(k)) == Some(k)
  {
    TokenIsPlain(k);
    ParseIntDecimal(k.port);
  }

  lemma {:induction false} ReadTokensOfKnocks(knocks: seq<Knock>)
    requires Plain(knocks)
    ensures ReadTokens(Tokens(knocks)) == Some(knocks)
    decreases |knocks|
  {
    if knocks != [] {
      var init, last := knocks[..|knocks| - 1], knocks[|knocks| - 1];
      ReadTokensOfKnocks(init);
      ReadTokenOfToken(last);
      ReadTokensStep(Tokens(init), Token(last), init, last);
      TokensSnoc(knocks);
      assert knocks == init + [last];
    }
  }

  /** The tokens of all knocks are those of all but the last, then the last one's. */
  lemma TokensSnoc(knocks: seq<Knock>)
    requires knocks != []
    ensures Tokens(knocks) == Tokens(knocks[..|knocks| - 1]) + [Token(knocks[|knocks| - 1])]
  {
    var init, last := knocks[..|knocks| - 1], knocks[|knocks| - 1];
    var lhs, rhs := Tokens(knocks), Tokens(init) + [Token(last)];
    forall i | 0 <= i < |knocks| ensures lhs[i] == rhs[i] {
      if i < |init| {
        assert init[i] == knocks[i];
      }
    }
  }

  /** Reading one more token extends what the earlier tokens read as. */
  lemma ReadTokensStep(init: seq<string>, token: string, knocks: seq<Knock>, k: Knock)
    requires ReadTokens(init) == Some(knocks)
    requires ReadToken(token) == Some(k)
    ensures ReadTokens(init + [token]) == Some(knocks + [k])
  {
    assert (init + [token])[..|init|] == init;
  }

  /** Splitting the client's output on whitespace and each token on ':'
      recovers exactly the knocks it was formatted from, in order. */
  lemma ReadBackFormat(knocks: seq<Knock>)
    requires Plain(knocks)
    ensures ReadBack(Format(knocks)) == Some(knocks)
  {
    TokensArePlain(knocks);
    WordsJoin(Tokens(knocks));
    ReadTokensOfKnocks(knocks);
  }

  /** The same facts token by token, as the client's validation loop uses them. */
  lemma FormatTokens(knocks: seq<Knock>)
    requires Plain(knocks)
    ensures Words(Format(knocks)) == Tokens(knocks)
    ensures forall j :: 0 <= j < |knocks| ==>
      && Split(Tokens(knocks)[j], ':') == [IntToDecimal(knocks[j].port), knocks[j].protocol]
      && ParseInt(IntToDecimal(knocks[j].port)) == Some(knocks[j].port)
  {
    TokensArePlain(knocks);
    WordsJoin(Tokens(knocks));
    forall j | 0 <= j < |knocks|
      ensures Split(Tokens(knocks)[j], ':') == [IntToDecimal(knocks[j].port), knocks[j].protocol]
      ensures ParseInt(IntToDecimal(knocks[j].port)) == Some(knocks[j].port)
    {
      TokenIsPlain(knocks[j]);
      ParseIntDecimal(knocks[j].port);
    }
  }

  // ---------------------------------------------------------------------
  // The server's parse_sequence.
  // ---------------------------------------------------------------------

  /** Why parse_sequence raises ValueError: a piece with a colon that is
      not exactly port:protocol, or a port int() rejects. */
  datatype ParseError = NotAPair(piece: string) | NotAPort(text: string)

  /** The pieces parse_sequence works through: split on commas when the
      text holds a comma, on whitespace otherwise. */
  function Pieces(s: string): (pieces: seq<string>)
    ensures ',' in s ==> Join(",", pieces) == s
    ensures ',' in s ==> forall i :: 0 <= i < |pieces| ==> ',' !in pieces[i]
    ensures ',' !in s ==> forall i :: 0 <= i < |pieces| ==> pieces[i] != [] && NoSpace(pieces[i])
    ensures ',' !in s ==> exists gaps :: RunsOf(s, pieces, gaps)
  {
    if ',' in s then
      assert Join(",", Split(s, ',')) == s by {
        JoinSplit(s, ',');
      }
      SplitPartsFree(s, ',');
      Split(s, ',')
    else
      WordsRuns(s);
      Words(s)
  }

  /** One piece, stripped: with a colon it must split into exactly two parts,
      port and protocol; without one it is a bare port knocked over tcp. */
  function ParsePiece(piece: string): (r: Result<Knock, ParseError>)
    ensures r.Ok? ==> ':' !in r.value.protocol
    ensures r.Ok? && ':' !in Strip(piece) ==> r.value.protocol == "tcp"
    ensures r.Err? && r.error.NotAPair? ==> ':' in Strip(piece)
    ensures r.Ok? && ':' !in Strip(piece) ==> ParseInt(Strip(piece)) == Some(r.value.port)
  {
    var p := Strip(piece);
    if ':' in p then
      var halves := Split(p, ':');
      if |halves| != 2 then Err(NotAPair(p))
      else
        match ParseInt(Strip(halves[0]))
        case None => Err(NotAPort(halves[0]))
        case Some(port) =>
          assert ':' !in halves[1] by {
            SplitPartsFree(p, ':');
          }
          Ok(Knock(port, halves[1]))
    else
      match ParseInt(p)
      case None => Err(NotAPort(p))
      case Some(port) => Ok(Knock(port, "tcp"))
  }

  /** A piece with a colon that parses is int()-readable text, the colon,
      then the protocol as written. */
  lemma ParsePieceShape(piece: string)
    requires ParsePiece(piece).Ok? && ':' in Strip(piece)
    ensures exists a :: Strip(piece) == a + ":" + ParsePiece(piece).value.protocol && ParseInt(Strip(a)) == Some(ParsePiece(piece).value.port)
  {
    var p := Strip(piece);
    var halves := Split(p, ':');
    JoinSplit(p, ':');
    assert Join([':'], halves) == halves[0] + [':'] + Join([':'], halves[1..]);
    assert p == halves[0] + ":" + halves[1];
  }

  /** The pieces parsed in order; the first failing piece decides the error. */
  function ParsePieces(pieces: seq<string>): (r: Result<seq<Knock>, ParseError>)
    ensures r.Ok? ==> |r.value| == |pieces|
    decreases |pieces|
  {
    if pieces == [] then Ok([])
    else
      var init :- ParsePieces(pieces[..|pieces| - 1]);
      var k :- ParsePiece(pieces[|pieces| - 1]);
      Ok(init + [k])
  }

  /** parse_sequence: one pass over the pieces, appending each parsed pair. */
  method ParseSequence(s: string) returns (r: Result<seq<Knock>, ParseError>)
    ensures r == ParsePieces(Pieces(s))
  {
    var pieces := if ',' in s then Split(s, ',') else Words(s);
    var result: seq<Knock> := [];
    var i := 0;
    while i < |pieces|
      invariant 0 <= i <= |pieces|
      invariant ParsePieces(pieces[..i]) == Ok(result)
    {
      var k := ParsePiece(pieces[i]);
      ParseNext(pieces, i, result);
      if k.Err? {
        return Err(k.error);
      }
      result := result + [k.value];
      i := i + 1;
    }
    assert pieces[..i] == pieces;
    r := Ok(result);
  }

  /** One turn of parse_sequence's loop: a piece that parses extends the
      result, and one that fails is the error of the whole sequence. */
  lemma ParseNext(pieces: seq<string>, i: nat, result: seq<Knock>)
    requires i < |pieces| && ParsePieces(pieces[..i]) == Ok(result)
    ensures ParsePiece(pieces[i]).Ok? ==> ParsePieces(pieces[..i + 1]) == Ok(result + [ParsePiece(pieces[i]).value])
    ensures ParsePiece(pieces[i]).Err? ==> ParsePieces(pieces) == Err(ParsePiece(pieces[i]).error)
  {
    TakeOneMore(pieces, i);
    if ParsePiece(pieces[i]).Err? {
      ParsePiecesFail(pieces[..i], pieces[i]);
      FailureStops(pieces, i + 1, |pieces|);
      TakeAll(pieces);
    } else {
      ParsePiecesStep(pieces[..i], pieces[i], result, ParsePiece(pieces[i]).value);
    }
  }

  /** Once a prefix fails, the failure is the result of every longer prefix. */
  lemma {:induction false} FailureStops(pieces: seq<string>, j: nat, m: nat)
    requires j <= m <= |pieces|
    requires ParsePieces(pieces[..j]).Err?
    ensures ParsePieces(pieces[..m]) == ParsePieces(pieces[..j])
    decreases m
  {
    if m > j {
      FailureStops(pieces, j, m - 1);
      assert pieces[..m][..m - 1] == pieces[..m - 1];
    }
  }

  /** parse_sequence yields exactly one pair per piece, in order, and fails
      exactly when some piece fails. */
  lemma {:induction false} ParsePiecesInOrder(pieces: seq<string>)
    ensures ParsePieces(pieces).Ok? <==> forall i :: 0 <= i < |pieces| ==> ParsePiece(pieces[i]).Ok?
    ensures ParsePieces(pieces).Ok? ==>
      && |ParsePieces(pieces).value| == |pieces|
      && forall i :: 0 <= i < |pieces| ==> ParsePiece(pieces[i]) == Ok(ParsePieces(pieces).value[i])
    decreases |pieces|
  {
    if pieces != [] {
      var n := |pieces|;
      var init := pieces[..n - 1];
      ParsePiecesInOrder(init);
      if ParsePieces(init).Ok? {
        ParsedPrefixExtends(pieces);
      } else {
        var i :| 0 <= i < n - 1 && !ParsePiece(init[i]).Ok?;
        assert init[i] == pieces[i];
      }
    }
  }

  /** The inductive step of ParsePiecesInOrder when all but the last piece parse. */
  lemma ParsedPrefixExtends(pieces: seq<string>)
    requires pieces != []
    requires var init := pieces[..|pieces| - 1];
      && ParsePieces(init).Ok?
      && |ParsePieces(init).value| == |init|
      && forall i :: 0 <= i < |init| ==> ParsePiece(init[i]) == Ok(ParsePieces(init).value[i])
    ensures ParsePieces(pieces).Ok? <==> ParsePiece(pieces[|pieces| - 1]).Ok?
    ensures ParsePieces(pieces).Ok? ==>
      && |ParsePieces(pieces).value| == |pieces|
      && forall i :: 0 <= i < |pieces| ==> ParsePiece(pieces[i]) == Ok(ParsePieces(pieces).value[i])
  {
    var n := |pieces|;
    var init := pieces[..n - 1];
    var last := ParsePiece(pieces[n - 1]);
    if last.Ok? {
      var ks := ParsePieces(init).value + [last.value];
      assert ParsePieces(pieces) == Ok(ks);
      forall i | 0 <= i < n ensures ParsePiece(pieces[i]) == Ok(ks[i]) {
        if i < n - 1 {
          assert init[i] == pieces[i];
        }
      }
    }
  }

  /** The client's token for a knock is parsed back by parse_sequence as that knock. */
  lemma PieceOfToken(k: Knock)
    requires PlainProtocol(k.protocol)
    ensures ParsePiece(Token(k)) == Ok(k)
  {
    TokenIsPlain(k);
    StripNoSpace(Token(k));
    DecimalIsPlain(k.port);
    StripNoSpace(IntToDecimal(k.port));
    ParseIntDecimal(k.port);
    assert Token(k)[|IntToDecimal(k.port)|] == ':';
  }

  lemma {:induction false} ParseTokensOfKnocks(knocks: seq<Knock>)
    requires Plain(knocks)
    ensures ParsePieces(Tokens(knocks)) == Ok(knocks)
    decreases |knocks|
  {
    if knocks != [] {
      var init, last := knocks[..|knocks| - 1], knocks[|knocks| - 1];
      ParseTokensOfKnocks(init);
      ParseTokenAppended(init, last);
      TokensSnoc(knocks);
      assert knocks == init + [last];
    }
  }

  /** One more client token parses to one more knock. */
  lemma ParseTokenAppended(init: seq<Knock>, last: Knock)
    requires ParsePieces(Tokens(init)) == Ok(init)
    requires PlainProtocol(last.protocol)
    ensures ParsePieces(Tokens(init) + [Token(last)]) == Ok(init + [last])
  {
    PieceOfToken(last);
    ParsePiecesStep(Tokens(init), Token(last), init, last);
  }

  /** Parsing one more piece extends what the earlier pieces parsed to. */
  lemma ParsePiecesStep(init: seq<string>, piece: string, knocks: seq<Knock>, k: Knock)
    requires ParsePieces(init) == Ok(knocks)
    requires ParsePiece(piece) == Ok(k)
    ensures ParsePieces(init + [piece]) == Ok(knocks + [k])
  {
    assert (init + [piece])[..|init|] == init;
  }

  /** A piece that fails after pieces that parsed is the error of the whole. */
  lemma ParsePiecesFail(init: seq<string>, piece: string)
    requires ParsePieces(init).Ok?
    requires ParsePiece(piece).Err?
    ensures ParsePieces(init + [piece]) == Err(ParsePiece(piece).error)
  {
    assert (init + [piece])[..|init|] == init;
  }

  /** The server reads the client's space-separated output back unchanged. */
  lemma ParseFormat(knocks: seq<Knock>)
    requires Plain(knocks)
    ensures ParsePieces(Pieces(Format(knocks))) == Ok(knocks)
  {
    TokensArePlain(knocks);
    JoinFree(',', " ", Tokens(knocks));
    WordsJoin(Tokens(knocks));
    ParseTokensOfKnocks(knocks);
  }

  /** The comma form the server writes into the configuration (the client's
      output with every space replaced by a comma) parses back to the knocks. */
  lemma ParseCommaFormat(knocks: seq<Knock>)
    requires Plain(knocks)
    ensures ParsePieces(Pieces(Replace(Format(knocks), ' ', ','))) == Ok(knocks)
  {
    var tokens := Tokens(knocks);
    TokensArePlain(knocks);
    ReplaceJoin(tokens);
    if |tokens| >= 2 {
      var s := Join(",", tokens);
      assert s == tokens[0] + "," + Join(",", tokens[1..]);
      assert s[|tokens[0]|] == ',';
      SplitJoin(tokens, ',');
      ParseTokensOfKnocks(knocks);
    } else {
      assert Join(",", tokens) == Format(knocks);
      ParseFormat(knocks);
    }
  }

  /** A piece without a colon is a bare port, knocked over tcp. */
  lemma BarePortIsTcp(port: int)
    ensures ParsePiece(IntToDecimal(port)) == Ok(Knock(port, "tcp"))
  {
    DecimalIsPlain(port);
    StripNoSpace(IntToDecimal(port));
    ParseIntDecimal(port);
  }
}
