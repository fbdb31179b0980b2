# knockd rotator, modelled in Dafny

knockd rotator keeps a port-knocking sequence that changes every period
(`PERIOD_MODULO` seconds, six hours by default). The client and the server
never talk to each other. Each one derives the same sequence from three
things: a shared salt, the start of the current UTC period, and the service
name.

- The **client** (`knockd_rotator_client.py`) does the derivation. It checks
  the salt and derives the period seed. It then hashes
  `seed + name + salt + i` for each knock, scales each digest to a port in
  2000..65535, picks tcp or udp, and prints the sequence as
  `port:proto port:proto ...`.
- The **server** (`knockd_rotator_server.py`) keeps `knockd.conf` current.
  It reads the file line by line and tracks the current `[..._ROTATOR]`
  section. It replaces each section's `sequence = ...` line when the value
  there differs from the generated one (with spaces turned into commas). It
  stops when the last section has no sequence, when no section was found, or
  when two sections got the same sequence. At the end it decides whether to
  schedule an extra run just after the next period boundary.

The Dafny modules follow that structure:

| module | file | what it holds |
|---|---|---|
| `Wrappers` | Wrappers.dfy | `Option`, `Result` |
| `Arithmetic` | Arithmetic.dfy | uniqueness of floor division, used for period arithmetic |
| `Maps` | Maps.dfy | `len(set(d.values())) < len(d)` exactly when two keys share a value |
| `Text` | Text.dfy | the Python string operations the code relies on: `isspace`, `strip`/`lstrip`, `split(sep)`, `split()`, `join`, `replace`, `str(int)`, `int(str)` |
| `Codec` | Codec.dfy | the client's `port:proto` format and its read-back; the server's `parse_sequence` |
| `Client` | Client.dfy | salt validation, `calculate_shared_seed`, `generate_knock_sequence` |
| `KnockdConf` | KnockdConf.dfy | the two regular expressions as functions; `process_knockd_conf` as a fold over the lines (`ScanUpTo`, `Process`) and as a loop (`ProcessKnockdConf`) |
| `Schedule` | Schedule.dfy | the arithmetic of `schedule_next_run_if_needed` |
| `Rotation` | Rotation.dfy | the server with the client's generator plugged in |

Several outside inputs become parameters:

- **Time** is `now`, in whole seconds.
- **The environment** is `Client.Settings` (salt, `SEQUENCE_LENGTH`, `MODULO`, `PERIOD_MODULO`) together with the run interval.
- **SHA-256** is `digest: string -> Word32`. It stands for `int(sha256(s).hexdigest()[:8], 16)`.
- **The config file** is its list of lines, as `readlines()` returns them.

`process_knockd_conf` is stated over a line classifier `kind`. The server's
own classifier is `KindOf`, which makes the source's tests in the source's
order: comment first, then rotator header, then sequence line. Every fact
about the pass holds for any classifier that reads a written sequence line
back as that line's value (`ReadsBack`). `KindOfReadsBack` proves this for
`KindOf`.

Where the repository's own comments and tests disagree with its code, the
model follows the code:

- The comment at `knockd_rotator_client.py:27` says that, for `MODULO > 0`, an even `port % MODULO` gives tcp and an odd one udp. The docstring at `knockd_rotator_client.py:68` says even ports use tcp and odd ports udp. The code at `knockd_rotator_client.py:112` gives tcp exactly when `port % MODULO == 0`, and it does so for a negative `MODULO` too. The model uses that divisibility test. For a non-zero `MODULO` of either sign, Python's floored `%` and Dafny's Euclidean `%` agree on whether the remainder is zero.
- The client tests at `test_knockd_rotator_client.py:33-122` expect a port pool (`KNOCKD_ROTATOR_PORTS`), a "Duplicate ports" error, a minimum `KNOCKD_ROTATOR_LENGTH` of 5 and an "Insufficient entropy" error. The client has none of these. Every port is `h % 63536 + 2000`, and any sequence length is accepted.

Three behaviours of `process_knockd_conf` are easy to misread, and the model keeps each as written:

- The server always writes commas (`knockd_rotator_server.py:127`), whatever separator the old line used. A line written with spaces is rewritten once with commas.
- A section ends only right after a handled sequence line, and only when the next line holds both `[` and `]` (`knockd_rotator_server.py:144-146`). Any other line keeps the section open.
- Only the section still open at the end of the file stops the run when it has no sequence (`knockd_rotator_server.py:150-153`). For an earlier section a warning is printed and the pass goes on (`knockd_rotator_server.py:110-111`).

## Model

| member | source | states |
|---|---|---|
| Client.ValidateSalt | knockd_rotator_client.py:17-23 | The salt is accepted exactly when it is set and has at least 10 characters. A missing or empty salt is `SaltMissing`, and a salt of 1 to 9 characters is `SaltTooShort`. An accepted salt is returned unchanged. |
| Client.PeriodStart | knockd_rotator_client.py:52 | `((now // P) + offset) * P` is a multiple of P. With offset 0 it satisfies `start <= now < start + P`. |
| Client.PeriodStartShift | knockd_rotator_client.py:52 | Each unit of offset moves the period start by exactly one period. |
| Client.SharedSeed | knockd_rotator_client.py:50-55 | The seed is the period start when it is accepted. It is never 0. A failure is `ZeroSeed` exactly when the period start is 0. Otherwise it is `SuspiciousSeed` carrying the period start. |
| Client.SeedAccepted | knockd_rotator_client.py:53-54 | The two assertions pass exactly when the period start is at least 100000 or at most -10000, that is, when its decimal text is longer than 5 characters. |
| Client.SamePeriodSameSeed | knockd_rotator_client.py:50-52 | Any two times in the same period give the same seed (or the same failure). |
| Client.NormaliseName | knockd_rotator_client.py:80-82 | The result ends with `_ROTATOR`. A name that already ends so is unchanged. |
| Client.NormaliseIdempotent | knockd_rotator_client.py:80-82 | Normalising twice is the same as normalising once. |
| Client.ScalePort | knockd_rotator_client.py:97-101 | `decimal % 63536 + 2000` lies in 2000..65535. |
| Client.Protocol | knockd_rotator_client.py:104-113 | The protocol is tcp or udp. It is tcp exactly when `MODULO` is 0 or divides the port. |
| Client.HashInput | knockd_rotator_client.py:88-94 | The hashed text is as long as its four parts together. It starts with the seed's decimal text and ends with the index's decimal text. |
| Client.PortAt | knockd_rotator_client.py:92-101 | The port for index i, hashed from `seed + name + salt + i`, lies in 2000..65535. |
| Client.KnockSequence | knockd_rotator_client.py:88-113 | There are exactly `max(SEQUENCE_LENGTH, 0)` knocks. Knock i is the port for index i + 1 of the normalised name, with that port's protocol. Every port is in range, every protocol is tcp or udp, and tcp follows the modulo rule. |
| Client.PortsMakeKnocks | knockd_rotator_client.py:91-113 | Ports computed one by one, each paired with the protocol the rule gives it, are exactly `KnockSequence`. |
| Client.Generated | knockd_rotator_client.py:62-125 | Generation fails exactly when `calculate_shared_seed` fails, with the same error. The text it returns reads back, token by token, as exactly `KnockSequence` of the period's seed. |
| Client.GeneratedReadsBack | knockd_rotator_client.py:104-118 | Splitting the printed sequence on whitespace and each token on `:` recovers exactly the generated knocks, in order. |
| Client.ValidationPasses | knockd_rotator_client.py:115-123 | The re-validation never fails. The text has one token per knock. Each token splits into exactly two halves. The first half reads as an int in 2000..65535, and the second is tcp or udp. |
| Client.SamePeriodSameSequence | knockd_rotator_client.py:84-102 | Two calls anywhere in the same period give the same result: the generation is deterministic. |
| Client.GenerateKnockSequence | knockd_rotator_client.py:62-125 | The loop that appends ports, the protocol choice, the join and the validation loop compute exactly `Generated`, the seed failure or the formatted `KnockSequence`. |
| Codec.Token | knockd_rotator_client.py:108-112 | When the protocol has no `:`, splitting the token `f"{port}:{proto}"` on `:` gives exactly the port's decimal text and the protocol. |
| Codec.Format | knockd_rotator_client.py:108-112 | The joined text is empty exactly when there are no knocks. For plain protocols, `split()` of the text gives exactly one token per knock, in order. |
| Codec.TokenIsPlain | knockd_rotator_client.py:108-112 | A token `port:proto` has no whitespace and no comma. Split on `:`, it gives back the port's text and the protocol. |
| Codec.ReadToken | knockd_rotator_client.py:117-118 | A token the validation accepts gives a protocol with no `:`. |
| Codec.ReadTokenShape | knockd_rotator_client.py:117-118 | A token the validation accepts is text that `int()` reads as the port, then `:`, then the protocol. |
| Codec.ReadTokensStep | knockd_rotator_client.py:116-118 | Reading one more token extends what the earlier tokens read as. |
| Codec.ReadTokenOfToken | knockd_rotator_client.py:117-118 | The client's validation reads one of its own tokens back as the knock it came from. |
| Codec.ReadTokensOfKnocks | knockd_rotator_client.py:116-118 | Read token by token, the client's tokens give back the knocks, in order. |
| Codec.FormatTokens | knockd_rotator_client.py:108-118 | `split()` of the space-joined text gives exactly the tokens. Each token splits into the port's text, which `int()` reads as the port, and the protocol. |
| Codec.ReadBackFormat | knockd_rotator_client.py:108-118 | Splitting the formatted sequence and reading each token gives exactly the knocks it was formatted from. |
| Codec.Pieces | knockd_rotator_server.py:50-53 | With a comma in the text, the pieces hold no comma and joining them with commas gives the text back. Without one, every piece is non-empty and has no whitespace, and the text is the pieces in order separated by whitespace runs (`RunsOf`): leading and trailing whitespace, and at least one whitespace character between two pieces. |
| Codec.ParsePiece | knockd_rotator_server.py:57-67 | A parsed protocol never holds `:`. A piece with no `:` after stripping is knocked over tcp, on the port `int()` reads from the whole stripped piece. `NotAPair` arises only for a piece holding `:`. |
| Codec.ParsePieceShape | knockd_rotator_server.py:59-61 | A stripped piece with a `:` that parses is some text `a`, then `:`, then the protocol exactly as written, and the port is `int()` of `a`. |
| Codec.ParsePieces | knockd_rotator_server.py:55-69 | When parsing succeeds, there is one pair per piece. |
| Codec.ParseNext | knockd_rotator_server.py:57-67 | One turn of the loop: a piece that parses extends the result by its pair, and a piece that fails makes its error the result of the whole sequence. |
| Codec.ParsePiecesStep | knockd_rotator_server.py:57-67 | Parsing one more piece appends its pair to the earlier result. |
| Codec.ParsePiecesFail | knockd_rotator_server.py:57-67 | A failing piece after pieces that parsed makes its error the result. |
| Codec.ParseSequence | knockd_rotator_server.py:39-69 | The loop over the pieces computes `ParsePieces(Pieces(s))`. Pieces are the comma split when the text holds a comma, and `split()` otherwise. The result is the first failing piece's error, or every pair in order. |
| Codec.FailureStops | knockd_rotator_server.py:57-67 | Once a piece fails, parsing more pieces keeps that first error. |
| Codec.ParsePiecesInOrder | knockd_rotator_server.py:55-67 | Parsing succeeds exactly when every piece parses. It then yields one pair per piece, in order, each the pair its piece parses to. |
| Codec.ParsedPrefixExtends | knockd_rotator_server.py:55-67 | When all but the last piece parse, the whole list parses exactly when the last piece does, with one pair per piece. |
| Codec.PieceOfToken | knockd_rotator_server.py:58-61 | One piece `port:proto` produced by the client parses back as that knock. |
| Codec.ParseTokensOfKnocks | knockd_rotator_server.py:55-67 | The client's tokens, given as pieces, parse back as exactly the knocks. |
| Codec.ParseFormat | knockd_rotator_server.py:50-53 | `parse_sequence` reads the client's space-separated output back as the generated knocks. |
| Codec.ParseCommaFormat | knockd_rotator_server.py:49-67 | After the server turns spaces into commas, `parse_sequence` reads the value back as the generated knocks: the round trip of client, server rewrite and parser. |
| Codec.BarePortIsTcp | knockd_rotator_server.py:62-65 | A piece with no `:` is a port knocked over tcp. |
| Maps.DuplicateValues | knockd_rotator_server.py:160-161 | `len(set(d.values())) < len(d)` holds exactly when two different keys map to the same value. |
| KnockdConf.RotatorHeader | knockd_rotator_server.py:97 | A match of `^\s*\[(.*_ROTATOR)\]\s*$` captures a name that ends in `_ROTATOR` and holds no line break. After the indentation the line is `[name]` followed by whitespace only. |
| KnockdConf.HeaderRecognised | knockd_rotator_server.py:97 | The converse: every indented `[name]` followed by whitespace, where name ends in `_ROTATOR` and has no line break, matches and captures name. |
| KnockdConf.SequenceGroup | knockd_rotator_server.py:98 | The greedy `(.+)` after `=` captures a non-empty value with no line break, and the text after `=` is whitespace, that value, then whitespace: the `\s*(.+)\s*$` shape. |
| KnockdConf.GroupOfIndentedValue | knockd_rotator_server.py:98 | The converse: after whitespace, a value that starts with a visible character and has no line break, followed by the line break, is captured whole. Trailing blanks stay in the value: `SequenceGroup("x  \n") == Some("x  ")`. |
| KnockdConf.SequenceValue | knockd_rotator_server.py:98 | A line matching `^\s*sequence\s*=\s*(.+)\s*$` is, after its indentation, `sequence`, whitespace, `=` and a rest whose group is the captured value; that value is non-empty with no line break. So `sequencer` and other lines with text between the keyword and `=` do not match. |
| KnockdConf.SequenceRecognised | knockd_rotator_server.py:98 | The converse: every line `indent + "sequence" + w1 + "=" + w2 + value + "\n"`, where indent, w1 and w2 are whitespace and value starts with a visible character and has no line break, matches and captures exactly value. |
| KnockdConf.SequenceLineValue | knockd_rotator_server.py:98-138 | A rewritten line `indent + "sequence    = " + value + "\n"` is read again as a sequence line holding exactly value, with the same indentation. It is not a comment or a header, and it does not hold both `[` and `]`. |
| KnockdConf.CommentIff | knockd_rotator_server.py:103 | A line counts as a comment exactly when its first character after whitespace is `#`. |
| KnockdConf.KindOf | knockd_rotator_server.py:101-121 | Tests run in the loop's order. A line is a comment exactly when it is one. It is a header exactly when it is not a comment and the header pattern matches, and the name is the captured group, ending in `_ROTATOR` with no line break. It is a sequence line exactly when it is neither a comment nor a header and the sequence pattern matches, and the value is the captured group, non-empty with no line break. A plain line matches neither pattern. |
| KnockdConf.KindOfReadsBack | knockd_rotator_server.py:101-121 | The server's way of reading a line reads every written sequence line back as its value. |
| KnockdConf.Commas | knockd_rotator_server.py:127 | The written form of a sequence has the same length and no space. |
| KnockdConf.ScanUpTo | knockd_rotator_server.py:101-148 | After i lines, i lines have been written. The old and new sequences are recorded for the same sections. The new sequence of each section is its generated sequence with commas. |
| KnockdConf.HandleSequence | knockd_rotator_server.py:119-146 | A handled sequence line writes exactly one line. It records the section's old sequence and its comma-separated new one. It raises the flag exactly when they differ, and it writes a changed line only then. It leaves the section exactly when the next line holds both `[` and `]`. |
| KnockdConf.Step | knockd_rotator_server.py:101-148 | Each iteration appends exactly one line and keeps the earlier ones. A line is written changed only when it is a sequence line inside a section. Any other line leaves the maps and the flag as they were. |
| KnockdConf.Process | knockd_rotator_server.py:150-191 | When the pass finishes, it has one output line per input line. The file is written exactly when something changed and it is not a dry run. |
| KnockdConf.ProcessKnockdConf | knockd_rotator_server.py:89-191 | The loop over the lines and the three checks after it compute exactly `Process(KindOf, …)`. |
| KnockdConf.OutputPrefix | knockd_rotator_server.py:101-148 | A line once written is never changed by later iterations. |
| KnockdConf.Emitted | knockd_rotator_server.py:135-142 | The line written for line j is a copy, unless line j is a sequence line in a section whose value differs from the new sequence. Then it is `indent + "sequence    = " + new + "\n"`. |
| KnockdConf.OutputAt | knockd_rotator_server.py:135-142 | The same rule, read in the finished output. |
| KnockdConf.ProcessOutput | knockd_rotator_server.py:101-148 | The output has one line per input line, in order. Each line is the original, or the sequence line of a rotator section rewritten with that section's new sequence and the original indentation. |
| KnockdConf.RewriteDiffers | knockd_rotator_server.py:135-138 | A rewritten line always differs from the line it replaces. |
| KnockdConf.RewrittenReadsBack | knockd_rotator_server.py:135-138 | A line that changed lies in a section, and it reads back as a sequence line holding that section's new sequence. |
| KnockdConf.ChangedStep | knockd_rotator_server.py:135-142 | Each step writes one line. It raises the flag exactly when that line is a rewrite. |
| KnockdConf.ChangedUpTo | knockd_rotator_server.py:135-142 | `changes_needed` is true exactly when some written line differs from the original. |
| KnockdConf.ChangedIffRewritten | knockd_rotator_server.py:177-191 | The returned flag is true exactly when the output differs from the input. The file is written exactly when that holds and it is not a dry run. |
| KnockdConf.KeysStep | knockd_rotator_server.py:119-128 | A step adds to the maps exactly the section whose sequence line it handled, if any. |
| KnockdConf.SectionsFound | knockd_rotator_server.py:119-128 | The sections in the maps are exactly the sections whose sequence line was handled. |
| KnockdConf.MissingSequenceIff | knockd_rotator_server.py:150-153 | The pass gives up with `MissingSequence(name)` exactly when the section open at the end of the file never had its sequence line handled. |
| KnockdConf.NothingHandled | knockd_rotator_server.py:155-156 | No section has a sequence exactly when no line was handled as a sequence line. |
| KnockdConf.NoSectionsIff | knockd_rotator_server.py:155-158 | The pass gives up with `NoSections` exactly when no section is left open and no sequence line was handled. |
| KnockdConf.DuplicatesIff | knockd_rotator_server.py:160-175 | The pass gives up with `DuplicateSequences` exactly when the first check passed and two different handled sections got the same new sequence. |
| KnockdConf.SectionAfterSequence | knockd_rotator_server.py:145-146 | After a handled sequence line, the section ends exactly when the next line holds both `[` and `]`. Otherwise it stays. |
| KnockdConf.RewrittenUnbracketed | knockd_rotator_server.py:137-138 | A rewritten line holds no `[` (so it is not bracketed), and it lies inside a section. |
| KnockdConf.LookaheadAgrees | knockd_rotator_server.py:145-146 | On a written file, the look-ahead sees what it saw on the original one. |
| KnockdConf.CopyStep | knockd_rotator_server.py:101-148 | A line not handled as a sequence line is copied. It enters a new section exactly when it is a rotator header. |
| KnockdConf.ReplayCopied | knockd_rotator_server.py:101-148 | On its own output, the pass treats a copied line as it did the first time. |
| KnockdConf.WrittenValue | knockd_rotator_server.py:135-142 | The line written for a handled sequence line reads as a sequence line holding the section's new sequence. |
| KnockdConf.ReplaySequence | knockd_rotator_server.py:119-146 | On its own output, the pass finds each handled sequence line already up to date. It keeps the line and records the same old and new sequence. |
| KnockdConf.SecondPassStep | knockd_rotator_server.py:101-148 | One line of the second pass keeps it in step with the first. |
| KnockdConf.SecondPass | knockd_rotator_server.py:101-148 | Line by line, the second pass retraces the first, with nothing changed. |
| KnockdConf.Idempotent | knockd_rotator_server.py:101-191 | Run again with the same generator on its own output, the server gives the same lines back, returns False and writes nothing. |
| Schedule.NextPeriodStart | knockd_rotator_server.py:204-205 | The next period start is a multiple of P, and `now < next <= now + P`. It equals the client's period start at offset 1. |
| Schedule.NextIsFirstBoundary | knockd_rotator_server.py:204-205 | No multiple of P lies strictly between now and the next period start. |
| Schedule.Decide | knockd_rotator_server.py:201-218 | The sleep duration lies in (60, P + 60] and ends 60 s after the boundary. An extra run is scheduled exactly when `now + interval > next + 300`. |
| Schedule.SupplementaryIff | knockd_rotator_server.py:218 | An extra run is scheduled exactly when `now % P + interval > P + 300`. |
| Schedule.NeverWhenFrequent | knockd_rotator_server.py:218 | With an interval of at most 300 s, no extra run is ever scheduled. |
| Schedule.AlwaysWhenRare | knockd_rotator_server.py:218 | With an interval above P + 300 s, an extra run is always scheduled. |
| Schedule.UpdateWithinBuffer | knockd_rotator_server.py:196-218 | Some run, the regular one or the extra one, comes no later than 300 s after the next boundary. |
| Schedule.ScheduledRunSeesNextPeriod | knockd_rotator_server.py:210-212 | When P > 60, the extra run computes the seed of the next period: the seed the current run would get with offset 1. |
| Rotation.ServerGenIsClient | knockd_rotator_server.py:125 | The server's generator is `generate_knock_sequence(section)` at offset 0. |
| Rotation.TokenChars | knockd_rotator_client.py:108-112 | A generated token starts with a digit and holds neither a line break nor `[`. |
| Rotation.FormattedIsGood | knockd_rotator_server.py:127-138 | For at least one knock, the written sequence is non-empty and starts with a visible character. It has no line break and no `[`. |
| Rotation.ServerGenIsGood | knockd_rotator_server.py:125-127 | With `SEQUENCE_LENGTH >= 1`, the server's generator meets what idempotence needs. |
| Rotation.SameWrittenSameKnocks | knockd_rotator_server.py:160-161 | Two sections get the same written sequence exactly when they get the same knocks. With `DuplicatesIff`, the duplicate check compares knocks. |
| Rotation.WrittenParses | knockd_rotator_server.py:39-69 | `parse_sequence` reads a section's written sequence as the knocks generated for it. |
| Rotation.RewrittenLinesParse | knockd_rotator_server.py:119-142 | Every line the server rewrites reads back as a sequence line. Its value parses into the knocks generated for the line's section. |
| Rotation.SamePeriodNoRewrite | knockd_rotator_server.py:119-142 | A second run anywhere in the same period, on the lines the first run produced, returns False and writes nothing, so knockd is not restarted again. |

## Left out

- Rotation.ServerGen: every section's sequence is generated from one seed, the seed at offset 0 of a single clock reading `now` (`Rotation.ServerGenIsClient`). The server calls `generate_knock_sequence` once per section (`knockd_rotator_server.py:125`), and each call reads the clock again (`knockd_rotator_client.py:85` via `knockd_rotator_client.py:50`). A run that crosses a period boundary can therefore write sequences of two different periods into one file. The model does not capture that.
- Client.GenerateKnockSequence: the assertions at `knockd_rotator_client.py:53-54` and `knockd_rotator_client.py:119-123` are always checked in the model. Under `python -O` they are removed: a zero or short period start is then returned as a seed, and the validation loop only splits and converts.
- Client.SharedSeed: the same `python -O` caveat applies. The model always rejects a zero or short period start.

- `knock_ports` and the client's `main`: network I/O with sockets, timeouts and sleeps (knockd_rotator_client.py:128-227).
- The server's `main`, `check_knockd_service` and the `systemctl` restart: these run outside commands. The model's `wrote` flag is where the restart would be decided.
- Calling `systemd-run` and the `Popen` fallback: process spawning. Only the decision and the sleep duration are modelled.
- Reading and writing the file, `print` and the date formatting. The outcome is a value. The `sys.exit(1)` calls for a file that cannot be read (knockd_rotator_server.py:83-85) or written (knockd_rotator_server.py:184-187) are left out with the file itself. The three checks after the pass (knockd_rotator_server.py:150-175) are the `Abort` reasons.
- The warning printed at knockd_rotator_server.py:110-111, when a header follows a section without a sequence: output only, and the pass goes on.
- The dict printout of the duplicated sequences (knockd_rotator_server.py:163-174): output only.
- Environment variables, with their defaults and the warning about a missing period. They are parameters, in `Client.Settings` and the `interval` argument.
- The SHA-256 internals: `digest` is uninterpreted. Properties that need the hash to spread its inputs (different offsets, salts or names giving different sequences) cannot be stated.
- The server's import-time freshness check: it imports `__SHARED_SEED__`, which the client does not define (it defines `__SHARED_KEY__`), so the import fails as written.
- Float timestamps: time is whole seconds.
- Schedule.Decide: `int(sleep_duration)` truncation is not modelled, because with whole-second times the sleep duration is already an integer.
- A `PERIOD_MODULO` of 0 or below: every member on periods requires `period > 0`. With 0 the client's import crashes on division by zero. Negative periods are not meaningful.
- `int()` accepts non-ASCII decimal digits: the model's `Text.ParseInt` accepts ASCII digits only, with the sign, surrounding whitespace and single underscores between digits.
- Rotation.ServerGenIsGood: requires `SEQUENCE_LENGTH >= 1`. With an empty sequence the written line `sequence    = \n` is read back as the value `" "`, which differs from `""`. The server then reports a change on every run and writes the same line again, so idempotence does not hold in that case.
- Generation failures inside `process_knockd_conf`: a seed rejected by `calculate_shared_seed` raises `AssertionError` in the server. Rotation's lemmas require an accepted seed, and `gen` is a total function.
