# Verification of xeus-cpp's input validator, chat log and stream buffers

This project models three parts of xeus-cpp and proves what they promise.

**The input validator** answers the is-complete request of the kernel: is a cell
`complete`, `incomplete`, or does it hold a `mismatch`, and how far should the next line be
indented. It is a cursor lexer over a NUL-terminated buffer, and a push-down machine over
five pairs of brackets (`[]`, `()`, `{}`, `/* */`, `#if`/`#endif`) whose stack survives from
one call to the next, with an extra marker at the bottom for text that begins with `template`.

**The chat log** of the `xassist` magic escapes prompts for JSON, appends them to one growing
file per model, and splices that file between square brackets.

**The stream buffers** collect output from several writers under a lock, and serve input from
a callback, one requested value and a line end at a time.

## How the project is built

| module | content |
|---|---|
| `Tokens`, `Scanning`, `TokenStreams` | token kinds, character classes, the functional tokenizer on the text that is left, and the tokens of a whole text |
| `Lexers` | the cursor lexer, class `Lexer`, method by method a refinement of `Scanning.Scan` |
| `Lexemes`, `Readings` | what one iteration of the validation loop reads, and the reading of a whole text |
| `Brackets`, `Nesting`, `Templates` | the stack machine on events, its grammar, the template marker |
| `Validation`, `Validators` | the outcome of a call as a function, and class `InputValidator` refining it |
| `Verdicts`, `Sessions`, `Requests` | verdicts of texts by the grammar, sessions of calls, the is-complete request |
| `Boundaries`, `Chunks`, `Compositions` | runs cut at loop boundaries: rewritten literals and comments, incremental calls |
| `Extensions`, `Separators`, `Mismatches`, `Completion` | appended text: permanent mismatches, completion by the closers |
| `Vocabulary` | what single characters and words mean to the validator, spelled out |
| `Segments` | what source text means piece by piece, from its characters alone, and that the validator reads the same |
| `Continuations` | blanks around a text and lines behind it: outcome and indent |
| `Examples` | concrete inputs for the findings below |
| `Escaping`, `JsonTexts`, `ChatHistory` | JSON escaping and the log, against a decoder and a parser for RFC 8259 |
| `OutputBuffers`, `InputBuffers` | the two stream buffers and their conservation laws |

A text is a `string`; reading past its last character gives the NUL terminator. The lexer's
specification works on the text behind the cursor, so that a token is a function of that text
alone. `Boundaries` and `Extensions` are stated for any *regular* way of lexing (one that
looks at most one character past a lexeme); `Chunks`, `Separators` and `Mismatches` prove what they need
of the validator's lexer. Stack entries are token kinds; the source stores their integer values.

The tokenizer and the stack machine are specifications shared with the methods. They are held
to statements that use neither: `Nesting` and `Templates` give the grammar for the machine,
`Vocabulary` spells out every character and directive word, and `Segments` has a reader of
source text that knows words, literals, comments and directives only by their characters.
`Segments.SourceOutcome` proves that every call on such a text has the reader's result.

Scanning a quote whose literal is never closed runs past the buffer in the source. A call is
therefore specified only when its outcome is not `Unclosed`, that is, when every literal the
run reaches is closed before the end of the text. Everything else is total.

Findings about the code, each with its theorem:

- An incomplete input is completed by the closers of its stack exactly when its run reaches
  the end of the text; a NUL inside the text hides whatever is appended (`CompletableIff`,
  `NulInside`).
- A right comment whose `*` and `/` fall into different calls is not seen. This is the only
  cut at a loop boundary for which two calls need not agree with one because of the cut
  itself; `CutRightComment` says for every such cut what either does.
- Two calls push a template marker in the middle where one call does not; they agree exactly
  if the second text releases it (`CompositionAtTemplate`).
- A mismatch is final, whatever is appended, exactly when it is not found at an `#endif` that
  ends the text: a letter behind that one takes the mismatch away (`MismatchIsFinal`).
- A comma or backslash recorded before a mismatch hides it: the verdict is `incomplete`
  although nothing appended behind a separator completes the text (`HiddenMismatch`;
  `CommaHidesMismatch` for `,]`, and `EndifHidesMismatch` for a text that a letter completes).
- Where `char` is signed, decoding an escaped prompt gives the prompt back exactly for ASCII
  (`DecodesToItself`): other bytes become code units from FF80 to FFFF.

## Model

| member | source | states |
|---|---|---|
| Tokens.ClosesBraceIsMatching | src/xinput_validator.cpp:78-83 | the "+1" on enumeration values accepts exactly the three matching bracket pairs, for all kinds |
| Scanning.RunLen | src/xinput_validator.cpp:176-186 | a scanned run lies in its character class and is maximal; the terminator ends every run |
| Scanning.ScanSpans | src/xinput_validator.cpp:95-149 | every token advances; only eof passes the terminator; reported length is the span except for the right comment (2 for 1) and unknown (0 for 1) |
| Scanning.LiteralRestIsGrammar | src/xinput_validator.cpp:188-204 | the quote scanner stops at a position exactly when the text before it is a body of backslash pairs and characters other than backslash and that quote |
| Scanning.ScanLiteral | src/xinput_validator.cpp:188-204 | a token starting with a quote spans n characters if and only if those are one closed literal; so the span is the only and shortest one |
| Scanning.ScanLocal | src/xinput_validator.cpp:95-149 | a token depends on at most one character past its end, and only the right comment needs it |
| Lexers.Lexer.Lex | src/xinput_validator.cpp:95-149 | the cursor lexer yields kind, start, length and advance of the functional tokenizer, reads nothing past the terminator, and may not be called after eof |
| Lexers.Lexer.LexAnyString | src/xinput_validator.cpp:151-164 | the maximal run up to a blank or the terminator, line ends included; eof of length 0 on an empty rest |
| Lexers.Lexer.ReadToEndOfLine | src/xinput_validator.cpp:166-174 | the maximal run up to a line end or the terminator |
| Lexers.Lexer.SkipWhitespace | src/xinput_validator.cpp:176-186 | skips and counts the maximal run of spaces and tabs |
| Lexers.Lexer.LexQuotedString | src/xinput_validator.cpp:188-204 | moves behind the first quote that no backslash pair consumes; terminates for every closed literal |
| Lexers.Lexer.LexPunctuator | src/xinput_validator.cpp:206-252 | one character of the kind that the tokenizer's table gives, which `Vocabulary` spells out character by character |
| Lexers.Lexer.LexLeftComment | src/xinput_validator.cpp:254-260 | two characters, line or block comment by the second one |
| Lexers.Lexer.LexRightComment | src/xinput_validator.cpp:262-267 | reports two characters and moves over one |
| Lexers.Lexer.LexConstant | src/xinput_validator.cpp:269-279 | the maximal run of digits, with the cursor put back on the character behind it |
| Lexers.Lexer.LexIdentifier | src/xinput_validator.cpp:281-291 | the maximal run of letters, digits and underscores |
| Lexers.Lexer.LexWhitespace | src/xinput_validator.cpp:293-298 | the maximal run of blanks as a space token |
| Lexers.Lexer.constructor | src/xinput_validator.cpp:85-93 | cursor at the start, or behind the leading blanks |
| Lexemes.ReadLexemeLocal | src/xinput_validator.cpp:335-422 | a whole iteration, with the line comment and directive word it swallows, looks at most one character past what it consumes |
| TokenStreams.TokensTile | src/xinput_validator.cpp:95-149 | the tokens of successive calls tile the text by their own starts and lengths (with 1 for the right comment and unknown tokens): each starts where the one before ends, only the last is eof, it stands at a NUL, and the texts of the others are together all the text before it |
| Brackets.RunKeepsShape | src/xinput_validator.cpp:343-418 | every run keeps the stack shape: six opener kinds, the template marker only at the bottom, the block-comment marker only at the top |
| Brackets.RunAppend | src/xinput_validator.cpp:335-422 | runs compose, and a mismatch ends them for good |
| Brackets.CommentBodyIgnored | src/xinput_validator.cpp:343-346 | inside a block comment, events without a right comment leave the stack as it is |
| Brackets.BlockCommentErasure | src/xinput_validator.cpp:343-369 | a block comment can be deleted anywhere outside another one without changing stack or mismatch |
| Brackets.TakenIsLive | src/xinput_validator.cpp:335-422 | the events before the first mismatch run without one and leave the stack on which it is found; with the next event the run is over |
| Brackets.DepthConserved | src/xinput_validator.cpp:350-417 | the stack grows by openers pushed minus openers closed, counted without a stack up to the mismatch, if there is one |
| Nesting.DerivationRestores | src/xinput_validator.cpp:363-417 | every derivation of the nested-bracket grammar is accepted and gives back the stack, whatever follows |
| Nesting.Parse | src/xinput_validator.cpp:363-417 | an accepting run from any plain stack has derivations between its pending closers |
| Nesting.AcceptsIffBalanced | src/xinput_validator.cpp:335-417 | over all event sequences, the stack ends empty without mismatch if and only if the grammar derives the sequence |
| Nesting.LiveIffViable | src/xinput_validator.cpp:335-417 | no mismatch is found if and only if some continuation is balanced |
| Templates.MarkerLifecycle | src/xinput_validator.cpp:381-394 | until a semicolon meets the marker alone or a `}` leaves it alone the marker stays at the bottom; afterwards the run is the one without a marker |
| Templates.ReleasedByDerivation | src/xinput_validator.cpp:381-394 | a nested sequence releases the marker exactly through a semicolon or brace pair at its top level |
| Templates.MarkerAcceptsIff | src/xinput_validator.cpp:321-394 | from the marker alone the stack empties if and only if the sequence is balanced and ends a declaration at its top level |
| Templates.StopsWhereNotViable | src/xinput_validator.cpp:335-422 | with and without the marker, the machine stops at the end of the longest prefix that some continuation balances |
| Validators.InputValidator.Validate | src/xinput_validator.cpp:316-438 | terminates and computes verdict and stack of the outcome function; the indent is as many spaces as leading blanks plus depth times width, and unchanged when that is 0 |
| Validators.InputValidator.ReadInput | src/xinput_validator.cpp:320-422 | the marker, the leading blanks and the loop leave stack, flag and last token of the outcome |
| Validators.InputValidator.SetIndent | src/xinput_validator.cpp:432-436 | leading blanks plus depth times width, in spaces; nothing at all leaves the indent of the call before |
| Validators.InputValidator.ReadAll | src/xinput_validator.cpp:335-422 | the do-while loop computes stack, mismatch flag and last recorded token, and never lexes after eof |
| Validators.InputValidator.Iterate | src/xinput_validator.cpp:337-421 | one iteration is one lexeme and one step of the stack machine |
| Validators.InputValidator.ReadItem | src/xinput_validator.cpp:341-397 | the tokens of one iteration, replaced behind `//` and `#` outside block comments |
| Validators.InputValidator.ReadDirective | src/xinput_validator.cpp:395-400 | the directive word behind a hash and its event |
| Validators.InputValidator.ApplyToken | src/xinput_validator.cpp:348-394 | the switch does the stack machine's step for every kind of token |
| Validators.InputValidator.CloseBracket | src/xinput_validator.cpp:369-387 | pops a matching opener, and the marker with the last brace; any other top is a mismatch |
| Validators.InputValidator.ApplyDirective | src/xinput_validator.cpp:398-417 | `if...` opens and `endif` closes a conditional |
| Validators.InputValidator.PushTemplateMarker | src/xinput_validator.cpp:321-329 | the marker is pushed exactly for an initial `template` on an empty stack |
| Validators.InputValidator.GetExpectedIndent | src/xinput_validator.cpp:440-443 | the indent of the last call |
| Validators.InputValidator.constructor | src/xinput_validator.hpp:110-124 | a new validator has an empty stack and an empty indent |
| Verdicts.LastKindIsLast | src/xinput_validator.cpp:337-340 | the recorded kind is that of the last item that is not a space; with nothing but spaces it is the one recorded before |
| Verdicts.ProcessIsRun | src/xinput_validator.cpp:335-425 | the loop is the event machine over the events of the text, and records the last token that is not a space before the end or the mismatch |
| Verdicts.VerdictIsGrammar | src/xinput_validator.cpp:316-430 | for a new validator and every text, complete, mismatch and incomplete are decided by the grammar alone: a comma or backslash as the last token before the end, or before the first event that leaves no balanced continuation, forces incomplete |
| Verdicts.TemplateLifecycle | src/xinput_validator.cpp:321-394 | text that begins with `template` is never complete before the release and afterwards behaves as without a marker |
| Sessions.ReachableStackShape | src/xinput_validator.cpp:316-438 | the stack shape holds after any session of calls |
| Sessions.CallDepth | src/xinput_validator.cpp:316-438 | whatever its verdict, a call changes the depth by what it pushed and closed, the marker included |
| Sessions.SessionDepth | src/xinput_validator.cpp:316-438 | the same over any session of calls, also across mismatches |
| Sessions.SessionIsGrammar | src/xinput_validator.cpp:316-438 | after any session on a new validator the stack is empty exactly when the grammar derives what is kept of the events since it was last empty, template declarations included |
| Sessions.SessionVerdict | src/xinput_validator.cpp:316-438 | the verdict of the last call of any session is the grammar's, on the events kept so far and those of the call |
| Requests.IsCompleteRequest | src/xinterpreter.cpp:438-443 | the answer to a request is the grammar's, and its indent is leading blanks and four for each opener not closed, in spaces |
| Vocabulary.CharacterSets | src/xinput_validator.cpp:17-46 | the character classes by their members |
| Vocabulary.BracketItem | src/xinput_validator.cpp:206-252 | outside comments each bracket and the semicolon is read as one item with its own event |
| Vocabulary.PunctuatorItem | src/xinput_validator.cpp:206-252 | comma and backslash have their own kinds, the other punctuators theirs, and none acts on the stack |
| Vocabulary.DirectiveWords | src/xinput_validator.cpp:401-417 | `if` and any continuation opens; `endif` closes when nothing, a slash or a space character follows; other words do nothing |
| Vocabulary.DirectiveWordIff | src/xinput_validator.cpp:401-417 | only words that begin with `if` open, and only those `endif` words close |
| Vocabulary.DirectiveItem | src/xinput_validator.cpp:395-400 | a hash takes blanks and the word behind them, up to a blank or the end |
| Vocabulary.BareHash | src/xinput_validator.cpp:395-400 | a hash with only blanks behind it ends the run |
| Vocabulary.TemplateWord | src/xinput_validator.cpp:321-329 | a text starts with the token `template` if and only if it begins with these letters and no word character follows |
| Vocabulary.MarkerPushed | src/xinput_validator.cpp:321-329 | the marker is pushed on an empty stack for that word behind any blanks, and never else |
| Segments.PlainEvents | src/xinput_validator.cpp:335-422 | the events of text without quotes, slash, star, hash and NUL are its brackets and semicolons in order, apart from events without effect |
| Segments.SegmentReads | src/xinput_validator.cpp:335-422 | plain text, an operator, a literal, a line comment, a block comment or a directive leaves the loop where it leaves the reader |
| Segments.RemarkIsBody | src/xinput_validator.cpp:343-346 | comment text without quotes and marks is passed over whatever it holds, hashes, brackets and double slashes included |
| Segments.SourceReads | src/xinput_validator.cpp:335-422 | from any valid stack outside block comments the loop reads a source as the reader does: stack, mismatch, and whether a comma or backslash is last |
| Segments.SourceOutcome | src/xinput_validator.cpp:316-430 | so does every call |
| Segments.ReadIsRun | src/xinput_validator.cpp:363-417 | the reader's stack is the bracket machine's, run over the marks of the text |
| Segments.SourceVerdict | src/xinput_validator.cpp:316-430 | a new validator's verdict on a source is decided by the grammar of its marks and its last character that is not blank |
| Continuations.BlankBehind | src/xinput_validator.cpp:337-340 | a blank behind any text changes neither stack nor flag nor remembered token |
| Continuations.BlankInFront | src/xinput_validator.cpp:331-332 | a blank in front of any text only adds one to the indent |
| Continuations.LineBehind | src/xinput_validator.cpp:335-422 | a line behind a text that is read to its end without a mismatch goes on from its stack, a bare hash at the end included |
| Continuations.BracketBehind | src/xinput_validator.cpp:363-368 | one more open bracket is one more level for the indent |
| Chunks.LexerIsRegular | src/xinput_validator.cpp:95-149 | the lexer looks one character ahead, reads blanks as one space, and decides `template` by the first token |
| Compositions.IncrementalComposition | src/xinput_validator.cpp:320-422 | two chunks on one object give the stack and mismatch flag of their concatenation, if the first ends at a loop boundary of the joined run that does not cut a right comment, is mismatch-free, and the second starts no template on a stack the first has emptied; a mismatch in the first is where the joined run stops |
| Compositions.CompositionAtTemplate | src/xinput_validator.cpp:321-329 | in the template case the two agree if and only if the second chunk releases the marker |
| Compositions.CutRightComment | src/xinput_validator.cpp:262-267 | at every cut inside a right comment the first call ends without a mismatch on the stack just before it; the joined call goes on with the comment closed, or finds the mismatch that two calls do not |
| Chunks.LiteralOpacity | src/xinput_validator.cpp:188-204 | at a loop boundary a closed literal can be replaced by any other of the same quote without changing outcome or leading blanks |
| Chunks.LineCommentOpacity | src/xinput_validator.cpp:350-352 | the text of a line comment can be rewritten without changing the outcome |
| Chunks.BlockCommentOpacity | src/xinput_validator.cpp:343-362 | the text of a block comment can be rewritten without changing the outcome, quotes and marks inside it included |
| Mismatches.MismatchIsPermanent | src/xinput_validator.cpp:335-430 | a mismatch on a text stays, at the same offset and item with the same outcome, whatever is appended behind a space, tab, CR or LF |
| Mismatches.MismatchIsFinal | src/xinput_validator.cpp:405-417 | it stays whatever is appended at all if and only if it is not found at an `#endif` that ends the text |
| Mismatches.BareEndifUndone | src/xinput_validator.cpp:405-417 | a letter behind such an `#endif` takes the mismatch away and keeps the stack |
| Mismatches.HiddenMismatch | src/xinput_validator.cpp:424-430 | a text whose mismatch a comma or backslash hides is incomplete, and so is every extension behind a separator |
| Completion.SuffixCompletes | src/xinput_validator.cpp:316-438 | a mismatch-free text whose run reaches its end is made complete by blank, line end, blank and the closers of its stack, from any valid stack |
| Completion.Completability | src/xinput_validator.cpp:316-438 | so is every mismatch-free text without a NUL |
| Completion.TextBehindNul | src/xinput_validator.cpp:142-149 | text behind a NUL that stops the run is never seen |
| Completion.CompletableIff | src/xinput_validator.cpp:316-438 | the suffix completes an incomplete mismatch-free text if and only if the run reaches the end of the text |
| Examples.CommaHidesMismatch | src/xinput_validator.cpp:424-430 | `,]` hides its mismatch, whatever is appended |
| Examples.EndifHidesMismatch | src/xinput_validator.cpp:405-430 | `,#endif` hides its mismatch too, and a letter behind it makes the text complete |
| Examples.BracketInLiteral | src/xinput_validator.cpp:188-204 | `a[']']` as a source: the bracket in the literal does not count |
| Examples.SecondOutcome | src/xinput_validator.cpp:262-267 | the second part of a right comment, read with the comment open, leaves it open |
| Examples.OpenedOutcome | src/xinput_validator.cpp:262-267 | the first part leaves it open too |
| Examples.ClosedOutcome | src/xinput_validator.cpp:262-267 | the joined text closes the comment, and its slash is read once more |
| Examples.NulInside | src/xinput_validator.cpp:142-149 | a brace before a NUL stays open for every appended text |
| Escaping.EscapeSpecialCases | src/xmagics/xassist.cpp:281-326 | the loop computes the escape function, for signed and unsigned `char` |
| Escaping.EscapeOfByte | src/xmagics/xassist.cpp:284-322 | printable bytes except quote and backslash stand for themselves, seven bytes have a letter, and the others are the four-digit number of the masked `char` |
| Escaping.EscapeConcat | src/xmagics/xassist.cpp:281-326 | bytes are escaped one by one |
| Escaping.Pad4Hex | src/xmagics/xassist.cpp:310-317 | every masked `char` is printed with exactly four lower-case hex digits that read back as it |
| Escaping.EscapeRoundTrip | src/xmagics/xassist.cpp:281-326 | decoding the output by section 7 of RFC 8259 gives one code unit for each byte |
| Escaping.DecodesToItself | src/xmagics/xassist.cpp:281-326 | the original comes back for every ASCII input, and where `char` is signed for no other |
| Escaping.EscapeInjective | src/xmagics/xassist.cpp:281-326 | different byte strings are escaped differently |
| Escaping.EscapePrintable | src/xmagics/xassist.cpp:309-322 | the output is printable ASCII |
| Escaping.EscapeHasNoQuote | src/xmagics/xassist.cpp:281-326 | a scanner that consumes backslash pairs finds no closing quote in the output |
| ChatHistory.EntryParses | src/xmagics/xassist.cpp:177-184 | an entry parses to its role and text in both layouts, and leaves its line end |
| ChatHistory.HistoryParses | src/xmagics/xassist.cpp:172-188 | spliced between brackets, the content of a file parses to the array of its messages in order |
| ChatHistory.FileIsLog | src/xmagics/xassist.cpp:150-208 | after any operations on any models, each model's file is the joined list of its entries since its last refresh |
| ChatHistory.HistoryParsesBack | src/xmagics/xassist.cpp:140-208 | after any operations whose cells serialize strings, arrays or objects, each file parses back to exactly those messages |
| ChatHistory.PromptIsSound | src/xmagics/xassist.cpp:503-517 | an escaped prompt is a sound message and, if ASCII, decodes to itself |
| ChatHistory.FileSystem.ChatText | src/xmagics/xassist.cpp:140-143 | logs the quoted cell and returns the model's whole file |
| ChatHistory.FileSystem.ChatJson | src/xmagics/xassist.cpp:145-148 | logs a serialized value and returns the model's whole file |
| ChatHistory.FileSystem.RefreshHistory | src/xmagics/xassist.cpp:150-154 | empties the model's file and no other |
| ChatHistory.FileSystem.AppendAndReadBack | src/xmagics/xassist.cpp:158-189 | appends the entry, separated from earlier ones, and returns the file |
| ChatHistory.FileSystem.IsFileEmpty | src/xmagics/xassist.cpp:191-199 | a missing file counts as empty |
| ChatHistory.FileSystem.ReadFileContent | src/xmagics/xassist.cpp:201-207 | the content of a file |
| OutputBuffers.OutputConserved | include/xeus-cpp/xbuffer.hpp:40-69 | for every interleaving, delivered payloads and the pending buffer are what was written in step order, and no payload is empty |
| OutputBuffers.ChunkStaysWhole | include/xeus-cpp/xbuffer.hpp:51-69 | every chunk lies whole in one payload or in the pending buffer, just behind everything written before it |
| OutputBuffers.FlushDelivers | include/xeus-cpp/xbuffer.hpp:59-69 | behind a flush nothing is pending, and the payloads are everything written so far |
| OutputBuffers.NothingElseDelivers | include/xeus-cpp/xbuffer.hpp:40-57 | without a flush nothing is delivered |
| OutputBuffers.PayloadIsBetweenFlushes | include/xeus-cpp/xbuffer.hpp:59-69 | a payload is exactly what was written between two flushes, if that is anything |
| OutputBuffers.WriterOrderKept | include/xeus-cpp/xbuffer.hpp:40-69 | each writer's text comes through in its own order |
| OutputBuffers.OutputBuffer.Overflow | include/xeus-cpp/xbuffer.hpp:40-49 | one character is appended, end-of-file is not |
| OutputBuffers.OutputBuffer.Xsputn | include/xeus-cpp/xbuffer.hpp:51-57 | a chunk is appended whole |
| OutputBuffers.OutputBuffer.Sync | include/xeus-cpp/xbuffer.hpp:59-69 | a non-empty buffer is delivered whole and cleared; an empty one delivers nothing |
| InputBuffers.InputConserved | include/xeus-cpp/xbuffer.hpp:88-106 | consumed, unread and not yet requested text are together always the requested values with their line ends |
| InputBuffers.NoEarlyRequest | include/xeus-cpp/xbuffer.hpp:98-106 | a value is requested only when all text before it has been consumed |
| InputBuffers.LinesAreRequests | include/xeus-cpp/xbuffer.hpp:88-106 | reading line by line returns exactly the requested values when none holds a line end |
| InputBuffers.InputBuffer.Underflow | include/xeus-cpp/xbuffer.hpp:98-106 | the get area becomes the next value and a line end |

## Left out

- Behaviour of the lexer on literals that are never closed: the source reads past the buffer there, so such calls have no specified outcome.
- Wrap-around of `std::size_t` in the indent: lengths are unbounded numbers here.
- Agreement with C++ lexing proper (raw strings, digit separators, quotes in comments): the code does not attempt it.
- Locale: character classes are those of the "C" locale, and a byte above 127 is never a letter, digit or space.
- ReadItem: the source keeps lexing and stack updates in one switch; here one method reads the tokens of an iteration and two others apply them, in the same order.
- Completion, execution, inspection, magics dispatch and everything behind CppInterOp, xeus, curl, pugixml and std::regex: foreign libraries or plumbing.
- The API-key, model and URL files and the network half of the chat requests: a reply enters the log as an already serialized JSON string.
- Files that cannot be opened and exceptions thrown by callbacks: every file opens and every callback returns.
- HistoryParsesBack: does not cover a dump that is or holds a number, true, false or null, which the parser leaves out; prompts are strings, and so is the text of a reply.
- The mutex itself: each buffer operation is one atomic step.
- The exact place where two readers of one input buffer interleave: there is one reader.
- trim, the preamble holders, stream-redirect guards, option and language tables: only easy members.
