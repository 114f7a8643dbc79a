# Verified model of mellium/xmpp

Dafny models of the parts of the XMPP library `mellium.im/xmpp` that keep the most
state, with proofs of what they promise. `dafny verify dfyconfig.toml` checks
everything.

Code that changes things step by step is modelled by classes whose methods update
their fields; each method is proved to do exactly what a function of the old state
says, and the theorems are lemmas about these functions. Protocols between
goroutines or peers are step systems. What the code calls but does not define
(`bufio`, `encoding/base64`, `net/url`, `xmlstream`, string preparation) is
modelled from its documented behaviour or is a parameter.

| component | files | main results |
|---|---|---|
| Message styling (XEP-0393) | `Styling*.dfy`, `Utf8.dfy` | every run follows rules on the text alone: tokens, styles, quotation depth; tokens join to the input; spans nest and close on their line; exactly when read boundaries do not matter |
| Service discovery walk (XEP-0030) | `Walk*.dfy` | the walk ends on every finite graph, cyclic or not; exactly which items it visits, whatever answers repeat |
| In-band bytestreams (XEP-0047) | `Base64.dfy`, `Ibb*.dfy` | conservation of bytes and counters over every run; prefix safety under failures; limits |
| Multiplexer | `Xml.dfy`, `MuxModel.dfy`, `Mux.dfy` | every handler gets the stanza from its start, however far others read |
| Session input and replies | `Input.dfy`, `ReplyModel.dfy`, `Responses.dfy` | one top-level element per round, one lock release, every IQ answered; a response is offered exactly to the call it is for, and delivered |
| Stanza encoder | `StanzaModel.dfy`, `StanzaEncoder.dfy` | output nests; every token goes out as one of its kind; exactly what is filled in and what is left alone |
| Stream negotiation (RFC 6120) | `Negotiation.dfy` | every round is right for all features and map orders; a session is a chain of such rounds that ends; never authenticated while insecure |
| Capabilities text (XEP-0115) | `Ordering.dfy`, `Caps.dfy` | one text for every order of its parts; what the text tells apart |
| IRIs (RFC 3987) | `Iri.dfy` | the fast path equals the plain map; canonical, idempotent, meaning kept |
| Addresses (RFC 7622) | `Jid.dfy` | splitting and printing undo each other exactly on separable addresses |

## Where the code does less than one might expect

Each of these is a theorem here: the code is modelled as it is, and the lemma says
exactly when the expected property holds or gives an input on which it fails.

- Styling: tokens depend on read boundaries for some texts. A quotation marker takes the white space behind it only as far as it has been read, and a preformatted block takes all of the rest as one token once the end of the text is known. `StylingCuts.ChunksDoNotMatter` gives the exact condition, `StylingCuts.Steady`: lexing the whole text, up to the first token that has to wait for its end, each marker with its white space lies within what earlier tokens already needed to be read (or is a bare '>'), and a preformatted block has no more than one line left. A quotation or fence is also recognised in the middle of a line, right behind a closing directive (`StylingMidline.PlainLinesAreNotEnough`). Spans are not always those of section 6.2 of XEP-0393: the first directive of a line that may open a span is the only candidate, whether or not anything closes it (`StylingOpenings.FirstCandidateOnly` says exactly when a pair opens; in "*a _b_" nothing does, `StylingOpenings.BlockedPair`); and an open span closes at the first directive of its kind, white space before it or not (`StylingOpenings.FirstSameCloses`, `StylingOpenings.ClosesBehindSpace`). A span opens wherever a token starts, so also behind a closing directive (`StylingOpenings.OpensBehindClosing`).
- Discovery: an item that occurs twice in the list a branch carries is taken for a loop and not expanded there; `WalkReach.WalkVisitsExactly` says exactly what is visited all the same. `ErrSkipItem`, said to be returned by no function (disco/items.go:146-149), is returned when the query for the root fails and the function answers so to being told (`WalkComplete.SkipItemIsReturned`). And disco/items.go:161-162 says that the walk will not go into an item whose query failed. It does so exactly if something was listed before the failure and the function returns nil to being told (`WalkErrors.FailedQueriesAreHandled`, with an input in `WalkErrors.FailedItemIsEntered`).
- Bytestreams: data that exceeds the write buffer goes past it, and bytes held by the encoder come on top, so payloads may exceed the block size although ibb/conn.go:209 calls it a maximum; `IbbLimits.BlockSizeExceeded` says exactly when. With blocks of 768 bytes and more, the default of 2048 included, they never do (`IbbLimits.LargeBlocks`). The receiver counts a payload before it checks for room, so without acknowledgements a refusal leaves a hole (`IbbLimits.RefusalLeavesHole`). A read buffer limited to one block does not take a full block unless three divides the block size (`IbbLimits.LimitFitsBlock`).
- Mux: the type's documentation (mux/mux.go:52-53) puts wildcard local names before wildcard namespaces. The code has it the other way round; the two differ exactly when both are registered and the full name is not (`MuxModel.LookupIsAsDocumented`).
- Negotiation: the documentation of NewNegotiator (negotiator.go:59-60) says StartTLS is always attempted if it is configured. The code tries an unlisted StartTLS in the first round only, and a configured tee takes that round, so with a tee it never does. `Negotiation.ForcedExactly` says exactly when a round has such an attempt.
- Capabilities: identities that differ in name alone leave the text undetermined (`Caps.NamesDoNotOrderIdentities`), and the order of the forms shows in it (`Caps.FormsAreInOrder`); a form without fields makes the call panic (`Caps.Info.AppendHash`). Nothing in the text tells the name of a field from a value: two forms with one text have the same fields and values exactly if these are equally many (`Caps.TextTellsFields`, with two forms in `Caps.NamesPrintLikeValues`).
- IRIs: the step that uri/iri.go:117-119 quotes from section 3.2 of RFC 3987 keeps the encodings of "%", of reserved characters and of US-ASCII not allowed in URIs. The code decodes them like any other, "%2F" to "/" included; it does what is quoted exactly when no such octet is encoded (`Iri.IriIsAsDocumented`). With an encoded "%" even what the IRI decodes to differs (`Iri.IriKeepsMeaning`).
- Addresses: only one final dot is taken off a domain, so an address whose domain was written with two is not read back from its printed form (`Jid.ParseInvertsString`).

## Model

| member | source | states |
|---|---|---|
| StylingConservation.ProgressAtEOF | styling/styling.go:316-399 | with the end of input in the buffer and data left, every call of the split function yields a non-empty token, at any quotation depth |
| StylingConservation.NextConserves | styling/styling.go:206-248 | a call to Next hands out the front of the outstanding input or, once, an empty end-of-quotation token; the measure (unread bytes, held-back token) goes down; it fails only with nothing outstanding |
| StylingConservation.TokensAreTheInput | styling/styling.go:206-248 | for every input and every cut into reads, the data of all tokens joined together is the input |
| StylingSpans.FindSpanHits | styling/styling.go:458-561 | with the closers of the open spans ahead, the span scanner stops at or before the next of them, opens only what is closed before it, and opens nothing in a preformatted span |
| StylingSpans.ScanSound | styling/styling.go:316-399 | every call keeps the invariant: distinct directives on the stack, their closers unread on this line in stack order, mask minus pending clears equal to the stack's bits, start and end bits only with their style bit, entered quotation only with an inner decoder; and its token shows exactly what happened to the stack |
| StylingSpans.DropIsQuiet | styling/styling.go:316-399 | quotation depth goes down only where no span is open at any level |
| StylingSpans.SpansNest | styling/styling.go:458-561 | whole runs, every input and every cut: spans are properly nested, each closed on its own line, none opens inside a preformatted one, and the reported style shows exactly the open spans |
| StylingRuled.RunsAreExplained | styling/styling.go:206-399 | every input and every cut: each token, its length, style, quotation depth and info are those of rules on the text alone: blocks by marker and fence; up to the next closing directive or the end of the line, the first directive that may open a span does if something there may close it; otherwise the text up to there, or that directive, is the token; depth = markers read on the line; an inserted token exactly where the depth falls |
| StylingOpenings.SpansOpenByTheRules | styling/styling.go:513 | every input and every cut: each opening token stands at the start of the text or a line, behind a directive, a quotation marker or white space; neither white space nor the same directive is behind it, and the same directive follows on the line, not behind white space |
| StylingOpenings.FirstCandidateOnly | styling/styling.go:507-524 | outside preformatted spans, a pair of directives that may open and close a span, with neither newline nor closing directive before its end, opens one if and only if no directive before it may open one |
| StylingOpenings.BlockedPair | styling/styling.go:507-524 | a line with such a pair and a directive before it that nothing closes: all of it is one plain token |
| StylingOpenings.FirstSameCloses | styling/styling.go:481-506 | a span closes at the first same directive behind its opening one, which is on its line and not behind the one that made it open |
| StylingOpenings.ClosesBehindSpace | styling/styling.go:481-506 | a span that closes behind white space |
| StylingOpenings.OpensBehindClosing | styling/styling.go:513 | a span that opens right behind a closing directive |
| StylingRules.DirectiveFlags | styling/styling.go:532-549 | which byte opens and closes which style |
| StylingChunks.FindSpanStable | styling/styling.go:458-561 | what the span scanner finds it finds in every longer buffer |
| StylingChunks.ScanPreStable | styling/styling.go:433-456 | inside a preformatted block, a token found before the end of the text is known is the one found when it is, if and only if the rest is one line and no fence, or ends no line |
| StylingChunks.MarkerShorter | styling/styling.go:565-581 | the marker read from the first bytes of a text is the whole marker if and only if it lies within them |
| StylingChunks.ScanStable | styling/styling.go:316-399 | at any quotation depth, for every token, a token returned before the end of the text is known: every longer buffer gives one too; it is the same with the same state after it, end known or not, if it is settled (every token of spans and every fence line is); if it is not, knowing the text gives another |
| StylingChunks.ScanAgain | styling/styling.go:316-399 | at any quotation depth and in any block, a call that asks for more data commits to nothing |
| StylingCuts.ScanTokenIsWhole | styling/styling.go:316-399 | on a steady text, the scanner finds what the whole rest has at its front, whatever has been read |
| StylingCuts.SlowToken | styling/styling.go:316-399 | reading byte by byte, a token is found with the least buffer that shows it |
| StylingCuts.ChunksDoNotMatter | styling/styling.go:316-399 | for every text: tokens, styles and depths are the same for every cut into reads if and only if the text is steady, and if and only if reading it byte by byte gives what having all of it gives |
| StylingCuts.UnmarkedIsCutFree | styling/styling.go:565-581 | no cut matters for a text with no fence and no white space behind any '>', at any quotation depth and mid-line |
| StylingMidline.PlainTextIsCutFree | styling/styling.go:316-399 | nor for one with no '>' or fence at a line start or behind a directive |
| StylingMidline.PlainLinesAreNotEnough | styling/styling.go:565-581 | a text none of whose lines starts with '>' or a fence, and two cuts of it that are seen differently |
| StylingSkip.SkipInsideOut | styling/styling.go:262-314 | leaving an outer nesting is leaving the inner one and going on: the recursion of SkipSpan and SkipBlock equals one pass with a counter |
| StylingSkip.SkipReadsOn | styling/styling.go:262-314 | skipping stops at a suffix of the outstanding input, ends, and fails only when the input is used up |
| StylingSkipRules.KindMeans | styling/styling.go:262-314 | what a token does to the nesting that is counted, told from the text: opening and ending blocks, deeper quotations, opening and closing spans if these are skipped, and lines of plain text |
| StylingSkipRules.SkipLeavesSpan | styling/styling.go:262-286 | from inside a span, any number of others within it: SkipSpan succeeds, and stops behind the token that closes that span, those around it still open |
| StylingSkipRules.SkipLeavesBlock | styling/styling.go:288-314 | from inside a preformatted block outside quotations: skipping stops behind the fence that ends the block, and fails only at the end of input |
| Utf8.DecodeStopsAtAscii | styling/styling.go:474-478 | decoding a rune looks no further than the next ASCII byte |
| Utf8.DecodeEncoded | styling/styling.go:474-478 | an encoded rune is decoded, whatever follows it |
| Utf8.DecodeLastEncoded | styling/styling.go:476-477 | and from the end of a text, whatever is before it |
| Utf8.DecodedIsEncoded | styling/styling.go:474-478 | what is decoded, if valid, is the encoding of the rune |
| Styling.Decoder.StartsBlockQuote | styling/styling.go:565-581 | the byte loop finds the marker with the white space behind it |
| Styling.Decoder.FindSpan | styling/styling.go:458-561 | the byte loop finds what the recursive scan finds, of which StylingRuled.RunsAreExplained and StylingOpenings.SpansOpenByTheRules say what it means |
| Styling.Decoder.ScanSpan | styling/styling.go:458-561 | mask, pending clears and stack change as specified and the token is the front of the buffer |
| Styling.Decoder.ScanPre | styling/styling.go:433-456 | the same inside a preformatted block |
| Styling.Decoder.Scan | styling/styling.go:316-399 | the split function on the heap chain of decoders equals the recursive function; other decoders and the caller's fields are untouched |
| Styling.Decoder.Next | styling/styling.go:206-248 | new state and token equal the specified ones, inserted end-of-quotation tokens included |
| Styling.Decoder.Quote | styling/styling.go:402-414 | the depth reported is the number of entered levels plus a pending inserted token |
| Styling.Decoder.Style | styling/styling.go:417-428 | the style reported is the union of the masks of the levels that ran |
| Styling.Decoder.SkipNested | styling/styling.go:262-314 | the recursive loop reads exactly as far as the counting pass, and ends |
| Walk.Expand | disco/items.go:204-216 | expanding an item that is nowhere else on its branch makes the items not yet expanded fewer: the reason for termination |
| Walk.WalkItem | disco/items.go:191-234 | the recursive walk on a growing list terminates on every finite item graph and does what the specification says: duplicate search, second call on error, ErrSkipItem |
| Walk.WalkIsJustified | disco/items.go:191-234 | whatever servers answer and the function returns: only the root and listed items are visited, one level below the item queried, never deeper than there are items; a query follows an approved visit; a second visit reports the query's error |
| WalkComplete.WalkStopsAtFirstError | disco/items.go:191-234 | the first error other than ErrSkipItem that the function returns ends the walk at once and is its result; without one, everything listed in an answer is visited after the query, one level below the visit that led to it, unless the query failed and the function, told so, did not return nil |
| WalkErrors.FailedQueriesAreHandled | disco/items.go:213-234 | whatever servers answer and the function returns: a failed query is reported at once, to the item it was for; the walk then goes one level down, to the first item listed, if and only if something was listed and the function returned nil; otherwise it stays at or above the level it is at |
| WalkErrors.FailedItemIsEntered | disco/items.go:161-162 | servers and a function with which an item is entered although its query failed |
| WalkComplete.SkipItemIsReturned | disco/items.go:217-223 | the walk returns ErrSkipItem if and only if the query for the root fails and the function says so to the second call |
| WalkReach.WalkVisitsExactly | disco/items.go:191-234 | if the function never objects, on every finite graph, with or without errors in the answers: an item is visited if and only if a path leads to it from the root on which each item before it occurs once in the list of the root and all answers so far |
| WalkComplete.WalkVisitsExactlyTheReachable | disco/items.go:171-234 | if the function never objects and no answer repeats an item, with or without errors in the answers, an item is visited if and only if a path leads to it from the root |
| WalkComplete.VisitHasPath | disco/items.go:191-234 | the level of a visit is the length of a path to the item |
| WalkComplete.RepeatedItemIsNeverExpanded | disco/items.go:203-211 | if the root's answer is one item twice, nothing but the root and that item is visited and nothing but the root is queried |
| Base64.RoundTrip | ibb/conn.go:134 | decoding what was encoded gives the data back |
| Base64.Vectors | ibb/conn.go:134 | test vectors of section 10 of RFC 4648, and the last two symbols |
| IbbStream.WriteRight | ibb/conn.go:41-94 | after a write to the encoder, all of it is out or held back; if it broke, a beginning of it is out |
| IbbStream.WriteAccounted | ibb/conn.go:189-197 | after a write, everything offered is out, held by the encoder or in the write buffer; once broken, a beginning of it is out |
| IbbStream.CloseAccounted | ibb/conn.go:236-267 | an unbroken close leaves encoder and write buffer empty |
| IbbSystem.StepConsistent | ibb/ibb.go:198-258 | writing, flushing, closing, delivering, reading and changing limits all keep the invariant of both ends and the channel |
| IbbSystem.ExactlyTheAcceptedArrives | ibb/ibb.go:198-258 | in every reachable state, whatever failed or was refused: the receiver has counted every payload delivered, refusals are for want of room only, and what arrived is what the accepted payloads carry, in order |
| IbbSystem.NothingIsLost | ibb/conn.go:41-94 | in every reachable state without failure or refusal: sender counter = receiver counter + payloads in flight modulo 65536, and bytes written = read ++ read buffer ++ in flight ++ held ++ write buffer |
| IbbSystem.OnlyAPrefixArrives | ibb/conn.go:41-94 | in every run, whatever fails: if no payload is accepted behind a refused one, what arrives is a prefix of what was written; with acknowledged payloads none is |
| IbbSystem.CloseDeliversAll | ibb/conn.go:236-267 | after an unbroken close, deliveries without refusal and reads give the reader everything written |
| IbbLimits.ReadBufferBounded | ibb/ibb.go:215-231 | no payload leaves a limited read buffer longer than the larger of the limit and its old length; refused payloads leave it alone |
| IbbLimits.EmptyBufferAccepts | ibb/ibb.go:219-229 | an empty buffer takes a payload if and only if the limit covers its length rounded up to a whole group |
| IbbLimits.RefusalLeavesHole | ibb/ibb.go:215-229 | without acknowledgements, behind a refused payload the next one is taken: its bytes follow those before the hole |
| IbbLimits.WriteSizes | ibb/conn.go:189-197 | a write that does not fail puts out a payload of more than a block exactly under a condition on block size, bytes buffered, bytes held and bytes written |
| IbbLimits.BlockSizeExceeded | ibb/conn.go:209-214 | in every reachable state, for every write, flush and close that does not fail: a payload of more than a block goes out if and only if that condition, or that of flush or close, holds |
| IbbLimits.LargeBlocks | ibb/conn.go:209-214 | with blocks of 768 bytes and more no step does so; with three bytes and more only a single write of more than a block |
| IbbLimits.SmallBlock | ibb/conn.go:209-214 | three writes of a byte each after which, with blocks of one byte, a flush, a write or a close puts out a payload of three |
| Ibb.StanzaWriter.Write | ibb/conn.go:41-94 | one payload with the current number; the counter advances, modulo 65536, only on success |
| Ibb.Encoder.Write | ibb/conn.go:134 | the streaming encoder's loops equal its specification |
| Ibb.Conn.BufferWrite | ibb/conn.go:189-197 | the buffered writer's loop equals its specification, bypass included |
| Ibb.Conn.Close | ibb/conn.go:236-267 | flush, then the encoder's last group; success exactly if nothing is broken; a second close does nothing |
| Ibb.Conn.Read | ibb/conn.go:168-183 | hands out the front of the read buffer |
| IbbLimits.LimitFitsBlock | ibb/conn.go:297-304 | with the limit that SetReadBuffer sets, an empty read buffer takes a full block if and only if there is no limit, or the one asked for covers the block rounded up to three, or it was at most the block and three divides that |
| IbbLimits.InitialLimitFitsBlock | ibb/conn.go:115-149 | the same for the limit of a new connection: one below the block size agreed becomes two blocks, any other stays, also where blocks have the default size |
| IbbLimits.NumbersAreChecked | ibb/ibb.go:208-212 | a payload is refused as unexpected if and only if its number is not the next one, and then changes nothing; any other advances the counter, so that it is refused when it comes again |
| IbbLimits.ExpectedIsHandled | ibb/ibb.go:213-245 | of the expected payloads: which are refused for want of room, which are corrupt, and what each leaves in the read buffer |
| IbbLimits.ClosedStaysClosed | ibb/conn.go:236-267 | a second close does nothing and a closed connection takes no data |
| Ibb.Conn.HandlePayload | ibb/ibb.go:198-258 | number check, counter, room check and decoding, in this order |
| MuxModel.LookupIsMostSpecific | mux/mux.go:114-208 | the pattern found is registered, matches, and none more specific in the code's order is; none is found only if none matches |
| MuxModel.LookupIsAsDocumented | mux/mux.go:52-53 | the lookup is the documented one if and only if not both wildcards are registered without the full name |
| MuxModel.WildcardsAreSwapped | mux/mux.go:148-176 | two patterns on which they differ, for any payload with a namespace and a local name |
| MuxModel.ChildrenAtDepthOne | mux/mux.go:474-557 | going from child to child finds the start tokens at depth one |
| Mux.BufReader.Token | mux/mux.go:418-438 | reads the stanza by position, from the buffer or the stream, recording what it takes from the stream |
| Mux.CallsAt | mux/mux.go:474-557 | the k-th handler is the one for the k-th child and is offered the stanza from its start |
| Mux.StanzaCalls | mux/mux.go:474-557 | one wildcard call for an empty stanza, otherwise one call for each start token at depth one, in order; each is offered the tokens of the stanza from the first on, by position |
| Mux.ForChildren | mux/mux.go:474-557 | however far each handler reads: the calls are those of the stanza's children in order, each offered the stanza from its start element; an empty stanza gets one wildcard call; an error is reported exactly if a handler failed; the stanza is read to its end |
| StanzaModel.FixNests | session.go:1038-1108 | a properly nested token sequence goes out properly nested |
| StanzaModel.TopLevelStanza | session.go:1038-1108 | a top-level stanza gets a namespace, a non-empty id and, with an address configured, a non-empty from; what was there is kept in order except xmlns |
| StanzaModel.OtherElements | session.go:1038-1108 | anything else keeps its name and attributes; xmlns goes only if the name carries the namespace |
| StanzaModel.FixAllKeepsKinds | session.go:1038-1108 | over whole outputs, by position: text goes out as it is, start and end tokens as start and end tokens of the same local name |
| StanzaModel.FixAllAt | session.go:1038-1108 | each token goes out as it does at the depth at which it stands: the elements open before it |
| StanzaModel.StanzaIdAndFrom | session.go:1048-1091 | the id and from attributes of a top-level stanza are those it had that are not empty, or else exactly the new id and the configured address |
| StanzaModel.EndTags | session.go:1092-1105 | an end tag gets the namespace exactly if it ends a top-level stanza without one |
| StanzaModel.FixIsIdempotent | session.go:1038-1108 | a second encoder changes nothing |
| StanzaEncoder.Encoder.EncodeToken | session.go:1038-1108 | depth counter and token rewriting in place equal the specification, of which StanzaModel.FixAllKeepsKinds, FixAllAt and StanzaIdAndFrom say what goes out |
| ReplyModel.CheckerIsRight | session.go:682-703 | for balanced output, the response checker's flag is set exactly if an answer was written at the top level |
| ReplyModel.ErrorReplyAnswers | session.go:627-645 | the automatic error reply is balanced and is an answer |
| ReplyModel.ErrorReplyIs | session.go:627-645 | it says service-unavailable and cancel, has this id and type error, and is addressed to the sender if one is given |
| ReplyModel.AnswerMeans | session.go:662-703 | which elements answer an IQ and which ask for an answer, by name, id and type |
| ReplyModel.AnswersOne | session.go:682-703 | an element answers at most one IQ and does not ask for an answer itself |
| ReplyModel.IdTypeIs | session.go:662-680 | the id and the type are the last ones up to where both have occurred |
| ReplyModel.SingleIsFound | session.go:662-680 | a single id or type is found, and none gives the empty string |
| Input.GetIDTyp | session.go:662-680 | the loop finds the id and type that these two describe |
| Input.LockReader.Close | session.go:798-811 | releases the input lock once |
| Input.ElementReader.Token | session.go:44-58 | reads the stream in order, never beyond the element, and may close the lock reader behind its end |
| Input.HandleInputStream | session.go:546-660 | success exactly under the stated conditions; then exactly one top-level element or white space was consumed; the lock is released exactly once in any case; a matched response goes to its waiter alone; otherwise the output grew by what the handler wrote and the due error reply |
| Input.EveryIQIsAnswered | session.go:614-650 | for an IQ get or set with an id and balanced handler output: a top-level answer was written, and the automatic reply exactly if the handler wrote none |
| Input.ItemIsElement | session.go:546-612 | what a round takes is an element from its start token to the end token that closes it |
| Input.NormalizedIs | session.go:564-586 | only the first from attribute of a stanza of the stream's namespace changes: it is emptied if it is the session's own address |
| Input.ResponseMeans | session.go:587-592 | with a single type, responses are results and errors |
| Input.SucceedsMeans | session.go:614-660 | for a handler that writes whole elements: the exact conditions on which a round succeeds |
| Responses.StepKeepsInv | session.go:587-612 | every step of any caller or the reader keeps table, holder, log and offer consistent |
| Responses.ResponsesReachTheirCallers | session.go:991-1018 | in every reachable state: responses went only to calls registered under their id and name, at most one each; the table holds exactly the calls in flight; a holder of a response is the only reader of the stream |
| Responses.OffersInEveryRun | session.go:590-602 | in every reachable state with the reader idle: an arriving element is offered to a call if and only if it is a response, the call is in flight under its id, and the name registered is the element's or its local name without a namespace |
| Responses.ArrivalIsOffered | session.go:590-602 | at most one call is such a one; otherwise the reader reads the element itself; nothing else changes |
| Responses.ResponseIsDelivered | session.go:595-610 | such a response to a waiting call that is not cancelled: it is offered, handed over, read and closed, each step being possible; it is logged for that call, which is over; all other calls are as before and the reader goes on |
| Responses.CancelledIsSkipped | session.go:602-610 | if the call is cancelled meanwhile, the reader goes on and nothing is logged |
| Responses.CallIsRegistered | session.go:991-1012 | a call is in the table under its id before it is sent, and out of it if it cannot be sent |
| Responses.OfferToFailedCallWaits | session.go:595-602 | a response on offer to a call that already failed waits for that call's context and nothing else |
| Negotiation.ReadListHolds | features.go:379-450 | a client's list holds exactly the advertised, configured and allowed features, and is required if a configured one is |
| Negotiation.ReadListEntries | features.go:406-431 | the entry of a namespace is that of the last advertised feature listed under it: required exactly if that says so, and with the configured feature of that name |
| Negotiation.WriteListHolds | features.go:312-361 | a server's list holds exactly the configured features that are allowed |
| Negotiation.WriteListEntries | features.go:331-353 | the entry of a namespace is that of the last listed feature in it, required exactly if listing it said so |
| Negotiation.FirstNamedIs | features.go:303-310 | a feature is looked up by name and is the first configured one of that name; none is found only if none has it |
| Negotiation.Session.ReadStreamFeatures | features.go:379-450 | the loop over received features makes that list, entries and their required flags included, and fails exactly if a configured one cannot be parsed |
| Negotiation.Session.Choose | features.go:248-266 | in any map order: an optional candidate if there is one, else a required one, else none |
| Negotiation.Session.NegotiateFeatures | features.go:105-288 | for any features and map order: each call has its necessary bits set (an unlisted StartTLS aside) and is of a listed feature; no namespace is negotiated twice; a client calls a required feature only when no optional one is left; the round ends with the first required or restarting call and returns its outcome, with Ready exactly if the list requires nothing |
| Negotiation.Session.Negotiator | negotiator.go:109-125 | a missing tee is installed first and takes the round; otherwise the round is that of the features |
| Negotiation.RoundAdvances | session.go:283-317 | with StartTLS, SASL and binding, an error-free round of features adds Secure, Authn or Ready |
| Negotiation.RoundIsReady | features.go:167-288 | an error-free round reports Ready exactly if its last feature does or the list requires nothing, or if nothing is left to negotiate; the new connection is that of the last feature |
| Negotiation.RoundIsSafe | features.go:267-278 | if Authn implies Secure before a round, it does before and after every call of it |
| Negotiation.JourneyAdvances | session.go:283-317 | every round of a session that does not fail installs the tee or adds one of Secure, Authn, Ready |
| Negotiation.ForcedExactly | features.go:144-166 | a round tries StartTLS unlisted if and only if it is the first, no tee takes it, and an insecure client with StartTLS could read a list that does not let it negotiate that; no later round does |
| Negotiation.Session.NegotiateSession | session.go:283-317 | the loop ends; the rounds it went through are each what the negotiator promises of the state the one before left, from the first state to the last, none after Ready or an error; it succeeds with Ready set or fails with the last round's error; Authn implies Secure throughout; with a tee StartTLS is never tried unlisted |
| Ordering.SortedOnce | disco/info.go:96-108 | elements told apart by their keys can be sorted in one way only |
| Ordering.Sort | disco/info.go:96-108 | sorting gives a sorted permutation and nothing more |
| Caps.TextIgnoresOrder | disco/info.go:93-155 | the hashed text is the same for every order of identities, features, fields and values |
| Caps.NamesDoNotOrderIdentities | disco/info.go:96-108 | for lists of identities whose names are free of '<': every order that sorting may give has one text if and only if no two identities differ in name alone |
| Caps.FormsAreInOrder | disco/info.go:126-155 | lists of forms that differ first in the types of two forms, types free of '<', have different texts |
| Caps.FormsHaveManyTexts | disco/info.go:126-155 | forms of pairwise different such types have one text in all orders if and only if there is at most one |
| Caps.HashingAgainGivesTheSame | disco/info.go:145-146 | sorting the caller's field values in place does not change a later text |
| Caps.TextTellsWords | disco/info.go:93-155 | two texts are equal if and only if their words are, words without '<': the identities, the sorted features, and for each form its type and its fields, each with its sorted values |
| Caps.TextTellsFeatures | disco/info.go:118-122 | with the same identities and forms, texts are equal if and only if the features are the same, in whatever order; features without '<' |
| Caps.TextTellsIdentities | disco/info.go:96-116 | with the same features and forms, if and only if the identities are the same, in the order given to the text; no '<', and no '/' but in names |
| Caps.TextTellsFields | disco/info.go:126-155 | two forms, words without '<', have the same type, field names and values of each if and only if their texts are equal and the fields, sorted by name, have equally many values |
| Caps.NamesPrintLikeValues | disco/info.go:135-153 | two forms with different fields and one text |
| Caps.FormTypeMeans | disco/info.go:126-134 | which value of which field is the type of a form |
| Caps.SortFormMeans | disco/info.go:145-146 | what hashing leaves of a form: the first field of each name but the type's has its values sorted, everything else is as it was |
| Caps.Info.FeedForm | disco/info.go:126-155 | the loop feeds the form's canonical text and sorts its values in place |
| Caps.Info.AppendHash | disco/info.go:93-155 | the text fed, which Caps.TextTellsWords says what it tells, and the caller's lists afterwards; it panics exactly if a form has no fields |
| Iri.EscapeInvalidUTF8 | uri/iri.go:149-204 | prefix copy and fast path equal the plain per-rune map |
| Iri.EscapeIsCanonical | uri/iri.go:149-220 | the result is well-formed with nothing disallowed; a text is unchanged exactly if it is clean; idempotent |
| Iri.EscapeRune | uri/iri.go:149-220 | an encoded rune is kept, unless it is a bidirectional formatting character, whose bytes are encoded |
| Iri.EscapeByte | uri/iri.go:149-220 | a byte at which no encoded rune starts is encoded by itself |
| Iri.EncodedAt | uri/iri.go:206-220 | each byte is encoded as a percent sign and two upper-case hexadecimal digits of its value |
| Iri.CleanIsRunes | uri/iri.go:149-220 | a text that is left as it is encodes runes, none of them such a character; Iri.RunesAreClean is the converse |
| Iri.RunesAreClean | uri/iri.go:149-220 | a text of such runes is left as it is |
| Iri.EscapeKeepsMeaning | uri/iri.go:149-204 | percent-decoding cannot tell a text from its escaped form, malformed encodings included |
| Iri.EscapeRoundTrip | uri/iri.go:149-204 | percent-decoding the escaped form of a text without percent signs gives the text back |
| Iri.IriKeepsMeaning | uri/iri.go:114-145 | conversion fails exactly on malformed encodings; the IRI percent-decodes to what the URI does exactly if no percent sign was encoded |
| Iri.IriIsAsDocumented | uri/iri.go:117-145 | conversion is the quoted one of section 3.2 of RFC 3987 if and only if the URI is malformed or encodes no octet whose encoding is to be kept |
| Jid.PackUnpack | jid/unsafe.go:17-29 | packing the parts of an address gives the address |
| Jid.JID.Bare | jid/jid.go:184-190 | keeps the packing invariant and drops the resourcepart alone |
| Jid.JID.Domain | jid/jid.go:193-198 | keeps the packing invariant and the domainpart alone |
| Jid.JID.Equal | jid/jid.go:242-252 | the comparison loop says whether all three parts agree |
| Jid.SplitInvertsString | jid/jid.go:228-239 | splitting a printed address gives its parts back if and only if they are separable |
| Jid.StringInvertsSplit | jid/jid.go:316-367 | printing an unsafe split gives the text back if and only if a safe split accepts it |
| Jid.EqualMeansSameString | jid/jid.go:228-252 | on separable addresses, equality and equal strings are the same |
| Jid.StringsCanCollide | jid/jid.go:228-239 | without separability two addresses can print alike |
| Jid.NewIsPartwise | jid/jid.go:66-115 | an address is made exactly if each part is acceptable by itself, and holds the prepared parts; otherwise the error is the first reason in a fixed order |
| Jid.LocalIsChecked | jid/jid.go:383-394 | a localpart passes the last check exactly if it has at most 1023 bytes and none of eight forbidden ones |
| Jid.FinalDotIsDropped | jid/jid.go:408-450 | one final dot of a domain makes no difference |
| Jid.DomainsKept | jid/jid.go:394-450 | IP addresses are kept as they are; every other domain accepted has 1 to 1023 bytes |
| Jid.WithDomainIsNew | jid/jid.go:144-160 | replacing the domain of an accepted address gives the address, or the error, of building it anew |
| Jid.WithIsNew | jid/jid.go:119-180 | the same for each of the three parts |
| Jid.ParseInvertsString | jid/jid.go:41-48 | with stable string preparation, an accepted separable address is read back from its printed form if and only if its domain has no final dot or is an IP address |

## Left out

- Styling.Decoder.Scan: the loop that resets the chain of decoders at a line start is written as recursion along the chain; a style bitmask is a set of bits.
- Styling.Decoder.Next: read errors, the scanner's limits on token length and empty reads, and the slices shared with its buffer are not modelled. Several dropped quotation levels insert one token, and the token held back behind it comes without its info string, as in the code.
- Walk.WalkItem: servers and the walk function may depend on everything before; the items that can ever be listed are finite; paging in ItemIter and the sharing of list memory between branches (never visible here) are not modelled.
- WalkComplete.WalkVisitsExactlyTheReachable: assumes that no answer repeats an item, since with repeats it is false; WalkReach.WalkVisitsExactly covers those. Both are about a walk function that never objects.
- Ibb.Conn.Read: waiting for data, wake-ups and deadlines are not modelled; neither are opening and closing handshakes, listeners and stream identifiers.
- Ibb.Encoder.Write: written after the documented behaviour of encoding/base64; a flush leaves up to two bytes with the encoder until Close.
- Ibb.Conn.HandlePayload: the bytes that corrupt base64 leaves behind are a parameter.
- IbbSystem.OnlyAPrefixArrives: promises nothing once a payload is accepted behind a refused one, as happens with messages; IbbLimits.RefusalLeavesHole shows what arrives then.
- Mux.ForChildren: a handler is a number of tokens read and a success flag; truncated stanzas, the IQ router, and the For methods that merge handlers are left out; a stanza of text alone triggers no handler, as in the code.
- Input.HandleInputStream: elements on the stream are taken to be complete; write errors other than a closed stream, and stream-level elements, are left out; the reply goes to the from value as received instead of its normalised form.
- Responses.ResponsesReachTheirCallers: ids of calls in flight are distinct, as with the library's random ids; Responses.ResponseIsDelivered says which steps are possible and where they lead, not that a scheduler takes them.
- StanzaEncoder.Encoder.EncodeToken: attributes are filtered in the caller's slice in the code; that aliasing is not modelled.
- Negotiation.Session.NegotiateFeatures: what features do and peers send are parameters; reading and writing XML, address checks, stream headers and errors while listing are left out. Prohibited bits are tested when the list is made and not before each call, and errors of optional features do not end the loop, as in the code.
- Negotiation.Session.NegotiateSession: assumes that StartTLS and SASL restart the stream and set their bit on success, and that binding sets Ready.
- Caps.Info.AppendHash: the hash function and the base64 text of its sum are left out; values set on a form after it was received are not considered, and a type field has at most one value where order is said not to matter.
- Jid.ParseInvertsString: PRECIS profiles, IDNA and the recognition of IP addresses are parameters, assumed to leave prepared text as it is.
- Sockets, TLS, DNS, deadlines, contexts beyond cancellation, tee copying and websocket dialing: I/O.
- `jid/escape.go`, `form` text-multi splitting and `color`: not total or floating point.
- XML marshalling structs, token readers of the extension packages, enumerations and generated tables: they would only add easy members.
