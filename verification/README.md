# A verified model of dkim-lite

dkim-lite is a milter: it sits beside a mail server, reads each message over a
packet protocol, and answers with a DKIM-Signature field to add. This project
models the three parts of it where correctness is hard to see and proves what
each promises.

**Signing** (`BodyCanonicalizer`, `RelaxedBody`, `HeaderCanonicalizer`,
`Folding`, `TagLists`, `Base64`, `Config`, `Alphabets`, `Mailboxes`,
`MailboxProperties`, `UnicodeText`, `MailboxGrammar`, `MailboxExact`, `FromFields`,
`MailboxForms`, `Signer`, `Verifier`, `EndToEnd`, `SignatureTheorems`,
`SignatureInput`, `SignatureDecoding`, `CoveredHeaders`, `SigningConditions`,
`LineEnds`). The streaming body
automaton, the header canonicalizer, the From parser, header selection with an
oversigned From, and folding are written as the loops they are, each against a
specification function. What the From parser accepts is also written as a grammar,
without scans or flags, and the two agree on every value
(`FromFields.FromExactly`). Beside them stands an independent verifier, written
from sections 3.2, 3.4, 3.7 and 5.4.2 of RFC 6376. The main results are that the
verifier rebuilds the signed bytes wherever the field is put
(`SignatureTheorems.RebuiltIsHashed`), that it accepts
(`SignedMessageVerifies`), that a second From anywhere spoils it
(`SecondFromBreaks`), and that the signed bytes determine everything signed
(`SignatureDecoding.SignedBytesDetermineAll`).

**The milter connection** (`Framing`, `Reload`, `Milter`, `Connection`,
`MilterHistory`, `MilterProperties`, `HeaderPackets`, `FlagWords`, `Lockstep`,
`ConnectionEnds`, `SentSignatures`, `WorkerPool`). A connection is
a set of objects updated in place that turns a byte stream into a byte stream.
`Connections.HandleConnection` ties it to a step relation over packets, and
`MilterHistory.StreamingIsStoreAndForward` ties that to a machine with no
message state at all, which keeps every packet and looks back when a message
ends. Reloads of the configuration may come between any two packets. The accept
loop, its bounded queue, the workers and shutdown are one state machine whose
runs are all interleavings.

**Key installation** (`KeyInstall`). Any number of generators install a private
key under one name in one directory, as interleaved file-system steps that may
stop anywhere.

## How the program is represented

- A byte is a character with the same code (`ByteStrings.Byte`). Statements hold
  for all characters, so for the 256 bytes in particular; where only bytes make
  sense (base64, digests) the type `Octets` says so.
- The hasher is the sequence of bytes given to it. SHA-256, RSA signing and RSA
  verification are parameters (`Signers.Crypto`). Base64 is modelled in full.
- The clock is a parameter, an arbitrary natural number at each packet.
- `usize` is 64 bits where its width shows: saturating additions, the t= value.
- What the rest of the process does while a connection runs is a `Moment` per
  packet: the reloads tried before that packet is handled, and the time. Each
  connection has its own sequence of moments; reloads are the only shared state.
- A read may return any non-empty part of what is left and a write may take any
  non-empty part of what is offered.
- Atomic flags, the configuration lock and the queue are sequentially consistent
  and the locks are not poisoned.

## Where the code and its promises part

Four properties do not hold of the code on every input. Each is proved with an
input that shows it and the exact condition under which it does hold.

- The body hash is the section 3.4.4 form if and only if no line with content is
  preceded by more empty lines than the counter can hold
  (`RelaxedBodies.StreamingIsRelaxed`). 2^64 line feeds and a letter are an input
  that differs (`RelaxedBodies.SaturationIsVisible`); no body of fewer than 2^64
  bytes does (`RelaxedBodies.CountableBodyIsRelaxed`).
- A header is canonicalized by the steps of section 3.4.2, and a verifier rebuilds
  the signed bytes, if and only if the values are legally folded: CR and LF only
  as CRLF before whitespace (`HeaderCanonicalizers.RelaxedIsStandard`,
  `SignatureTheorems.RebuiltIsHashed`). On other values the program reads a line
  end as whitespace, which the standard would keep. Where the mail server sends
  every line end as CRLF, the condition is that each is followed by whitespace
  (`LineEnds.TransmittedIsStandard`, `LineEnds.RebuiltFromTransmitted`). A Subject
  holding a bare line feed between two letters is taken from a header packet
  (`LineEnds.BrokenSubjectArrives`), signed (`LineEnds.BrokenMessageIsSigned`) and
  never verified (`LineEnds.BrokenMessageBreaks`).
- A break inserted before whitespace leaves the result of the From parser as it
  was, unless it follows another line break directly; then the field is rejected
  (`MailboxProperties.FoldIsInvisible`). A name with a break before an address has
  a domain, and with a second break it has none (`MailboxForms.BreakAfterBreak`).
- A key generator that reports an error has installed nothing, except if and only
  if the call that failed was the removal of its temporary name
  (`KeyInstall.ErrorMeansNothingInstalled`). A run of one generator in an empty
  directory ends that way (`KeyInstall.ErrorAfterInstalling`). A reported success
  is always an installed key (`KeyInstall.InstallIsAllOrNothing`).

## Model

| member | source | states |
|---|---|---|
| `BodyCanonicalizers.BodyCanonicalizer.Update` | src/dkim.rs:71-112 | the span loop leaves exactly the state that one byte at a time would leave |
| `BodyCanonicalizers.BodyCanonicalizer.Emit` | src/dkim.rs:114-127 | held-back empty lines and one pending space precede the content, and all three pending fields are settled |
| `BodyCanonicalizers.BodyCanonicalizer.EndCurrentLine` | src/dkim.rs:129-137 | a line with content is terminated, an empty one is counted with saturation |
| `BodyCanonicalizers.BodyCanonicalizer.Complete` | src/dkim.rs:139-147 | the digest is taken over what was hashed plus the end of an unfinished line, also after a final CR |
| `BodyCanonicalizers.RunSplit` | src/dkim.rs:71-112 | cutting the input anywhere, between CR and LF too, changes neither state nor output |
| `BodyCanonicalizers.RunOrdinarySpan` | src/dkim.rs:82-90 | a span of ordinary bytes emitted at once equals its bytes emitted one by one |
| `BodyCanonicalizers.RunWspSpan` | src/dkim.rs:101-108 | a span of whitespace only sets the pending flag |
| `BodyCanonicalizers.CanonicalizeChunks` | src/dkim.rs:70-148 | any division of a body into updates hashes the same bytes |
| `RelaxedBodies.RunOwes` | src/dkim.rs:469-536 | from any state between bytes the automaton outputs what the line-based form of the remaining input says |
| `RelaxedBodies.StreamingIsRelaxed` | src/dkim.rs:70-148 | the bytes hashed are the section 3.4.4 form if and only if the counter of empty lines does not saturate before content |
| `RelaxedBodies.CountableBodyIsRelaxed` | src/dkim.rs:129-137 | every body of at most usize::MAX bytes is hashed in the section 3.4.4 form |
| `RelaxedBodies.SaturationIsVisible` | src/dkim.rs:135 | a body that is hashed differently from the section 3.4.4 form |
| `RelaxedBodies.CanonicalLinesAreTidy` | src/dkim.rs:114-147 | no tab, doubled space, space at a line's end or empty last line is left |
| `RelaxedBodies.RelaxedBodyIdempotent` | src/dkim.rs:70-148 | canonicalizing a canonical body changes nothing |
| `RelaxedBodies.RelaxedBodyKeepsInk` | src/dkim.rs:70-148 | the non-whitespace bytes survive in order and the result has at most 2n+2 bytes |
| `HeaderCanonicalizers.CanonicalizeHeader` | src/dkim.rs:212-239 | the loop writes the lower-case name, a colon, the relaxed value and CRLF |
| `HeaderCanonicalizers.RelaxedIsStandard` | src/dkim.rs:219-236 | the loop computes unfold, collapse, trim of section 3.4.2 if and only if the value is legally folded |
| `HeaderCanonicalizers.RelaxedHasNoEol` | src/dkim.rs:219-237 | no CR or LF of a value reaches the canonical form |
| `HeaderCanonicalizers.StandardKeepsEol` | src/dkim.rs:222-226 | the standard's form keeps a line end exactly when the value is not legally folded |
| `HeaderCanonicalizers.RelaxedIdempotent` | src/dkim.rs:212-239 | canonicalizing a canonical value changes nothing |
| `Foldings.FoldSignature` | src/dkim.rs:427-448 | the loop writes the tokens with the breaks the column rule asks for |
| `Foldings.UnfoldingRestores` | src/dkim.rs:427-448 | reading each CRLF-tab as a space gives the value back if and only if it has no leading space and no such break of its own |
| `Foldings.FoldKeepsCanonicalForm` | src/dkim.rs:427-448 | folding leaves the relaxed form of every value as it was |
| `Foldings.FoldedLinesFit` | src/dkim.rs:437-445 | every output line is at most 72 columns or one token alone |
| `Foldings.FoldsOnlyWhenNeeded` | src/dkim.rs:437-445 | every further line starts with a tab and a token that had no room within 72 columns on the line before |
| `Base64.RoundTrip` | src/dkim.rs:183 | decoding an encoded block gives its bytes back |
| `Base64.EncodeLength` | src/dkim.rs:206-209 | n bytes take 4*ceil(n/3) digits |
| `Base64.EncodeAlphabet` | src/dkim.rs:206-209 | only letters, digits, plus, slash and equals signs are written |
| `Alphabets.Digits64Are` | src/dkim.rs:183 | the 64 digits by value |
| `Alphabets.LowerOfCapital` | src/dkim.rs:214 | each capital letter has its small letter as lower case |
| `Alphabets.LowerOfOthers` | src/dkim.rs:214 | and nothing else has a lower case of its own |
| `Alphabets.AtomsAre` | src/dkim.rs:373-375 | the bytes of an atom, spelled out |
| `Alphabets.AsciiSpacesAre` | src/dkim.rs:419 | the ASCII whitespace a display phrase may hold, by code |
| `Alphabets.HostBytesAre` | src/dkim.rs:364-366 | the bytes of a host, spelled out |
| `Configs.ValidatesExactly` | src/config.rs:126-143 | a name is accepted if and only if, without dots at its end, it is at most 253 bytes of labels of 1 to 63 letters, digits and hyphens without a hyphen at either end, joined by dots; it is then given in lower case |
| `Configs.ValidatedName` | src/config.rs:126-143 | a validated name holds lower-case letters, digits, hyphens and dots only, and validating it again changes nothing |
| `TagLists.TagListRoundTrip` | src/dkim.rs:184-209 | a tag-list parser of section 3.2 reads exactly the signer's tags out of the folded text, after any leading whitespace |
| `TagLists.DeletionUndoesSigning` | src/dkim.rs:241-247 | with the b= value deleted from the raw field, its canonical form is that of the field before signing |
| `Mailboxes.Unfold` | src/dkim.rs:250-268 | legal folds are removed and a bare line end or control byte rejects the field |
| `Mailboxes.StripComments` | src/dkim.rs:269-315 | the comment scan computes its specification and hands on closed quoting flags |
| `Mailboxes.FindAngles` | src/dkim.rs:317-334 | with flags taken over from the scan before, the bracket scan finds what a scan from closed quotes finds, and leaves the flags of the whole text |
| `Mailboxes.FindSeparator` | src/dkim.rs:347-359 | likewise for the separator scan, which rejects a second unquoted at-sign |
| `Mailboxes.DisplayName` | src/dkim.rs:401-425 | accepts exactly the display phrases of its specification |
| `Mailboxes.LocalPart` | src/dkim.rs:377-400 | accepts exactly the local parts of its specification |
| `Mailboxes.FromText` | src/dkim.rs:316-371 | the trimmed text is divided as brackets, or an address alone, and anything else is rejected |
| `Mailboxes.FromDomain` | src/dkim.rs:249-371 | all passes together, sharing their flags, compute the specification in which each pass starts with closed quotes |
| `Mailboxes.StrippedIsBalanced` | src/dkim.rs:313-315 | the text left by the comment scan has every quote closed |
| `Mailboxes.TrimmedIsBalanced` | src/dkim.rs:316 | trimming cuts only outside quotes |
| `MailboxProperties.AllScansAgree` | src/dkim.rs:272-359 | at every byte, what the comment scan takes as quoted the bracket scan does at its place in the trimmed text, and the separator scan at its place in the trimmed address |
| `MailboxProperties.SpanIsAddress` | src/dkim.rs:335-346 | the separator scan runs on the trimmed inside of the brackets or on the whole text, and starts outside quotes |
| `MailboxProperties.DomainIsSole` | src/dkim.rs:249-371 | a returned domain means one unquoted at-sign in the whole comment-free field, no unquoted comma, colon or semicolon, and between the sign and the end of the address only whitespace characters, the host and dots |
| `MailboxProperties.DomainIsTrimmedText` | src/dkim.rs:360-371 | the domain is the lower-case text after that sign, trimmed of whitespace and then of dots at its end |
| `Mailboxes.TrimmedEnds` | src/dkim.rs:316-361 | trimming removes whole Unicode whitespace characters and nothing else |
| `MailboxProperties.CommentIsSpace` | src/dkim.rs:286-293 | a well-formed comment, nested or with quoted pairs, outside quotes and comments reads as one space |
| `MailboxProperties.FoldIsInvisible` | src/dkim.rs:253-263 | a break before whitespace changes nothing, unless it follows another break: then the field is rejected |
| `MailboxForms.BreakAfterBreak` | src/dkim.rs:253-263 | fields that have a domain and lose it by a second break |
| `UnicodeText.Utf8Exactly` | src/dkim.rs:316 | the text accepted is exactly the UTF-8 of sequences of Unicode scalar values |
| `UnicodeText.SpaceStarts` | src/dkim.rs:316 | trimming from the left takes exactly the characters with the property White_Space |
| `UnicodeText.SpaceEnds` | src/dkim.rs:316 | and so does trimming from the right |
| `MailboxGrammar.UnfoldsExactly` | src/dkim.rs:250-268 | exactly the legally folded values without control characters but tabs are unfolded, and exactly the line ends before whitespace deleted |
| `MailboxGrammar.StripsExactly` | src/dkim.rs:269-315 | exactly the fields made of bytes, quoted strings and nested comments are accepted, with a space for each comment |
| `MailboxExact.DisplayExactly` | src/dkim.rs:402-425 | display phrases are exactly words and quoted strings, quoted pairs and non-ASCII text included |
| `MailboxExact.LocalExactly` | src/dkim.rs:377-400 | local parts are exactly dot-atoms and quoted strings, quoted pairs included |
| `FromFields.AddressExactly` | src/dkim.rs:347-371 | addresses are exactly a local part and a host with whitespace around each and dots after the host |
| `FromFields.MailboxExactly` | src/dkim.rs:317-371 | mailboxes are exactly an address alone, or in brackets after a display phrase and before whitespace |
| `FromFields.FromExactly` | src/dkim.rs:249-371 | the parser gives a domain for exactly the fields of the grammar, and it is the host in lower case |
| `MailboxForms.MailboxGivesDomain` | src/dkim.rs:249-371 | every mailbox on one line of UTF-8 gives its host, whatever whitespace is around its parts |
| `MailboxForms.AddressGivesDomain` | src/dkim.rs:343-371 | a dot-atom at a host gives the host |
| `Signers.Sign` | src/dkim.rs:150-210 | the checks in order, the selected headers, the signed bytes and the emitted value, or the first error |
| `Signers.SelectHeaders` | src/dkim.rs:167-177 | for each name the last instance, with From listed once more than it is selected |
| `Signers.FindLast` | src/dkim.rs:170 | the instance nearest the end of the header block |
| `Signers.CanonicalizeSelected` | src/dkim.rs:195-199 | the selected headers are hashed in order |
| `Signers.CanonicalizeSignatureHeader` | src/dkim.rs:241-247 | the signature field is hashed last and without its CRLF |
| `Verifiers.UnsignedIsRendered` | src/dkim.rs:184-209 | the formatted value is the rendering of its nine tags |
| `EndToEnd.PickSelected` | src/dkim.rs:167-177 | a verifier that takes the h= names bottom-up, each instance once, takes exactly the headers the signer selected |
| `EndToEnd.DeletedFieldCanonical` | src/dkim.rs:200-209 | the standard's canonical form of the emitted field without its b= value is the signer's |
| `EndToEnd.LegalHeadersAgree` | src/dkim.rs:195-199 | the standard's and the signer's header bytes agree on legally folded values and differ in their line ends on others |
| `SignatureTheorems.RebuiltIsHashed` | src/dkim.rs:150-247 | wherever the new field is put, a verifier rebuilds the bytes the signer hashed if and only if the selected values are legally folded |
| `SignatureTheorems.ClaimIsRead` | src/dkim.rs:184-209 | a verifier reads the domain, selector, names, body hash and signature the signer put in |
| `SignatureTheorems.SignedMessageVerifies` | src/dkim.rs:150-210 | a signed message is accepted by the verifier, with the field at any place and any legal whitespace after its colon |
| `SignatureTheorems.SecondFromBreaks` | src/dkim.rs:174-176 | any further From field, anywhere, makes the verifier rebuild other bytes |
| `CoveredHeaders.ClaimCovers` | src/dkim.rs:8-22 | the names a verifier is told are, of the thirteen, exactly those the message has in any letter case, and From in any event |
| `CoveredHeaders.CoveredHeaderCannotChange` | src/dkim.rs:167-199 | the last instance of each of the thirteen headers cannot be changed, added or removed without changing the signed bytes |
| `LineEnds.TransmittedIsStandard` | src/dkim.rs:219-236 | the program's form of a value is the standard's form of it as sent with CRLF, if and only if every line end is followed by whitespace |
| `LineEnds.RebuiltFromTransmitted` | src/dkim.rs:150-247 | a verifier that receives the headers with CRLF line ends rebuilds the signed bytes under exactly that condition |
| `LineEnds.TransmittedMessageVerifies` | src/dkim.rs:150-210 | and then accepts the message, whose body lines may have been sent with CRLF too |
| `LineEnds.BrokenSubject` | src/dkim.rs:222-226 | a value on which the program and the standard part |
| `LineEnds.BrokenSubjectArrives` | src/milter.rs:472-499 | a header packet brings it into a message |
| `LineEnds.BrokenMessageIsSigned` | src/dkim.rs:150-210 | a message with it is signed |
| `LineEnds.BrokenMessageBreaks` | src/dkim.rs:193-204 | and no verifier rebuilds what was signed, whether it receives the line feed or a CRLF |
| `SignatureInput.InputDetermines` | src/dkim.rs:193-204 | equal hash inputs come from headers of equal canonical names and values in the same order, and from the same signature field |
| `SignatureDecoding.SignedBytesDetermineAll` | src/dkim.rs:184-204 | equal hash inputs have the same domain, selector, time, header names, body hash and canonical headers |
| `SignatureDecoding.UnsignedIsCanonical` | src/dkim.rs:184-202 | the field before signing is its own canonical form |
| `SignatureInput.EmittedLinesFit` | src/dkim.rs:206-209 | with keys of at most 4096 bits every line of the emitted field is within the 998 of section 2.1.1 of RFC 5322 |
| `SigningConditions.SignsExactlyWhen` | src/dkim.rs:155-165 | a field is signed if and only if there is one From, its domain is the configured one, and the key can sign |
| `SigningConditions.SignsExactlyMailboxes` | src/dkim.rs:155-165 | a field is signed if and only if there is one From, it reads by the grammar as a mailbox at the configured domain, and the key can sign |
| `SigningConditions.FailsExactlyWhen` | src/dkim.rs:155-165 | each reason for not signing is given exactly where it is the reason |
| `SigningConditions.SignsOnlyOwnDomain` | src/dkim.rs:159-165 | the From of a signed message has one unquoted at-sign and the configured domain after it |
| `SigningConditions.OrdinaryFromIsSigned` | src/dkim.rs:155-165 | every From field that is a mailbox of the configured domain on one line, in any letter case, is signed |
| `SigningConditions.MessageSignedExactlyWhen` | src/milter.rs:501-537 | looking back at the packets, a message is signed if and only if it was begun, its headers are well formed and within the limits, an action was granted and the signer signs |
| `SentSignatures.ActionIsRead` | src/milter.rs:518-534 | read as a mail server reads it, the reply inserts DKIM-Signature with the field, by an `i` at index 0 if and only if changing headers was granted, else by an `h` |
| `SentSignatures.SignatureSentExactlyWhen` | src/milter.rs:501-542 | a header is inserted and the message accepted if and only if the message may be signed and the signer signs, and the header is then DKIM-Signature with that field at the place the granted actions call for |
| `SentSignatures.SentForOwnDomain` | src/milter.rs:390-542 | a signature that is sent names the sole From domain, which is that of the configuration at the message's beginning |
| `SentSignatures.SentSignatureVerifies` | src/milter.rs:512-534 | the header a mail server reads off the reply verifies with the headers and body received since the message began, with line ends as they are or sent as CRLF, with the key active then |
| `SigningConditions.RunSignsOnlyOwnDomain` | src/milter.rs:390-470 | in every run with reloads, a signature names the sole From domain, which is that of the configuration at the message's beginning |
| `Framing.ReadExact` | src/milter.rs:545-559 | however reads are divided, the buffer gets the next bytes of the stream, or the end is reported |
| `Framing.ReadPacketInto` | src/milter.rs:544-561 | whatever the buffer held before, the packet is the next frame, and each way of failing is told apart |
| `Framing.WritePacket` | src/milter.rs:609-622 | one frame is written in full however little each write takes, or nothing when the length does not fit 32 bits |
| `Framing.FramesRoundTrip` | src/milter.rs:544-622 | packets written one after another are read back exactly, and what follows them is read as if alone |
| `Framing.RejectedLengths` | src/milter.rs:551-557 | after any packets, a length ends the reading as invalid if and only if it is 0 or above 1 MiB, with those packets read |
| `Reloads.Active.TryReload` | src/main.rs:77-93 | one round of the monitor: a rejected reload changes nothing, an accepted one replaces the configuration |
| `Reloads.ReloadsKeepListen` | src/main.rs:80-90 | over any reloads the listener stays, and the active configuration is the first one or one that was loaded and passed its checks |
| `Reloads.LastAcceptedIsActive` | src/main.rs:77-93 | rejected reloads leave no trace, and the last acceptable one is active |
| `Connections.MessageState.Begin` | src/milter.rs:51-56 | a fresh message with the given configuration |
| `Connections.MessageState.Fail` | src/milter.rs:58-62 | the first reason is kept |
| `Connections.MessageState.ReceiveHeader` | src/milter.rs:472-499 | a header is parsed, counted with saturation, bounded and stored, or the reason is kept; nothing is done after a failure |
| `Connections.MessageState.ReceiveBody` | src/milter.rs:444-451 | body bytes go to the canonicalizer, a failed message ignores them, and without a message they are a failure |
| `Connections.ContinueIfNeeded` | src/milter.rs:591-600 | a continue reply exactly when the negotiated flags call for one |
| `Connections.Negotiate` | src/milter.rs:406-424 | version, actions and protocol flags are reduced to what is supported and sent back |
| `Connections.FinishMessage` | src/milter.rs:501-542 | a header action and an accept, or a logged reason and an accept |
| `Connections.HandlePacket` | src/milter.rs:402-469 | one packet changes state, flags and output as the step relation says |
| `Connections.HandleConnection` | src/milter.rs:381-470 | the bytes sent, the reasons logged and the way the connection ends are those of the step relation over all packets of the stream |
| `Milter.AfterFrozen` | src/milter.rs:396-469 | nothing after the end of a connection has any effect |
| `MilterHistory.StreamingHolds` | src/milter.rs:425-458 | the state of an open connection is what looking back at the packets gives: the configuration at the message's beginning, its headers, its body, its first error |
| `MilterHistory.StreamingIsStoreAndForward` | src/milter.rs:390-542 | over every run interleaved with reloads the connection sends, logs and ends exactly as the machine that stores all packets and signs at the end |
| `MilterProperties.RunKeepsBounds` | src/milter.rs:490-498 | in every reachable state at most 1,000 headers of at most 1 MiB together are stored, counted exactly while nothing is wrong |
| `MilterProperties.FailureSticksOverRuns` | src/milter.rs:58-62 | a failed message is unchanged by any packets until M, E or A |
| `MilterProperties.FailedMessageEnds` | src/milter.rs:501-542 | in every run, once a message has failed its end is one accept with the first reason logged, whatever came between, and resets it |
| `MilterProperties.HeadersInOrder` | src/milter.rs:472-499 | headers are accepted if and only if each is well formed and together they are within both limits |
| `HeaderPackets.ReadsExactly` | src/milter.rs:476-489 | a payload is read as a header if and only if it is its name and value, free of zero bytes, each followed by one |
| `HeaderPackets.MadeExactly` | src/dkim.rs:31-43 | a header is made if and only if its name is 1 to 998 letters, digits and hyphens and its value has no zero byte |
| `HeaderPackets.GoodExactly` | src/milter.rs:472-499 | a packet is in order if and only if its name is 1 to 998 letters, digits and hyphens and its value has no zero byte |
| `HeaderPackets.RefusedBecause` | src/milter.rs:476-489 | a payload without a zero byte, and one whose value is not followed by the only other, are told apart |
| `HeaderPackets.HeaderTaken` | src/milter.rs:490-498 | within 1,000 headers and 1 MiB it adds exactly that header |
| `HeaderPackets.HeaderRefused` | src/milter.rs:472-499 | any other packet spoils the message and adds none |
| `MilterProperties.ActiveIsLoaded` | src/main.rs:75-98 | at every packet the active configuration is a validated one with the first listener |
| `MilterProperties.AddedSignatureVerifies` | src/milter.rs:512-534 | a signature added in any run verifies for the headers and body sent since the message began, with the key active then |
| `FlagWords.AndIsBitwise` | src/milter.rs:412-418 | the flag arithmetic is the bitwise and |
| `FlagWords.OfferAnswered` | src/milter.rs:406-424 | the answer's three words are the lower of the offered version and 6, exactly the offered ones of the two actions, and exactly the offered ones of the nine no-reply steps from version 6 on; all three are kept |
| `FlagWords.MayInsert` | src/milter.rs:509-511 | signing needs the action of adding or of changing headers |
| `Lockstep.SkipsAgree` | src/milter.rs:576-600 | each command goes without a reply exactly by its own flag of the nine |
| `Lockstep.OutcomeShort` | src/milter.rs:518-534 | with loaded configurations and keys of at most 4096 bits every emitted value is at most 6,219 bytes, so it always fits a packet |
| `Lockstep.ClientStaysInStep` | src/milter.rs:396-469 | a client that waits exactly when the flags call for a reply reads all that was sent, nothing missing and nothing left over, with one accept and at most one header action before it for each end of message |
| `Lockstep.ClientReadsEverything` | src/milter.rs:396-469 | so it is in every run: the command that ends a connection is not answered, and all that was sent before has been read |
| `ConnectionEnds.EndsExactlyWhen` | src/milter.rs:402-469 | a connection is closed by Q and K only, and aborted exactly by an empty packet, another letter than the protocol's, an offer that is not of 12 bytes, or a field too long for a packet |
| `ConnectionEnds.OrdinarySessionStaysOpen` | src/milter.rs:396-469 | a session of the protocol's commands stays open to its end |
| `WorkerPool.ConnectionsConserved` | src/milter.rs:190-247 | in every interleaving each accepted connection is in exactly one place, the queue is within twice the worker count, and connections are taken in the order accepted |
| `WorkerPool.DroppedWhenFull` | src/milter.rs:231-234 | in every interleaving a connection is dropped only at a moment when the queue was full |
| `WorkerPool.TakenAreServed` | src/milter.rs:204-215 | in every interleaving nothing is discarded without shutdown, and every connection taken is about to be handled, being handled or finished |
| `WorkerPool.WorkersGoOn` | src/milter.rs:204-215 | without shutdown a taken connection is handled next by its worker, then finished, and a free worker takes the one that waited longest |
| `WorkerPool.QuietMeansServed` | src/milter.rs:204-239 | when no worker can go on and there was no shutdown, every accepted connection is finished or was dropped |
| `WorkerPool.AcceptorGoesOn` | src/milter.rs:218-270 | without shutdown, with connections waiting, one is accepted within five steps and queued unless the queue is full |
| `WorkerPool.AcceptorStopsOnError` | src/milter.rs:218-270 | without shutdown only an error stops the acceptor |
| `WorkerPool.ShutdownWindsDown` | src/milter.rs:204-239 | after shutdown no connection starts being handled, each worker takes at most one more, and only an accept already under way takes place |
| `WorkerPool.ShutdownIsPrompt` | src/milter.rs:249-270 | after shutdown at most 4 acceptor steps and 3 of each worker are left, however many connections wait |
| `WorkerPool.ShutdownDoesNotHang` | src/milter.rs:240-246 | when no step can be taken after shutdown, the acceptor and all workers have stopped |
| `KeyInstall.InstallIsAllOrNothing` | src/keygen.rs:74-116 | however many generators run and wherever they stop, the target is absent, untouched if it was there, or one generator's complete key, and only that one can report success |
| `KeyInstall.InstalledKeyNeverChanges` | src/keygen.rs:98-104 | what is once found at the target is found there ever after |
| `KeyInstall.LeftAloneStaysFree` | src/keygen.rs:91-143 | in every run of one generator's own working calls its way stays as free as it was, and the calls left are bounded by the tries and the size of the key |
| `KeyInstall.LeftAloneInstalls` | src/keygen.rs:91-143 | such a run ends in success with the complete key installed if and only if the target was absent and one of the names of 100 tries not taken |
| `KeyInstall.LeftAloneCanInstall` | src/keygen.rs:91-111 | there is such a run from every state in which a generator's names are free |
| `KeyInstall.ErrorMeansNothingInstalled` | src/keygen.rs:105-114 | in every run, a generator that reports an error has installed its key if and only if its removal of the temporary name failed |
| `KeyInstall.ErrorAfterInstalling` | src/keygen.rs:105-114 | a run that ends with an error reported and the key in place |
| `KeyInstall.RemovesOnlyOwn` | src/keygen.rs:105-114 | a removed name is the remover's own temporary name and still leads to the file it created |
| `KeyInstall.OtherFilesSurvive` | src/keygen.rs:118-143 | every file that was in the directory before keeps its name and contents |
| `KeyInstall.ExistingTargetRefused` | src/keygen.rs:75-77 | when the target exists nothing in the directory is touched and nobody reports success |
| `KeyInstall.SuccessMeansAllWorked` | src/keygen.rs:92-115 | success is reported only when none of the generator's calls failed |
| `KeyInstall.NothingLeftBehind` | src/keygen.rs:105-114 | unless a removal fails twice, nothing new but the target is left when all generators are done |
| `KeyInstall.TempNamesDiffer` | src/keygen.rs:119-121 | two processes, or two calls of one, never try the same temporary name |

## Left out

- The OpenSSL calls: SHA-256 and RSA are parameters; key generation, PEM and DER are not modelled, and base64 is modelled from RFC 4648 rather than from the library.
- Sockets, poll, timeouts, the connection deadline and failing reads or writes: a stream ends, it does not fail, and a write always succeeds in the end.
- Listener.bind and the removal of a stale socket: operating-system set-up.
- Reading and parsing the configuration and key files, FIPS probing, argument parsing and usage text: a reload attempt is given by its result.
- validate_key: the 4096-bit limit appears as the bound of 512 bytes on signatures where a line or packet length needs it.
- dns_record: one formatting expression.
- The wording of log messages and errors: a reason is one of a set of cases.
- Memory ordering of the relaxed atomics and poisoned locks.
- WorkerPool.ConnectionsConserved: the workers' shared receiver is a queue read by one worker at a time; which waiting worker gets a connection is left open, and a panicking worker is not modelled.
- Signers.Sign: the clock before 1970, which is an error in the program, cannot occur because time is a natural number.
- Connections.HandleConnection: a reload takes effect between two packets; since a packet's handling reads the configuration at most once, this loses no order of events a connection could see.
- KeyInstall.InstallIsAllOrNothing: a crash is a stop at any step; loss of unsynced data, mode bits and the check of the parent directory are not modelled beyond a step that may fail, and other programs do not touch the directory.
- Lockstep.ClientStaysInStep: assumes 32-byte digests and signatures of at most 512 bytes, which the key check enforces.
