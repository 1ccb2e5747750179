# A verified model of the mail server manager

The project models the parts of the mail server manager that do more than move rows
to pages, one module each, and proves what they promise.

- **The outbound content filter.** `DkimStrip`, `Rewrite` and `Splice` change a message
  (signature headers out, extra headers, footer and pixel in). `MessageParts` reads the
  header and body off the message's own lines, each with its own ending; `Signatures`,
  `SignatureLines`, `MixedEndings` and `Insertions` hold each change against that reading,
  `MixedRewriting`, `WholeRewriting` and `BlankFooters` all of them together. `DataPhase` is
  the dot-stuffed message text with a receiver that follows section 4.5.2 of RFC 5321;
  `SmtpSession` is the delivery session, with a fault possible at every read and write,
  and the exit of the filter; `HandedOver` says what the servers get.
  `FieldNames` and `EncodedParts` read field names and part encodings off the text itself.
- **Limiters over time.** `McpGuard` (sliding log per key), `LoginLockout` (window from the
  first failure, then a ban), `RateRules` and `RateMatching` (fixed windows per rule and sender), `RateRuns`
  (the same with many filter processes whose upserts interleave), `Fail2ban` and
  `BanRules` (sliding count over a log table, bans, white- and blacklist, purges) and `StoredTimes` (its tables with
  the text the database compares). The numeric bounds are proved about full histories.
- **The daily send allowance.** `SendAllowance` interleaves any number of REST and SOAP
  handlers that read the day, charge, send and refund.
- **Mail routing.** `MailAddress` and `Routing` compile aliases, forwardings and accounts
  into the alias map and the BCC map, and say what every address resolves to;
  `CopyForwardings` says which map each forwarding goes to, by its own fields, and `AliasFile`
  says it of the file written in lower case.
- **Provisioning.** `ShellQuote` builds command lines that a POSIX shell splits back;
  `Upload` publishes a file by a temporary one, with every remote command able to fail.
- **Calendars and contacts.** `CalendarFeed`, `FoldedFeed` and `FeedOrder` build the iCalendar
  feed and compare it with the reading of RFC 5545, by lines and with folded lines put together;
  `DavHrefs`, `DavPaths` and `XmlEscape` are printers and their readers.

`Text` holds the string operations (Rust `lines`, `find`, `split`, `trim`) and `TextFacts` what
they mean in terms of characters, `Addresses`, `UploadLimits` and `Wording` which characters,
numbers and texts the program has, `Folding` folded
lines, `Nesting` components that open and close in pairs, `Timestamps` the text form of a
point in time. Code that updates fields or loops is a class or a method
proved against a function of the old state; the properties are lemmas about that function.

Where the code does something other than one would expect, the model keeps the code and a
lemma says exactly when it meets the expectation:

- The filter looks for a blank line in one line ending: CRLF as soon as one CRLF occurs
  anywhere in the message, else LF. In a message with both, what it takes for the header may
  reach into the body, or may not be found at all. It sees the header lines and body that
  are there exactly when all lines up to the blank one have the ending it looks for
  (`MessageParts.ReadsRightIff`); new header lines reach the header exactly when the last
  header line and the blank line have it (`MixedEndings.InjectsRightIff`). Otherwise
  stripping can delete other fields and the beginning of the body
  (`Signatures.MixedLosesHeader`, `Signatures.MixedLetterIsLost`) or leave the signature in
  (`Signatures.MixedKeepsSignature`); the lines a message must have for it to be right are in
  `SignatureLines.StripsRightIff`.
- A footer from a form has CRLF, and most messages come with LF. Such a footer makes the
  filter look for CRLF, so that no planned header line reaches the header
  (`WholeRewriting.HeadersInByFooterIff`). If it has no blank line, no line is injected at all
  and no signature removed (`MixedRewriting.CrlfFooterTurnsOff`, `MixedRewriting.TwoLineFooter`).
  If it has one, the planned lines are written into the footer, in the body
  (`BlankFooters.HeadersGoToTheFooter`), and a message that begins with a signature is lost
  with its header and body (`BlankFooters.MessageIsLost`, `BlankFooters.TwoParagraphs`). For a
  message with one line ending and any plan, when header lines are in and signatures out is
  `WholeRewriting.RewritesRightIff`; with CRLF throughout they always are
  (`WholeRewriting.CrlfIsRewrittenRight`).
- Footer and pixel go before the last closing body tag wherever it stands, also in a header
  line (`Insertions.FooterInBodyIff`; for instance `Insertions.FooterInSubject`).
- New header lines are appended to the end of the last old header line
  (`Rewrite.InjectedHeader`, `Rewrite.NewLinesStandAloneIff`; for instance
  `Rewrite.SubjectRunsOn`).
- Stripping signatures twice is not always stripping once (`DkimStrip.IdempotentIff`; for
  instance `DkimStrip.SignedNoteIsDamaged`).
- The recipient gets the message byte for byte only if every line ended in CRLF
  (`DataPhase.VerbatimIffCrlfTerminated`; for instance `DataPhase.BareLineFeedIsChanged`).
- A message can be taken twice, never three times: the client knows nothing of a server that
  takes the content and closes before or after its reply, and sends the unmodified message
  once more (`SmtpSession.TakingTwiceHappens`, `SmtpSession.WrittenAtMostTwice`; when exactly
  is `SmtpSession.TakenTwiceIff`).
- A handler reads the day before it takes the lock, so one that waits over midnight resets
  the row to a day that is gone, and the next charge resets it again (`src/db.rs:2369-2370`).
  The daily limit then holds per reset, not per day: for every limit and every list of row
  days, a day is kept exactly when the row comes to it at most once
  (`SendAllowance.DailyLimitHoldsIff`), which is so when no charge takes the row back to an
  earlier day (`SendAllowance.FreshSendsWithinLimit`).
- With a look-back longer than the ban, an address fails more often per look-back than the
  threshold allows (`Fail2ban.WithinThresholdIff`); the settings form accepts such a setting.
- White space next to the `@` of a map address survives sanitizing
  (`MailAddress.SanitizedHasSpaceIff`).
- Aliases are compared as typed but written in lower case, so an account in a domain with a
  catch-all shadows an alias for its address in another spelling, and a catch-all in another
  spelling swallows the accounts of its domain (`AliasFile.ExplicitWinsIff`,
  `AliasFile.ReachedIff`; for instance `AliasFile.OtherSpellingOccurs`).
- The multiget reader trims the printed names and does not undo their escaping
  (`DavHrefs.MultigetReadsEscapedNames`, `DavHrefs.NamesSurviveIff`; for instance
  `DavHrefs.AmpersandIsNotReadBack`).
- The feed trims every line before it looks for wrapper and header lines, so it also takes
  continuation lines (section 3.1 of RFC 5545) for them, and it leaves out single lines of
  folded ones. A well-nested calendar can make the feed ill-formed
  (`CalendarFeed.FoldedTextEndsTheObject`, `FoldedFeed.FoldedHeaderBreaksTheFeed`); when the
  components come through is proved exactly (`CalendarFeed.FeedKeepsComponentsIff`,
  `FoldedFeed.FeedIsFaithfulIff`). With torn lines it depends on the order of the objects
  (`FeedOrder.NoConditionOnObjects`).

One login request and one log line are one atomic step each, although the code takes its
lock several times for them.

## Model

| member | source | states |
|---|---|---|
| DataPhase.WriteData | src/filter.rs:690-701 | The bytes written in the DATA phase are the dot-stuffed lines of the message and the final dot line, for every message |
| DataPhase.ReceiverRecoversLines | src/filter.rs:690-701 | A receiver following section 4.5.2 of RFC 5321 gets exactly the lines of the message and leaves whatever is sent next untouched |
| DataPhase.ReceiverStopsOnlyAtTheEnd | src/filter.rs:690-701 | It does not stop on any proper prefix of what was written, wherever the transmission is cut |
| DataPhase.ReceiveMonotone | src/filter.rs:690-701 | More input never changes what the receiver has already completed |
| DataPhase.ReceiveWire | src/filter.rs:690-701 | Every list of lines without line feed survives the wire, with any text behind it |
| DataPhase.VerbatimIffCrlfTerminated | src/filter.rs:692-698 | The delivered text equals the message if and only if every line of the message, the last one included, ends in CRLF |
| DataPhase.BareLineFeedIsChanged | src/filter.rs:692-698 | One message that is not delivered byte for byte |
| Text.LinesOfCrlfText | src/filter.rs:692-697 | Lines written with CRLF are read back as the same lines |
| TextFacts.LinesOfText | src/filter.rs:692-697 | Lines with any endings, CRLF or LF alone, are read as their texts, and an unended rest as one more line |
| SmtpSession.Connection.ReadResponse | src/filter.rs:721-739 | The reading loop consumes one reply: lines up to the first with a space in fourth place, or the fault met before it |
| SmtpSession.CompleteReplyIsRead | src/filter.rs:721-739 | A multi-line reply is returned whole and nothing behind it is consumed |
| SmtpSession.Connection.Turn | src/filter.rs:629-633 | Writing and reading one reply changes only the connection; the exchange is logged exactly when a reply came, and a text that was written and got none is kept |
| SmtpSession.Connection.NameSender | src/filter.rs:656-672 | MAIL FROM is repeated without parameters only when there were some and the reply starts with 5 |
| SmtpSession.Connection.NameRecipients | src/filter.rs:674-681 | Every recipient is named in order, each needing 250, before the session goes on to DATA |
| SmtpSession.Connection.SendMessage | src/filter.rs:683-712 | DATA, content and QUIT; a fault at QUIT is an error although the message was taken |
| SmtpSession.ReinjectSmtp | src/filter.rs:565-713 | The client program does exactly the specified session, with the same exchanges and the same text left without a reply, for every behaviour of server and socket; an unsafe envelope never connects |
| SmtpSession.PlayIsFaithful | src/filter.rs:624-712 | Every text sent, replied to or not, is the one its stage calls for, and the result is Ok exactly when the last stage was passed |
| SmtpSession.OkSessionIsComplete | src/filter.rs:624-712 | Ok implies 220, 250 to EHLO, MAIL 250 (named twice only after a 5xx to one with parameters), 250 for each recipient in order, 354, 250 to the content, and QUIT |
| SmtpSession.ContentOnlyAfter354 | src/filter.rs:683-701 | No content is written unless the exchange just before is DATA answered with 354 |
| SmtpSession.AcknowledgedIff | src/filter.rs:700-709 | The client has seen 250 to the content if and only if only QUIT was left to do, or nothing |
| SmtpSession.MayBeTakenIff | src/filter.rs:690-713 | The content was written whole and the client saw no refusal of it if and only if it was acknowledged or the session ended with no reply to it |
| SmtpSession.SessionFacts | src/filter.rs:565-713 | For every session: each text is the one its stage calls for, the one left without a reply included; Ok exactly when all stages passed, acknowledged exactly when Ok or lost at QUIT; nothing can be taken that was not written whole |
| SmtpSession.EnvelopeCommandsAreOneLine | src/filter.rs:539-563 | With safe addresses each MAIL and RCPT command has its first CRLF at its own end |
| SmtpSession.RunFilter | src/filter.rs:362-404 | The filter's delivery step computes the specified exit, and what both sessions leave behind |
| HandedOver.EachSessionWritesItsOwn | src/filter.rs:376-393 | In every run, whatever the first session writes after DATA is answered with 354 is the rewritten message, and whatever the second writes there is the message as it came |
| HandedOver.DeliveredIsHanded | src/filter.rs:376-404 | A run that says delivered named the sender, then every recipient in order, each accepted, and had the rewritten message acknowledged right after DATA, or by the second server the original if the first session failed |
| HandedOver.RefusedFirst | src/filter.rs:380-402 | A first server that times out stops the run; one that cannot be reached for another reason makes the filter hand over the original |
| HandedOver.ParamsNeeded | src/filter.rs:636-656 | MAIL asks for nothing if the message has seven-bit characters only, for 8BITMIME if it has others, and for SMTPUTF8 too if its header has |
| HandedOver.PermanentIff | src/filter.rs:658 | A reply refuses for good if and only if it is white space, a 5 and anything |
| HandedOver.SafeAddressIff | src/filter.rs:539-563 | A session is opened if and only if each address is two parts around its one at sign, without control characters and without leading, trailing or doubled dots in a part, the domain with a dot inside |
| HandedOver.FinalIff | src/filter.rs:733-737 | A line ends a reply if and only if it begins with three characters and a space |
| HandedOver.FirstWriteFails | src/filter.rs:622-632 | Nothing is written before the greeting: a socket that fails at the first write leaves a session that was greeted and did nothing else |
| HandedOver.SecondWriteFails | src/filter.rs:622-656 | One that fails at the second write leaves the greeting and the answer to EHLO |
| SmtpSession.WrittenAtOnePlace | src/filter.rs:690-704 | Two places of a session at which the whole content was written, replied to or not, are the same place |
| SmtpSession.WrittenOnce | src/filter.rs:690-704 | A session writes its whole content once or not at all |
| SmtpSession.EveryRunIsAccountedFor | src/filter.rs:362-404 | A run discards exactly the suppressed messages, says delivered only if a server acknowledged the message, writes nothing for a message it does not try, and uses the fallback only after an error that is no timeout |
| SmtpSession.WrittenAtMostTwice | src/filter.rs:362-404 | Whatever the servers do, a run writes a whole message at most twice, and twice if and only if the first session wrote its own and ended in an error that is no timeout and the fallback wrote its own |
| SmtpSession.TakenTwiceIff | src/filter.rs:362-404 | Both sessions may have had their message taken if and only if the first ended, without a timeout, at QUIT or without a reply to the content, and the second was not refused |
| SmtpSession.AcknowledgedTwiceIff | src/filter.rs:362-404 | Both were acknowledged if and only if the first was lost at QUIT without a timeout and the second was acknowledged |
| SmtpSession.LostAfterContent | src/filter.rs:700-709 | For every safe envelope there is a server that takes the content and closes, with its acknowledgement or without it: the client reports an error for a message that may be taken |
| SmtpSession.TakingTwiceHappens | src/filter.rs:376-401 | For every deliverable message with a safe envelope there are two servers that both take it, the first with its acknowledgement or without, and the run says delivered |
| DkimStrip.StripDkimSignatures | src/filter.rs:877-915 | With the line ending the code looks for (CRLF if one occurs anywhere, else LF): the kept pieces before the first two of them in a row, one of them, and the text behind unchanged; without two in a row the message is returned as it is |
| DkimStrip.StripLoop | src/filter.rs:889-911 | The loop with its skip flag writes exactly the lines the specification keeps |
| FieldNames.IsDkimIff | src/filter.rs:903-904 | A line begins a signature if and only if the text before its first colon is dkim-signature in any letter case |
| FieldNames.ContinuationIff | src/filter.rs:895-896 | A line goes on with the field before it if and only if it begins with a space or a tab |
| FieldNames.StrippedByName | src/filter.rs:877-915 | For every message with one line ending: the header fields of the stripped message are those not called so, with all their continuation lines and in order, and the blank line and body stay |
| FieldNames.OneFieldGoesIff | src/filter.rs:877-915 | A message of a field of any name, a recipient and a body loses that field if and only if the name is dkim-signature in some spelling, and nothing else |
| Folding.FieldsAreUnfolded | src/filter.rs:889-911 | Grouping header lines into fields (section 2.2.3 of RFC 5322) loses nothing: each field is one line and its continuation lines, and the fields together are the non-blank lines |
| DkimStrip.LoopDropsFields | src/filter.rs:889-911 | What the loop keeps is the fields not named DKIM-Signature, each with all its continuation lines, in order |
| DkimStrip.LoopKeeps | src/filter.rs:889-911 | The same from the start of the header; no kept line is blank |
| DkimStrip.EolStays | src/filter.rs:878-882 | The line ending found in the result is the one found in the message |
| DkimStrip.SomeKeptIsStable | src/filter.rs:877-915 | With a header line kept, stripping again changes nothing |
| DkimStrip.NoneKeptShrinks | src/filter.rs:877-915 | With none kept and a blank line further on, stripping again loses text |
| DkimStrip.SecondPassDamages | src/filter.rs:877-915 | With a lone signature line and a blank line in the body the second pass always changes the message |
| DkimStrip.SignedNoteIsDamaged | src/filter.rs:877-915 | One such message |
| DkimStrip.IdempotentIff | src/filter.rs:877-915 | Stripping twice equals stripping once if and only if the message has no separator, or a line is kept, or no separator follows in what is left |
| MessageParts.WrittenIsRead | src/filter.rs:877-915 | Reading a message into header lines with their endings, the ending of the blank line, and the body loses nothing |
| MessageParts.ReadWritten | src/filter.rs:877-915 | And writing such parts and reading them again gives them back |
| MessageParts.ReadsRightIff | src/filter.rs:878-888 | For every message with a blank line: the pieces and the body the filter sees are the message's own header lines and body if and only if there is a header line and every line up to the blank one, itself included, has the ending the filter looks for |
| MessageParts.NoBlankNoHeader | src/filter.rs:878-888 | In a message without a blank line it finds no header |
| Signatures.StrippedIsKept | src/filter.rs:877-915 | For every message the result is the message without the characters the pass takes out |
| Signatures.UnsignedIs | src/filter.rs:877-915 | The message without the signature fields of its own header is its header fields not named DKIM-Signature, each with all its continuation lines and line endings, and the same blank line and body |
| SignatureLines.StripsRightIff | src/filter.rs:877-915 | For every message, whatever its line endings: the pass gives that message if and only if, without a separator, no header line names a signature, and, with one, the message does not begin with the ending looked for and its lines agree: behind the other ending no signature field begins or ends; at the blank line the pass stops, or the line begins a piece, or the last field is no signature; and from there to the separator no line that begins a piece names a signature |
| Signatures.UniformStripsRight | src/filter.rs:877-915 | That is so when all lines up to the blank one have the ending it looks for |
| Signatures.MixedLosesHeader | src/filter.rs:878-911 | A family for which it is not: a signature, then fields and text with LF, then a blank line with CRLF; all before that is deleted |
| Signatures.MixedLetterIsLost | src/filter.rs:878-911 | One such message, which loses its recipient field and its first line |
| Signatures.NoSepIsKept | src/filter.rs:878-888 | A message with CRLF in it but no two in a row is returned with its signatures |
| Signatures.MixedKeepsSignature | src/filter.rs:878-888 | One such message |
| MixedEndings.CutsRightIff | src/filter.rs:408-422 | The filter finds the end of the message's own header if and only if the last header line and the blank line have the ending it looks for |
| MixedEndings.CutsLate | src/filter.rs:408-422 | Otherwise what it finds lies at the blank line or behind it, never before |
| MixedEndings.InjectsRightIff | src/filter.rs:406-424 | New header lines come into the message's own header behind the old ones, the first run on to the last of them, and the body is what it was, if and only if the last header line and the blank line have the ending the filter looks for |
| Insertions.BehindStays | src/filter.rs:451-487 | A text inserted behind the blank line leaves the header lines and their endings alone |
| MixedRewriting.BodyChangeIff | src/filter.rs:131-248 | After a change of the body of a message with one line ending the filter still sees its parts if and only if it still looks for the same ending |
| MixedRewriting.InjectionStaysUniform | src/filter.rs:406-424 | Header lines injected into a message with one line ending leave it so, so that the next ones are injected as well |
| MixedRewriting.OutgoingIsUnsignedIff | src/filter.rs:312-317 | A changed message goes out as rewritten without its own signature fields if and only if the lines of the rewritten message meet that condition |
| MixedRewriting.UniformGoesOutUnsigned | src/filter.rs:312-317 | That is so when all its lines up to the blank one have the ending looked for |
| MixedRewriting.CrlfFooterTurnsOff | src/filter.rs:131-248 | A message without CR that gets a plain-text footer with a CRLF but no two in a row goes out with that footer and no other change, for every plan: no header line is injected and no signature removed |
| MixedRewriting.TwoLineFooter | src/web/routes/footer.rs:45-56 | Every footer of two lines of plain text, as a form stores it, is such a footer |
| BlankFooters.HeadersGoToTheFooter | src/filter.rs:406-424 | If the footer has a blank line with CRLF instead, the header of the message is what it was, and the planned lines follow the first part of the footer, before that blank line, for every plan |
| BlankFooters.BlankFooterOutgoing | src/filter.rs:877-915 | What then goes out when the first part is one line and no pixel is put in: the message and that line go as a whole if the message begins with a signature, and stay as a whole otherwise |
| BlankFooters.MessageIsLost | src/filter.rs:877-915 | With no header lines planned, of a message that begins with a signature only what follows the blank line of the footer goes out |
| BlankFooters.TwoParagraphs | src/web/routes/footer.rs:45-56 | Every footer of two lines of plain text with a blank one between them is such a footer |
| Insertions.FooterInBodyIff | src/filter.rs:451-487 | A footer that is put in leaves the header lines alone if and only if the message has no closing body tag or has one in its body |
| Insertions.PixelInBodyIff | src/filter.rs:219-247 | The same of the pixel |
| Insertions.FooterInSubject | src/filter.rs:451-487 | One message that gets the footer into its subject |
| WholeRewriting.HeadersInIff | src/filter.rs:131-217 | For every message with one line ending whose header the footer left alone, and every plan: the planned lines are behind the own header lines and the body is what it was if and only if none are planned or the filter still looks for that ending |
| WholeRewriting.FooterEolIff | src/filter.rs:451-487 | In a message without CR the footer changes the ending looked for if and only if the text put in holds a CRLF |
| WholeRewriting.HeadersInByFooterIff | src/filter.rs:131-217 | So for such a message the planned lines are in if and only if none are planned or no footer with a CRLF is put in |
| WholeRewriting.LfStrippableIff | src/filter.rs:877-915 | With LF in the header and CRLF looked for, stripping is right if and only if there is no signature and, with a separator, no line behind a CRLF of the body up to it names one |
| WholeRewriting.SignaturesOutIff | src/filter.rs:131-317 | What goes out is the rewritten message without its own signature fields if and only if the filter still looks for the ending of the header, or that is the case |
| WholeRewriting.RewritesRightIff | src/filter.rs:131-317 | Both together, for every message with one line ending and every plan that puts footer and pixel into the body |
| WholeRewriting.CrlfIsRewrittenRight | src/filter.rs:131-317 | With CRLF up to the blank line both always hold |
| Rewrite.InjectHeaders | src/filter.rs:406-424 | The new lines go right before the first two line endings in a row of the kind the code looks for, without an ending between, and the text behind stays; without two in a row nothing changes. Which header that is says `MixedEndings.InjectsRightIff` |
| Rewrite.InjectionOnlyInsertsIff | src/filter.rs:406-424 | The original is a subsequence of the result if and only if there is a line to add or no separator |
| Rewrite.InjectedHeader | src/filter.rs:411-423 | The body after the first separator is unchanged and the header lines are the old ones with the first new line run on to the last of them |
| Rewrite.NewLinesStandAloneIff | src/filter.rs:411-418 | The new lines become header lines of their own if and only if the header section was empty |
| Rewrite.FirstNewLineRunsOn | src/filter.rs:411-418 | A message with one header line gets the new line on that same line |
| Rewrite.SubjectRunsOn | src/filter.rs:411-418 | One such message |
| Rewrite.SubTrans | src/filter.rs:219-331 | Insertions compose: a subsequence of a subsequence is a subsequence |
| Splice.BodyIsEncoded | src/filter.rs:431-449 | True if and only if the last Content-Transfer-Encoding line before the position names quoted-printable or base64 |
| EncodedParts.EncodedIff | src/filter.rs:431-449 | A part is encoded if and only if the last line before the position that begins with the header name, in any letter case, has quoted-printable or base64 as its trimmed value, in any letter case |
| EncodedParts.TaggedByEncoding | src/filter.rs:451-473 | With such a line footer and pixel leave the message as it is, and with any other value both are put in right before the last closing body tag |
| EncodedParts.TaggedUnencoded | src/filter.rs:451-473 | Without any such line they are put in there |
| EncodedParts.UntaggedByEncoding | src/filter.rs:474-487 | Without a closing body tag no pixel is put in, and the footer as plain text at the end unless the message is HTML, the footer has no text or the last part is encoded |
| EncodedParts.UntaggedUnencoded | src/filter.rs:474-487 | The same without any such line |
| EncodedParts.FooterOnItsOwn | src/filter.rs:458-461 | The markup around a footer, read off the message that is only a closing body tag |
| EncodedParts.BlankFooterIsNone | src/filter.rs:452-454 | A footer of white space leaves the message as it is |
| EncodedParts.TagsAreDropped | src/filter.rs:489-503 | In the plain footer text outside of tags stays, a tag goes with its brackets, and an unclosed one with all behind it |
| Splice.StripHtmlTags | src/filter.rs:489-503 | The plain footer is the text outside tags, trimmed; an unclosed tag hides the rest |
| Splice.InjectFooter | src/filter.rs:451-487 | The footer goes before the last closing body tag, or to the end as HTML or plain text, or nowhere when it is blank or the part is encoded |
| Splice.InjectPixel | src/filter.rs:219-247 | The pixel goes before the last closing body tag of an unencoded part and nowhere else, and the flag says whether it did |
| Splice.FooterOnlyInUnencodedParts | src/filter.rs:451-487 | Either nothing changes or one text is inserted at one position whose part is not encoded |
| Splice.PixelOnlyInUnencodedParts | src/filter.rs:219-247 | The same of the pixel |
| Splice.RewritingOnlyInserts | src/filter.rs:131-248 | Through footer, header and pixel stages the original message stays a subsequence |
| Splice.RewriteMessage | src/filter.rs:131-329 | The stages in order, and the stripping pass exactly when something was changed; what that pass takes out says `MixedRewriting.OutgoingIsUnsignedIff` |
| McpGuard.Guard.EvictOld | src/web/mod.rs:101-125 | Eviction leaves a key exactly its accepted calls of the last minute, drops the key exactly when nothing is left, and touches no other key |
| McpGuard.PopOld | src/web/mod.rs:104-117 | Popping from the front of a sorted deque leaves exactly the recent times |
| McpGuard.Guard.State | src/web/mod.rs:81-87 | A missing bucket is created empty, which changes no decision |
| McpGuard.Guard.CheckAndRecord | src/web/mod.rs:130-151 | Accepts if and only if the full history of the key allows it under both limits, and records exactly the accepted calls |
| McpGuard.Guard.RecordOutcome | src/web/mod.rs:155-171 | The anomaly is reported if and only if the trailing run of failures reaches the threshold |
| McpGuard.WindowBound | src/web/mod.rs:130-151 | In every admitted history no closed minute holds more than 60 accepted calls of a key, or 10 destructive ones |
| McpGuard.GuardIsBounded | src/web/mod.rs:81-171 | In every state of a guard: both bounds, and the stored counter is the trailing run of failures |
| Wording.SixtyAndTen | src/web/mod.rs:81-151 | The bounds in numbers: no closed minute holds more than sixty calls of a key, or ten destructive ones |
| McpGuard.OtherKeysIrrelevant | src/web/mod.rs:130-151 | Calls of other keys never change a decision |
| McpGuard.TrailingFailuresIsTheRun | src/web/mod.rs:155-171 | The counted run is the longest suffix of failures |
| LoginLockout.Gate.IsLockedOut | src/web/auth.rs:36-59 | The lockout answer and the one record it may remove |
| LoginLockout.Gate.RecordFailure | src/web/auth.rs:61-93 | The new record of the address; no other record changes |
| LoginLockout.Gate.ClearFailures | src/web/auth.rs:95-97 | The record of the address is gone and no other changes |
| LoginLockout.Gate.Attempt | src/web/auth.rs:170-315 | A request is turned away exactly while a ban runs; otherwise a wrong password adds one admitted failure and a right one forgets them all |
| LoginLockout.CheckedRepresents | src/web/auth.rs:36-59 | After the check the record still stands for the last generation of failures, and it locks out exactly when that generation is full and its ban has not run out |
| LoginLockout.FailedRepresents | src/web/auth.rs:61-93 | One more failure extends the last generation or starts a new one, as the record says |
| LoginLockout.AtMostEightInAnyWindow | src/web/auth.rs:23-93 | Any half-open 900-second interval holds at most 2*MAX_FAILURES-2 admitted failures of an address without success in between |
| LoginLockout.NineAttempts | src/web/auth.rs:23-93 | A gate that gets nine wrong passwords admits them all, and eight lie in one half-open window: the bound is attained |
| LoginLockout.NothingDuringBan | src/web/auth.rs:78-90 | No failure is admitted for BAN_DURATION after the fifth of a generation |
| LoginLockout.GateIsBounded | src/web/auth.rs:36-97 | Both statements for every address in every state of the gate |
| RateRules.SizeComparesNumbers | src/db.rs:668-702 | Comparing sizes through decimal text compares the numbers |
| RateMatching.ConditionIff | src/db.rs:668-702 | A condition is met if and only if its field, in any letter case, has the value where the operator asks for it: somewhere, nowhere, as the whole, not as the whole, at the beginning or at the end |
| RateMatching.AppliesIff | src/db.rs:705-722 | A rule matches if and only if it is in force and has conditions, one of which is met in mode OR and all of which are met otherwise |
| RateMatching.UnmatchedIsIdle | src/db.rs:2006-2019 | A rule that does not match a message neither counts nor refuses it, wherever it stands among the others |
| RateMatching.AndNeedsAll | src/db.rs:705-722 | One condition that is not met spares the message where all are asked for |
| RateMatching.OrNeedsOne | src/db.rs:705-722 | One condition that is met makes the message count where one is asked for |
| RateMatching.MatchedCounts | src/db.rs:2021-2049 | A rule that matches counts the message once for its sender and window, and refuses it if and only if that is more than the limit |
| RateMatching.NoWindow | src/db.rs:2024 | A matching rule with a window of no length ends the check before anything is counted |
| RateMatching.NumberIsRead | src/db.rs:692-701 | A decimal number is read with or without a plus sign, and as zero if it does not fit 64 bits |
| RateMatching.OtherTextIsZero | src/db.rs:692-701 | Text with any other character counts as zero |
| RateMatching.BelowLimitsIsAdmitted | src/db.rs:1996-2051 | A message for which every matching rule has room is admitted |
| RateRules.ParseDigitsOfDigits | src/db.rs:668-702 | Printing and parsing a number is the identity |
| RateRules.CheckOnlyAdds | src/db.rs:1996-2051 | A check never lowers any counter |
| RateRules.AdmittedIsCharged | src/db.rs:1996-2051 | An admitted message was counted by every applicable rule and was within its limit, whatever the other rules did |
| RateRules.CheckKeepsBounded | src/db.rs:1996-2051 | Counters never fall behind the admitted messages, and no window exceeds its limit, also after an early return |
| RateRules.Limiter.Run | src/db.rs:1996-2051 | The loop over the rules with its early return computes the specified verdict and counters |
| RateRules.Limiter.CheckRateLimit | src/db.rs:1996-2051 | Every call keeps the bound for all rules, senders and windows |
| RateRuns.StepKeepsInv | src/db.rs:1996-2051 | One action of one filter process, reading the clock for a rule or its upsert any time later, keeps counters ahead of charges and charges within the limit |
| RateRuns.RunKeepsInv | src/db.rs:1996-2051 | So does every interleaving of any number of filter processes |
| RateRuns.LimitInEveryInterleaving | src/db.rs:1996-2051 | In every interleaving, at most max_messages admitted messages are counted by a rule in a fixed window and at most twice that in any half-open interval of one window length |
| RateRuns.EveryAdmittedIsCounted | src/db.rs:1996-2051 | Every admitted message was counted by each rule that applies to it |
| RateRuns.AloneIsCheck | src/db.rs:1996-2051 | A process with no other in between decides and counts as the whole check does |
| RateRules.TwoWindows | src/db.rs:2021-2025 | An interval of one window length meets at most two fixed windows |
| RateRules.IntervalSplits | src/db.rs:2021-2025 | Its admitted messages are at most those of these two windows |
| RateRules.LimitPerWindowAndInterval | src/db.rs:1996-2051 | At most max_messages per fixed window and at most twice that in any half-open interval of one window length, over all histories and rule lists |
| SendAllowance.Account.CheckAndIncrement | src/db.rs:2358-2400 | The charge, and that the counter never passes a positive limit |
| SendAllowance.Account.RefundDailySend | src/db.rs:2404-2411 | The refund, never below zero |
| Wording.RefundGivesBack | src/db.rs:2358-2411 | A charge on the day of the row takes one, and a refund restores the row |
| Wording.NewDayStartsOver | src/db.rs:2369-2390 | On another day the row starts over at one; at the limit nothing is charged |
| Wording.UnlimitedIsFree | src/db.rs:2362-2366 | Without a limit nothing is charged and every message may be sent |
| SendAllowance.StepKeepsInv | src/web/routes/api_email.rs:304-428 | Every step of every handler keeps the balance between charges, refunds and what the row has left, for all days at once |
| SendAllowance.RunKeepsInv | src/web/routes/api_soap.rs:579-706 | So does every interleaving of any length |
| SendAllowance.LiveIsPaid | src/web/routes/api_email.rs:304-428 | Messages sent or in flight are covered by charges not given back on that day, plus refunds from other days |
| SendAllowance.SentWithinAllowance | src/db.rs:2358-2411 | In every interleaving the counter stays within 0 and the limit, and messages sent or in flight on a day never exceed the limit times the number of resets to that day plus the refunds that crossed into it |
| SendAllowance.NeverStaleAscends | src/db.rs:2369-2376 | If no charge takes the row back to an earlier day, the row passes through each day at most once |
| SendAllowance.FreshSendsWithinLimit | src/db.rs:2358-2411 | Then the messages of a day never exceed the limit plus the crossed refunds |
| SendAllowance.RunIsRealizable | src/db.rs:2372-2376 | In every run neighbouring row days differ |
| SendAllowance.EveryAllowanceIsUsed | src/db.rs:2358-2400 | Every such list of row days has a run that puts the whole limit in flight for each of them, with no refund |
| SendAllowance.DailyLimitHoldsIff | src/db.rs:2358-2411 | For every limit, list of row days and day: every run through them keeps the day within the limit and its crossed refunds if and only if the day occurs at most once |
| SendAllowance.StaleDayOverruns | src/db.rs:2369-2376 | For every limit one stale day is enough: a run through a day, the day before and the day again exceeds it |
| Timestamps.FormatOrder | src/db.rs:21-23 | Text order of fixed-width timestamps is order in time |
| Timestamps.PadOrder | src/db.rs:21-23 | Zero-padded numbers of one width order and agree as the numbers do |
| Timestamps.TextLessByParts | src/db.rs:21-23 | Text of equal-length first parts is ordered by them, then by the rest |
| StoredTimes.FormattedTextOrders | src/db.rs:21-23 | Whatever fields instants get, as long as later ones get later fields, their text orders as they do |
| StoredTimes.CountsAgree | src/db.rs:2895-2912 | Counting rows by text comparison is counting them by time |
| StoredTimes.PurgesAgree | src/db.rs:2414-2432 | Deleting rows by text comparison is deleting them by time |
| StoredTimes.BannedAgrees | src/db.rs:2849-2859 | So is asking for a ban in force |
| StoredTimes.StepsAgree | src/fail2ban.rs:167-242 | Storing the tables as text and then processing a failure is processing it and then storing |
| StoredTimes.StoredTextAgrees | src/fail2ban.rs:167-242 | Both, for steps and purges, with the format the database uses |
| StoredTimes.HundredDaysTellTime | src/db.rs:21-23 | Such fields exist: the hundred days of a count from midnight |
| Fail2ban.Database.HandleAuthFailure | src/fail2ban.rs:167-242 | The step for one log line changes the tables as specified, and only bans and log |
| Fail2ban.Database.InsertBan | src/db.rs:2602-2649 | Sets or overwrites the ban of the address and service and logs it |
| Fail2ban.Database.DeleteBan | src/db.rs:2651-2675 | Removes one ban and logs it; an absent one changes nothing |
| Fail2ban.Database.InsertWhitelist | src/db.rs:2700-2733 | Whitelisting lifts every ban of the address and logs it |
| Fail2ban.Database.InsertBlacklist | src/db.rs:2766-2801 | Blacklisting sets a permanent ban that keeps an earlier start |
| Fail2ban.Database.PurgeExpiredRows | src/db.rs:2414-2432 | Keeps exactly the log rows of the last 30 days |
| Fail2ban.AutomaticStepIsRestrained | src/fail2ban.rs:167-242 | An automatic step leaves whitelisted and banned addresses alone, overwrites no ban in force, and bans nobody on the whitelist |
| BanRules.NothingIsRecorded | src/fail2ban.rs:167-210 | Nothing happens for an address that is whitelisted or has a permanent or running ban under any service, and for a service without setting or switched off |
| BanRules.AttemptIsRecorded | src/fail2ban.rs:197-242 | Otherwise the attempt is recorded, and if it makes the threshold with the rows in the look-back the address is banned for the minutes of the setting, with that count as reason, and the ban recorded |
| BanRules.BanLasts | src/db.rs:2602-2649 | A ban for some minutes holds until they are over, one without end for ever |
| BanRules.BlacklistedForEver | src/db.rs:2766-2801 | A blacklisted address is banned at every later time, and no other is by that |
| BanRules.WhitelistingLifts | src/db.rs:2700-2733 | Whitelisting lifts every ban of the address and changes no other |
| BanRules.UnbanLifts | src/db.rs:2651-2675 | After the ban of a service is lifted the address is banned if and only if another ban of it is in force |
| BanRules.PurgeDropsOld | src/db.rs:2414-2432 | A purge keeps the rows of the last thirty days and leaves bans and settings |
| Fail2ban.ProcessedIsBannedOrBelow | src/fail2ban.rs:197-240 | With a setting the form accepts (src/web/routes/fail2ban.rs:238), the address is banned or below the threshold after every processed failure |
| Fail2ban.BannedOrBelowThreshold | src/fail2ban.rs:167-242 | Over all settings, also ones the form refuses: that holds if and only if the ban has positive length or the threshold is not reached |
| Fail2ban.PurgeKeepsRecent | src/db.rs:2414-2432 | Removing rows before a time changes no count from that time on |
| Fail2ban.PurgeNeverMattersIff | src/db.rs:2895-2912 | A purge is invisible to a count over every log if and only if it removes nothing the count looks at |
| Fail2ban.ThirtyDaysIsTheLimit | src/db.rs:2414-2432 | Purging is invisible to a service at all later times if and only if it looks back at most 30 days |
| Fail2ban.RunKeepsInv | src/fail2ban.rs:167-242 | In every run of failures, admin actions, purges and clock ticks the log agrees with the full history on 30 days, and no whitelisted address is under an automatic ban |
| Fail2ban.CountsSurvivePurges | src/db.rs:2895-2912 | In every run a count over at most 30 days equals the count over everything ever logged |
| Fail2ban.ProcessedFailureKeepsLimit | src/fail2ban.rs:197-240 | With a ban at least as long as the look-back, a processed failure keeps the attempts of every window within the threshold and bans when it is reached |
| Fail2ban.AttemptsPerWindow | src/fail2ban.rs:167-242 | With a ban at least as long as the look-back: in every run that lifts no ban of the address, no interval of the look-back length holds more than max_attempts recorded failures |
| Fail2ban.ShortBanOverruns | src/fail2ban.rs:167-242 | With a shorter ban: a run that puts one failure too many into such an interval |
| Fail2ban.WithinThresholdIff | src/fail2ban.rs:167-242 | Over all settings with a positive threshold and a look-back within retention: every run from empty tables that lifts no ban is within the threshold in every window if and only if the look-back is at most the ban |
| Fail2ban.FreshTablesAreLimited | src/db.rs:2602-2912 | Empty tables satisfy the invariant of the run above |
| MailAddress.SanitizeAccepted | src/config.rs:849-864 | Every address the forms accept passes the map sanitizer, only lower-cased |
| MailAddress.AcceptedShape | src/web/forms.rs:333-369 | An accepted address is a local part and a domain around one `@`, without comma, white space or any character the sanitizer refuses |
| Addresses.AcceptedIff | src/web/forms.rs:333-369 | An address is taken as it stands if and only if it is a local part of letters, digits and . _ - + ~ % and a domain of letters, digits, dots and hyphens around one at sign, neither empty, 254 characters at most |
| Addresses.ValidatedIs | src/web/forms.rs:333-369 | White space around an address makes no difference |
| Addresses.WholeDomain | src/web/forms.rs:348-350 | A star before the at sign is taken where whole domains are allowed and nowhere else |
| Addresses.TokenIs | src/config.rs:822-843 | A map token is trimmed and put in lower case if and only if it has no white space inside, control character, slash or backslash, nor, in a user name, a colon |
| MailAddress.SanitizeClean | src/config.rs:822-864 | A clean local part, possibly none, and a clean domain change only in case |
| MailAddress.SanitizedHasSpaceIff | src/config.rs:849-864 | The written address contains white space if and only if it stands next to the last `@` |
| MailAddress.SpaceBeforeAtStays | src/config.rs:849-864 | A family of inputs for which white space is written out |
| Routing.BuildVirtualAliasEntries | src/config.rs:629-700 | The loops build exactly catch-alls, explicit single addresses, then identities |
| Routing.SpecificLookup | src/config.rs:629-700 | For every key the explicit entry wins over an identity entry, the last one written first |
| Routing.LookupIdentities | src/config.rs:673-690 | An identity entry exists if and only if an active account of a domain with a catch-all has no explicit entry |
| Routing.AccountsEscapeCatchAll | src/config.rs:617-700 | An active account in a domain with a catch-all resolves to its explicit entry if there is one, otherwise to itself, never to the catch-all |
| Routing.ResolutionIsComplete | src/config.rs:617-700 | What any address resolves to: explicit entry, then itself for such accounts, then the catch-all of its domain, then itself |
| Routing.CatchAllsFirst | src/config.rs:617-700 | Every catch-all precedes every single address |
| Routing.AliasMapContents | src/config.rs:629-700 | The alias map holds every active alias and forwarding with its multiplicity, and the identities, and nothing else |
| Routing.ForwardingInExactlyOneMap | src/config.rs:650-671 | Each source and destination occurs in the two maps together as often as in the active forwardings, so an active one is in exactly one and an inactive one in neither |
| CopyForwardings.CopiesAreCounted | src/config.rs:747-767 | A single address has each destination among its BCCs as often as there are active forwardings to it that keep a copy |
| CopyForwardings.ForwardingsAreCounted | src/config.rs:650-671 | And among its alias entries as often as there are active ones that keep none; a whole domain as often as there are active ones |
| CopyForwardings.AliasesAreCounted | src/config.rs:636-648 | An alias is among the entries as often as it stands active in the list |
| CopyForwardings.ExplicitIff | src/config.rs:636-671 | An address has an explicit entry if and only if an active alias names it or an active forwarding that keeps no copy |
| CopyForwardings.CopiesLeaveTheMailbox | src/config.rs:650-690 | An account named by no alias and only by forwardings that keep a copy resolves to itself |
| CopyForwardings.PlainForwardingIsFound | src/config.rs:650-671 | A forwarding that keeps none is found in the finished map if nothing else names its address |
| CopyForwardings.OthersAreCaught | src/config.rs:673-690 | An address that nothing names and no active account has goes to the catch-all of its domain, if there is one |
| CopyForwardings.SourceIs | src/config.rs:798-812 | A source is trimmed; a star before the at sign stands for the whole domain, and so does a star alone where the domain is known |
| CopyForwardings.CopiesAreFound | src/config.rs:747-767 | What is found in the built BCC map for a source: its destinations joined, and nothing where there are none |
| CopyForwardings.CopiesInOrder | src/config.rs:747-767 | The destinations stand in the order in which the forwardings were written |
| CopyForwardings.OneEntryEach | src/config.rs:747-767 | Each source has one entry in the BCC map |
| Routing.NoBccForCatchAll | src/config.rs:747-767 | Catch-alls never enter the BCC map |
| Routing.BuildRecipientBccEntries | src/config.rs:747-767 | One entry per source with copy-keeping forwardings, its destinations joined in the order they were written, and no other entry |
| Routing.BccReadsBack | src/config.rs:769-795 | For accepted destinations the joined value splits back into them in order, in lower case |
| AliasFile.TypedEntriesAreWritten | src/config.rs:702-742 | Entries the forms accept, in any spelling, are written one for one in lower case |
| AliasFile.FileHoldsTheBuiltEntriesIff | src/config.rs:702-742 | The file is as long as the built map, and holds its entries one for one if and only if they are all in lower case |
| AliasFile.FileLookup | src/config.rs:617-742 | What any key finds in the file: an identity entry before the explicit one, and that before a catch-all |
| AliasFile.ExplicitWinsIff | src/config.rs:617-742 | For all accepted input: the file says of every single address what the admin wrote if and only if no account gets an identity whose address is, in lower case, an explicit source that leads elsewhere |
| AliasFile.ShadowsInAnotherSpelling | src/config.rs:673-690 | Such an account has its address among the sources in another spelling |
| AliasFile.OtherSpellingIsShadowed | src/config.rs:673-742 | With a catch-all of the account's domain, an entry for its address in another spelling is never found |
| AliasFile.OtherSpellingOccurs | src/config.rs:673-742 | For every account and every other spelling of its address, every list of two accepted aliases, for all of its domain and for that spelling, makes it happen |
| AliasFile.FileResolution | src/config.rs:617-742 | What every single address resolves to through the written file |
| AliasFile.ReachedIff | src/config.rs:617-742 | In the file an active account resolves to its explicit entry or itself if and only if no identity shadows that entry and the account is not left to a catch-all that names its domain in another spelling |
| ShellQuote.ShSingleQuote | src/provision.rs:170-182 | The loop quotes every string by the one quoting function |
| ShellQuote.CommandLine | src/provision.rs:193-205 | Program and arguments are quoted and joined by single spaces |
| ShellQuote.ReadQuotedBody | src/provision.rs:170-182 | Inside single quotes the shell reads back the text, whatever it contains |
| ShellQuote.ShellReadsBack | src/provision.rs:170-205 | Splitting by the quoting rules of POSIX.1-2017 Shell Command Language, sections 2.2.1 and 2.2.2, returns the original list of words |
| ShellQuote.CommandLineReadsBack | src/provision.rs:193-205 | So program and arguments arrive exactly as given, empty ones included |
| Upload.Remote.Append | src/provision.rs:836-858 | One append command adds a prefix of the chunk to one file; success means all of it |
| Upload.Remote.Move | src/provision.rs:889-896 | The move replaces the target in one step or not at all |
| Upload.ChunksConcat | src/provision.rs:811-817 | The chunks put together are the data, none empty, none over 48 KiB |
| Upload.AppendChunks | src/provision.rs:833-858 | On success the temporary file is its earlier content followed by the data, and the final path was never touched |
| Upload.Publish | src/provision.rs:827-898 | Whatever the ignored exit code of the truncation hides, success means that the final path holds the data |
| Upload.UploadFile | src/provision.rs:785-900 | At every moment the final path holds its old content, except after the last command; Uploaded means it holds the local bytes, Skipped that there was such a file and nothing changed; only the two paths ever change; and if every command works the file is uploaded, or skipped exactly if it is there and may be |
| UploadLimits.ValidPathIff | src/provision.rs:721-738 | A path is taken if and only if it is not empty, made of letters, digits and . _ / + -, and without two dots in a row |
| UploadLimits.FullChunks | src/provision.rs:811-817 | Every chunk but the last has 49152 bytes |
| CalendarFeed.StripVcalendarWrapper | src/web/routes/caldav.rs:1051-1072 | The inner lines of an object, each ended by CRLF |
| CalendarFeed.CollectInner | src/web/routes/caldav.rs:1054-1069 | The loop with its inside flag collects exactly the specified lines |
| CalendarFeed.BuildIcalendarFeed | src/web/routes/caldav.rs:1036-1049 | The feed is the wrapper and header lines around the bodies of all objects in order |
| Wording.FeedBegins | src/web/routes/caldav.rs:1036-1049 | The lines in front of the objects and behind them |
| CalendarFeed.KindOfWrapper | src/web/routes/caldav.rs:1056-1065 | A line is a wrapper line if and only if it is exactly that text, trimmed and upper-cased |
| CalendarFeed.OneWrapper | src/web/routes/caldav.rs:1036-1072 | For all objects, well formed or not, and a name on one line, the feed reads back as its lines and has exactly one BEGIN:VCALENDAR, first, and one END:VCALENDAR, last |
| CalendarFeed.InnerOfCalendar | src/web/routes/caldav.rs:1051-1072 | Between two wrapper lines exactly the lines stay that are reached inside the calendar and are neither wrapper nor header lines |
| CalendarFeed.BodyOfCalendar | src/web/routes/caldav.rs:1051-1072 | What an object contributes, in terms of which of its lines stay |
| CalendarFeed.FeedKeepsComponentsIff | src/web/routes/caldav.rs:1036-1072 | For all well-nested calendars (section 3.4 of RFC 5545, continuation lines read as section 3.1 has it): the feed is a calendar with exactly their components, in order and line by line, if and only if every line inside a component is reached inside the calendar and is neither a wrapper nor a VERSION or PRODID line after trimming |
| CalendarFeed.FeedIsWellNestedIff | src/web/routes/caldav.rs:1036-1072 | The feed is a calendar in which components lost only their own dropped lines if and only if every BEGIN and END line of the objects stays |
| CalendarFeed.FoldedTextEndsTheObject | src/web/routes/caldav.rs:1055-1063 | A well-nested calendar with a summary folded before the text END:VCALENDAR whose feed is no calendar |
| CalendarFeed.CalendarNests | src/web/routes/caldav.rs:1036-1049 | A calendar around well-nested items is well nested itself |
| Nesting.ComponentsStayIff | src/web/routes/caldav.rs:1051-1072 | Leaving items out of a well-nested text keeps it well nested with the same components if and only if no item of a component goes |
| Nesting.PartsStayIff | src/web/routes/caldav.rs:1036-1072 | The same of several texts put one after the other |
| Nesting.PartsNestIff | src/web/routes/caldav.rs:1036-1072 | Components lose only their own items if and only if no BEGIN or END goes |
| Nesting.ScanInside | src/web/routes/caldav.rs:1036-1049 | Nesting inside an open component is nesting on its own |
| FoldedFeed.WholeIff | src/web/routes/caldav.rs:1055-1069 | Unfolding what is left gives the content lines whose first line stays if and only if every content line stays or goes as a whole |
| FoldedFeed.UntornFeedIff | src/web/routes/caldav.rs:1036-1072 | If none is torn, the unfolded feed has the components of the unfolded objects if and only if every content line inside a component stays |
| FoldedFeed.FeedIsFaithfulIff | src/web/routes/caldav.rs:1036-1072 | For all calendars well nested once unfolded: nothing is torn and the feed has their components if and only if every content line stays or goes as a whole and those inside components stay |
| FoldedFeed.FoldedHeaderBreaksTheFeed | src/web/routes/caldav.rs:1063-1066 | Two well-nested calendars, one with a folded PRODID, whose feed is not well nested once unfolded |
| FeedOrder.NoConditionOnObjects | src/web/routes/caldav.rs:1036-1072 | Two well-nested calendars whose feed has their components in one order and not in the other, so no condition on single objects or lines decides it |
| DavHrefs.PathParsesBackIff | src/web/routes/caldav.rs:215-235 | The path of an object parses back into its collection and file name if and only if both are non-empty and free of slashes |
| DavPaths.NamesParse | src/web/routes/caldav.rs:215-235 | The path of one or more names under the account is the home set, a collection or an object for one, two or three names of which the first is that of the service, and the principal for any other |
| DavPaths.OthersAreThePrincipal | src/web/routes/caldav.rs:215-235 | So is every path that does not begin with the account's, in any letter case |
| DavHrefs.ParsedNamesAreSegments | src/web/routes/carddav.rs:209-229 | Whatever the path, names that come out of it are non-empty and free of slashes |
| DavHrefs.ExtractHrefs | src/web/routes/caldav.rs:1016-1034 | The loop over the shrinking rest returns the names of all hrefs under the collection, in document order |
| DavHrefs.Scan | src/web/routes/carddav.rs:984-1002 | The same loop for any way of naming; the rest gets shorter in every round |
| DavHrefs.ReadBody | src/web/routes/carddav.rs:984-1002 | A body made of hrefs and arbitrary text between them yields exactly these hrefs in order |
| Wording.HrefIsRead | src/web/routes/caldav.rs:1016-1034 | A path between the tags of an href is read as it stands |
| DavHrefs.MultigetReadsEscapedNames | src/web/routes/caldav.rs:881-931 | A request made of printed hrefs yields the names in order, without white space at their end and still escaped |
| DavHrefs.AmpersandIsNotReadBack | src/web/routes/caldav.rs:943-949 | One name that comes back as another |
| DavHrefs.NamesSurviveIff | src/web/routes/caldav.rs:943-949 | They are the file names themselves if and only if none needs escaping or ends in white space |
| XmlEscape.EscapeLoop | src/web/routes/autoconfig.rs:9-22 | The character loop computes the one-pass escape |
| XmlEscape.ChainIsOnePass | src/web/routes/api_soap.rs:39-45 | The chain of five replacements equals the one-pass escape on every string |
| XmlEscape.EscapedIsSafe | src/web/routes/caldav.rs:943-949 | No raw angle bracket or quote is left, and every ampersand starts a predefined entity (section 4.6 of XML 1.0) |
| XmlEscape.UnescapeEscape | src/web/routes/carddav.rs:928-934 | Replacing the entities back recovers the text |
| XmlEscape.EscapeFixedIff | src/web/routes/autoconfig.rs:9-22 | Escaping changes nothing if and only if none of the five characters occurs |

## Left out

- Characters: strings are sequences of characters with ASCII case and white space; byte offsets inside multi-byte characters, Unicode case folding and invalid UTF-8 are not modelled, nor the panic of slicing a header line inside such a character.
- SmtpSession: a failed write counts as not completed; how much of it arrived is not modelled, and no part of the content completes the message (`DataPhase.ReceiverStopsOnlyAtTheEnd`).
- WholeRewriting.RewritesRightIff: header lines put into an own header are taken as the filter puts them, the first run on to the last old one.
- MixedEndings.InjectsRightIff: the new lines are non-empty and hold no line ending, as the two headers of the filter; others would be read as blank lines.
- Database errors and integer widths: a failing query (which the code turns into zero or ignores) and 32-bit overflow of counters are not modelled.
- McpGuard.Guard.RecordOutcome: the failure counter is unbounded, overflow of the 32-bit one is not covered.
- LoginLockout.Gate.Attempt: one request is one atomic step, because the claim is about sequences of requests; requests of one address that overlap between check and record are not covered.
- Fail2ban.Database.HandleAuthFailure: one log line is one atomic step, for the same reason; times are whole seconds. How instants become calendar fields is not part of this model; `StoredTimes` takes any way that gives later instants later fields.
- RateRules.Limiter.CheckRateLimit: the whole rule loop is one step with one clock reading; `RateRuns` takes it apart into one reading of the clock and one later upsert per rule, for any number of processes.
- SendAllowance.SentWithinAllowance: the limit is positive and fixed during a run; zero means unlimited and needs no proof, and a changed setting has no bound to state. Missing account rows are left out.
- SendAllowance: the webmail form sends through the same three steps and adds no new one.
- Upload.UploadFile: base64 decoding is taken to invert encoding, and `mv` to be atomic within one file system; ownership and mode bits do not appear. The parent directory is the text before the last slash.
- Routing.BuildRecipientBccEntries: the entries come in an arbitrary order instead of key order; keys are distinct, so lookups do not depend on it.
- Routing.BccReadsBack: destinations the forms would refuse are not covered, since a comma in one cannot be told from the separator.
- DavHrefs.MultigetReadsEscapedNames: the account and collection contain none of the five escaped characters and file names hold no slash, as every name parsed from a path; the text between hrefs opens no href.
- `build_sender_login_entries`, `push_capped` and the IP range masks: filters and caps without an invariant across calls.
- PostgreSQL, sockets, processes, DNS, webhooks, junk delivery and the Message-ID dedupe of the filter: outside effects, or parameters of the model where a step depends on them.
- Log tailing and its regular expressions, bcrypt, one-time passwords, UUIDs and MIME parsing: library behaviour.
- Admin pages, templates, CSRF and CORS handling: no invariant beyond their own body.
