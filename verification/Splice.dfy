// Where the content filter may put HTML into a message, and the whole rewriting before
// signatures are removed.
module Splice {
  import opened Text
  import opened DkimStrip
  import opened Rewrite

  // ---- Encoded body parts ----

  predicate LineStart(email: string, i: nat) {
    i < |email| && (i == 0 || email[i - 1] == '\n')
  }

  function LineEnd(email: string, i: nat): (j: nat)
    requires i < |email|
    ensures i < j <= |email|
    ensures forall k :: i <= k < j - 1 ==> email[k] != '\n'
    ensures j < |email| ==> email[j - 1] == '\n'
    decreases |email| - i
  {
    if email[i] == '\n' || i + 1 == |email| then i + 1 else LineEnd(email, i + 1)
  }

  function TrimEol(s: string): string {
    if s != [] && (s[|s| - 1] == '\r' || s[|s| - 1] == '\n') then TrimEol(s[..|s| - 1]) else s
  }

  function LineText(email: string, i: nat): string
    requires i < |email|
  {
    TrimEol(email[i..LineEnd(email, i)])
  }

  const CTE: string := "content-transfer-encoding:"

  predicate IsCte(line: string) {
    StartsWith(Lower(line), CTE)
  }

  // The value after the first colon names an encoding that raw HTML would corrupt.
  predicate DeclaresEncoding(line: string) {
    IsEncoding(Lower(Trim(AfterColon(line))))
  }

  function AfterColon(line: string): string {
    var colon := IndexOf(line, ':');
    if colon == |line| then "" else line[colon + 1..]
  }

  predicate IsEncoding(value: string) {
    value == "quoted-printable" || value == "base64"
  }

  // The last Content-Transfer-Encoding line that starts before a position.
  function LastCte(email: string, before: nat): (r: Option<nat>)
    requires before <= |email|
    ensures r.Some? ==> r.value < before && LineStart(email, r.value) && IsCte(LineText(email, r.value))
    ensures r.Some? ==> forall j :: r.value < j < before && LineStart(email, j) ==> !IsCte(LineText(email, j))
    ensures r.None? ==> forall j :: 0 <= j < before && LineStart(email, j) ==> !IsCte(LineText(email, j))
  {
    if before == 0 then None
    else if LineStart(email, before - 1) && IsCte(LineText(email, before - 1)) then Some(before - 1)
    else LastCte(email, before - 1)
  }

  predicate Encoded(email: string, upTo: nat)
    requires upTo <= |email|
  {
    match LastCte(email, upTo)
    case None => false
    case Some(i) => DeclaresEncoding(LineText(email, i))
  }

  function Min(a: nat, b: nat): nat {
    if a < b then a else b
  }

  // Nothing inside a line is the start of one.
  lemma {:induction false} OneLine(email: string, pos: nat, next: nat, before: nat)
    requires LineStart(email, pos) && next == LineEnd(email, pos) && pos < before <= next
    ensures LastCte(email, before)
         == if IsCte(LineText(email, pos)) then Some(pos) else LastCte(email, pos)
  {
    if before > pos + 1 {
      OneLine(email, pos, next, before - 1);
      assert !LineStart(email, before - 1);
    }
  }

  method BodyIsEncoded(email: string, upTo: nat) returns (encoded: bool)
    requires upTo <= |email|
    ensures encoded == Encoded(email, upTo)
  {
    encoded := false;
    var pos := 0;
    while pos < |email|
      invariant 0 <= pos <= |email| && (pos < |email| ==> LineStart(email, pos))
      invariant encoded == Encoded(email, Min(pos, upTo))
    {
      if pos >= upTo {
        break;
      }
      var next := LineEnd(email, pos);
      var line := LineText(email, pos);
      OneLine(email, pos, next, Min(next, upTo));
      if IsCte(line) {
        encoded := DeclaresEncoding(line);
      }
      pos := next;
    }
  }

  // ---- Footer and pixel ----

  const CLOSE_BODY: string := "</body>"

  const FOOTER_OPEN: string :=
    "<div " + "class=\"domain-footer\" style=\"margin-top:24px;border-top:1px solid #e2e8f0;padding-top:12px;font-size:0.9em;color:#475569;line-height:1.4;\">"

  function FooterBlock(html: string): string {
    FOOTER_OPEN + html + "</div>"
  }

  function InsertAt(email: string, pos: nat, text: string): string
    requires pos <= |email|
  {
    email[..pos] + (text + email[pos..])
  }

  // The last closing body tag, in any letter case.
  function BodyTag(email: string): (r: Option<nat>)
    ensures r.Some? ==> r.value <= |email|
  {
    RFind(Lower(email), CLOSE_BODY)
  }

  // The text between tags; an unclosed tag hides the rest.
  function Untagged(s: string, inTag: bool): string {
    if s == [] then []
    else if s[0] == '<' then Untagged(s[1..], true)
    else if s[0] == '>' then Untagged(s[1..], false)
    else if inTag then Untagged(s[1..], true)
    else [s[0]] + Untagged(s[1..], false)
  }

  method StripHtmlTags(input: string) returns (output: string)
    ensures output == PlainFooter(input)
  {
    var text := DropTags(input);
    output := Trim(text);
  }

  method DropTags(input: string) returns (output: string)
    ensures output == Untagged(input, false)
  {
    output := "";
    var inTag := false;
    for i := 0 to |input|
      invariant output + Untagged(input[i..], inTag) == Untagged(input, false)
    {
      UntaggedStep(input, i, inTag, output);
      var c := input[i];
      if c == '<' {
        inTag := true;
      } else if c == '>' {
        inTag := false;
      } else if !inTag {
        output := output + [c];
      }
    }
  }

  lemma UntaggedStep(s: string, i: nat, inTag: bool, done: string)
    requires i < |s|
    ensures done + Untagged(s[i..], inTag)
         == if s[i] == '<' then done + Untagged(s[i + 1..], true)
            else if s[i] == '>' then done + Untagged(s[i + 1..], false)
            else if inTag then done + Untagged(s[i + 1..], true)
            else (done + [s[i]]) + Untagged(s[i + 1..], false)
  {
    assert s[i..][0] == s[i] && s[i..][1..] == s[i + 1..];
    assert done + ([s[i]] + Untagged(s[i + 1..], false)) == (done + [s[i]]) + Untagged(s[i + 1..], false);
  }

  function PlainFooter(html: string): string {
    Trim(Untagged(html, false))
  }

  function SpliceHtml(email: string, pos: nat, html: string): string
    requires pos <= |email|
  {
    if Encoded(email, pos) then email else InsertAt(email, pos, html)
  }

  function AppendPlain(email: string, plain: string): string {
    if plain == "" || Encoded(email, |email|) then email else email + ("\n\n-- \n" + plain)
  }

  predicate IsBlank(html: string) {
    Trim(html) == ""
  }

  predicate LooksLikeHtml(email: string) {
    Contains(Lower(email), "<html")
  }

  // The HTML block before the last closing body tag; without one, plain text at the
  // end of a message that does not look like HTML.
  function FooterAt(email: string, tag: Option<nat>, looksHtml: bool, block: string, plain: string): string
    requires tag.Some? ==> tag.value <= |email|
  {
    match tag
    case Some(pos) => SpliceHtml(email, pos, block)
    case None => if looksHtml then email else AppendPlain(email, plain)
  }

  function WithFooter(email: string, html: string): string {
    if IsBlank(html) then email
    else FooterAt(email, BodyTag(email), LooksLikeHtml(email), FooterBlock(html), PlainFooter(html))
  }

  // The pixel goes before the last closing body tag, or nowhere.
  function WithPixel(email: string, tag: string): string {
    match BodyTag(email)
    case None => email
    case Some(pos) => SpliceHtml(email, pos, tag)
  }

  method InsertHtml(email: string, pos: nat, html: string) returns (output: string, injected: bool)
    requires pos <= |email|
    ensures output == SpliceHtml(email, pos, html) && injected == !Encoded(email, pos)
  {
    var encoded := BodyIsEncoded(email, pos);
    if encoded {
      return email, false;
    }
    return InsertAt(email, pos, html), true;
  }

  method InjectFooter(email: string, html: string) returns (output: string)
    ensures output == WithFooter(email, html)
  {
    if IsBlank(html) {
      return email;
    }
    var pos := BodyTag(email);
    if pos.Some? {
      var injected;
      output, injected := InsertHtml(email, pos.value, FooterBlock(html));
      return;
    }
    if LooksLikeHtml(email) {
      return email;
    }
    var plain := StripHtmlTags(html);
    output := AppendText(email, plain);
  }

  method AppendText(email: string, plain: string) returns (output: string)
    ensures output == AppendPlain(email, plain)
  {
    output := email;
    if plain == "" {
      return;
    }
    var encoded := BodyIsEncoded(output, |output|);
    if !encoded {
      output := output + ("\n\n-- \n" + plain);
    }
  }

  // A tracked message is recorded only when the pixel went in.
  method InjectPixel(email: string, tag: string) returns (output: string, injected: bool)
    ensures output == WithPixel(email, tag)
    ensures injected <==> BodyTag(email).Some? && !Encoded(email, BodyTag(email).value)
  {
    var pos := BodyTag(email);
    if pos.None? {
      return email, false;
    }
    output, injected := InsertHtml(email, pos.value, tag);
  }

  // ---- Only where nothing is encoded ----

  // One insertion, at a place whose last encoding line (if any) names neither
  // quoted-printable nor base64.
  ghost predicate OneSafeInsertion(email: string, out: string) {
    exists pos: nat, text :: pos <= |email| && !Encoded(email, pos) && out == InsertAt(email, pos, text)
  }

  lemma SpliceIsSafe(email: string, pos: nat, html: string)
    requires pos <= |email|
    ensures SpliceHtml(email, pos, html) == email || OneSafeInsertion(email, SpliceHtml(email, pos, html))
  {
  }

  lemma AppendIsSafe(email: string, plain: string)
    ensures AppendPlain(email, plain) == email || OneSafeInsertion(email, AppendPlain(email, plain))
  {
    var text := "\n\n-- \n" + plain;
    assert email[..|email|] == email && email[|email|..] == [] && text + [] == text;
    assert InsertAt(email, |email|, text) == email + text;
  }

  lemma FooterIsSafe(email: string, tag: Option<nat>, looksHtml: bool, block: string, plain: string)
    requires tag.Some? ==> tag.value <= |email|
    ensures var out := FooterAt(email, tag, looksHtml, block, plain);
      out == email || OneSafeInsertion(email, out)
  {
    match tag
    case Some(pos) => SpliceIsSafe(email, pos, block);
    case None => AppendIsSafe(email, plain);
  }

  // Footer and pixel change a message in one safe place, or not at all.
  lemma FooterOnlyInUnencodedParts(email: string, html: string)
    ensures WithFooter(email, html) == email || OneSafeInsertion(email, WithFooter(email, html))
  {
    FooterIsSafe(email, BodyTag(email), LooksLikeHtml(email), FooterBlock(html), PlainFooter(html));
  }

  lemma PixelOnlyInUnencodedParts(email: string, tag: string)
    ensures WithPixel(email, tag) == email || OneSafeInsertion(email, WithPixel(email, tag))
  {
    match BodyTag(email)
    case Some(pos) => SpliceIsSafe(email, pos, tag);
    case None =>
  }

  lemma SafeInsertionKeeps(email: string, out: string)
    requires OneSafeInsertion(email, out)
    ensures Sub(email, out)
  {
    var pos: nat, text :| pos <= |email| && !Encoded(email, pos) && out == InsertAt(email, pos, text);
    SubInsert(email[..pos], text, email[pos..]);
    assert email == email[..pos] + email[pos..];
  }

  // ---- The whole rewriting ----

  // What the filter decided for one message: a footer (empty for none), the
  // unsubscribe header lines, the spam flag and the pixel.
  datatype Plan = Plan(footer: string, unsubscribe: Option<string>, spam: bool, pixel: Option<string>)

  const SPAM_FLAG: string := "X-Spam-Flag: YES"

  function FooterStage(m: string, p: Plan): string {
    if p.footer == "" then m else WithFooter(m, p.footer)
  }

  function HeaderStage(m: string, headers: Option<string>): string {
    if headers.Some? then Injected(m, headers.value) else m
  }

  function PixelStage(m: string, p: Plan): string {
    if p.pixel.Some? then WithPixel(m, p.pixel.value) else m
  }

  function SpamLine(p: Plan): Option<string> {
    if p.spam then Some(SPAM_FLAG) else None
  }

  function Rewritten(email: string, p: Plan): string {
    PixelStage(HeaderStage(HeaderStage(FooterStage(email, p), p.unsubscribe), SpamLine(p)), p)
  }

  lemma FooterStageKeeps(m: string, p: Plan)
    ensures Sub(m, FooterStage(m, p))
  {
    SubSelf(m);
    FooterOnlyInUnencodedParts(m, p.footer);
    if FooterStage(m, p) != m { SafeInsertionKeeps(m, FooterStage(m, p)); }
  }

  lemma HeaderStageKeeps(m: string, headers: Option<string>)
    requires headers.Some? ==> headers.value != []
    ensures Sub(m, HeaderStage(m, headers))
  {
    SubSelf(m);
    if headers.Some? { InjectionOnlyInsertsIff(m, headers.value); }
  }

  lemma PixelStageKeeps(m: string, p: Plan)
    ensures Sub(m, PixelStage(m, p))
  {
    SubSelf(m);
    if p.pixel.Some? {
      PixelOnlyInUnencodedParts(m, p.pixel.value);
      if PixelStage(m, p) != m { SafeInsertionKeeps(m, PixelStage(m, p)); }
    }
  }

  lemma SubChain(a: string, b: string, c: string, d: string, e: string)
    requires Sub(a, b) && Sub(b, c) && Sub(c, d) && Sub(d, e)
    ensures Sub(a, e)
  {
    SubTrans(a, b, c);
    SubTrans(a, c, d);
    SubTrans(a, d, e);
  }

  // Before signatures are removed the filter only inserts.
  lemma RewritingOnlyInserts(email: string, p: Plan)
    requires p.unsubscribe.Some? ==> p.unsubscribe.value != []
    ensures Sub(email, Rewritten(email, p))
  {
    var m1 := FooterStage(email, p);
    var m2 := HeaderStage(m1, p.unsubscribe);
    var m3 := HeaderStage(m2, SpamLine(p));
    FooterStageKeeps(email, p);
    HeaderStageKeeps(m1, p.unsubscribe);
    HeaderStageKeeps(m2, SpamLine(p));
    PixelStageKeeps(m3, p);
    SubChain(email, m1, m2, m3, PixelStage(m3, p));
  }

  // What is handed to the mail server: the message itself when nothing changed, else
  // the rewritten one without its signatures.
  function Outgoing(email: string, p: Plan): string {
    var m := Rewritten(email, p);
    if m != email then Stripped(m) else email
  }

  method RewriteMessage(email: string, p: Plan) returns (modified: string)
    ensures modified == Outgoing(email, p)
  {
    modified := email;
    if p.footer != "" {
      modified := InjectFooter(modified, p.footer);
    }
    if p.unsubscribe.Some? {
      modified := InjectHeaders(modified, p.unsubscribe.value);
    }
    if p.spam {
      modified := InjectHeaders(modified, SPAM_FLAG);
    }
    if p.pixel.Some? {
      var injected;
      modified, injected := InjectPixel(modified, p.pixel.value);
    }
    if modified != email {
      modified := StripDkimSignatures(modified);
    }
  }
}
