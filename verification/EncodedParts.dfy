// Which parts of a message footer and pixel stay out of, read off the text of the message;
// and what they put in elsewhere.
module EncodedParts {
  import opened Text
  import opened TextFacts
  import opened Splice

  const ENCODING: string := "content-transfer-encoding"

  // A line of the message begins here with the name of the header, in any letter case.
  ghost predicate EncodingLine(m: string, i: nat) {
    && (i == 0 || (i <= |m| && m[i - 1] == '\n'))
    && i + |ENCODING| < |m| && SameText(m[i..i + |ENCODING|], ENCODING) && m[i + |ENCODING|] == ':'
  }

  ghost predicate NamesEncoding(value: string) {
    SameText(Trim(value), "quoted-printable") || SameText(Trim(value), "base64")
  }

  // The last such line before a position: what comes before it, its name and value, and the
  // rest of the message.
  ghost predicate LastLine(m: string, h: string, name: string, value: string, rest: string, before: nat) {
    && m == h + (name + (":" + (value + rest)))
    && (h == "" || h[|h| - 1] == '\n') && SameText(name, ENCODING)
    && '\n' !in value && (rest == "" || rest[0] == '\n')
    && |h| < before <= |m| && forall j :: |h| < j < before ==> !EncodingLine(m, j)
  }

  // ---- Lines ----

  lemma {:induction false} TrimEolCut(s: string) returns (e: string)
    ensures s == TrimEol(s) + e && Blank(e)
    ensures var t := TrimEol(s); t != "" ==> t[|t| - 1] != '\r' && t[|t| - 1] != '\n'
  {
    if s != [] && (s[|s| - 1] == '\r' || s[|s| - 1] == '\n') {
      var d := TrimEolCut(s[..|s| - 1]);
      e := d + [s[|s| - 1]];
      assert s == s[..|s| - 1] + [s[|s| - 1]];
    } else {
      e := "";
    }
  }

  // Trimming does not see what was cut off.
  lemma TrimBehind(s: string, e: string)
    requires Blank(e)
    ensures Trim(s + e) == Trim(s)
  {
    TrimIs(s);
    var a, b :| Blank(a) && Blank(b) && s == a + Trim(s) + b;
    assert s + e == a + Trim(s) + (b + e);
    TrimmedIs(a, Trim(s), b + e);
  }

  lemma LineEndIs(m: string, i: nat, line: string, rest: string)
    requires i < |m| && m[i..] == line + rest && line != [] && '\n' !in line && (rest == "" || rest[0] == '\n')
    ensures m[i..LineEnd(m, i)] == line + if rest == "" then "" else "\n"
  {
    var e := LineEnd(m, i);
    assert forall k :: 0 <= k < |line| ==> m[i + k] == m[i..][k] == line[k];
    assert rest != "" ==> m[i + |line|] == m[i..][|line|] == '\n';
    assert |m| - i == |line| + |rest|;
    assert e - i == |line| + if rest == "" then 0 else 1;
    assert m[i..e] == m[i..][..e - i];
  }

  // ---- Which lines name the encoding ----

  lemma CteText()
    ensures CTE == ENCODING + ":" && |ENCODING| == 25 && |CTE| == 26
  {
  }

  lemma PrefixWithColon(line: string, name: string, prefix: string)
    requires prefix == name + ":" && Lower(name) == name
    ensures StartsWith(Lower(line), prefix) <==>
            |line| > |name| && SameText(line[..|name|], name) && line[|name|] == ':'
  {
    var n := |name|;
    if |line| > n {
      SameTextIff(line[..n], name);
      assert Lower(line)[..n + 1] == Lower(line[..n]) + [LowerChar(line[n])];
      assert prefix[..n] == name && prefix[n] == ':';
      assert LowerChar(line[n]) == ':' <==> line[n] == ':';
    }
  }

  lemma NameBegins(line: string)
    ensures IsCte(line) <==> |line| > |ENCODING| && SameText(line[..|ENCODING|], ENCODING) && line[|ENCODING|] == ':'
  {
    CteText();
    EncodingIsLower();
    PrefixWithColon(line, ENCODING, CTE);
  }

  lemma EncodingIsLower()
    ensures Lower(ENCODING) == ENCODING && '\n' !in ENCODING && ':' !in ENCODING && '\r' !in ENCODING
  {
  }

  // A line keeps its beginning when its end is trimmed.
  lemma TrimmedLine(m: string, i: nat, t: string, e: string, n: nat)
    requires i < |m| && m[i..LineEnd(m, i)] == t + e && Blank(e)
    requires i + n < |m| && m[i + n] == ':' && '\n' !in m[i..i + n]
    ensures |t| > n && t[..n] == m[i..i + n] && t[n] == ':'
  {
    var end := LineEnd(m, i);
    var name := m[i..i + n];
    assert forall k :: 0 <= k < n ==> name[k] == m[i + k];
    assert end > i + n;
    assert forall k :: 0 <= k < |t + e| ==> (t + e)[k] == m[i + k];
  }

  lemma LineIsNamed(m: string, i: nat, name: string)
    requires LineStart(m, i)
    requires var t := LineText(m, i); |t| > |name| && SameText(t[..|name|], name) && t[|name|] == ':'
    ensures i + |name| < |m| && SameText(m[i..i + |name|], name) && m[i + |name|] == ':'
  {
    var line := m[i..LineEnd(m, i)];
    var e := TrimEolCut(line);
    var t := TrimEol(line);
    assert forall k :: 0 <= k < |t| ==> t[k] == line[k] == m[i + k];
    assert t[..|name|] == m[i..i + |name|];
  }

  lemma CteAt(m: string, i: nat)
    requires LineStart(m, i)
    ensures IsCte(LineText(m, i)) <==> EncodingLine(m, i)
  {
    var t := LineText(m, i);
    NameBegins(t);
    if IsCte(t) { LineIsNamed(m, i, ENCODING); }
    if EncodingLine(m, i) { NamedIsCte(m, i, ENCODING); }
  }

  lemma NamedIsCte(m: string, i: nat, name: string)
    requires LineStart(m, i) && name == ENCODING
    requires i + |name| < |m| && SameText(m[i..i + |name|], name) && m[i + |name|] == ':'
    ensures var t := LineText(m, i); |t| > |name| && SameText(t[..|name|], name) && t[|name|] == ':'
  {
    var e := TrimEolCut(m[i..LineEnd(m, i)]);
    EncodingIsLower();
    NoFeed(m[i..i + |name|], name);
    TrimmedLine(m, i, LineText(m, i), e, |name|);
  }

  lemma NoFeed(a: string, b: string)
    requires SameText(a, b) && '\n' !in b
    ensures '\n' !in a
  {
  }

  // ---- The scan ----

  lemma NoLineIsPlain(m: string, before: nat)
    requires before <= |m| && forall j :: 0 <= j < before ==> !EncodingLine(m, j)
    ensures !Encoded(m, before)
  {
    match LastCte(m, before)
    case None =>
    case Some(i) => CteAt(m, i);
  }

  lemma LastCteIs(m: string, i: nat, before: nat)
    requires i < before <= |m| && EncodingLine(m, i) && forall j :: i < j < before ==> !EncodingLine(m, j)
    ensures LastCte(m, before) == Some(i)
  {
    CteAt(m, i);
    match LastCte(m, before)
    case None =>
    case Some(k) => CteAt(m, k);
  }

  lemma LineIsThere(m: string, h: string, name: string, value: string, rest: string, before: nat)
    requires LastLine(m, h, name, value, rest, before)
    ensures EncodingLine(m, |h|) && LineStart(m, |h|)
  {
    PartsOf(m, h, name, value, rest);
  }

  lemma ValueOf(m: string, h: string, name: string, value: string, rest: string, before: nat)
    requires LastLine(m, h, name, value, rest, before)
    ensures var t := LineText(m, |h|);
      |t| > |name| && t[..|name|] == name && t[|name|] == ':' && Trim(t[|name| + 1..]) == Trim(value)
  {
    PartsOf(m, h, name, value, rest);
    EncodingIsLower();
    NoFeed(name, ENCODING);
    LineOf(m, |h|, name, value, rest);
  }

  lemma LineOf(m: string, i: nat, name: string, value: string, rest: string)
    requires i + |name| < |m| && m[i..] == name + (":" + value) + rest && m[i..i + |name|] == name && m[i + |name|] == ':'
    requires '\n' !in name && '\n' !in value && (rest == "" || rest[0] == '\n')
    ensures var t := LineText(m, i);
      |t| > |name| && t[..|name|] == name && t[|name|] == ':' && Trim(t[|name| + 1..]) == Trim(value)
  {
    var nl := if rest == "" then "" else "\n";
    LineEndIs(m, i, name + (":" + value), rest);
    var e := TrimEolCut(m[i..LineEnd(m, i)]);
    TrimmedLine(m, i, LineText(m, i), e, |name|);
    ValueBehind(LineText(m, i), e, name, value, nl);
  }

  lemma PartsOf(m: string, h: string, name: string, value: string, rest: string)
    requires m == h + (name + (":" + (value + rest)))
    ensures m[|h|..] == name + (":" + value) + rest
    ensures m[|h|..|h| + |name|] == name && m[|h| + |name|] == ':' && (h != "" ==> m[|h| - 1] == h[|h| - 1])
  {
  }

  lemma ValueBehind(t: string, e: string, name: string, value: string, nl: string)
    requires t + e == name + (":" + value) + nl && |t| > |name| && Blank(e) && Blank(nl)
    ensures t[..|name|] == name && Trim(t[|name| + 1..]) == Trim(value)
  {
    CutBehind(t, e, name, value, nl);
    SameTrimming(t[|name| + 1..], e, value, nl);
  }

  lemma CutBehind(t: string, e: string, name: string, value: string, nl: string)
    requires t + e == name + (":" + value) + nl && |t| > |name|
    ensures t[..|name|] == name && t[|name| + 1..] + e == value + nl
  {
    var n := |name| + 1;
    assert (t + e)[..|name|] == name && (t + e)[n..] == value + nl;
  }

  lemma SameTrimming(a: string, x: string, b: string, y: string)
    requires a + x == b + y && Blank(x) && Blank(y)
    ensures Trim(a) == Trim(b)
  {
    TrimBehind(a, x);
    TrimBehind(b, y);
  }

  lemma EncodedIff(m: string, h: string, name: string, value: string, rest: string, before: nat)
    requires LastLine(m, h, name, value, rest, before)
    ensures Encoded(m, before) <==> NamesEncoding(value)
  {
    LineIsThere(m, h, name, value, rest, before);
    ValueOf(m, h, name, value, rest, before);
    LastCteIs(m, |h|, before);
    DeclaresIff(LineText(m, |h|), name, value);
  }

  lemma DeclaresIff(t: string, name: string, value: string)
    requires |t| > |name| && t[..|name|] == name && t[|name|] == ':' && Trim(t[|name| + 1..]) == Trim(value)
    requires SameText(name, ENCODING)
    ensures DeclaresEncoding(t) <==> NamesEncoding(value)
  {
    ColonIs(t, name);
    ValueDeclares(t, |name|, Trim(value));
  }

  lemma ColonIs(t: string, name: string)
    requires |t| > |name| && t[..|name|] == name && t[|name|] == ':' && SameText(name, ENCODING)
    ensures IndexOf(t, ':') == |name|
  {
    EncodingIsLower();
    NoColon(name, ENCODING);
    assert forall k :: 0 <= k < |name| ==> t[k] == name[k];
    IndexOfIs(t, ':', |name|);
  }

  lemma ValueDeclares(t: string, k: nat, v: string)
    requires IndexOf(t, ':') == k < |t| && Trim(t[k + 1..]) == v
    ensures DeclaresEncoding(t) <==> SameText(v, "quoted-printable") || SameText(v, "base64")
  {
    BodyIs(t, k);
    EitherValue(v);
  }

  lemma BodyIs(t: string, k: nat)
    requires IndexOf(t, ':') == k < |t|
    ensures AfterColon(t) == t[k + 1..]
  {
  }

  lemma EitherValue(v: string)
    ensures IsEncoding(Lower(v)) <==> SameText(v, "quoted-printable") || SameText(v, "base64")
  {
    ValuesAreLower();
    SameTextIff(v, "quoted-printable");
    SameTextIff(v, "base64");
  }

  lemma NoColon(a: string, b: string)
    requires SameText(a, b) && ':' !in b
    ensures ':' !in a
  {
  }

  lemma ValuesAreLower()
    ensures Lower("quoted-printable") == "quoted-printable" && Lower("base64") == "base64"
  {
  }

  // ---- Where footer and pixel are put ----

  // No closing body tag in the message, in any letter case.
  ghost predicate NoTag(m: string) {
    !Occurs(m, "</body>")
  }

  // The message around its last closing body tag.
  ghost predicate LastTag(m: string, x: string, tag: string, y: string) {
    && m == x + (tag + y) && SameText(tag, "</body>")
    && forall j :: j > |x| ==> !OccursAt(m, "</body>", j)
  }

  lemma TagAt(m: string, j: int)
    ensures MatchAt(Lower(m), j, CLOSE_BODY) <==> OccursAt(m, "</body>", j)
  {
    OccursAtIff(m, "</body>", j);
    assert Lower("</body>") == "</body>" == CLOSE_BODY;
  }

  lemma TagIsFound(m: string, x: string, tag: string, y: string)
    requires LastTag(m, x, tag, y)
    ensures BodyTag(m) == Some(|x|) && m[..|x|] == x && m[|x|..] == tag + y
  {
    assert m[|x|..|x| + 7] == tag;
    assert OccursAt(m, "</body>", |x|);
    TagAt(m, |x|);
    match BodyTag(m)
    case None =>
    case Some(k) => TagAt(m, k);
  }

  lemma NoTagIsFound(m: string)
    requires NoTag(m)
    ensures BodyTag(m).None?
  {
    match BodyTag(m)
    case None =>
    case Some(k) => TagAt(m, k);
  }

  lemma HtmlIff(m: string)
    ensures LooksLikeHtml(m) <==> Occurs(m, "<html")
  {
    OccursIff(m, "<html");
    assert Lower("<html") == "<html";
  }

  // ---- What is put in, by the encoding of the part ----

  // The last encoding line before the closing body tag decides: a part in quoted-printable
  // or base64 is left as it is, any other gets footer and pixel right before the tag.
  lemma TaggedByEncoding(m: string, h: string, name: string, value: string, rest: string,
                         x: string, tag: string, y: string, html: string, pixel: string)
    requires LastTag(m, x, tag, y) && LastLine(m, h, name, value, rest, |x|) && !Blank(html)
    ensures NamesEncoding(value) ==> WithFooter(m, html) == m && WithPixel(m, pixel) == m
    ensures !NamesEncoding(value) ==>
              WithFooter(m, html) == x + (FOOTER_OPEN + html + "</div>" + (tag + y))
              && WithPixel(m, pixel) == x + (pixel + (tag + y))
  {
    TagIsFound(m, x, tag, y);
    EncodedIff(m, h, name, value, rest, |x|);
    BlankIff(html);
  }

  // Without such a line they are put in.
  lemma TaggedUnencoded(m: string, x: string, tag: string, y: string, html: string, pixel: string)
    requires LastTag(m, x, tag, y) && !Blank(html)
    requires forall j :: 0 <= j < |x| ==> !EncodingLine(m, j)
    ensures WithFooter(m, html) == x + (FOOTER_OPEN + html + "</div>" + (tag + y))
    ensures WithPixel(m, pixel) == x + (pixel + (tag + y))
  {
    TagIsFound(m, x, tag, y);
    NoLineIsPlain(m, |x|);
    BlankIff(html);
  }

  lemma TagOnItsOwn(tag: string)
    requires |tag| == 7 && SameText(tag, "</body>")
    ensures LastTag(tag, "", tag, "")
  {
    assert "" + (tag + "") == tag;
  }

  lemma FooterMarkup()
    ensures FOOTER_OPEN
         == "<div "
            + "class=\"domain-footer\" style=\"margin-top:24px;border-top:1px solid #e2e8f0;padding-top:12px;font-size:0.9em;color:#475569;line-height:1.4;\">"
  {
  }

  lemma FooterBefore(tag: string, html: string)
    requires |tag| == 7 && SameText(tag, "</body>") && !Blank(html)
    ensures WithFooter(tag, html) == FOOTER_OPEN + html + "</div>" + tag
  {
    TagOnItsOwn(tag);
    TaggedUnencoded(tag, "", tag, "", html, "");
    EmptyAround(FOOTER_OPEN + html + "</div>", tag);
  }

  lemma EmptyAround(a: string, b: string)
    ensures "" + (a + (b + "")) == a + b
  {
  }

  // The footer of a message that is nothing but a closing body tag.
  lemma FooterOnItsOwn(html: string)
    requires !Blank(html)
    ensures WithFooter("</body>", html)
         == "<div "
            + "class=\"domain-footer\" style=\"margin-top:24px;border-top:1px solid #e2e8f0;padding-top:12px;font-size:0.9em;color:#475569;line-height:1.4;\">"
            + html + "</div>" + "</body>"
  {
    FooterMarkup();
    FooterBefore("</body>", html);
  }

  lemma BlankIff(html: string)
    ensures IsBlank(html) <==> Blank(html)
  {
    if Blank(html) {
      TrimmedIs(html, "", "");
      assert html + "" + "" == html;
    }
    if IsBlank(html) {
      TrimIs(html);
      var a, b :| Blank(a) && Blank(b) && html == a + Trim(html) + b;
    }
  }

  // Without a closing body tag no pixel is put in, and the footer as plain text at the end,
  // unless the message is HTML, the footer has no text, or the last part is encoded.
  lemma UntaggedByEncoding(m: string, h: string, name: string, value: string, rest: string, html: string, pixel: string)
    requires NoTag(m) && LastLine(m, h, name, value, rest, |m|) && !Blank(html)
    ensures WithPixel(m, pixel) == m
    ensures WithFooter(m, html)
         == if Occurs(m, "<html") || PlainFooter(html) == "" || NamesEncoding(value) then m
            else m + ("\n\n-- \n" + PlainFooter(html))
  {
    NoTagIsFound(m);
    HtmlIff(m);
    EncodedIff(m, h, name, value, rest, |m|);
    BlankIff(html);
  }

  lemma UntaggedUnencoded(m: string, html: string, pixel: string)
    requires NoTag(m) && !Blank(html) && forall j :: 0 <= j < |m| ==> !EncodingLine(m, j)
    ensures WithPixel(m, pixel) == m
    ensures WithFooter(m, html)
         == if Occurs(m, "<html") || PlainFooter(html) == "" then m else m + ("\n\n-- \n" + PlainFooter(html))
  {
    NoTagIsFound(m);
    HtmlIff(m);
    NoLineIsPlain(m, |m|);
    BlankIff(html);
  }

  // A footer of white space is none.
  lemma BlankFooterIsNone(m: string, html: string)
    requires Blank(html)
    ensures WithFooter(m, html) == m
  {
    BlankIff(html);
  }

  // ---- The plain text of a footer ----

  lemma {:induction false} TextIsKept(a: string, b: string)
    requires '<' !in a && '>' !in a
    ensures Splice.Untagged(a + b, false) == a + Splice.Untagged(b, false)
    decreases |a|
  {
    if a == [] {
      assert a + b == b;
    } else {
      assert (a + b)[1..] == a[1..] + b;
      TextIsKept(a[1..], b);
    }
  }

  lemma {:induction false} TagIsDropped(t: string, b: string)
    requires '>' !in t
    ensures Splice.Untagged(t + (">" + b), true) == Splice.Untagged(b, false)
    ensures Splice.Untagged(t, true) == ""
    decreases |t|
  {
    var s := t + (">" + b);
    if t == [] {
      assert s[1..] == b;
    } else {
      assert s[1..] == t[1..] + (">" + b);
      TagIsDropped(t[1..], b);
    }
  }

  // Text outside of tags stays; a tag goes with its brackets, and an unclosed one with all
  // that follows; so does a bracket that closes nothing.
  lemma TagsAreDropped(a: string, t: string, b: string)
    requires '<' !in a && '>' !in a && '>' !in t
    ensures Splice.Untagged(a + ("<" + (t + (">" + b))), false) == a + Splice.Untagged(b, false)
    ensures Splice.Untagged(a + ("<" + t), false) == a
    ensures Splice.Untagged(a + (">" + b), false) == a + Splice.Untagged(b, false)
  {
    TextIsKept(a, "<" + (t + (">" + b)));
    TextIsKept(a, "<" + t);
    TextIsKept(a, ">" + b);
    TagIsDropped(t, b);
    assert ("<" + (t + (">" + b)))[1..] == t + (">" + b) && ("<" + t)[1..] == t && (">" + b)[1..] == b;
  }
}
