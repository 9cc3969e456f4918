/**
 * The input/output pairs the URL codec's unit tests assert, one lemma each.
 *
 * Evaluating a codec function on a long string literal in one step is beyond
 * what the verifier does cheaply, so the long example is cut into short
 * pieces: each piece is evaluated by a lemma of its own, the concatenation
 * lemmas of `Url` put the pieces back together, and a separate lemma checks
 * that the pieces spell the literal of the test.
 */
module UrlTests {
  import opened Wrappers
  import opened Ascii
  import opened Url

  /* quote_test and quote_plus_test */

  lemma QuoteSpace()
    ensures Quote("abc def") == "abc%20def"
  {
  }

  lemma QuotePlusSpace()
    ensures QuotePlus("abc def") == "abc+def"
  {
  }

  lemma QuoteWikipedia()
    ensures Quote("http://en.wikipedia.org/wiki/Percent encoding") == "http%3A//en.wikipedia.org/wiki/Percent%20encoding"
  {
    WikipediaQuotedPieces(false);
    WikipediaText();
    WikipediaEscapedText();
  }

  lemma QuotePlusWikipedia()
    ensures QuotePlus("http://en.wikipedia.org/wiki/Percent encoding") == "http%3A//en.wikipedia.org/wiki/Percent+encoding"
  {
    WikipediaQuotedPieces(true);
    WikipediaText();
    WikipediaPlusText();
  }

  /* unquote_test_regular and unquote_test_unregular */

  lemma UnquoteTwoEscapes()
    ensures Unquote("%20%30") == " 0"
  {
  }

  lemma UnquoteSpace()
    ensures Unquote("abc%20def") == "abc def"
  {
    AbcDefPieces();
    AbcKept(false);
    DefKept(false);
    EscapesUnquoted();
    UnquoteAppend("abc", "%20");
    UnquoteAppend("abc" + "%20", "def");
  }

  lemma UnquoteTrailingPercent()
    ensures Unquote("%20%30%") == " 0%"
  {
  }

  lemma UnquotePercentPercent()
    ensures Unquote("%%abc%20def") == "%\U{AB}c def"
  {
    PercentPercentPieces();
    PercentPercentUnquoted();
    EscapesUnquoted();
    DefKept(false);
    UnquoteAppend("%%ab" + "c", "%20");
    UnquoteAppend("%%ab" + "c" + "%20", "def");
  }

  lemma UnquoteWikipedia()
    ensures Unquote("http%3A//en.wikipedia.org/wiki/Percent%20encoding") == "http://en.wikipedia.org/wiki/Percent encoding"
  {
    WikipediaUnquotedPieces("%20");
    WikipediaEscapedText();
    WikipediaText();
  }

  lemma UnquoteMalformedEscape()
    ensures Unquote("http%3A//%4Hen.wikipedia.org/wiki/Percent%20encoding") == "http://%4Hen.wikipedia.org/wiki/Percent encoding"
  {
    MalformedUnquotedPieces();
    MalformedText();
  }

  /* unquote_plus_test_regular and unquote_plus_test_unregular */

  lemma UnquotePlusTwoEscapes()
    ensures UnquotePlus("%20%30") == " 0"
  {
  }

  lemma UnquotePlusWikipedia()
    ensures UnquotePlus("http%3A//en.wikipedia.org/wiki/Percent+encoding") == "http://en.wikipedia.org/wiki/Percent encoding"
  {
    WikipediaPlusText();
    WikipediaPlusToSpace();
    WikipediaUnquotedPieces(" ");
    WikipediaText();
  }

  lemma UnquotePlusSpace()
    ensures UnquotePlus("abc%20def") == "abc def"
  {
    var s := "abc%20def";
    PlusToSpaceWithoutPlus(s);
    UnquoteSpace();
  }

  lemma UnquotePlusTrailingPercent()
    ensures UnquotePlus("%20%30%") == " 0%"
  {
  }

  lemma UnquotePlusMalformedEscape()
    ensures UnquotePlus("http%3A//%4Hen.wikipedia.org/wiki/Percent%20encoding") == "http://%4Hen.wikipedia.org/wiki/Percent encoding"
  {
    MalformedPlusToSpace();
    MalformedText();
    UnquoteMalformedEscape();
  }

  lemma UnquotePlusPercentPercent()
    ensures UnquotePlus("%%abc+def") == "%\U{AB}c def"
  {
    PercentPercentPieces();
    PercentPercentUnquoted();
    EscapesUnquoted();
    DefKept(false);
    PlusToSpaceConcat("%%ab" + "c", "+");
    PlusToSpaceConcat("%%ab" + "c" + "+", "def");
    UnquoteAppend("%%ab" + "c", " ");
    UnquoteAppend("%%ab" + "c" + " ", "def");
  }

  lemma AbcKept(plus: bool) ensures Kept("abc", plus) { SafeKept("abc", plus); }
  lemma DefKept(plus: bool) ensures Kept("def", plus) { SafeKept("def", plus); }

  lemma AbcDefPieces()
    ensures "abc" + "%20" + "def" == "abc%20def"
    ensures "abc" + " " + "def" == "abc def"
  {
  }

  /** "%%ab" holds one escape, "%ab", after a '%' that starts none. */
  lemma PercentPercentUnquoted()
    ensures Unquote("%%ab" + "c") == "%\U{AB}c" && CleanEnd("%%ab" + "c")
    ensures PlusToSpace("%%ab" + "c") == "%%ab" + "c"
  {
    var s := "%%ab" + "c";
    assert s == "%%abc";
    assert !EscapeAt(s) by { assert HexValue(s[1]).None?; }
    assert s[1..] == "%abc";
    AbcEscapeUnquoted();
    assert Unquote(s) == "%" + "\U{AB}c";
    assert s[|s| - 1] == 'c' && s[|s| - 2] == 'b' && s[|s| - 3] == 'a';
  }

  lemma AbcEscapeUnquoted()
    ensures Unquote("%abc") == "\U{AB}c"
  {
    var s := "%abc";
    assert EscapeAt(s) && EscapedByte(s) == '\U{AB}';
    assert s[3..] == "c";
    assert Unquote("c") == "c";
  }

  lemma PercentPercentPieces()
    ensures "%%ab" + "c" + "%20" + "def" == "%%abc%20def"
    ensures "%%ab" + "c" + "+" + "def" == "%%abc+def"
    ensures "%\U{AB}c" + " " + "def" == "%\U{AB}c def"
  {
  }

  /* The pieces of the long example. */

  /** A piece of safe characters is kept by both quoting functions, by `unquote` and by the '+' step. */
  predicate Kept(s: string, plus: bool)
  {
    QuoteWith(s, plus) == s && Unquote(s) == s && CleanEnd(s) && PlusToSpace(s) == s
  }

  lemma SafeKept(s: string, plus: bool)
    requires forall i | 0 <= i < |s| :: IsSafe(s[i])
    ensures Kept(s, plus)
  {
    QuoteUnchanged(s);
    QuotePlusWithoutSpaces(s);
    assert forall i | 0 <= i < |s| :: s[i] != '%' && s[i] != '+';
    UnquoteWithoutPercent(s);
    PlusToSpaceWithoutPlus(s);
  }

  lemma HttpKept(plus: bool) ensures Kept("http", plus) { SafeKept("http", plus); }
  lemma SlashesKept(plus: bool) ensures Kept("//", plus) { SafeKept("//", plus); }
  lemma EnKept(plus: bool) ensures Kept("en.wiki", plus) { SafeKept("en.wiki", plus); }
  lemma HostKept(plus: bool) ensures Kept("//en.wiki", plus) { SafeKept("//en.wiki", plus); }
  lemma DomainKept(plus: bool) ensures Kept("pedia.org", plus) { SafeKept("pedia.org", plus); }
  lemma WikiKept(plus: bool) ensures Kept("/wiki/Per", plus) { SafeKept("/wiki/Per", plus); }
  lemma CentKept(plus: bool) ensures Kept("cent", plus) { SafeKept("cent", plus); }
  lemma EncodingKept(plus: bool) ensures Kept("encoding", plus) { SafeKept("encoding", plus); }

  lemma ColonQuoted(plus: bool)
    ensures QuoteWith(":", plus) == "%3A"
  {
    assert Escape(':') == "%3A";
    assert QuoteWith(":", plus) == QuoteChar(':', plus) + QuoteWith([], plus);
  }

  lemma SpaceQuoted(plus: bool)
    ensures QuoteWith(" ", plus) == (if plus then "+" else "%20")
  {
    assert Escape(' ') == "%20";
    assert QuoteWith(" ", plus) == QuoteChar(' ', plus) + QuoteWith([], plus);
  }

  /** The escapes of the example, and the space and '+' that stand for one. */
  lemma EscapesUnquoted()
    ensures Unquote("%3A") == ":" && CleanEnd("%3A") && PlusToSpace("%3A") == "%3A"
    ensures Unquote("%20") == " " && CleanEnd("%20") && PlusToSpace("%20") == "%20"
    ensures Unquote(" ") == " " && CleanEnd(" ") && PlusToSpace("+") == " "
    ensures Unquote("%4H") == "%4H" && CleanEnd("%4H") && PlusToSpace("%4H") == "%4H"
  {
    ColonEscapeUnquoted();
    SpaceEscapeUnquoted();
    SpaceUnquoted();
    MalformedEscapeUnquoted();
  }

  lemma ColonEscapeUnquoted()
    ensures Unquote("%3A") == ":" && CleanEnd("%3A") && PlusToSpace("%3A") == "%3A"
  {
    var s := "%3A";
    assert EscapeAt(s) && EscapedByte(s) == ':';
    assert s[3..] == [];
  }

  lemma SpaceEscapeUnquoted()
    ensures Unquote("%20") == " " && CleanEnd("%20") && PlusToSpace("%20") == "%20"
  {
    var s := "%20";
    assert EscapeAt(s) && EscapedByte(s) == ' ';
    assert s[3..] == [];
  }

  lemma SpaceUnquoted()
    ensures Unquote(" ") == " " && CleanEnd(" ") && PlusToSpace("+") == " "
  {
    assert !EscapeAt(" ");
  }

  lemma MalformedEscapeUnquoted()
    ensures Unquote("%4H") == "%4H" && CleanEnd("%4H") && PlusToSpace("%4H") == "%4H"
  {
    var s := "%4H";
    assert !EscapeAt(s) by { assert HexValue(s[2]).None?; }
    assert s[1..] == "4H";
    UnquoteWithoutPercent("4H");
  }

  /** `unquote` of two pieces that end cleanly, and the pair ends cleanly. */
  lemma UnquoteAppend(a: string, b: string)
    requires CleanEnd(a) && CleanEnd(b)
    ensures Unquote(a + b) == Unquote(a) + Unquote(b) && CleanEnd(a + b)
  {
    UnquoteConcat(a, b);
    CleanEndConcat(a, b);
  }

  lemma WikipediaQuotedPieces(plus: bool)
    ensures QuoteWith("http" + ":" + "//en.wiki" + "pedia.org" + "/wiki/Per" + "cent" + " " + "encoding", plus)
         == "http" + "%3A" + "//en.wiki" + "pedia.org" + "/wiki/Per" + "cent" + (if plus then "+" else "%20") + "encoding"
  {
    var p1, p2, p3, p4, p5, p6, p7, p8 := "http", ":", "//en.wiki", "pedia.org", "/wiki/Per", "cent", " ", "encoding";
    HttpKept(plus);
    ColonQuoted(plus);
    HostKept(plus);
    DomainKept(plus);
    WikiKept(plus);
    CentKept(plus);
    SpaceQuoted(plus);
    EncodingKept(plus);
    QuoteConcat(p1, p2, plus);
    QuoteConcat(p1 + p2, p3, plus);
    QuoteConcat(p1 + p2 + p3, p4, plus);
    QuoteConcat(p1 + p2 + p3 + p4, p5, plus);
    QuoteConcat(p1 + p2 + p3 + p4 + p5, p6, plus);
    QuoteConcat(p1 + p2 + p3 + p4 + p5 + p6, p7, plus);
    QuoteConcat(p1 + p2 + p3 + p4 + p5 + p6 + p7, p8, plus);
  }

  /** The example with its space written as `sp` (escaped or as itself), unquoted piece by piece. */
  lemma WikipediaUnquotedPieces(sp: string)
    requires sp == "%20" || sp == " "
    ensures Unquote("http" + "%3A" + "//en.wiki" + "pedia.org" + "/wiki/Per" + "cent" + sp + "encoding")
         == "http" + ":" + "//en.wiki" + "pedia.org" + "/wiki/Per" + "cent" + " " + "encoding"
  {
    HttpKept(false);
    HostKept(false);
    DomainKept(false);
    WikiKept(false);
    CentKept(false);
    EncodingKept(false);
    EscapesUnquoted();
    UnquoteEight("http", "%3A", "//en.wiki", "pedia.org", "/wiki/Per", "cent", sp, "encoding");
  }

  /** `unquote` of eight pieces that each end cleanly, piece by piece. */
  lemma UnquoteEight(p1: string, p2: string, p3: string, p4: string, p5: string, p6: string, p7: string, p8: string)
    requires CleanEnd(p1) && CleanEnd(p2) && CleanEnd(p3) && CleanEnd(p4)
    requires CleanEnd(p5) && CleanEnd(p6) && CleanEnd(p7) && CleanEnd(p8)
    ensures Unquote(p1 + p2 + p3 + p4 + p5 + p6 + p7 + p8)
         == Unquote(p1) + Unquote(p2) + Unquote(p3) + Unquote(p4) + Unquote(p5) + Unquote(p6) + Unquote(p7) + Unquote(p8)
  {
    UnquoteAppend(p1, p2);
    UnquoteAppend(p1 + p2, p3);
    UnquoteAppend(p1 + p2 + p3, p4);
    UnquoteAppend(p1 + p2 + p3 + p4, p5);
    UnquoteAppend(p1 + p2 + p3 + p4 + p5, p6);
    UnquoteAppend(p1 + p2 + p3 + p4 + p5 + p6, p7);
    UnquoteAppend(p1 + p2 + p3 + p4 + p5 + p6 + p7, p8);
  }

  /** The '+' of the example read as a space, piece by piece. */
  lemma WikipediaPlusToSpace()
    ensures PlusToSpace("http" + "%3A" + "//en.wiki" + "pedia.org" + "/wiki/Per" + "cent" + "+" + "encoding")
         == "http" + "%3A" + "//en.wiki" + "pedia.org" + "/wiki/Per" + "cent" + " " + "encoding"
  {
    var p1, p2, p3, p4, p5, p6, p7, p8 := "http", "%3A", "//en.wiki", "pedia.org", "/wiki/Per", "cent", "+", "encoding";
    HttpKept(false);
    HostKept(false);
    DomainKept(false);
    WikiKept(false);
    CentKept(false);
    EncodingKept(false);
    EscapesUnquoted();
    PlusToSpaceConcat(p1, p2);
    PlusToSpaceConcat(p1 + p2, p3);
    PlusToSpaceConcat(p1 + p2 + p3, p4);
    PlusToSpaceConcat(p1 + p2 + p3 + p4, p5);
    PlusToSpaceConcat(p1 + p2 + p3 + p4 + p5, p6);
    PlusToSpaceConcat(p1 + p2 + p3 + p4 + p5 + p6, p7);
    PlusToSpaceConcat(p1 + p2 + p3 + p4 + p5 + p6 + p7, p8);
  }

  /** The example with the malformed escape "%4H" after the "//", unquoted piece by piece. */
  lemma MalformedUnquotedPieces()
    ensures Unquote("http" + "%3A" + "//" + "%4H" + "en.wiki" + "pedia.org" + "/wiki/Per" + "cent" + "%20" + "encoding")
         == "http" + ":" + "//" + "%4H" + "en.wiki" + "pedia.org" + "/wiki/Per" + "cent" + " " + "encoding"
  {
    var p1, p2, p3, p4, p5, p6, p7, p8, p9, p10 := "http", "%3A", "//", "%4H", "en.wiki", "pedia.org", "/wiki/Per", "cent", "%20", "encoding";
    HttpKept(false);
    SlashesKept(false);
    EnKept(false);
    DomainKept(false);
    WikiKept(false);
    CentKept(false);
    EncodingKept(false);
    EscapesUnquoted();
    UnquoteAppend(p1, p2);
    UnquoteAppend(p1 + p2, p3);
    UnquoteAppend(p1 + p2 + p3, p4);
    UnquoteAppend(p1 + p2 + p3 + p4, p5);
    UnquoteAppend(p1 + p2 + p3 + p4 + p5, p6);
    UnquoteAppend(p1 + p2 + p3 + p4 + p5 + p6, p7);
    UnquoteAppend(p1 + p2 + p3 + p4 + p5 + p6 + p7, p8);
    UnquoteAppend(p1 + p2 + p3 + p4 + p5 + p6 + p7 + p8, p9);
    UnquoteAppend(p1 + p2 + p3 + p4 + p5 + p6 + p7 + p8 + p9, p10);
  }

  /** The malformed example holds no '+'. */
  lemma MalformedPlusToSpace()
    ensures PlusToSpace("http" + "%3A" + "//" + "%4H" + "en.wiki" + "pedia.org" + "/wiki/Per" + "cent" + "%20" + "encoding")
         == "http" + "%3A" + "//" + "%4H" + "en.wiki" + "pedia.org" + "/wiki/Per" + "cent" + "%20" + "encoding"
  {
    var p1, p2, p3, p4, p5, p6, p7, p8, p9, p10 := "http", "%3A", "//", "%4H", "en.wiki", "pedia.org", "/wiki/Per", "cent", "%20", "encoding";
    HttpKept(false);
    SlashesKept(false);
    EnKept(false);
    DomainKept(false);
    WikiKept(false);
    CentKept(false);
    EncodingKept(false);
    EscapesUnquoted();
    PlusToSpaceConcat(p1, p2);
    PlusToSpaceConcat(p1 + p2, p3);
    PlusToSpaceConcat(p1 + p2 + p3, p4);
    PlusToSpaceConcat(p1 + p2 + p3 + p4, p5);
    PlusToSpaceConcat(p1 + p2 + p3 + p4 + p5, p6);
    PlusToSpaceConcat(p1 + p2 + p3 + p4 + p5 + p6, p7);
    PlusToSpaceConcat(p1 + p2 + p3 + p4 + p5 + p6 + p7, p8);
    PlusToSpaceConcat(p1 + p2 + p3 + p4 + p5 + p6 + p7 + p8, p9);
    PlusToSpaceConcat(p1 + p2 + p3 + p4 + p5 + p6 + p7 + p8 + p9, p10);
  }

  /** The pieces spell the example. */
  lemma WikipediaText()
    ensures "http" + ":" + "//en.wiki" + "pedia.org" + "/wiki/Per" + "cent" + " " + "encoding"
         == "http://en.wikipedia.org/wiki/Percent encoding"
  {
    assert "http" + ":" == "http:";
    assert "http:" + "//en.wiki" == "http://en.wiki";
    assert "http://en.wiki" + "pedia.org" == "http://en.wikipedia.org";
    assert "http://en.wikipedia.org" + "/wiki/Per" == "http://en.wikipedia.org/wiki/Per";
    assert "http://en.wikipedia.org/wiki/Per" + "cent" == "http://en.wikipedia.org/wiki/Percent";
    assert "http://en.wikipedia.org/wiki/Percent" + " " == "http://en.wikipedia.org/wiki/Percent ";
    assert "http://en.wikipedia.org/wiki/Percent " + "encoding" == "http://en.wikipedia.org/wiki/Percent encoding";
  }

  /** The pieces spell the example quoted. */
  lemma WikipediaEscapedText()
    ensures "http" + "%3A" + "//en.wiki" + "pedia.org" + "/wiki/Per" + "cent" + "%20" + "encoding"
         == "http%3A//en.wikipedia.org/wiki/Percent%20encoding"
  {
    QuotedHeadText();
    assert "http%3A//en.wikipedia.org/wiki/Percent" + "%20" == "http%3A//en.wikipedia.org/wiki/Percent%20";
    assert "http%3A//en.wikipedia.org/wiki/Percent%20" + "encoding" == "http%3A//en.wikipedia.org/wiki/Percent%20encoding";
  }

  /** The pieces spell the example quoted with '+' for the space. */
  lemma WikipediaPlusText()
    ensures "http" + "%3A" + "//en.wiki" + "pedia.org" + "/wiki/Per" + "cent" + "+" + "encoding"
         == "http%3A//en.wikipedia.org/wiki/Percent+encoding"
  {
    QuotedHeadText();
    assert "http%3A//en.wikipedia.org/wiki/Percent" + "+" == "http%3A//en.wikipedia.org/wiki/Percent+";
    assert "http%3A//en.wikipedia.org/wiki/Percent+" + "encoding" == "http%3A//en.wikipedia.org/wiki/Percent+encoding";
  }

  lemma QuotedHeadText()
    ensures "http" + "%3A" + "//en.wiki" + "pedia.org" + "/wiki/Per" + "cent" == "http%3A//en.wikipedia.org/wiki/Percent"
  {
    assert "http" + "%3A" == "http%3A";
    assert "http%3A" + "//en.wiki" == "http%3A//en.wiki";
    assert "http%3A//en.wiki" + "pedia.org" == "http%3A//en.wikipedia.org";
    assert "http%3A//en.wikipedia.org" + "/wiki/Per" == "http%3A//en.wikipedia.org/wiki/Per";
    assert "http%3A//en.wikipedia.org/wiki/Per" + "cent" == "http%3A//en.wikipedia.org/wiki/Percent";
  }

  /** The pieces spell the malformed example, before and after unquoting. */
  lemma MalformedText()
    ensures "http" + "%3A" + "//" + "%4H" + "en.wiki" + "pedia.org" + "/wiki/Per" + "cent" + "%20" + "encoding"
         == "http%3A//%4Hen.wikipedia.org/wiki/Percent%20encoding"
    ensures "http" + ":" + "//" + "%4H" + "en.wiki" + "pedia.org" + "/wiki/Per" + "cent" + " " + "encoding"
         == "http://%4Hen.wikipedia.org/wiki/Percent encoding"
  {
    MalformedEscapedText();
    MalformedUnescapedText();
  }

  lemma MalformedEscapedText()
    ensures "http" + "%3A" + "//" + "%4H" + "en.wiki" + "pedia.org" + "/wiki/Per" + "cent" + "%20" + "encoding"
         == "http%3A//%4Hen.wikipedia.org/wiki/Percent%20encoding"
  {
    assert "http" + "%3A" == "http%3A";
    assert "http%3A" + "//" == "http%3A//";
    assert "http%3A//" + "%4H" == "http%3A//%4H";
    assert "http%3A//%4H" + "en.wiki" == "http%3A//%4Hen.wiki";
    assert "http%3A//%4Hen.wiki" + "pedia.org" == "http%3A//%4Hen.wikipedia.org";
    assert "http%3A//%4Hen.wikipedia.org" + "/wiki/Per" == "http%3A//%4Hen.wikipedia.org/wiki/Per";
    assert "http%3A//%4Hen.wikipedia.org/wiki/Per" + "cent" == "http%3A//%4Hen.wikipedia.org/wiki/Percent";
    assert "http%3A//%4Hen.wikipedia.org/wiki/Percent" + "%20" == "http%3A//%4Hen.wikipedia.org/wiki/Percent%20";
    assert "http%3A//%4Hen.wikipedia.org/wiki/Percent%20" + "encoding" == "http%3A//%4Hen.wikipedia.org/wiki/Percent%20encoding";
  }

  lemma MalformedUnescapedText()
    ensures "http" + ":" + "//" + "%4H" + "en.wiki" + "pedia.org" + "/wiki/Per" + "cent" + " " + "encoding"
         == "http://%4Hen.wikipedia.org/wiki/Percent encoding"
  {
    assert "http" + ":" == "http:";
    assert "http:" + "//" == "http://";
    assert "http://" + "%4H" == "http://%4H";
    assert "http://%4H" + "en.wiki" == "http://%4Hen.wiki";
    assert "http://%4Hen.wiki" + "pedia.org" == "http://%4Hen.wikipedia.org";
    assert "http://%4Hen.wikipedia.org" + "/wiki/Per" == "http://%4Hen.wikipedia.org/wiki/Per";
    assert "http://%4Hen.wikipedia.org/wiki/Per" + "cent" == "http://%4Hen.wikipedia.org/wiki/Percent";
    assert "http://%4Hen.wikipedia.org/wiki/Percent" + " " == "http://%4Hen.wikipedia.org/wiki/Percent ";
    assert "http://%4Hen.wikipedia.org/wiki/Percent " + "encoding" == "http://%4Hen.wikipedia.org/wiki/Percent encoding";
  }

  /* url_decode_* and url_decode_map_* */

  lemma DecodeEmpty()
    ensures Decode("") == []
  {
  }

  lemma DecodeEmptyValues()
    ensures Decode("foo=&bar=+") == [["foo", ""], ["bar", " "]]
  {
    QueryPieces("foo=", "bar=+", "foo=&bar=+");
    FooEmptyItem();
    BarSpaceItem();
  }

  lemma DecodeCommon()
    ensures Decode("foo=bar&ba+=+baz+") == [["foo", "bar"], ["ba ", " baz "]]
  {
    QueryPieces("foo=bar", "ba+=+baz+", "foo=bar&ba+=+baz+");
    FooBarItem();
    BazItem();
  }

  lemma DecodeBareKey()
    ensures Decode("foo&ba+=+baz+") == [["foo"], ["ba ", " baz "]]
  {
    QueryPieces("foo", "ba+=+baz+", "foo&ba+=+baz+");
    FooItem();
    BazItem();
  }

  lemma DecodeMapEmpty()
    ensures DecodeMap("") == map[]
  {
  }

  lemma DecodeMapCommon()
    ensures DecodeMap("foo=bar&ba+=+baz+") == map["foo" := "bar", "ba " := " baz "]
  {
    DecodeCommon();
    CommonMap();
  }

  lemma CommonMap()
    ensures ToMap([["foo", "bar"], ["ba ", " baz "]]) == map["foo" := "bar", "ba " := " baz "]
  {
    TwoItemsMap(["foo", "bar"], ["ba ", " baz "]);
  }

  lemma DecodeMapBareKey()
    ensures DecodeMap("foo&ba+=+baz+") == map["foo" := "", "ba " := " baz "]
  {
    DecodeBareKey();
    BareKeyMap();
  }

  lemma BareKeyMap()
    ensures ToMap([["foo"], ["ba ", " baz "]]) == map["foo" := "", "ba " := " baz "]
  {
    TwoItemsMap(["foo"], ["ba ", " baz "]);
  }

  /** A query string of two items, the pieces spelled out. */
  lemma QueryPieces(a: string, b: string, s: string)
    requires a == "foo=" || a == "foo=bar" || a == "foo"
    requires b == "bar=+" || b == "ba+=+baz+"
    requires s == a + "&" + b
    ensures Decode(s) == [DecodeItem(a), DecodeItem(b)]
  {
    NoAmpersand(a, b);
    DecodeTwo(a, b);
  }

  /** Two pieces without '&', joined by one, decode to their two items. */
  lemma DecodeTwo(a: string, b: string)
    requires '&' !in a && '&' !in b
    ensures Decode(a + "&" + b) == [DecodeItem(a), DecodeItem(b)]
  {
    var pieces := [a, b];
    assert Join(pieces, '&') == a + "&" + b;
    SplitJoin(pieces, '&');
  }

  lemma NoAmpersand(a: string, b: string)
    requires a == "foo=" || a == "foo=bar" || a == "foo"
    requires b == "bar=+" || b == "ba+=+baz+"
    ensures '&' !in a && '&' !in b
  {
  }

  /** A key and a value, the key without '='. */
  lemma DecodePair(k: string, v: string)
    requires '=' !in k
    ensures DecodeItem(k + "=" + v) == [UnquotePlus(k), UnquotePlus(v)]
  {
    IndexOfAfter(k, '=', v);
    var s := k + "=" + v;
    assert s[..|k|] == k && s[|k| + 1..] == v;
  }

  lemma FooKept(plus: bool) ensures Kept("foo", plus) { SafeKept("foo", plus); }
  lemma BarKept(plus: bool) ensures Kept("bar", plus) { SafeKept("bar", plus); }
  lemma BaKept(plus: bool) ensures Kept("ba", plus) { SafeKept("ba", plus); }

  lemma FooEmptyItem()
    ensures DecodeItem("foo=") == ["foo", ""]
  {
    assert "foo=" == "foo" + "=" + "";
    DecodePair("foo", "");
    FooKept(false);
  }

  lemma BarSpaceItem()
    ensures DecodeItem("bar=+") == ["bar", " "]
  {
    assert "bar=+" == "bar" + "=" + "+";
    DecodePair("bar", "+");
    BarKept(false);
    assert UnquotePlus("+") == " ";
  }

  lemma FooBarItem()
    ensures DecodeItem("foo=bar") == ["foo", "bar"]
  {
    assert "foo=bar" == "foo" + "=" + "bar";
    DecodePair("foo", "bar");
    FooKept(false);
    BarKept(false);
  }

  lemma BazItem()
    ensures DecodeItem("ba+=+baz+") == ["ba ", " baz "]
  {
    assert "ba+=+baz+" == "ba+" + "=" + "+baz+";
    DecodePair("ba+", "+baz+");
    BazUnquoted();
  }

  lemma BazUnquoted()
    ensures UnquotePlus("ba+") == "ba " && UnquotePlus("+baz+") == " baz "
  {
    BaSpaceUnquoted();
    SpacedBazUnquoted();
  }

  lemma BaSpaceUnquoted()
    ensures UnquotePlus("ba+") == "ba "
  {
    assert PlusToSpace("ba+") == "ba ";
    UnquoteWithoutPercent("ba ");
  }

  lemma SpacedBazUnquoted()
    ensures UnquotePlus("+baz+") == " baz "
  {
    assert PlusToSpace("+baz+") == " baz ";
    UnquoteWithoutPercent(" baz ");
  }

  lemma FooItem()
    ensures DecodeItem("foo") == ["foo"]
  {
    FooKept(false);
  }

  /** Two items with different keys, as a map. */
  lemma TwoItemsMap(x: Item, y: Item)
    requires Key(x) != Key(y)
    ensures ToMap([x, y]) == map[Key(x) := Value(x), Key(y) := Value(y)]
  {
    ToMapLastWins([x], y);
    ToMapLastWins([], x);
    assert [] + [x] == [x];
  }

  /* url_encode_* */

  lemma EncodeCommon()
    ensures Encode([["foo", "bar"], ["  foo  ", "ba@"]]) == Success("foo=bar&++foo++=ba%40")
  {
    var items: seq<Item> := [["foo", "bar"], ["  foo  ", "ba@"]];
    assert EncodeAll(items) == [EncodeItem(items[0]), EncodeItem(items[1])];
    FooBarEncoded();
    SpacedFooEncoded();
    assert Join(["foo=bar", "++foo++=ba%40"], '&') == "foo=bar" + "&" + "++foo++=ba%40";
    EncodedText();
  }

  lemma EncodedText()
    ensures "foo=bar" + "&" + "++foo++=ba%40" == "foo=bar&++foo++=ba%40"
  {
  }

  lemma FooBarEncoded()
    ensures EncodeItem(["foo", "bar"]) == "foo=bar"
  {
    FooKept(true);
    BarKept(true);
  }

  lemma SpacedFooEncoded()
    ensures EncodeItem(["  foo  ", "ba@"]) == "++foo++=ba%40"
  {
    SpacedFooQuoted();
    BaAtQuoted();
  }

  lemma SpacedFooQuoted()
    ensures QuotePlus("  foo  ") == "++foo++"
  {
    FooKept(true);
    SpacesQuoted();
    QuoteConcat("  ", "foo", true);
    QuoteConcat("  " + "foo", "  ", true);
    SpacedFooPieces();
  }

  lemma SpacesQuoted()
    ensures QuotePlus("  ") == "++"
  {
  }

  lemma SpacedFooPieces()
    ensures "  " + "foo" + "  " == "  foo  " && "++" + "foo" + "++" == "++foo++"
  {
  }

  lemma BaAtQuoted()
    ensures QuotePlus("ba@") == "ba%40"
  {
    var k := "ba";
    BaKept(true);
    assert Escape('@') == "%40";
    assert QuotePlus("@") == "%40";
    QuoteConcat(k, "@", true);
    assert k + "@" == "ba@";
  }

  /** The map of the same test, encoded in whatever order, decodes back to itself. */
  lemma EncodeMapCommon()
    ensures DecodeMap(EncodeMap(map["foo" := "bar", "  foo  " := "ba@"]).value) == map["foo" := "bar", "  foo  " := "ba@"]
  {
    DecodeMapEncodeMap(map["foo" := "bar", "  foo  " := "ba@"]);
  }

  lemma EncodeEmpty()
    ensures Encode([]) == Success("")
    ensures EncodeMap(map[]) == Success("")
  {
  }

  lemma EncodeRejectsTooManyStrings()
    ensures Encode([["foo", "bar"], ["  foo  "], ["a", "b", "c"]]) == Failure(URLEncodeError)
  {
  }

  lemma EncodeRejectsEmptyItem()
    ensures Encode([[], ["  foo  "], ["a", "b", "c"]]) == Failure(URLEncodeError)
  {
  }
}
