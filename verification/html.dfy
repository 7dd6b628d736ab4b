/** Writing a stored url into the `href` attribute of the board's source
    link (`sourceHtml` in board/board.js), and how a browser reads the
    attribute back: the character references `&quot;` and `&amp;` stand for
    `"` and `&`. */
module Html {

  /** The code's escaping, `s.replace(/"/g, '&quot;')`: quotes only. */
  function EscapeQuotes(s: string): (r: string)
    ensures '"' !in r
    ensures |r| >= |s|
  {
    if s == [] then []
    else (if s[0] == '"' then "&quot;" else [s[0]]) + EscapeQuotes(s[1..])
  }

  /** The escaping an attribute value needs: `&` as well as `"`. */
  function EscapeAttribute(s: string): (r: string)
    ensures '"' !in r
    ensures |r| >= |s|
  {
    if s == [] then [] else EscapeChar(s[0]) + EscapeAttribute(s[1..])
  }

  /** The text `EscapeAttribute` writes for one character. */
  function EscapeChar(c: char): (r: string)
    ensures '"' !in r && |r| >= 1
  {
    if c == '"' then "&quot;" else if c == '&' then "&amp;" else [c]
  }

  /** The attribute value a browser sees, for the two references above;
      every other character stands for itself. */
  function DecodeReferences(s: string): (r: string)
    ensures |r| <= |s|
  {
    if s == [] then []
    else if |s| >= 6 && s[..6] == "&quot;" then ['"'] + DecodeReferences(s[6..])
    else if |s| >= 5 && s[..5] == "&amp;" then ['&'] + DecodeReferences(s[5..])
    else [s[0]] + DecodeReferences(s[1..])
  }

  /** With `&` escaped too, the browser reads back exactly the stored url. */
  lemma {:induction false} EscapeAttributeRoundTrip(s: string)
    ensures DecodeReferences(EscapeAttribute(s)) == s
  {
    if s != [] {
      EscapeAttributeRoundTrip(s[1..]);
      DecodeChar(s[0], EscapeAttribute(s[1..]));
      assert s == [s[0]] + s[1..];
    }
  }

  /** A browser reads one escaped character back, whatever follows it. */
  lemma DecodeChar(c: char, rest: string)
    ensures DecodeReferences(EscapeChar(c) + rest) == [c] + DecodeReferences(rest)
  {
    if c == '"' {
      DecodeQuote(rest);
    } else if c == '&' {
      DecodeAmpersand(rest);
    } else {
      DecodePlain(c, rest);
    }
  }

  lemma DecodeQuote(rest: string)
    ensures DecodeReferences("&quot;" + rest) == ['"'] + DecodeReferences(rest)
  {
    var e := "&quot;" + rest;
    assert e[..6] == "&quot;" && e[6..] == rest;
  }

  lemma DecodeAmpersand(rest: string)
    ensures DecodeReferences("&amp;" + rest) == ['&'] + DecodeReferences(rest)
  {
    var e := "&amp;" + rest;
    assert !(|e| >= 6 && e[..6] == "&quot;") by {
      if |e| >= 6 { assert e[1] == 'a'; }
    }
    assert e[..5] == "&amp;" && e[5..] == rest;
  }

  lemma DecodePlain(c: char, rest: string)
    requires c != '&'
    ensures DecodeReferences([c] + rest) == [c] + DecodeReferences(rest)
  {
    var e := [c] + rest;
    assert e[0] == c && e[1..] == rest;
  }

  /** Different urls give different attribute values. */
  lemma EscapeAttributeInjective(a: string, b: string)
    ensures EscapeAttribute(a) == EscapeAttribute(b) <==> a == b
  {
    EscapeAttributeRoundTrip(a);
    EscapeAttributeRoundTrip(b);
  }

  /** With quotes alone escaped, the stored url `&quot;` and the stored url
      `"` give the same attribute value, and the link to the first leads to
      the second. */
  lemma QuoteReferenceCollides()
    ensures EscapeQuotes("&quot;") == EscapeQuotes("\"")
    ensures DecodeReferences(EscapeQuotes("&quot;")) == "\""
  {
    var q := "\"";
    assert EscapeQuotes(q) == "&quot;" + EscapeQuotes(q[1..]);
    NoQuoteUnchanged("&quot;");
    DecodeQuote([]);
    assert "&quot;" + [] == "&quot;";
  }

  /** Escaping quotes alone is read back correctly as long as the url holds
      no `&`. */
  lemma {:induction false} EscapeQuotesRoundTrip(s: string)
    requires '&' !in s
    ensures DecodeReferences(EscapeQuotes(s)) == s
  {
    if s != [] {
      EscapeQuotesRoundTrip(s[1..]);
      if s[0] == '"' {
        DecodeQuote(EscapeQuotes(s[1..]));
      } else {
        DecodePlain(s[0], EscapeQuotes(s[1..]));
      }
      assert s == [s[0]] + s[1..];
    }
  }

  /** A string without quotes is left as it is by the code's escaping. */
  lemma {:induction false} NoQuoteUnchanged(s: string)
    requires '"' !in s
    ensures EscapeQuotes(s) == s
  {
    if s != [] {
      NoQuoteUnchanged(s[1..]);
      assert s == [s[0]] + s[1..];
    }
  }
}
