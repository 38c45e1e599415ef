/** Finding a page's title in the token stream of an HTML tokenizer, as both
    scrapeTitle functions do (map-builder.go, feed-producer.go), and the
    content-type test that guards it. */
module HtmlTitle {
  import opened Records

  /** The kinds of token golang.org/x/net/html yields. */
  datatype TokenKind = ErrorToken | TextToken | StartTagToken | EndTagToken
                     | SelfClosingTagToken | CommentToken | DoctypeToken

  /** A token: its kind and its Data (the tag name or the text). */
  datatype Token = Token(kind: TokenKind, data: string)

  /** The token the tokenizer yields at position k: past the end of the
      stream it yields ErrorToken (io.EOF). */
  function At(tokens: seq<Token>, k: nat): Token
  {
    if k < |tokens| then tokens[k] else Token(ErrorToken, "")
  }

  /** What fetching an address returned: an error, or the response with the
      final URL after redirects, its Content-Type header and its body as the
      tokenizer splits it. */
  datatype Fetch = FetchError | Response(finalUrl: string, contentType: string, body: seq<Token>)

  /** The title-finding loop from position k with the flag `titleIsNext`:
      the first text token once the flag is set wins, a start tag named
      "title" sets the flag (and nothing clears it), an error token ends the
      search with no title. A title it returns is the text of some token at
      or after k, and without the flag it needs a title start tag at or after k. */
  function Scan(tokens: seq<Token>, k: nat, titleIsNext: bool): (r: Option<string>)
    ensures r.Some? ==> exists m :: k <= m < |tokens| && tokens[m].kind == TextToken && tokens[m].data == r.value
    ensures r.Some? && !titleIsNext ==>
      exists m :: k <= m < |tokens| && tokens[m].kind == StartTagToken && tokens[m].data == "title"
    decreases |tokens| - k
  {
    if k >= |tokens| then None
    else
      var t := tokens[k];
      if t.kind == ErrorToken then None
      else if t.kind == StartTagToken then Scan(tokens, k + 1, titleIsNext || t.data == "title")
      else if titleIsNext && t.kind == TextToken then Some(t.data)
      else Scan(tokens, k + 1, titleIsNext)
  }

  /** The title the loop finds in a whole stream, if any. */
  function FindTitle(tokens: seq<Token>): Option<string>
  {
    Scan(tokens, 0, false)
  }

  /** The title, or "" when the stream ends first. */
  function TitleOrEmpty(tokens: seq<Token>): string
  {
    match FindTitle(tokens)
    case Some(t) => t
    case None => ""
  }

  // ---------------------------------------------------------------------------
  // A declarative description of the title, and its agreement with the loop
  // ---------------------------------------------------------------------------

  /** Some start tag named "title" occurs before position k. */
  ghost predicate TitleTagBefore(tokens: seq<Token>, k: nat)
    requires k <= |tokens|
  {
    exists j :: 0 <= j < k && tokens[j].kind == StartTagToken && tokens[j].data == "title"
  }

  /** Position k holds a text token that comes after a title start tag. */
  ghost predicate TextAfterTitle(tokens: seq<Token>, k: int)
  {
    0 <= k < |tokens| && tokens[k].kind == TextToken && TitleTagBefore(tokens, k)
  }

  /** Position k holds the title: the first text token after a title start
      tag, with no error token before it. */
  ghost predicate TitleAt(tokens: seq<Token>, k: int)
  {
    TextAfterTitle(tokens, k)
    && forall m :: 0 <= m < k ==> tokens[m].kind != ErrorToken && !TextAfterTitle(tokens, m)
  }

  /** The flag after scanning the tokens before k says whether a title start
      tag has been seen. */
  lemma TitleTagBeforeStep(tokens: seq<Token>, k: nat)
    requires k < |tokens|
    ensures TitleTagBefore(tokens, k + 1)
        <==> TitleTagBefore(tokens, k) || (tokens[k].kind == StartTagToken && tokens[k].data == "title")
  {
    if TitleTagBefore(tokens, k + 1) && !(tokens[k].kind == StartTagToken && tokens[k].data == "title") {
      var j :| 0 <= j < k + 1 && tokens[j].kind == StartTagToken && tokens[j].data == "title";
      assert j < k;
    }
  }

  /** The loop started at k, in the state reached by scanning the tokens
      before k without result, finds exactly the title. */
  lemma {:induction false} ScanFindsTitle(tokens: seq<Token>, k: nat)
    requires k <= |tokens|
    requires forall m :: 0 <= m < k ==> tokens[m].kind != ErrorToken && !TextAfterTitle(tokens, m)
    ensures forall t :: Scan(tokens, k, TitleTagBefore(tokens, k)) == Some(t)
                    <==> exists m :: TitleAt(tokens, m) && tokens[m].data == t
    decreases |tokens| - k
  {
    var flag := TitleTagBefore(tokens, k);
    if k == |tokens| {
      forall m ensures !TitleAt(tokens, m) {
        if 0 <= m < k { assert !TextAfterTitle(tokens, m); }
      }
    } else {
      var tk := tokens[k];
      TitleTagBeforeStep(tokens, k);
      if tk.kind == ErrorToken {
        forall m ensures !TitleAt(tokens, m) {
          if 0 <= m < k { assert !TextAfterTitle(tokens, m); }
          else if m > k { assert 0 <= k < m && tokens[k].kind == ErrorToken; }
        }
      } else if flag && tk.kind == TextToken {
        assert TitleAt(tokens, k);
        forall m ensures TitleAt(tokens, m) ==> m == k {
          if 0 <= m < k { assert !TextAfterTitle(tokens, m); }
          else if m > k { assert 0 <= k < m && TextAfterTitle(tokens, k); }
        }
      } else {
        assert !TextAfterTitle(tokens, k);
        ScanFindsTitle(tokens, k + 1);
      }
    }
  }

  /** The loop's title is the declarative one: FindTitle returns t exactly when
      the first text token after a title start tag, reached before any error
      token, holds t. */
  lemma FindTitleCorrect(tokens: seq<Token>, t: string)
    ensures FindTitle(tokens) == Some(t) <==> exists m :: TitleAt(tokens, m) && tokens[m].data == t
  {
    assert !TitleTagBefore(tokens, 0);
    ScanFindsTitle(tokens, 0);
  }

  /** Text before the first title start tag is ignored. */
  lemma TextBeforeTitleIgnored(text: string, title: string)
    ensures FindTitle([Token(TextToken, text), Token(StartTagToken, "title"), Token(TextToken, title)])
         == Some(title)
  {
    var ts := [Token(TextToken, text), Token(StartTagToken, "title"), Token(TextToken, title)];
    assert Scan(ts, 2, true) == Some(title);
    assert Scan(ts, 1, false) == Some(title);
  }

  /** The flag is never cleared: in <title></title><p>x the title is "x". */
  lemma FlagNeverCleared(x: string)
    ensures FindTitle([Token(StartTagToken, "title"), Token(EndTagToken, "title"),
                       Token(StartTagToken, "p"), Token(TextToken, x)]) == Some(x)
  {
    var ts := [Token(StartTagToken, "title"), Token(EndTagToken, "title"),
               Token(StartTagToken, "p"), Token(TextToken, x)];
    assert Scan(ts, 3, true) == Some(x);
    assert Scan(ts, 2, true) == Some(x);
    assert Scan(ts, 1, true) == Some(x);
  }

  /** A stream that ends before any text follows a title tag has no title. */
  lemma NoTitleWithoutText(tokens: seq<Token>)
    requires forall k :: 0 <= k < |tokens| ==> tokens[k].kind != TextToken
    ensures FindTitle(tokens) == None
  {
    forall t ensures FindTitle(tokens) != Some(t) {
      FindTitleCorrect(tokens, t);
    }
  }

  // ---------------------------------------------------------------------------
  // The content-type test
  // ---------------------------------------------------------------------------

  /** The one content type whose pages are scanned for a title. */
  const HtmlUtf8 := "text/html; charset=utf-8"

  function LowerChar(c: char): char
  {
    if 'A' <= c <= 'Z' then (c as int + 32) as char else c
  }

  /** strings.ToLower on the characters that matter here. Go also lower-cases
      non-ASCII letters, but none of those becomes a character of HtmlUtf8. */
  function ToLower(s: string): (r: string)
    ensures |r| == |s|
    ensures forall i :: 0 <= i < |s| ==> r[i] == LowerChar(s[i])
  {
    seq(|s|, i requires 0 <= i < |s| => LowerChar(s[i]))
  }

  /** strings.ToUpper on ASCII letters: the independent counterpart of LowerChar. */
  function Upper(c: char): char
  {
    if 'a' <= c <= 'z' then (c as int - 32) as char else c
  }

  /** A character lower-cases to d, when d itself is no capital, exactly when
      it is d or d's capital. */
  lemma LowerCharMatches(c: char, d: char)
    requires !('A' <= d <= 'Z')
    ensures LowerChar(c) == d <==> c == d || c == Upper(d)
  {
  }

  /** Lower-casing a header gives HtmlUtf8 exactly when each character is the
      one of HtmlUtf8 or its capital. */
  lemma LowerMatchesHtmlUtf8(contentType: string)
    ensures ToLower(contentType) == HtmlUtf8 <==>
      |contentType| == |HtmlUtf8|
      && forall i :: 0 <= i < |contentType| ==>
           contentType[i] == HtmlUtf8[i] || contentType[i] == Upper(HtmlUtf8[i])
  {
    if |contentType| == |HtmlUtf8| {
      forall i | 0 <= i < |contentType|
        ensures LowerChar(contentType[i]) == HtmlUtf8[i]
            <==> contentType[i] == HtmlUtf8[i] || contentType[i] == Upper(HtmlUtf8[i])
      {
        LowerCharMatches(contentType[i], HtmlUtf8[i]);
      }
      if forall i :: 0 <= i < |contentType| ==> LowerChar(contentType[i]) == HtmlUtf8[i] {
        assert ToLower(contentType) == HtmlUtf8;
      }
    }
  }

  /** The header names HTML in UTF-8, compared case-insensitively but
      otherwise exactly: same length, and each character is the one of
      HtmlUtf8 or its capital. */
  predicate IsHtmlUtf8(contentType: string): (r: bool)
    ensures r <==>
      |contentType| == |HtmlUtf8|
      && forall i :: 0 <= i < |contentType| ==>
           contentType[i] == HtmlUtf8[i] || contentType[i] == Upper(HtmlUtf8[i])
  {
    LowerMatchesHtmlUtf8(contentType);
    ToLower(contentType) == HtmlUtf8
  }

  /** The test ignores case but not spacing or parameters. */
  lemma ContentTypeExamples()
    ensures IsHtmlUtf8("Text/HTML; Charset=UTF-8")
    ensures !IsHtmlUtf8("text/html")
    ensures !IsHtmlUtf8("text/html;charset=utf-8")
  {
    assert ToLower("Text/HTML; Charset=UTF-8") == HtmlUtf8;
    assert |ToLower("text/html")| != |HtmlUtf8|;
    assert |ToLower("text/html;charset=utf-8")| != |HtmlUtf8|;
  }
}
