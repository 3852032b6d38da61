/** The lexical grammar by which SQL migration files are split. */
module Lexer {
  import opened Wire
  import opened Text

  // ----------------------------------------------------------------- search

  predicate Occurs(s: string, pat: string, k: int) { 0 <= k && k + |pat| <= |s| && s[k..k + |pat|] == pat }

  /** `strings.Index`: the first occurrence of a non-empty pattern. */
  function IndexOf(s: string, pat: string): (r: Option<nat>)
    requires pat != ""
    ensures r.Some? ==> Occurs(s, pat, r.value) && forall k :: 0 <= k < r.value ==> !Occurs(s, pat, k)
    ensures r.None? ==> forall k :: !Occurs(s, pat, k)
  {
    if s == "" then None
    else
      OccursShift(s, pat);
      if Occurs(s, pat, 0) then Some(0)
      else
        match IndexOf(s[1..], pat)
        case Some(k) => Some(k + 1)
        case None => None
  }

  lemma OccursShift(s: string, pat: string)
    requires s != "" && pat != ""
    ensures forall k :: k > 0 ==> (Occurs(s, pat, k) <==> Occurs(s[1..], pat, k - 1))
  {
    forall k | k > 0 ensures Occurs(s, pat, k) <==> Occurs(s[1..], pat, k - 1) {
      if k + |pat| <= |s| {
        assert s[1..] == s[1..|s|];
        SliceOfSlice(s, 1, |s|, k - 1, k - 1 + |pat|);
      }
    }
  }

  lemma OccursConcat(a: string, b: string, pat: string, k: int)
    ensures k + |pat| <= |a| ==> (Occurs(a + b, pat, k) <==> Occurs(a, pat, k))
  {
    if 0 <= k && k + |pat| <= |a| {
      assert (a + b)[k..k + |pat|] == a[k..k + |pat|];
    }
  }

  lemma IndexOfIs(s: string, pat: string, k: nat)
    requires pat != "" && Occurs(s, pat, k) && forall j :: 0 <= j < k ==> !Occurs(s, pat, j)
    ensures IndexOf(s, pat) == Some(k)
  {
  }

  /** Everything up to and including the first occurrence of the closing mark; all if there is none. */
  function TakeThrough(s: string, close: string): (r: string)
    requires close != ""
    ensures r <= s
  {
    match IndexOf(s, close)
    case Some(k) => s[..k + |close|]
    case None => s
  }

  /** A body that ends with the first occurrence of its closing mark, or runs to the end of the input. */
  predicate Delimited(body: string, close: string, rest: string)
    requires close != ""
  {
    IndexOf(body, close) == Some(|body| - |close|) || (IndexOf(body, close).None? && rest == "")
  }

  lemma TakeThroughDelimited(s: string, close: string)
    requires close != ""
    ensures Delimited(TakeThrough(s, close), close, s[|TakeThrough(s, close)|..])
  {
    var r := TakeThrough(s, close);
    var found := IndexOf(s, close);
    if found.Some? {
      var k := found.value;
      assert s == r + s[|r|..];
      forall j | 0 <= j <= k ensures Occurs(r, close, j) <==> Occurs(s, close, j) {
        OccursConcat(r, s[|r|..], close, j);
      }
      IndexOfIs(r, close, k);
    }
  }

  lemma DelimitedTake(body: string, close: string, rest: string)
    requires close != "" && Delimited(body, close, rest)
    ensures TakeThrough(body + rest, close) == body
  {
    if IndexOf(body, close).Some? {
      var k: nat := |body| - |close|;
      forall j | 0 <= j <= k ensures Occurs(body + rest, close, j) <==> Occurs(body, close, j) {
        OccursConcat(body, rest, close, j);
      }
      IndexOfIs(body + rest, close, k);
    } else {
      assert body + rest == body;
    }
  }

  /** Cutting an unclosed body leaves it unclosed. */
  lemma UnclosedPrefix(body: string, close: string, n: nat)
    requires close != "" && n <= |body| && IndexOf(body, close).None?
    ensures IndexOf(body[..n], close).None?
  {
    assert body == body[..n] + body[n..];
    forall k ensures !Occurs(body[..n], close, k) {
      OccursConcat(body[..n], body[n..], close, k);
    }
  }

  // --------------------------------------------------------------- quotes

  /** Text in which every quote is doubled. */
  predicate Doubled(s: string) {
    s == "" ||
    (s[0] != '\'' && Doubled(s[1..])) ||
    (|s| >= 2 && s[0] == '\'' && s[1] == '\'' && Doubled(s[2..]))
  }

  /** How much of what follows an opening quote belongs to the string. */
  function QuoteEnd(s: string): (n: nat)
    ensures n <= |s|
  {
    if s == "" then 0
    else if s[0] != '\'' then 1 + QuoteEnd(s[1..])
    else if |s| >= 2 && s[1] == '\'' then 2 + QuoteEnd(s[2..])
    else 1
  }

  lemma {:induction false} QuoteEndSplits(s: string)
    ensures var n := QuoteEnd(s);
            || (n == |s| && Doubled(s))
            || (n >= 1 && s[n - 1] == '\'' && Doubled(s[..n - 1]) && (n == |s| || s[n] != '\''))
  {
    var n := QuoteEnd(s);
    if s == "" {
    } else {
      if s[0] != '\'' {
        QuoteEndSplits(s[1..]);
        if n >= 2 {
          assert s[..n - 1][1..] == s[1..][..n - 2];
        }
      } else if |s| >= 2 && s[1] == '\'' {
        QuoteEndSplits(s[2..]);
        if n >= 3 {
          assert s[..n - 1][2..] == s[2..][..n - 3];
        }
      }
    }
  }

  lemma {:induction false} DoubledOpen(s: string)
    requires Doubled(s)
    ensures QuoteEnd(s) == |s|
  {
    if s == "" {
    } else {
      if s[0] != '\'' { DoubledOpen(s[1..]); } else { DoubledOpen(s[2..]); }
    }
  }

  lemma {:induction false} DoubledClosed(s: string, rest: string)
    requires Doubled(s) && (rest == "" || rest[0] != '\'')
    ensures QuoteEnd(s + "'" + rest) == |s| + 1
  {
    var whole := s + "'" + rest;
    if s == "" {
      assert whole == "'" + rest;
      assert rest != "" ==> whole[1] == rest[0];
    } else if s[0] != '\'' {
      DoubledClosed(s[1..], rest);
      assert whole[1..] == s[1..] + "'" + rest;
    } else {
      DoubledClosed(s[2..], rest);
      assert whole[2..] == s[2..] + "'" + rest;
    }
  }

  lemma {:induction false} DoubledPrefix(s: string, w: char)
    requires Doubled(s + [w]) && w != '\''
    ensures Doubled(s)
  {
    if s == "" {
    } else {
      if s[0] != '\'' {
        assert (s + [w])[1..] == s[1..] + [w];
        DoubledPrefix(s[1..], w);
      } else {
        assert |s| >= 2;
        assert (s + [w])[2..] == s[2..] + [w];
        DoubledPrefix(s[2..], w);
      }
    }
  }

  lemma {:induction false} DoubledExtend(s: string, t: string)
    requires Doubled(s) && Doubled(t)
    ensures Doubled(s + t)
  {
    if s == "" {
      assert s + t == t;
    } else if s[0] != '\'' {
      DoubledExtend(s[1..], t);
      assert (s + t)[1..] == s[1..] + t;
    } else {
      DoubledExtend(s[2..], t);
      assert (s + t)[2..] == s[2..] + t;
    }
  }

  // ----------------------------------------------------------------- tags

  predicate IsIdent(c: char) { c == '_' || 'a' <= c <= 'z' || 'A' <= c <= 'Z' || '0' <= c <= '9' }

  function IdentLength(s: string): (n: nat)
    ensures n <= |s|
    ensures forall k :: 0 <= k < n ==> IsIdent(s[k])
    ensures n < |s| ==> !IsIdent(s[n])
  {
    if s == "" || !IsIdent(s[0]) then 0 else 1 + IdentLength(s[1..])
  }

  /** The dollar tag a text starts with, if it does. */
  function TagOf(s: string): (r: Option<string>)
    ensures r.Some? ==> |r.value| >= 2 && r.value <= s && r.value[|r.value| - 1] == '$'
  {
    if s == "" || s[0] != '$' then None
    else
      var k := IdentLength(s[1..]);
      if 1 + k < |s| && s[1 + k] == '$' then Some(s[..k + 2]) else None
  }

  lemma {:induction false} IdentLengthIs(s: string, n: nat)
    requires n <= |s| && (forall k :: 0 <= k < n ==> IsIdent(s[k])) && (n < |s| ==> !IsIdent(s[n]))
    ensures IdentLength(s) == n
  {
    if n == 0 {
    } else {
      IdentLengthIs(s[1..], n - 1);
    }
  }

  /** A dollar tag: nothing but letters, digits and underscores between two dollars. */
  predicate IsTag(t: string) {
    && |t| >= 2 && t[0] == '$' && t[|t| - 1] == '$'
    && forall k :: 0 < k < |t| - 1 ==>
         t[k] == '_' || 'a' <= t[k] <= 'z' || 'A' <= t[k] <= 'Z' || '0' <= t[k] <= '9'
  }

  /** A text starts with a tag exactly when the scanner finds that one. */
  lemma TagIff(s: string, t: string)
    ensures TagOf(s) == Some(t) <==> t <= s && IsTag(t)
  {
    if t <= s && IsTag(t) {
      var rest, n := s[1..], |t| - 2;
      assert forall k :: 0 <= k < n ==> rest[k] == t[k + 1];
      assert rest[n] == t[|t| - 1];
      IdentLengthIs(rest, n);
      assert s[..n + 2] == t;
    }
  }

  lemma TagOfExtend(a: string, b: string)
    requires TagOf(a).Some?
    ensures TagOf(a + b) == TagOf(a)
  {
    var k := IdentLength(a[1..]);
    assert forall j :: 0 <= j < |a| - 1 ==> (a + b)[1..][j] == a[1..][j];
    IdentLengthIs((a + b)[1..], k);
    assert (a + b)[..k + 2] == a[..k + 2];
  }

  /** White space cannot complete a tag. */
  lemma NoTagAcrossSpace(a: string, w: char, b: string)
    requires a != "" && TagOf(a).None? && IsSpace(w)
    ensures TagOf(a + [w] + b).None?
  {
    var s := a + [w] + b;
    if a[0] == '$' {
      var k := IdentLength(a[1..]);
      assert forall j :: 0 <= j < |a| - 1 ==> s[1..][j] == a[1..][j];
      assert s[|a|] == w && !IsIdent(w);
      assert s[1..][|a| - 1] == w;
      IdentLengthIs(s[1..], k);
    }
  }

  // --------------------------------------------------------------- tokens

  datatype Token =
    | Plain(c: char)
    | Semi
    | Line(text: string)
    | Block(text: string)
    | Quoted(text: string)
    | Dollar(tag: string, text: string)

  function TextOf(t: Token): (s: string) {
    match t
    case Plain(c) => [c]
    case Semi => ";"
    case Line(text) => text
    case Block(text) => text
    case Quoted(text) => text
    case Dollar(_, text) => text
  }

  function TextOfAll(ts: seq<Token>): string {
    if ts == [] then "" else TextOf(ts[0]) + TextOfAll(ts[1..])
  }

  predicate Starts(s: string, a: char, b: char) { |s| >= 2 && s[0] == a && s[1] == b }

  /** The grammar: whether a token may stand where it does, given the rest of the input. */
  predicate Fits(t: Token, rest: string) {
    match t
    case Plain(c) =>
      && c != ';' && c != '\''
      && !Starts([c] + rest, '-', '-')
      && !Starts([c] + rest, '/', '*')
      && TagOf([c] + rest).None?
    case Semi => true
    case Line(text) => Starts(text, '-', '-') && Delimited(text, "\n", rest)
    case Block(text) => Starts(text, '/', '*') && Delimited(text[2..], "*/", rest)
    case Quoted(text) =>
      && text != "" && text[0] == '\''
      && (|| (Doubled(text[1..]) && rest == "")
          || (&& |text| >= 2 && text[|text| - 1] == '\'' && Doubled(text[1..|text| - 1])
              && (rest == "" || rest[0] != '\'')))
    case Dollar(tag, text) => TagOf(text) == Some(tag) && Delimited(text[|tag|..], tag, rest)
  }

  /** toks is a way to read s as tokens. */
  ghost predicate Lexes(s: string, toks: seq<Token>)
    decreases |toks|
  {
    if toks == [] then s == ""
    else exists rest :: s == TextOf(toks[0]) + rest && Fits(toks[0], rest) && Lexes(rest, toks[1..])
  }

  /** The token the scanner takes off the front of its input. */
  function NextToken(s: string): (t: Token)
    requires s != ""
  {
    if Starts(s, '-', '-') then Line(TakeThrough(s, "\n"))
    else if Starts(s, '/', '*') then Block(s[..2] + TakeThrough(s[2..], "*/"))
    else if s[0] == '\'' then Quoted(s[..1 + QuoteEnd(s[1..])])
    else if TagOf(s).Some? then
      var tag := TagOf(s).value;
      Dollar(tag, tag + TakeThrough(s[|tag|..], tag))
    else if s[0] == ';' then Semi
    else Plain(s[0])
  }

  lemma LineText(s: string)
    requires Starts(s, '-', '-')
    ensures Starts(TakeThrough(s, "\n"), '-', '-')
  {
    assert !Occurs(s, "\n", 0) && !Occurs(s, "\n", 1) by {
      assert s[0..1] == "-" && s[1..2] == "-";
    }
  }

  /** A token read off the front of an input: a non-empty prefix that obeys the grammar. */
  predicate Reads(s: string, t: Token) {
    && 0 < |TextOf(t)| <= |s|
    && s == TextOf(t) + s[|TextOf(t)|..]
    && Fits(t, s[|TextOf(t)|..])
  }

  lemma ReadsLine(s: string)
    requires Starts(s, '-', '-')
    ensures Reads(s, Line(TakeThrough(s, "\n")))
  {
    LineText(s);
    TakeThroughDelimited(s, "\n");
  }

  /** A body taken after an opening mark. */
  lemma TakeAfter(s: string, open: string, close: string)
    requires open <= s && close != ""
    ensures var body := TakeThrough(s[|open|..], close);
            var text := open + body;
            && |text| <= |s| && s == text + s[|text|..] && text[|open|..] == body
            && Delimited(text[|open|..], close, s[|text|..])
  {
    var body := TakeThrough(s[|open|..], close);
    var text := open + body;
    TakeThroughDelimited(s[|open|..], close);
    assert s[|text|..] == s[|open|..][|body|..];
    assert s == open + s[|open|..];
    assert s[|open|..] == body + s[|open|..][|body|..];
    Assoc(open, body, s[|text|..]);
  }

  lemma ReadsBlock(s: string)
    requires Starts(s, '/', '*')
    ensures Reads(s, Block(s[..2] + TakeThrough(s[2..], "*/")))
  {
    assert s[..2] == "/*";
    TakeAfter(s, "/*", "*/");
  }

  lemma ReadsDollar(s: string)
    requires TagOf(s).Some?
    ensures var tag := TagOf(s).value; Reads(s, Dollar(tag, tag + TakeThrough(s[|tag|..], tag)))
  {
    var tag := TagOf(s).value;
    TakeAfter(s, tag, tag);
    TagOfItself(s);
    TagOfExtend(tag, TakeThrough(s[|tag|..], tag));
  }

  lemma ReadsQuoted(s: string)
    requires s != "" && s[0] == '\''
    ensures Reads(s, Quoted(s[..1 + QuoteEnd(s[1..])]))
  {
    hide QuoteEnd, Doubled;
    QuoteEndSplits(s[1..]);
    var n := QuoteEnd(s[1..]);
    var text := s[..1 + n];
    assert text[1..] == s[1..][..n];
    if n == |s| - 1 && Doubled(s[1..]) {
      assert text == s && s[|text|..] == "" && s[1..][..n] == s[1..];
    } else {
      assert text[1..|text| - 1] == s[1..][..n - 1];
    }
  }

  /** The scanner's token is a prefix of the input and obeys the grammar. */
  lemma NextFits(s: string)
    requires s != ""
    ensures Reads(s, NextToken(s))
  {
    hide TakeThrough, QuoteEnd;
    if Starts(s, '-', '-') {
      ReadsLine(s);
    } else if Starts(s, '/', '*') {
      ReadsBlock(s);
    } else if s[0] == '\'' {
      ReadsQuoted(s);
    } else if TagOf(s).Some? {
      ReadsDollar(s);
    } else {
      assert s == [s[0]] + s[1..];
    }
  }

  lemma TagOfItself(s: string)
    requires TagOf(s).Some?
    ensures TagOf(TagOf(s).value) == TagOf(s)
  {
    var tag := TagOf(s).value;
    assert forall j :: 0 <= j < |tag| - 1 ==> tag[1..][j] == s[1..][j];
    IdentLengthIs(tag[1..], |tag| - 2);
    assert tag[..|tag|] == tag;
  }

  lemma NextIsQuoted(text: string, rest: string)
    requires Fits(Quoted(text), rest)
    ensures NextToken(text + rest) == Quoted(text)
  {
    hide QuoteEnd, Doubled;
    var s := text + rest;
    if Doubled(text[1..]) && rest == "" {
      DoubledOpen(text[1..]);
      assert s == text;
    } else {
      var body := text[1..|text| - 1];
      DoubledClosed(body, rest);
      assert s[1..] == body + "'" + rest;
    }
  }

  lemma NextIsDollar(tag: string, text: string, rest: string)
    requires Fits(Dollar(tag, text), rest)
    ensures NextToken(text + rest) == Dollar(tag, text)
  {
    hide TakeThrough, Delimited;
    var s := text + rest;
    assert s[0] == '$';
    TagOfExtend(text, rest);
    DelimitedTake(text[|tag|..], tag, rest);
    assert s[|tag|..] == text[|tag|..] + rest;
    assert text == tag + text[|tag|..];
  }

  lemma NextIsBlock(text: string, rest: string)
    requires Fits(Block(text), rest)
    ensures NextToken(text + rest) == Block(text)
  {
    hide TakeThrough, Delimited;
    var s := text + rest;
    DelimitedTake(text[2..], "*/", rest);
    assert s[2..] == text[2..] + rest;
    assert s[..2] == text[..2] && text == text[..2] + text[2..];
  }

  /** The grammar leaves no choice: a token that fits is the one the scanner takes. */
  lemma FitsIsNext(t: Token, rest: string)
    requires Fits(t, rest)
    ensures TextOf(t) != ""
    ensures NextToken(TextOf(t) + rest) == t
  {
    hide TakeThrough, QuoteEnd;
    var s := TextOf(t) + rest;
    match t {
      case Plain(c) =>
        assert s[0] == c;
      case Semi =>
        assert s[0] == ';';
      case Line(text) =>
        DelimitedTake(text, "\n", rest);
      case Block(text) =>
        NextIsBlock(text, rest);
      case Quoted(text) =>
        NextIsQuoted(text, rest);
      case Dollar(tag, text) =>
        NextIsDollar(tag, text, rest);
    }
  }

  /** The scanner's reading of the whole input. */
  function Lex(s: string): (toks: seq<Token>)
    decreases |s|
  {
    if s == "" then []
    else
      NextFits(s);
      var t := NextToken(s);
      [t] + Lex(s[|TextOf(t)|..])
  }

  /** Every input can be read, and in one way only: the scanner's. */
  lemma {:induction false} LexUnique(s: string, toks: seq<Token>)
    ensures Lexes(s, toks) <==> toks == Lex(s)
    decreases |s|, |toks|
  {
    hide Fits, NextToken, TextOf;
    if s != "" {
      NextFits(s);
      var t := NextToken(s);
      var rest := s[|TextOf(t)|..];
      LexUnique(rest, Lex(rest));
      if toks == Lex(s) {
        assert toks[1..] == Lex(rest);
      }
      if Lexes(s, toks) && toks != [] {
        var rest' :| s == TextOf(toks[0]) + rest' && Fits(toks[0], rest') && Lexes(rest', toks[1..]);
        FitsIsNext(toks[0], rest');
        assert rest' == rest;
        LexUnique(rest, toks[1..]);
        assert toks == [toks[0]] + toks[1..];
      }
    } else if toks != [] && Lexes(s, toks) {
      var rest' :| s == TextOf(toks[0]) + rest' && Fits(toks[0], rest') && Lexes(rest', toks[1..]);
      FitsIsNext(toks[0], rest');
    }
  }

  /** The tokens, put together, are the input. */
  lemma {:induction false} LexText(s: string)
    ensures TextOfAll(Lex(s)) == s
    decreases |s|
  {
    hide Fits, NextToken, TextOf;
    if s == "" {
    } else {
      NextFits(s);
      var t := NextToken(s);
      LexText(s[|TextOf(t)|..]);
      assert Lex(s)[1..] == Lex(s[|TextOf(t)|..]);
    }
  }
}
