/** What splitting drops and keeps, and what happens when its output is split again. */
module SplitRoundTrip {
  import opened Wire
  import opened Text
  import opened Lexer
  import opened Splitter

  // ----------------------------------------------------- cutting the input

  /** A token still fits when the input after it is cut short. */
  lemma FitsPrefix(t: Token, rest: string, rest': string)
    requires Fits(t, rest) && rest' <= rest
    ensures Fits(t, rest')
  {
    match t {
      case Plain(c) =>
        NoTagInPrefix([c] + rest, [c] + rest');
      case _ =>
    }
  }

  lemma NoTagInPrefix(s: string, s': string)
    requires s' <= s && TagOf(s).None?
    ensures TagOf(s').None?
  {
    assert s == s' + s[|s'|..];
    if TagOf(s').Some? {
      TagOfExtend(s', s[|s'|..]);
    }
  }

  lemma {:induction false} TextConcat(xs: seq<Token>, ys: seq<Token>)
    ensures TextOfAll(xs + ys) == TextOfAll(xs) + TextOfAll(ys)
  {
    hide TextOf;
    if xs == [] {
      assert xs + ys == ys;
    } else {
      TextConcat(xs[1..], ys);
      assert (xs + ys)[1..] == xs[1..] + ys;
      Assoc(TextOf(xs[0]), TextOfAll(xs[1..]), TextOfAll(ys));
    }
  }

  /** A token that fits is read first, and reading goes on with the rest. */
  lemma LexCons(t: Token, rest: string)
    requires Fits(t, rest)
    ensures Lex(TextOf(t) + rest) == [t] + Lex(rest)
  {
    hide Fits, NextToken, TextOf;
    FitsIsNext(t, rest);
    var s := TextOf(t) + rest;
    assert s[|TextOf(t)|..] == rest;
  }

  lemma LexHead(s: string)
    requires s != ""
    ensures var t := Lex(s)[0];
            && |TextOf(t)| <= |s|
            && var rest := s[|TextOf(t)|..];
               TextOf(t) != "" && s == TextOf(t) + rest && Fits(t, rest) && Lex(s) == [t] + Lex(rest)
  {
    hide Fits, NextToken, TextOf;
    NextFits(s);
  }

  /** The reading of an input, cut at a token boundary. */
  lemma {:induction false} LexSuffix(s: string, xs: seq<Token>, ys: seq<Token>)
    requires Lex(s) == xs + ys
    ensures s == TextOfAll(xs) + TextOfAll(ys) && Lex(TextOfAll(ys)) == ys
    decreases |xs|
  {
    hide Fits, NextToken, TextOf;
    LexText(s);
    if xs == [] {
      assert xs + ys == ys;
    } else {
      LexHead(s);
      var rest := s[|TextOf(xs[0])|..];
      assert Lex(rest) == xs[1..] + ys by { assert (xs + ys)[1..] == xs[1..] + ys; }
      LexSuffix(rest, xs[1..], ys);
      TextConcat(xs, ys);
    }
  }

  /** The tokens before a point do not change when the input after the point is cut short. */
  lemma {:induction false} LexFront(xs: seq<Token>, z: string, z': string)
    requires Lex(TextOfAll(xs) + z) == xs + Lex(z) && z' <= z
    ensures Lex(TextOfAll(xs) + z') == xs + Lex(z')
  {
    hide Fits, NextToken, TextOf;
    if xs == [] {
      assert TextOfAll(xs) + z' == z';
      assert xs + Lex(z') == Lex(z');
    } else {
      var t, front := xs[0], TextOfAll(xs[1..]);
      Assoc(TextOf(t), front, z);
      Assoc(TextOf(t), front, z');
      StripHead(xs, z);
      LexFront(xs[1..], z, z');
      assert front + z' <= front + z;
      FitsPrefix(t, front + z, front + z');
      LexCons(t, front + z');
      assert [t] + (xs[1..] + Lex(z')) == xs + Lex(z');
    }
  }

  lemma StripHead(xs: seq<Token>, z: string)
    requires xs != [] && Lex(TextOfAll(xs) + z) == xs + Lex(z)
    ensures Fits(xs[0], TextOfAll(xs[1..]) + z)
    ensures Lex(TextOfAll(xs[1..]) + z) == xs[1..] + Lex(z)
  {
    hide Fits, NextToken, TextOf;
    var t, front := xs[0], TextOfAll(xs[1..]);
    var s := TextOfAll(xs) + z;
    Assoc(TextOf(t), front, z);
    if s == "" {
      assert false;
    }
    LexHead(s);
    assert s[|TextOf(t)|..] == front + z;
    assert (xs + Lex(z))[1..] == xs[1..] + Lex(z);
  }

  // ------------------------------------------------------------- open ends

  /** A comment, string or body that the input ends in before it is closed. */
  predicate Unclosed(t: Token) {
    match t
    case Block(text) => |text| >= 2 && IndexOf(text[2..], "*/").None?
    case Quoted(text) => text != "" && Doubled(text[1..])
    case Dollar(tag, text) => tag != "" && |text| >= |tag| && IndexOf(text[|tag|..], tag).None?
    case _ => false
  }

  predicate EndsOpen(toks: seq<Token>) { toks != [] && Unclosed(toks[|toks| - 1]) }

  lemma OpenAtEnd(t: Token, rest: string)
    requires Fits(t, rest) && Unclosed(t)
    ensures rest == ""
  {
    if t.Quoted? {
      var text := t.text;
      if rest != "" {
        var body := text[1..|text| - 1];
        assert text[1..] == body + "'";
        DoubledNotTwice(body);
      }
    }
  }

  /** A doubled text followed by one more quote is not doubled. */
  lemma {:induction false} DoubledNotTwice(s: string)
    requires Doubled(s)
    ensures !Doubled(s + "'")
  {
    var t := s + "'";
    if s == "" {
    } else {
      if s[0] != '\'' {
        DoubledNotTwice(s[1..]);
        assert t[1..] == s[1..] + "'";
      } else {
        DoubledNotTwice(s[2..]);
        assert t[2..] == s[2..] + "'";
      }
    }
  }

  /** Whatever is followed by more input is closed. */
  lemma {:induction false} ClosedBefore(xs: seq<Token>, z: string)
    requires Lex(TextOfAll(xs) + z) == xs + Lex(z) && z != ""
    ensures forall i :: 0 <= i < |xs| ==> !Unclosed(xs[i])
  {
    hide Fits, NextToken, TextOf, Unclosed;
    if xs == [] {
    } else {
      StripHead(xs, z);
      ClosedBefore(xs[1..], z);
      if Unclosed(xs[0]) {
        OpenAtEnd(xs[0], TextOfAll(xs[1..]) + z);
      }
    }
  }

  // --------------------------------------------- white space at either end

  predicate Bare(t: Token) { t.Line? || (t.Plain? && IsSpace(t.c)) }

  /** White space and line comments only. */
  ghost predicate AllBare(toks: seq<Token>) { forall i :: 0 <= i < |toks| ==> Bare(toks[i]) }

  /** What the statements of a text depend on. */
  ghost predicate SameShape(xs: seq<Token>, ys: seq<Token>) {
    (NoSemi(xs) <==> NoSemi(ys)) && (AllBare(xs) <==> AllBare(ys)) && (EndsOpen(xs) <==> EndsOpen(ys))
  }

  lemma SpaceFits(w: char, rest: string)
    requires IsSpace(w)
    ensures Fits(Plain(w), rest)
  {
    assert ([w] + rest)[0] == w;
  }

  lemma LeadingSpace(w: char, s: string)
    requires IsSpace(w)
    ensures Lex([w] + s) == [Plain(w)] + Lex(s)
    ensures SameShape(Lex([w] + s), Lex(s))
  {
    SpaceFits(w, s);
    LexCons(Plain(w), s);
    var xs := Lex(s);
    assert NoSemi(xs) ==> NoSemi([Plain(w)] + xs);
    assert NoSemi([Plain(w)] + xs) ==> NoSemi(xs) by {
      assert forall i :: 0 <= i < |xs| ==> ([Plain(w)] + xs)[i + 1] == xs[i];
    }
    assert AllBare([Plain(w)] + xs) ==> AllBare(xs) by {
      assert forall i :: 0 <= i < |xs| ==> ([Plain(w)] + xs)[i + 1] == xs[i];
    }
  }

  /** A token without its last character. */
  function Cut(t: Token): Token
    requires TextOf(t) != ""
  {
    match t
    case Line(text) => Line(text[..|text| - 1])
    case Block(text) => Block(text[..|text| - 1])
    case Quoted(text) => Quoted(text[..|text| - 1])
    case Dollar(tag, text) => Dollar(tag, text[..|text| - 1])
    case _ => t
  }

  lemma CutLine(text: string)
    requires Fits(Line(text), "") && IsSpace(text[|text| - 1])
    ensures Fits(Line(text[..|text| - 1]), "")
  {
    var cut := text[..|text| - 1];
    assert |text| >= 3;
    assert text == cut + [text[|text| - 1]];
    forall k ensures !Occurs(cut, "\n", k) {
      OccursConcat(cut, [text[|text| - 1]], "\n", k);
    }
    assert IndexOf(cut, "\n").None?;
  }

  /** A closed body ends like its closing mark. */
  lemma ClosedBodyEnd(body: string, close: string)
    requires close != "" && IndexOf(body, close) == Some(|body| - |close|)
    ensures body != "" && body[|body| - 1] == close[|close| - 1]
  {
    var k := |body| - |close|;
    assert Occurs(body, close, k);
    assert body[k..k + |close|][|close| - 1] == close[|close| - 1];
  }

  /** A body that ends in white space is not closed, and stays open when the space is cut. */
  lemma CutBody(body: string, close: string)
    requires close != "" && !IsSpace(close[|close| - 1]) && Delimited(body, close, "")
    requires body != "" && IsSpace(body[|body| - 1])
    ensures IndexOf(body, close).None? && IndexOf(body[..|body| - 1], close).None?
  {
    if IndexOf(body, close).Some? {
      ClosedBodyEnd(body, close);
      assert false;
    }
    UnclosedPrefix(body, close, |body| - 1);
  }

  /** Every token that can end in white space: cutting it off leaves an open token of the same kind. */
  predicate CutsOpen(t: Token) {
    && TextOf(t) != "" && Fits(Cut(t), "") && Unclosed(t) && Unclosed(Cut(t))
    && TextOf(Cut(t)) == TextOf(t)[..|TextOf(t)| - 1]
  }

  lemma CutBlock(text: string)
    requires Fits(Block(text), "") && IsSpace(text[|text| - 1])
    ensures CutsOpen(Block(text))
  {
    var n, body := |text| - 1, text[2..];
    assert n >= 2 && body[|body| - 1] == text[n];
    CutBody(body, "*/");
    assert text[..n][2..] == body[..|body| - 1];
  }

  lemma CutQuoted(text: string)
    requires Fits(Quoted(text), "") && IsSpace(text[|text| - 1])
    ensures CutsOpen(Quoted(text))
  {
    var n := |text| - 1;
    assert n >= 1 && text[1..] == text[1..n] + [text[n]];
    DoubledPrefix(text[1..n], text[n]);
    assert text[..n][1..] == text[1..n];
  }

  lemma CutDollar(tag: string, text: string)
    requires Fits(Dollar(tag, text), "") && IsSpace(text[|text| - 1])
    ensures CutsOpen(Dollar(tag, text))
  {
    hide TagOf;
    var n, body := |text| - 1, text[|tag|..];
    assert text == tag + body;
    assert text[n] != tag[|tag| - 1];
    assert body[|body| - 1] == text[n];
    CutBody(body, tag);
    var cut := body[..|body| - 1];
    assert text[..n] == tag + cut && (tag + cut)[|tag|..] == cut;
    TagOfItself(text);
    TagOfExtend(tag, cut);
  }

  lemma CutToken(t: Token)
    requires Fits(t, "") && !t.Plain? && !t.Line? && TextOf(t) != "" && IsSpace(TextOf(t)[|TextOf(t)| - 1])
    ensures CutsOpen(t)
  {
    hide CutsOpen;
    match t {
      case Semi =>
      case Block(text) => CutBlock(text);
      case Quoted(text) => CutQuoted(text);
      case Dollar(tag, text) => CutDollar(tag, text);
    }
  }

  /** Cutting one white space off the end of a text. */
  lemma TrailingSpace(s: string, w: char)
    requires IsSpace(w)
    ensures SameShape(Lex(s + [w]), Lex(s))
  {
    hide Fits, NextToken, Cut, Unclosed, SameShape, TextOf;
    var all := s + [w];
    LexHead(all);
    var k := |Lex(all)| - 1;
    var xs, t := Lex(all)[..k], Lex(all)[k];
    LexSuffix(all, xs, [t]);
    SingleText(t);
    LastChar(s, w, TextOfAll(xs), t);
    var z := TextOf(t)[..|TextOf(t)| - 1];
    LexFront(xs, TextOf(t), z);
    LastToken(t, w);
    ClosedBefore(xs, TextOf(t));
    CutShape(xs, t, Lex(z));
  }

  lemma SingleText(t: Token)
    ensures TextOfAll([t]) == TextOf(t)
  {
    assert TextOfAll([t]) == TextOf(t) + TextOfAll([t][1..]);
  }

  lemma CutShape(xs: seq<Token>, t: Token, ys: seq<Token>)
    requires TextOf(t) != "" && forall i :: 0 <= i < |xs| ==> !Unclosed(xs[i])
    requires if t.Plain? then IsSpace(t.c) && ys == [] && !Unclosed(t)
             else !t.Semi? && ys == [Cut(t)] && (Unclosed(t) <==> Unclosed(Cut(t)))
                  && (t.Line? <==> Cut(t).Line?) && !Cut(t).Plain? && !Cut(t).Semi?
    ensures SameShape(xs + [t], xs + ys)
  {
    hide Unclosed, Cut;
    ShapeOfEnds(xs, t, ys);
  }

  lemma LastChar(s: string, w: char, front: string, t: Token)
    requires s + [w] == front + TextOf(t) && Lex(TextOf(t)) == [t]
    ensures TextOf(t) != "" && TextOf(t)[|TextOf(t)| - 1] == w
    ensures s == front + TextOf(t)[..|TextOf(t)| - 1]
  {
    hide NextToken, TextOf;
    var text := TextOf(t);
    assert text != "";
    var all := s + [w];
    assert all[|all| - 1] == w && (front + text)[|all| - 1] == text[|text| - 1];
    assert s == all[..|all| - 1];
    assert (front + text)[..|front| + |text| - 1] == front + text[..|text| - 1];
  }

  /** The reading of a last token with its final white space cut off. */
  lemma LastToken(t: Token, w: char)
    requires Lex(TextOf(t)) == [t] && TextOf(t) != "" && TextOf(t)[|TextOf(t)| - 1] == w && IsSpace(w)
    ensures var z := TextOf(t)[..|TextOf(t)| - 1];
            if t.Plain? then IsSpace(t.c) && Lex(z) == [] && !Unclosed(t)
            else !t.Semi? && Lex(z) == [Cut(t)] && (Unclosed(t) <==> Unclosed(Cut(t)))
                  && (t.Line? <==> Cut(t).Line?) && !Cut(t).Plain? && !Cut(t).Semi?
  {
    var text := TextOf(t);
    LexHead(text);
    assert text[|text|..] == "";
    assert Fits(t, "");
    var z := text[..|text| - 1];
    if t.Plain? {
      assert z == "";
    } else if t.Line? {
      CutLine(text);
      LexCons(Cut(t), "");
      assert z + "" == z;
    } else {
      CutToken(t);
      LexCons(Cut(t), "");
      assert z + "" == z;
    }
  }

  /** Two readings that agree up to their last tokens, of which the second may be missing. */
  lemma ShapeOfEnds(xs: seq<Token>, t: Token, ys: seq<Token>)
    requires !t.Semi? && |ys| <= 1
    requires ys == [] ==> Bare(t) && !Unclosed(t) && !EndsOpen(xs)
    requires ys != [] ==> !ys[0].Semi? && (Bare(t) <==> Bare(ys[0])) && (Unclosed(t) <==> Unclosed(ys[0]))
    ensures SameShape(xs + [t], xs + ys)
  {
    hide Unclosed, Bare;
    var a, b := xs + [t], xs + ys;
    assert forall i :: 0 <= i < |xs| ==> a[i] == xs[i] && b[i] == xs[i];
    assert a[|xs|] == t;
    if ys == [] {
      assert b == xs;
    } else {
      assert b[|xs|] == ys[0];
    }
  }

  lemma {:induction false} TrimLeftShape(s: string)
    ensures SameShape(Lex(s), Lex(TrimLeft(s)))
    decreases |s|
  {
    hide SameShape, Lex;
    if s != "" && IsSpace(s[0]) {
      assert s == [s[0]] + s[1..];
      LeadingSpace(s[0], s[1..]);
      TrimLeftShape(s[1..]);
      ShapeTransitive(Lex(s), Lex(s[1..]), Lex(TrimLeft(s)));
    } else {
      ShapeReflexive(Lex(s));
    }
  }

  lemma {:induction false} TrimRightShape(s: string)
    ensures SameShape(Lex(s), Lex(TrimRight(s)))
    decreases |s|
  {
    hide SameShape, Lex;
    if s != "" && IsSpace(s[|s| - 1]) {
      var y := s[..|s| - 1];
      assert s == y + [s[|s| - 1]];
      TrailingSpace(y, s[|s| - 1]);
      TrimRightShape(y);
      ShapeTransitive(Lex(s), Lex(y), Lex(TrimRight(s)));
    } else {
      ShapeReflexive(Lex(s));
    }
  }

  lemma ShapeTransitive(a: seq<Token>, b: seq<Token>, c: seq<Token>)
    requires SameShape(a, b) && SameShape(b, c)
    ensures SameShape(a, c)
  {
  }

  lemma ShapeReflexive(a: seq<Token>)
    ensures SameShape(a, a)
  {
  }

  /** Trimming changes neither whether a text has a cut, nor whether it is bare, nor whether it ends open. */
  lemma TrimShape(s: string)
    ensures SameShape(Lex(s), Lex(Trim(s)))
  {
    hide SameShape, Lex, TrimLeft, TrimRight;
    TrimLeftShape(s);
    TrimRightShape(TrimLeft(s));
    ShapeTransitive(Lex(s), Lex(TrimLeft(s)), Lex(Trim(s)));
  }

  // ------------------------------------------------------ what is dropped

  lemma TrimLeftSpace(w: char, line: string)
    requires IsSpace(w)
    ensures SqlLine([w] + line) == SqlLine(line)
  {
    assert ([w] + line)[1..] == line;
  }

  lemma NewlineAt(a: string, b: string)
    requires forall i :: 0 <= i < |a| ==> a[i] != '\n'
    ensures IndexOf(a + "\n" + b, "\n") == Some(|a|)
  {
    var s := a + "\n" + b;
    assert s[|a|..|a| + 1] == "\n";
    forall k | 0 <= k < |a| ensures !Occurs(s, "\n", k) {
      assert s[k..k + 1][0] == a[k];
    }
    IndexOfIs(s, "\n", |a|);
  }

  lemma OccursNewline(s: string, i: nat)
    requires i < |s|
    ensures Occurs(s, "\n", i) <==> s[i] == '\n'
  {
    assert s[i..i + 1] == [s[i]];
  }

  /** The first line of a text, and what follows its line break. */
  lemma FirstLine(s: string)
    ensures var k := IndexOf(s, "\n");
            && (k.Some? ==> k.value < |s| && s == s[..k.value] + "\n" + s[k.value + 1..])
            && (forall i :: 0 <= i < (if k.Some? then k.value else |s|) ==> s[i] != '\n')
  {
    hide IndexOf, Occurs;
    var k := IndexOf(s, "\n");
    if k.Some? {
      OccursInside(s, "\n", k.value);
      OccursNewline(s, k.value);
    }
    forall i | 0 <= i < (if k.Some? then k.value else |s|) ensures s[i] != '\n' {
      OccursNewline(s, i);
    }
  }

  lemma OccursInside(s: string, pat: string, k: nat)
    requires Occurs(s, pat, k) && pat != ""
    ensures k < |s|
  {
  }

  lemma SpaceBeforeSql(w: char, s: string)
    requires IsSpace(w)
    ensures HasSql([w] + s) == HasSql(s)
  {
    hide SqlLine, HasSql, IndexOf;
    var t := [w] + s;
    HasSqlStep(s);
    HasSqlStep(t);
    if w == '\n' {
      NewlineAt("", s);
      assert t == "" + "\n" + s && t[1..] == s && t[..0] == "";
      BlankLine();
    } else {
      FirstLine(s);
      var k := IndexOf(s, "\n");
      if k.Some? {
        var line, rest := s[..k.value], s[k.value + 1..];
        NewlineAt([w] + line, rest);
        assert t == ([w] + line) + "\n" + rest;
        assert t[..k.value + 1] == [w] + line && t[k.value + 2..] == rest;
        TrimLeftSpace(w, line);
      } else {
        NoNewline(t);
        TrimLeftSpace(w, s);
      }
    }
  }

  lemma BlankLine()
    ensures !SqlLine("")
  {
  }

  lemma NoNewline(s: string)
    requires forall i :: 0 <= i < |s| ==> s[i] != '\n'
    ensures IndexOf(s, "\n").None?
  {
    forall k ensures !Occurs(s, "\n", k) {
      if 0 <= k < |s| {
        assert s[k..k + 1][0] == s[k];
      }
    }
  }

  /** A line that starts with a visible character counts unless it starts a line comment. */
  lemma VisibleLine(line: string)
    requires line != "" && !IsSpace(line[0])
    ensures SqlLine(line) <==> !Starts(line, '-', '-')
  {
    assert TrimLeft(line) == line;
    var l := TrimRight(line);
    assert l != "" && l[0] == line[0];
    if Starts(line, '-', '-') {
      assert |l| >= 2;
    }
  }

  lemma CommentLine(s: string)
    requires Starts(s, '-', '-')
    ensures var t := NextToken(s);
            t.Line? && |t.text| <= |s| && HasSql(s) == HasSql(s[|t.text|..])
  {
    hide SqlLine, HasSql;
    NextFits(s);
    HasSqlStep(s);
    FirstLine(s);
    var k := IndexOf(s, "\n");
    if k.Some? {
      assert k.value >= 2;
      VisibleLine(s[..k.value]);
    } else {
      VisibleLine(s);
      assert s[|s|..] == "";
      HasSqlStep("");
      NoNewline("");
      BlankLine();
    }
  }

  lemma VisibleStart(s: string)
    requires s != "" && !IsSpace(s[0]) && !Starts(s, '-', '-')
    ensures HasSql(s) && !Bare(NextToken(s))
  {
    hide SqlLine, HasSql;
    HasSqlStep(s);
    FirstLine(s);
    var k := IndexOf(s, "\n");
    if k.Some? {
      assert k.value > 0;
      VisibleLine(s[..k.value]);
    } else {
      VisibleLine(s);
    }
  }

  /** The line-by-line test finds exactly the texts with a token that is not white space or a line comment. */
  lemma {:induction false} SqlIff(s: string)
    ensures HasSql(s) <==> !AllBare(Lex(s))
    decreases |s|
  {
    hide SqlLine, HasSql, Fits, NextToken, Bare;
    if s == "" {
      HasSqlStep("");
      NoNewline("");
      BlankLine();
    } else if IsSpace(s[0]) {
      assert s == [s[0]] + s[1..];
      LeadingSpace(s[0], s[1..]);
      SpaceBeforeSql(s[0], s[1..]);
      SqlIff(s[1..]);
    } else if Starts(s, '-', '-') {
      CommentLine(s);
      NextFits(s);
      var t := NextToken(s);
      var rest := s[|TextOf(t)|..];
      SqlIff(rest);
      BareHead(t, Lex(rest));
    } else {
      VisibleStart(s);
      assert Lex(s)[0] == NextToken(s);
    }
  }

  lemma BareHead(t: Token, xs: seq<Token>)
    requires t.Line?
    ensures AllBare([t] + xs) <==> AllBare(xs)
  {
    hide Bare;
    assert Bare(t) by { LineIsBare(t); }
    assert forall i :: 0 <= i < |xs| ==> ([t] + xs)[i + 1] == xs[i];
  }

  lemma LineIsBare(t: Token)
    requires t.Line?
    ensures Bare(t)
  {
  }

  /** A segment is dropped exactly when it holds nothing but white space and line comments. */
  lemma DroppedIff(text: string)
    ensures !Kept(text) <==> AllBare(Lex(text))
  {
    hide SqlLine, HasSql, Lex, Trim;
    TrimShape(text);
    SqlIff(Trim(text));
    SqlIff("");
    assert Lex("") == [] by { EmptyLex(); }
  }

  predicate Comment(t: Token) { Bare(t) || t.Block? }

  /** White space and comments of either kind. */
  ghost predicate AllComment(toks: seq<Token>) { forall i :: 0 <= i < |toks| ==> Comment(toks[i]) }

  ghost predicate HasBlock(toks: seq<Token>) { exists i :: 0 <= i < |toks| && toks[i].Block? }

  /**
   * A segment of white space and comments is dropped if and only if it has no block comment; so a
   * segment is kept for being more than comments, as documented, exactly when it is not such a one.
   */
  lemma CommentsDroppedIff(text: string)
    ensures AllComment(Lex(text)) ==> (!Kept(text) <==> !HasBlock(Lex(text)))
    ensures (Kept(text) <==> !AllComment(Lex(text))) <==> !(AllComment(Lex(text)) && HasBlock(Lex(text)))
  {
    hide Lex, Kept;
    DroppedIff(text);
  }

  /** The shortest block comment is kept as a statement. */
  lemma BlockCommentIsKept()
    ensures Lex("/**/") == [Block("/**/")] && AllComment(Lex("/**/")) && Kept("/**/")
  {
    hide Kept;
    var t := Block("/**/");
    IndexOfIs("*/", "*/", 0);
    assert "/**/"[2..] == "*/";
    assert TextOf(t) + "" == "/**/";
    LexCons(t, "");
    EmptyLex();
    DroppedIff("/**/");
    assert Lex("/**/")[0] == t;
  }

  lemma EmptyLex()
    ensures Lex("") == []
  {
  }
}
