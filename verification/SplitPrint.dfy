/** Splitting the splitter's own output: single statements, and statements printed one after the other. */
module SplitPrint {
  import opened Wire
  import opened Text
  import opened Lexer
  import opened Splitter
  import opened SplitRoundTrip

  // ------------------------------------------------- segments read alone

  /** A list of tokens that is the reading of its own text. */
  predicate SelfReading(toks: seq<Token>) { Lex(TextOfAll(toks)) == toks }

  lemma {:induction false} FirstSegmentPrefix(toks: seq<Token>)
    ensures TextOfAll(Segments(toks)[0]) <= TextOfAll(toks)
    ensures |Segments(toks)| == 1 ==> Segments(toks)[0] == toks && NoSemi(toks)
    ensures |Segments(toks)| > 1 ==> toks != [] && |TextOfAll(Segments(toks)[0])| < |TextOfAll(toks)|
  {
    hide TextOf;
    if toks == [] {
    } else {
      FirstSegmentPrefix(toks[1..]);
      var rest := Segments(toks[1..]);
      if toks[0].Semi? {
        SemiText();
      } else {
        assert ([toks[0]] + rest[0])[1..] == rest[0];
        assert toks == [toks[0]] + toks[1..];
      }
    }
  }

  lemma SelfReadingTail(toks: seq<Token>)
    requires toks != [] && SelfReading(toks)
    ensures SelfReading(toks[1..]) && Fits(toks[0], TextOfAll(toks[1..]))
  {
    hide Fits, NextToken, TextOf;
    var t, rest := toks[0], TextOfAll(toks[1..]);
    var s := TextOfAll(toks);
    assert toks == [t] + toks[1..];
    LexSuffix(s, [t], toks[1..]);
    LexHead(s);
    assert s[|TextOf(t)|..] == rest;
  }

  /** Each segment, read alone, is itself and has no cut; only the last can end open, as the whole does. */
  ghost predicate GoodSegments(segs: seq<seq<Token>>, open: bool) {
    && segs != []
    && (forall i :: 0 <= i < |segs| ==> SelfReading(segs[i]) && NoSemi(segs[i]))
    && (forall i :: 0 <= i < |segs| - 1 ==> !EndsOpen(segs[i]))
    && (EndsOpen(segs[|segs| - 1]) <==> open)
  }

  lemma {:induction false} SegmentsGood(toks: seq<Token>)
    requires SelfReading(toks)
    ensures GoodSegments(Segments(toks), EndsOpen(toks))
  {
    hide Fits, NextToken, TextOf, Unclosed, SelfReading;
    if toks == [] {
      EmptySelfReading();
    } else {
      SelfReadingTail(toks);
      SegmentsGood(toks[1..]);
      var t, rest := toks[0], Segments(toks[1..]);
      assert toks == [t] + toks[1..];
      if t.Semi? {
        EmptySelfReading();
        SemiCloses(t);
        ConsEmpty(rest, EndsOpen(toks[1..]));
      } else {
        FirstSegmentPrefix(toks[1..]);
        GrowSegment(t, rest[0], TextOfAll(toks[1..]));
        if |rest| > 1 {
          OpenInside(t, rest[0], TextOfAll(toks[1..]));
        }
        ConsToken(t, rest, EndsOpen(toks[1..]), EndsOpen(toks));
      }
    }
  }

  lemma EmptySelfReading()
    ensures SelfReading([])
  {
  }

  lemma SemiCloses(t: Token)
    requires t.Semi?
    ensures !Unclosed(t)
  {
  }

  lemma ConsEmpty(rest: seq<seq<Token>>, open: bool)
    requires GoodSegments(rest, open) && SelfReading([])
    ensures GoodSegments([[]] + rest, open)
  {
    hide SelfReading, EndsOpen;
    var segs := [[]] + rest;
    assert !EndsOpen([]) by { NeverEmptyOpen(); }
    assert forall i :: 0 < i < |segs| ==> segs[i] == rest[i - 1];
  }

  lemma NeverEmptyOpen()
    ensures !EndsOpen([])
  {
  }

  /** A token in front of a segment that reads itself. */
  lemma GrowSegment(t: Token, seg: seq<Token>, whole: string)
    requires Fits(t, whole) && !t.Semi? && SelfReading(seg) && NoSemi(seg) && TextOfAll(seg) <= whole
    ensures SelfReading([t] + seg) && NoSemi([t] + seg)
  {
    hide Fits, NextToken, TextOf;
    FitsPrefix(t, whole, TextOfAll(seg));
    LexCons(t, TextOfAll(seg));
    assert ([t] + seg)[1..] == seg;
  }

  lemma OpenInside(t: Token, seg: seq<Token>, whole: string)
    requires Fits(t, whole) && |TextOfAll(seg)| < |whole| && !EndsOpen(seg)
    ensures !EndsOpen([t] + seg)
  {
    hide Fits, NextToken, TextOf, Unclosed;
    if Unclosed(t) {
      OpenAtEnd(t, whole);
    }
    if seg != [] {
      assert ([t] + seg)[|seg|] == seg[|seg| - 1];
    }
  }

  lemma ConsToken(t: Token, rest: seq<seq<Token>>, open: bool, open': bool)
    requires GoodSegments(rest, open) && SelfReading([t] + rest[0]) && NoSemi([t] + rest[0])
    requires |rest| > 1 ==> !EndsOpen([t] + rest[0]) && open' == open
    requires |rest| == 1 ==> (EndsOpen([t] + rest[0]) <==> open')
    ensures GoodSegments([[t] + rest[0]] + rest[1..], open')
  {
    hide SelfReading, EndsOpen, NoSemi;
    var segs := [[t] + rest[0]] + rest[1..];
    assert forall i :: 0 < i < |segs| ==> segs[i] == rest[i];
  }

  /** The segment texts of an input. */
  ghost predicate GoodTexts(ts: seq<string>, open: bool) {
    && ts != []
    && (forall i :: 0 <= i < |ts| ==> NoSemi(Lex(ts[i])))
    && (forall i :: 0 <= i < |ts| - 1 ==> !EndsOpen(Lex(ts[i])))
    && (EndsOpen(Lex(ts[|ts| - 1])) <==> open)
  }

  lemma SegTextsGood(s: string)
    ensures GoodTexts(SegTexts(s), EndsOpen(Lex(s)))
  {
    hide Lex, EndsOpen, NoSemi, Segments;
    LexText(s);
    SegmentsGood(Lex(s));
    var segs, ts := Segments(Lex(s)), SegTexts(s);
    assert forall i :: 0 <= i < |ts| ==> Lex(ts[i]) == segs[i];
  }

  // --------------------------------------------------- one statement alone

  lemma TrimTwice(s: string)
    ensures Trim(Trim(s)) == Trim(s)
    ensures Trim(s) != "" ==> !IsSpace(Trim(s)[0]) && !IsSpace(Trim(s)[|Trim(s)| - 1])
  {
    var a := TrimLeft(s);
    var b := TrimRight(a);
    if b != "" {
      assert b[0] == a[0];
      assert TrimLeft(b) == b;
    }
  }

  lemma SingleSegment(x: string)
    requires NoSemi(Lex(x))
    ensures SegTexts(x) == [x]
  {
    hide Lex;
    LexText(x);
    OneSegment(Lex(x));
  }

  lemma {:induction false} OneSegment(toks: seq<Token>)
    requires NoSemi(toks)
    ensures Segments(toks) == [toks]
  {
    if toks == [] {
    } else {
      OneSegment(toks[1..]);
      assert toks == [toks[0]] + toks[1..];
    }
  }

  lemma EmitOne(x: string)
    ensures Emit([x]) == if Kept(x) then [Trim(x)] else []
  {
    hide Kept, Trim;
    assert Emit([x][1..]) == [];
  }

  /** A kept text without a cut is one statement, and splitting that statement gives it back. */
  lemma OneStatement(text: string)
    requires NoSemi(Lex(text)) && Kept(text)
    ensures Statements(Trim(text)) == [Trim(text)]
  {
    hide Lex, HasSql, Trim, Emit, SegTexts;
    var x := Trim(text);
    TrimShape(text);
    TrimTwice(text);
    SingleSegment(x);
    EmitOne(x);
  }

  lemma {:induction false} EmitMember(ts: seq<string>, x: string)
    requires x in Emit(ts)
    ensures exists i :: 0 <= i < |ts| && Kept(ts[i]) && x == Trim(ts[i])
  {
    hide Kept, Trim;
    if !(Kept(ts[0]) && x == Trim(ts[0])) {
      EmitMember(ts[1..], x);
      var i :| 0 <= i < |ts[1..]| && Kept(ts[1..][i]) && x == Trim(ts[1..][i]);
      assert ts[i + 1] == ts[1..][i];
    }
  }

  lemma {:induction false} EmitConcat(xs: seq<string>, ys: seq<string>)
    ensures Emit(xs + ys) == Emit(xs) + Emit(ys)
  {
    hide Kept, Trim;
    if xs == [] {
      assert xs + ys == ys;
    } else {
      assert (xs + ys)[1..] == xs[1..] + ys;
      EmitConcat(xs[1..], ys);
    }
  }

  /**
   * What becomes of each segment: nothing if it holds only white space and line comments, else one
   * statement, which is the segment without its outer white space, after those of all segments before
   * it and before those of all segments after it.
   */
  lemma StatementsExact(s: string, i: nat) returns (here: seq<string>)
    requires i < |SegTexts(s)|
    ensures Statements(s) == Emit(SegTexts(s)[..i]) + here + Emit(SegTexts(s)[i + 1..]) && Emit([]) == []
    ensures AllBare(Lex(SegTexts(s)[i])) ==> here == []
    ensures !AllBare(Lex(SegTexts(s)[i])) ==> |here| == 1 && IsCore(SegTexts(s)[i], here[0])
  {
    hide Kept, Trim, Lex, SegTexts, IsCore, AllBare;
    var ts := SegTexts(s);
    var front, back := ts[..i], ts[i + 1..];
    assert ts == front + [ts[i]] + back;
    EmitConcat(front + [ts[i]], back);
    EmitConcat(front, [ts[i]]);
    EmitOne(ts[i]);
    DroppedIff(ts[i]);
    TrimIsCore(ts[i]);
    here := Emit([ts[i]]);
  }

  /** Splitting any statement of the output again yields just that statement. */
  lemma Resplit(s: string, x: string)
    requires x in Statements(s)
    ensures Statements(x) == [x]
  {
    hide Lex, Kept, Trim, SegTexts, Emit, NoSemi, EndsOpen;
    EmitMember(SegTexts(s), x);
    var i :| 0 <= i < |SegTexts(s)| && Kept(SegTexts(s)[i]) && x == Trim(SegTexts(s)[i]);
    SegTextsGood(s);
    OneStatement(SegTexts(s)[i]);
  }

  // ------------------------------------------------------ printed statements

  /** Each statement followed by a line break and a semicolon. */
  function Print(stmts: seq<string>): string {
    if stmts == [] then "" else stmts[0] + ("\n" + (";" + Print(stmts[1..])))
  }

  /** A token followed by more input still fits when a line break comes after that input. */
  lemma FitsExtend(t: Token, rest: string, v: string)
    requires Fits(t, rest) && rest != ""
    ensures Fits(t, rest + ("\n" + v))
  {
    var rest' := rest + ("\n" + v);
    assert rest'[0] == rest[0];
    match t {
      case Plain(c) =>
        NoTagAcrossSpace([c] + rest, '\n', v);
        assert [c] + rest' == ([c] + rest) + ['\n'] + v;
      case _ =>
    }
  }

  lemma {:induction false} LexExtendFront(xs: seq<Token>, z: string, v: string)
    requires Lex(TextOfAll(xs) + z) == xs + Lex(z) && z != ""
    ensures Lex(TextOfAll(xs) + (z + ("\n" + v))) == xs + Lex(z + ("\n" + v))
  {
    hide Fits, NextToken, TextOf;
    var z' := z + ("\n" + v);
    if xs == [] {
      assert TextOfAll(xs) + z' == z';
      assert xs + Lex(z') == Lex(z');
    } else {
      var t, front := xs[0], TextOfAll(xs[1..]);
      StripHead(xs, z);
      LexExtendFront(xs[1..], z, v);
      FitsExtend(t, front + z, v);
      Assoc(front, z, "\n" + v);
      LexCons(t, front + z');
      Assoc(TextOf(t), front, z');
      assert [t] + (xs[1..] + Lex(z')) == xs + Lex(z');
    }
  }

  /** The reading of a text split into its last token and what comes before. */
  lemma LastSplit(x: string)
    requires x != ""
    ensures var k := |Lex(x)| - 1;
            && k >= 0
            && var xs, t := Lex(x)[..k], Lex(x)[k];
               && x == TextOfAll(xs) + TextOf(t)
               && Lex(TextOf(t)) == [t] && TextOf(t) != "" && Fits(t, "")
               && Lex(TextOfAll(xs) + TextOf(t)) == xs + Lex(TextOf(t))
  {
    hide Fits, NextToken, TextOf;
    LexHead(x);
    var k := |Lex(x)| - 1;
    var xs, t := Lex(x)[..k], Lex(x)[k];
    assert Lex(x) == xs + [t];
    LexSuffix(x, xs, [t]);
    SingleText(t);
    if TextOf(t) == "" {
      EmptyLex();
      assert false;
    }
    LexHead(TextOf(t));
    assert TextOf(t)[|TextOf(t)|..] == "";
  }

  /** How the last token of a closed text reads when a line break follows. */
  lemma LastExtend(t: Token, v: string)
    requires Fits(t, "") && !Unclosed(t)
    ensures exists w: seq<Token> ::
              && Lex(TextOf(t) + ("\n" + v)) == w + Lex(v)
              && TextOfAll(w) == TextOf(t) + "\n"
              && (NoSemi([t]) ==> NoSemi(w))
  {
    hide Lex, NextToken;
    if t.Line? && IndexOf(t.text, "\n").None? {
      var t' := Line(t.text + "\n");
      UnfinishedLine(t.text);
      NewlineAt(t.text, "");
      assert t.text + "\n" + "" == t.text + "\n";
      assert Fits(t', v);
      LexCons(t', v);
      Assoc(t.text, "\n", v);
      SingleText(t');
      assert NoSemi([t']);
    } else {
      NewlineFits(t, v);
      LexCons(t, "\n" + v);
      LeadingSpace('\n', v);
      var w := [t] + [Plain('\n')];
      Assoc([t], [Plain('\n')], Lex(v));
      TextConcat([t], [Plain('\n')]);
      SingleText(t);
      SingleText(Plain('\n'));
    }
  }

  lemma UnfinishedLine(text: string)
    requires IndexOf(text, "\n").None?
    ensures forall i :: 0 <= i < |text| ==> text[i] != '\n'
  {
    FirstLine(text);
  }

  lemma NewlineFits(t: Token, v: string)
    requires Fits(t, "") && !Unclosed(t) && !(t.Line? && IndexOf(t.text, "\n").None?)
    ensures Fits(t, "\n" + v)
  {
    var rest := "\n" + v;
    assert rest[0] == '\n';
    match t {
      case Plain(c) =>
        assert [c] + "" == [c];
        NoTagAcrossSpace([c], '\n', v);
        assert [c] + rest == [c] + ['\n'] + v;
      case _ =>
    }
  }

  lemma {:induction false} SegmentsAt(w: seq<Token>, rest: seq<Token>)
    requires NoSemi(w)
    ensures Segments(w + ([Semi] + rest)) == [w] + Segments(rest)
  {
    var all := w + ([Semi] + rest);
    if w == [] {
      assert all == [Semi] + rest && all[1..] == rest;
    } else {
      SegmentsAt(w[1..], rest);
      assert all[1..] == w[1..] + ([Semi] + rest);
      assert w == [w[0]] + w[1..];
    }
  }

  /** How a closed text reads when it is printed: its tokens, perhaps with the last one ended, then the cut. */
  lemma ClosedReading(x: string, v: string)
    requires x != "" && NoSemi(Lex(x)) && !EndsOpen(Lex(x))
    ensures exists w: seq<Token> ::
              NoSemi(w) && TextOfAll(w) == x + "\n" && Lex(x + ("\n" + (";" + v))) == w + ([Semi] + Lex(v))
  {
    hide Fits, NextToken, TextOf, Unclosed, Lex, TextOfAll;
    LastSplit(x);
    var k := |Lex(x)| - 1;
    var xs, t := Lex(x)[..k], Lex(x)[k];
    LexExtendFront(xs, TextOf(t), ";" + v);
    LastExtend(t, ";" + v);
    var w: seq<Token> :|
      && Lex(TextOf(t) + ("\n" + (";" + v))) == w + Lex(";" + v)
      && TextOfAll(w) == TextOf(t) + "\n"
      && (NoSemi([t]) ==> NoSemi(w));
    SemiFirst(v);
    Assoc(xs, w, [Semi] + Lex(v));
    Assoc(TextOfAll(xs), TextOf(t), "\n" + (";" + v));
    TextConcat(xs, w);
    Assoc(TextOfAll(xs), TextOf(t), "\n");
    assert NoSemi(xs + w);
  }

  /** A closed text, printed, is cut off as one segment. */
  lemma ClosedPrint(x: string, v: string)
    requires x != "" && NoSemi(Lex(x)) && !EndsOpen(Lex(x))
    ensures SegTexts(x + ("\n" + (";" + v))) == [x + "\n"] + SegTexts(v)
  {
    hide Unclosed, Lex, Segments, TextOfAll, EndsOpen, NoSemi;
    ClosedReading(x, v);
    var w: seq<Token> :|
      NoSemi(w) && TextOfAll(w) == x + "\n" && Lex(x + ("\n" + (";" + v))) == w + ([Semi] + Lex(v));
    SegmentsAt(w, Lex(v));
    assert Texts([w] + Segments(Lex(v))) == [x + "\n"] + Texts(Segments(Lex(v)));
  }

  lemma SemiFirst(v: string)
    ensures Lex(";" + v) == [Semi] + Lex(v)
  {
    LexCons(Semi, v);
  }

  // --------------------------------------------------- when the end is open

  /** What opens a body does not close it: the printed ending contains no closing mark. */
  lemma UnclosedExtend(body: string, close: string)
    requires close != "" && IndexOf(body, close).None? && close[|close| - 1] != '\n' && close[|close| - 1] != ';'
    ensures IndexOf(body + "\n;", close).None?
  {
    var all, n := body + "\n;", |close|;
    forall k ensures !Occurs(all, close, k) {
      OccursConcat(body, "\n;", close, k);
      if 0 <= k && |body| < k + n <= |all| {
        assert all[k..k + n][n - 1] == all[k + n - 1];
      }
    }
  }

  lemma OpenExtendDollar(tag: string, text: string)
    requires Fits(Dollar(tag, text), "") && Unclosed(Dollar(tag, text))
    ensures Fits(Dollar(tag, text + "\n;"), "")
  {
    hide TagOf, IndexOf;
    UnclosedExtend(text[|tag|..], tag);
    TagOfExtend(text, "\n;");
    assert (text + "\n;")[|tag|..] == text[|tag|..] + "\n;";
  }

  lemma OpenExtendBlock(text: string)
    requires Fits(Block(text), "") && Unclosed(Block(text))
    ensures Fits(Block(text + "\n;"), "")
  {
    hide IndexOf;
    UnclosedExtend(text[2..], "*/");
    assert (text + "\n;")[2..] == text[2..] + "\n;";
  }

  lemma OpenExtendQuoted(text: string)
    requires Fits(Quoted(text), "") && Unclosed(Quoted(text))
    ensures Fits(Quoted(text + "\n;"), "")
  {
    hide Doubled;
    DoubledPlain();
    DoubledExtend(text[1..], "\n;");
    assert (text + "\n;")[1..] == text[1..] + "\n;";
  }

  lemma OpenExtend(t: Token)
    requires Fits(t, "") && Unclosed(t)
    ensures exists t' :: Fits(t', "") && TextOf(t') == TextOf(t) + "\n;" && !t'.Semi?
  {
    hide Fits;
    match t {
      case Block(text) =>
        OpenExtendBlock(text);
        assert TextOf(Block(text + "\n;")) == text + "\n;";
      case Quoted(text) =>
        OpenExtendQuoted(text);
        assert TextOf(Quoted(text + "\n;")) == text + "\n;";
      case Dollar(tag, text) =>
        OpenExtendDollar(tag, text);
        assert TextOf(Dollar(tag, text + "\n;")) == text + "\n;";
    }
  }

  lemma DoubledPlain()
    ensures Doubled("\n;")
  {
    assert "\n;"[1..] == ";" && ";"[1..] == "";
  }

  /** An open text swallows what is printed after it. */
  lemma OpenPrint(x: string)
    requires NoSemi(Lex(x)) && EndsOpen(Lex(x))
    ensures SegTexts(x + "\n;") == [x + "\n;"]
  {
    hide Fits, NextToken, TextOf, Unclosed, Lex;
    if x == "" {
      EmptyLex();
    }
    LastSplit(x);
    var k := |Lex(x)| - 1;
    var xs, t := Lex(x)[..k], Lex(x)[k];
    LexExtendFront(xs, TextOf(t), ";");
    assert "\n" + ";" == "\n;";
    OpenExtend(t);
    var t' :| Fits(t', "") && TextOf(t') == TextOf(t) + "\n;" && !t'.Semi?;
    LexCons(t', "");
    EmptyLex();
    assert TextOf(t') + "" == TextOf(t');
    Assoc(TextOfAll(xs), TextOf(t), "\n;");
    assert NoSemi(xs + [t']);
    SingleSegment(x + "\n;");
  }

  // ------------------------------------------------------------- round trip

  lemma TrimPrinted(x: string)
    requires x != "" && !IsSpace(x[0])
    ensures !IsSpace(x[|x| - 1]) ==> Trim(x + "\n") == x
    ensures Trim(x + "\n;") == x + "\n;"
  {
    var a, b := x + "\n", x + "\n;";
    assert TrimLeft(a) == a && TrimLeft(b) == b;
    assert a[..|a| - 1] == x;
  }

  lemma EmitCons(x: string, ts: seq<string>)
    ensures Emit([x] + ts) == (if Kept(x) then [Trim(x)] else []) + Emit(ts)
  {
    hide Kept, Trim;
    assert ([x] + ts)[1..] == ts;
  }

  /** One printed statement in front of others, when it is closed. */
  lemma PrintClosed(text: string, more: seq<string>)
    requires NoSemi(Lex(text)) && Kept(text) && !EndsOpen(Lex(text))
    ensures Statements(Print([Trim(text)] + more)) == [Trim(text)] + Statements(Print(more))
  {
    hide Lex, HasSql, Trim, Emit, SegTexts, NoSemi, EndsOpen;
    var x := Trim(text);
    TrimShape(text);
    TrimTwice(text);
    assert ([x] + more)[1..] == more;
    ClosedPrint(x, Print(more));
    TrimPrinted(x);
    EmitCons(x + "\n", SegTexts(Print(more)));
  }

  /** The last printed statement, when it is open. */
  lemma PrintOpen(text: string)
    requires NoSemi(Lex(text)) && EndsOpen(Lex(text))
    ensures Kept(text)
    ensures Statements(Print([Trim(text)])) != [Trim(text)]
  {
    hide Lex, Emit, SegTexts, Kept, NoSemi, EndsOpen, Trim, Print;
    var x := Trim(text);
    DroppedIff(text);
    OpenNotBare(Lex(text));
    KeptNotEmpty(text);
    TrimShape(text);
    TrimTwice(text);
    PrintSingle(x);
    OpenPrint(x);
    TrimPrinted(x);
    EmitOne(x + "\n;");
    assert |[x + "\n;"][0]| != |[x][0]|;
  }

  lemma PrintSingle(x: string)
    ensures Print([x]) == x + "\n;"
  {
    assert Print([x][1..]) == "";
    assert "\n" + (";" + "") == "\n;";
  }

  lemma Cancel<T>(x: T, a: seq<T>, b: seq<T>)
    ensures [x] + a == [x] + b <==> a == b
  {
    assert ([x] + a)[1..] == a && ([x] + b)[1..] == b;
  }

  lemma KeptNotEmpty(text: string)
    requires Kept(text)
    ensures Trim(text) != ""
  {
  }

  lemma OpenNotBare(toks: seq<Token>)
    requires EndsOpen(toks)
    ensures !AllBare(toks)
  {
    assert !Bare(toks[|toks| - 1]);
  }

  lemma {:induction false} PrintTexts(ts: seq<string>, open: bool)
    requires GoodTexts(ts, open)
    ensures Statements(Print(Emit(ts))) == Emit(ts) <==> !open
  {
    hide Lex, HasSql, Trim, SegTexts, Kept, NoSemi, EndsOpen, Statements, Print;
    var text, rest := ts[0], ts[1..];
    assert ts == [text] + rest;
    EmitCons(text, rest);
    if rest == [] {
      assert Emit(rest) == [];
      if open {
        PrintOpen(text);
        assert Emit(ts) == [Trim(text)];
      } else if Kept(text) {
        PrintClosed(text, []);
        PrintNothing();
      } else {
        PrintNothing();
      }
    } else {
      PrintTexts(rest, open);
      if Kept(text) {
        PrintClosed(text, Emit(rest));
        Cancel(Trim(text), Statements(Print(Emit(rest))), Emit(rest));
      } else {
        assert Emit(ts) == Emit(rest);
      }
    }
  }

  lemma PrintNothing()
    ensures Statements(Print([])) == []
  {
    EmptySegments();
    assert Trim("") == "";
    EmitOne("");
  }

  /**
   * Printing all statements of an input, each followed by a line break and a semicolon, and splitting
   * again gives the same statements, if and only if the input does not end inside an unclosed block
   * comment, quoted string or dollar-quoted body.
   */
  lemma PrintRoundTripIff(s: string)
    ensures Statements(Print(Statements(s))) == Statements(s) <==> !EndsOpen(Lex(s))
  {
    hide Lex, SegTexts, EndsOpen, Print;
    SegTextsGood(s);
    PrintTexts(SegTexts(s), EndsOpen(Lex(s)));
  }

  /** A single unclosed quote is such an input. */
  lemma UnclosedQuoteIsLost()
    ensures EndsOpen(Lex("'")) && Statements(Print(Statements("'"))) != Statements("'")
  {
    PrintRoundTripIff("'");
    assert "'"[1..] == "" && Doubled("");
    assert Fits(Quoted("'"), "");
    LexCons(Quoted("'"), "");
    assert TextOf(Quoted("'")) + "" == "'";
    EmptyLex();
  }
}
