/** Splitting a migration file into statements at the semicolons of its lexical ground level. */
module Splitter {
  import opened Wire
  import opened Text
  import opened Lexer

  // -------------------------------------------------------------- segments

  /** The tokens between semicolons. */
  function Segments(toks: seq<Token>): (r: seq<seq<Token>>)
    ensures |r| >= 1
  {
    if toks == [] then [[]]
    else
      var rest := Segments(toks[1..]);
      if toks[0].Semi? then [[]] + rest else [[toks[0]] + rest[0]] + rest[1..]
  }

  function Texts(segs: seq<seq<Token>>): (r: seq<string>)
    ensures |r| == |segs|
    ensures forall i :: 0 <= i < |r| ==> r[i] == TextOfAll(segs[i])
  {
    seq(|segs|, i requires 0 <= i < |segs| => TextOfAll(segs[i]))
  }

  function Join(ss: seq<string>): string
    requires ss != []
  {
    if |ss| == 1 then ss[0] else ss[0] + ";" + Join(ss[1..])
  }

  ghost predicate NoSemi(toks: seq<Token>) { forall i :: 0 <= i < |toks| ==> !toks[i].Semi? }

  /** A segment text with some text put in front. */
  function Glue(front: string, ts: seq<string>): (r: seq<string>)
    requires ts != []
    ensures |r| == |ts|
  {
    [front + ts[0]] + ts[1..]
  }

  function SegTexts(s: string): (r: seq<string>)
    ensures r != []
  {
    Texts(Segments(Lex(s)))
  }

  /** How one token enters the segments. */
  lemma SegStep(s: string)
    requires s != ""
    ensures var t := NextToken(s);
            && |TextOf(t)| <= |s|
            && var rest := s[|TextOf(t)|..];
               SegTexts(s) == if t.Semi? then [""] + SegTexts(rest) else Glue(TextOf(t), SegTexts(rest))
  {
    hide NextToken, TextOf, Fits;
    NextFits(s);
    var t := NextToken(s);
    var rest := s[|TextOf(t)|..];
    var segs := Segments(Lex(rest));
    assert Lex(s) == [t] + Lex(rest) && Lex(s)[1..] == Lex(rest);
    if t.Semi? {
      assert Segments(Lex(s)) == [[]] + segs;
      assert SegTexts(s) == [""] + Texts(segs);
    } else {
      assert Segments(Lex(s)) == [[t] + segs[0]] + segs[1..];
      assert ([t] + segs[0])[1..] == segs[0];
      assert SegTexts(s) == Glue(TextOf(t), Texts(segs));
    }
  }

  /** The untrimmed segments, joined by the dropped semicolons, are the input. */
  lemma {:induction false} JoinSegments(s: string)
    ensures Join(SegTexts(s)) == s
    decreases |s|
  {
    hide NextToken, TextOf, Fits, SegTexts;
    if s == "" {
      EmptySegments();
    } else {
      NextFits(s);
      SegStep(s);
      var t := NextToken(s);
      var rest := s[|TextOf(t)|..];
      JoinSegments(rest);
      var ts := SegTexts(rest);
      if t.Semi? {
        SemiText();
        assert ([""] + ts)[1..] == ts;
        assert Join([""] + ts) == "" + ";" + Join(ts);
      } else {
        JoinGlue(TextOf(t), ts);
      }
    }
  }

  lemma EmptySegments()
    ensures SegTexts("") == [""]
  {
  }

  lemma SemiText()
    ensures TextOf(Semi) == ";"
  {
  }

  lemma JoinGlue(front: string, ts: seq<string>)
    requires ts != []
    ensures Join(Glue(front, ts)) == front + Join(ts)
  {
    if |ts| > 1 {
      assert Glue(front, ts)[1..] == ts[1..];
      Assoc(front, ts[0], ";");
      Assoc(front, ts[0] + ";", Join(ts[1..]));
    }
  }

  // --------------------------------------------------------- trim and filter

  function Lines(s: string): (r: seq<string>)
    ensures r != []
    decreases |s|
  {
    match IndexOf(s, "\n")
    case Some(k) => [s[..k]] + Lines(s[k + 1..])
    case None => [s]
  }

  predicate SqlLine(line: string) {
    var l := Trim(line);
    l != "" && !Starts(l, '-', '-')
  }

  /** Some line is neither blank nor a line comment. */
  predicate HasSql(s: string) { exists i :: 0 <= i < |Lines(s)| && SqlLine(Lines(s)[i]) }

  predicate Kept(text: string) { Trim(text) != "" && HasSql(Trim(text)) }

  /** The statements of a list of segment texts. */
  function Emit(texts: seq<string>): seq<string> {
    if texts == [] then [] else (if Kept(texts[0]) then [Trim(texts[0])] else []) + Emit(texts[1..])
  }

  /** The statements of a migration file. */
  function Statements(s: string): seq<string> { Emit(SegTexts(s)) }

  lemma HasSqlStep(s: string)
    ensures HasSql(s) <==>
            match IndexOf(s, "\n")
            case Some(k) => SqlLine(s[..k]) || HasSql(s[k + 1..])
            case None => SqlLine(s)
  {
    hide SqlLine;
    var k := IndexOf(s, "\n");
    if k.Some? {
      var rest := Lines(s[k.value + 1..]);
      assert Lines(s) == [s[..k.value]] + rest;
      if HasSql(s[k.value + 1..]) {
        var i :| 0 <= i < |rest| && SqlLine(rest[i]);
        assert Lines(s)[i + 1] == rest[i];
      }
      if SqlLine(s[..k.value]) {
        assert Lines(s)[0] == s[..k.value];
      }
    } else {
      assert Lines(s)[0] == s;
    }
  }

  // ---------------------------------------------------------- the three loops

  method StmtHasSql(s: string) returns (found: bool)
    ensures found == HasSql(s)
  {
    hide Lines, Trim;
    var lines := Lines(s);
    for i := 0 to |lines|
      invariant forall k :: 0 <= k < i ==> !SqlLine(lines[k])
    {
      var l := Trim(lines[i]);
      if l != "" && !Starts(l, '-', '-') {
        assert SqlLine(lines[i]);
        return true;
      }
    }
    found := false;
  }

  /** The end of the quoted string that starts at i, doubled quotes included. */
  method ScanQuoted(raw: string, i: nat) returns (j: nat)
    requires i < |raw| && raw[i] == '\''
    ensures j == i + 1 + QuoteEnd(raw[i + 1..])
  {
    j := i + 1;
    while j < |raw|
      invariant i + 1 <= j <= |raw|
      invariant QuoteEnd(raw[i + 1..]) == j - (i + 1) + QuoteEnd(raw[j..])
    {
      assert raw[j..][1..] == raw[j + 1..];
      if raw[j] == '\'' {
        if j + 1 < |raw| && raw[j + 1] == '\'' {
          assert raw[j..][2..] == raw[j + 2..];
          j := j + 2;
        } else {
          j := j + 1;
          return;
        }
      } else {
        j := j + 1;
      }
    }
  }

  /** The first position after the dollar at i that is no identifier character. */
  method ScanTag(raw: string, i: nat) returns (tagEnd: nat)
    requires i < |raw|
    ensures tagEnd == i + 1 + IdentLength(raw[i + 1..])
  {
    tagEnd := i + 1;
    while tagEnd < |raw| && IsIdent(raw[tagEnd])
      invariant i + 1 <= tagEnd <= |raw|
      invariant IdentLength(raw[i + 1..]) == tagEnd - (i + 1) + IdentLength(raw[tagEnd..])
    {
      assert raw[tagEnd..][1..] == raw[tagEnd + 1..];
      tagEnd := tagEnd + 1;
    }
  }

  lemma PrefixSlice(raw: string, i: nat, j: nat)
    requires i <= j <= |raw|
    ensures raw[i..j] == raw[i..][..j - i]
  {
  }

  method ScanLine(raw: string, i: nat) returns (j: nat)
    requires i < |raw| && Starts(raw[i..], '-', '-')
    ensures i < j <= |raw| && raw[i..j] == TextOf(NextToken(raw[i..]))
  {
    var end := IndexOf(raw[i..], "\n");
    j := if end.None? then |raw| else i + end.value + 1;
    PrefixSlice(raw, i, j);
  }

  method ScanBlock(raw: string, i: nat) returns (j: nat)
    requires i < |raw| && Starts(raw[i..], '/', '*')
    ensures i < j <= |raw| && raw[i..j] == TextOf(NextToken(raw[i..]))
  {
    ghost var s := raw[i..];
    var end := IndexOf(raw[i + 2..], "*/");
    j := if end.None? then |raw| else i + 2 + end.value + 2;
    assert s[2..] == raw[i + 2..];
    PrefixSlice(raw, i, j);
    assert s[..j - i] == s[..2] + s[2..][..j - i - 2];
  }

  method ScanDollar(raw: string, i: nat) returns (j: nat)
    requires i < |raw| && raw[i] == '$'
    ensures i < j <= |raw| && raw[i..j] == TextOf(NextToken(raw[i..]))
  {
    ghost var s := raw[i..];
    var tagEnd := ScanTag(raw, i);
    assert s[0] == '$' && s[1..] == raw[i + 1..];
    if tagEnd < |raw| && raw[tagEnd] == '$' {
      var tag := raw[i..tagEnd + 1];
      PrefixSlice(raw, i, tagEnd + 1);
      assert s[tagEnd - i] == '$';
      assert TagOf(s) == Some(tag);
      j := ScanBody(raw, i, tag);
    } else {
      assert TagOf(s).None?;
      j := i + 1;
    }
  }

  /** The end of the dollar-quoted body whose opening tag starts at i. */
  method ScanBody(raw: string, i: nat, tag: string) returns (j: nat)
    requires i < |raw| && TagOf(raw[i..]) == Some(tag)
    ensures i < j <= |raw| && raw[i..j] == TextOf(NextToken(raw[i..]))
  {
    hide TagOf;
    ghost var s := raw[i..];
    assert s[0] == '$' by { TagStart(s); }
    var close := IndexOf(raw[i + |tag|..], tag);
    j := if close.None? then |raw| else i + |tag| + close.value + |tag|;
    assert s[|tag|..] == raw[i + |tag|..];
    PrefixSlice(raw, i, j);
    assert s[..j - i] == tag + s[|tag|..][..j - i - |tag|];
  }

  lemma TagStart(s: string)
    requires TagOf(s).Some?
    ensures s[0] == '$'
  {
  }

  /** The end of the token that starts at i. */
  method ScanToken(raw: string, i: nat) returns (j: nat)
    requires i < |raw|
    ensures i < j <= |raw| && raw[i..j] == TextOf(NextToken(raw[i..]))
  {
    hide TakeThrough, QuoteEnd;
    if raw[i] == '-' && i + 1 < |raw| && raw[i + 1] == '-' {
      j := ScanLine(raw, i);
    } else if raw[i] == '/' && i + 1 < |raw| && raw[i + 1] == '*' {
      j := ScanBlock(raw, i);
    } else if raw[i] == '\'' {
      j := ScanQuoted(raw, i);
      assert raw[i..][1..] == raw[i + 1..];
      PrefixSlice(raw, i, j);
    } else if raw[i] == '$' {
      j := ScanDollar(raw, i);
    } else {
      assert TagOf(raw[i..]).None?;
      j := i + 1;
    }
  }

  method KeepStatement(cur: string) returns (keep: bool)
    ensures keep == Kept(cur)
  {
    hide Trim, HasSql;
    var stmt := Trim(cur);
    keep := false;
    if stmt != "" {
      keep := StmtHasSql(stmt);
    }
  }

  method SplitStatements(raw: string) returns (out: seq<string>)
    ensures out == Statements(raw)
  {
    hide NextToken, TextOf, SegTexts, Emit, Statements, Kept, Trim, Glue;
    out := [];
    var cur := "";
    var i := 0;
    StartState(raw);
    while i < |raw|
      invariant 0 <= i <= |raw|
      invariant Statements(raw) == out + Emit(Glue(cur, SegTexts(raw[i..])))
    {
      if raw[i] == ';' {
        AtSemicolon(cur, raw[i..], out);
        assert raw[i..][1..] == raw[i + 1..];
        var keep := KeepStatement(cur);
        out := out + if keep then [Trim(cur)] else [];
        cur := "";
        i := i + 1;
      } else {
        var j := ScanToken(raw, i);
        AtToken(cur, raw[i..]);
        assert raw[i..][j - i..] == raw[j..];
        cur := cur + raw[i..j];
        i := j;
      }
    }
    assert raw[i..] == "";
    LastState(cur, out);
    var keep := KeepStatement(cur);
    out := out + if keep then [Trim(cur)] else [];
  }

  lemma StartState(raw: string)
    ensures Statements(raw) == [] + Emit(Glue("", SegTexts(raw[0..])))
  {
    hide SegTexts, Emit;
    assert raw[0..] == raw;
    var ts := SegTexts(raw);
    assert "" + ts[0] == ts[0];
    assert Glue("", ts) == ts;
  }

  lemma AtSemicolon(cur: string, s: string, out: seq<string>)
    requires s != "" && s[0] == ';'
    ensures out + Emit(Glue(cur, SegTexts(s))) ==
            (out + if Kept(cur) then [Trim(cur)] else []) + Emit(Glue("", SegTexts(s[1..])))
  {
    hide SegTexts, Kept;
    SegStep(s);
    var ts := SegTexts(s[1..]);
    assert NextToken(s) == Semi;
    assert cur + "" == cur;
    assert ([""] + ts)[1..] == ts;
    assert Glue(cur, [""] + ts) == [cur] + ts;
    assert ([cur] + ts)[1..] == ts;
    assert "" + ts[0] == ts[0];
    assert Glue("", ts) == ts;
    Assoc(out, if Kept(cur) then [Trim(cur)] else [], Emit(ts));
  }

  lemma AtToken(cur: string, s: string)
    requires s != "" && s[0] != ';'
    ensures var text := TextOf(NextToken(s));
            |text| <= |s| && Glue(cur, SegTexts(s)) == Glue(cur + text, SegTexts(s[|text|..]))
  {
    hide SegTexts;
    SegStep(s);
    NextFits(s);
    var text := TextOf(NextToken(s));
    assert !NextToken(s).Semi?;
    Assoc(cur, text, SegTexts(s[|text|..])[0]);
  }

  lemma LastState(cur: string, out: seq<string>)
    ensures out + Emit(Glue(cur, SegTexts(""))) == out + (if Kept(cur) then [Trim(cur)] else [])
  {
    hide Kept;
    EmptySegments();
    assert cur + "" == cur;
    assert Glue(cur, [""]) == [cur];
    assert Emit([cur][1..]) == [];
  }
}
