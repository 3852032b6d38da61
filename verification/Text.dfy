/** ASCII text: white space, trimming and case folding. */
module Text {

  predicate IsSpace(c: char) {
    c == ' ' || c == '\t' || c == '\n' || c == '\r' || c == '\U{000B}' || c == '\U{000C}'
  }

  function TrimLeft(s: string): (r: string)
    ensures |r| <= |s| && r == s[|s| - |r|..]
    ensures r != [] ==> !IsSpace(r[0])
    ensures forall i :: 0 <= i < |s| - |r| ==> IsSpace(s[i])
  {
    if s == [] || !IsSpace(s[0]) then s else TrimLeft(s[1..])
  }

  function TrimRight(s: string): (r: string)
    ensures |r| <= |s| && r == s[..|r|]
    ensures r != [] ==> !IsSpace(r[|r| - 1])
    ensures forall i :: |r| <= i < |s| ==> IsSpace(s[i])
  {
    if s == [] || !IsSpace(s[|s| - 1]) then s else TrimRight(s[..|s| - 1])
  }

  function Trim(s: string): string { TrimRight(TrimLeft(s)) }

  function ToLower(s: string): (r: string)
    ensures |r| == |s|
  {
    seq(|s|, i requires 0 <= i < |s| => if 'A' <= s[i] <= 'Z' then ((s[i] as int) + 32) as char else s[i])
  }

  /** The form under which user names are compared. */
  function Fold(s: string): string { ToLower(Trim(s)) }

  // ------------------------------------------------- what trimming and folding mean

  /** The six ASCII white space characters: tab to carriage return, and the blank. */
  lemma SpaceCodes(c: char)
    ensures IsSpace(c) <==> 9 <= c as int <= 13 || c as int == 32
  {
  }

  predicate AllSpace(s: string) { forall i :: 0 <= i < |s| ==> IsSpace(s[i]) }

  predicate NoOuterSpace(s: string) { s != "" ==> !IsSpace(s[0]) && !IsSpace(s[|s| - 1]) }

  /** t is s without its outer white space. */
  ghost predicate IsCore(s: string, t: string) {
    NoOuterSpace(t) && exists a, b :: AllSpace(a) && AllSpace(b) && s == a + t + b
  }

  lemma TrimIsCore(s: string)
    ensures IsCore(s, Trim(s))
    ensures Trim(s) == "" <==> AllSpace(s)
  {
    hide TrimLeft, TrimRight, AllSpace;
    var left, t := TrimLeft(s), Trim(s);
    var a, b := s[..|s| - |left|], left[|t|..];
    LeftPart(s);
    RightPart(left);
    assert s == a + t + b;
    if t != "" {
      assert t[0] == left[0];
      VisibleInside(a, t, b);
    } else {
      assert s == a + b;
      SpaceJoin(a, b);
    }
  }

  lemma LeftPart(s: string)
    ensures var a := s[..|s| - |TrimLeft(s)|]; AllSpace(a) && s == a + TrimLeft(s)
  {
    hide TrimLeft;
  }

  lemma RightPart(s: string)
    ensures var b := s[|TrimRight(s)|..]; AllSpace(b) && s == TrimRight(s) + b
  {
    hide TrimRight;
  }

  lemma SpaceJoin(a: string, b: string)
    requires AllSpace(a) && AllSpace(b)
    ensures AllSpace(a + b)
  {
  }

  lemma VisibleInside(a: string, t: string, b: string)
    requires t != "" && !IsSpace(t[0])
    ensures !AllSpace(a + t + b)
  {
    assert (a + t + b)[|a|] == t[0];
  }

  /** The same letter, possibly in the other case; any other character the same. */
  predicate SameLetter(x: char, y: char) {
    || x == y
    || ('A' <= x <= 'Z' && y as int == x as int + 32)
    || ('A' <= y <= 'Z' && x as int == y as int + 32)
  }

  predicate SameUpToCase(s: string, t: string) { |s| == |t| && forall i :: 0 <= i < |s| ==> SameLetter(s[i], t[i]) }

  predicate NoUpper(s: string) { forall i :: 0 <= i < |s| ==> !('A' <= s[i] <= 'Z') }

  lemma ToLowerMeans(s: string)
    ensures NoUpper(ToLower(s)) && SameUpToCase(ToLower(s), s)
  {
  }

  /** Names fold to the same exactly when they differ in case and outer white space only. */
  lemma FoldIff(s: string, t: string)
    ensures Fold(s) == Fold(t) <==> SameUpToCase(Trim(s), Trim(t))
  {
    hide Trim, ToLower;
    ToLowerIff(Trim(s), Trim(t));
  }

  /** Folded names are equal exactly for names that differ in case only. */
  lemma ToLowerIff(s: string, t: string)
    ensures ToLower(s) == ToLower(t) <==> SameUpToCase(s, t)
  {
    if ToLower(s) == ToLower(t) {
      forall i | 0 <= i < |s| ensures SameLetter(s[i], t[i]) {
        assert ToLower(s)[i] == ToLower(t)[i];
      }
    }
  }
}
