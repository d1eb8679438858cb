/** Matching a brace of Java source while skipping string and character literals and comments. */
module BraceMatching {
  import opened JavaPieces
  import opened Outcomes

  // ---------------------------------------------------------------------------------------------
  // The reference lexer: one character at a time
  // ---------------------------------------------------------------------------------------------

  /** Where in the source a character stands; `Slash` is after a slash that may open a comment. */
  datatype Lexer = InCode | Slash | Str | StrEscape | Chr | ChrEscape | LineComment | BlockComment | BlockStar

  datatype Scan = Scan(lexer: Lexer, depth: int)

  function CodeStep(depth: int, c: char): Scan {
    match c
    case '"' => Scan(Str, depth)
    case '\'' => Scan(Chr, depth)
    case '/' => Scan(Slash, depth)
    case '{' => Scan(InCode, depth + 1)
    case '}' => Scan(InCode, depth - 1)
    case _ => Scan(InCode, depth)
  }

  function Step(s: Scan, c: char): Scan {
    match s.lexer
    case InCode => CodeStep(s.depth, c)
    case Slash =>
      if c == '/' then Scan(LineComment, s.depth)
      else if c == '*' then Scan(BlockComment, s.depth)
      else CodeStep(s.depth, c)
    case Str => Scan(if c == '\\' then StrEscape else if c == '"' then InCode else Str, s.depth)
    case StrEscape => Scan(Str, s.depth)
    case Chr => Scan(if c == '\\' then ChrEscape else if c == '\'' then InCode else Chr, s.depth)
    case ChrEscape => Scan(Chr, s.depth)
    case LineComment => Scan(if c == '\n' then InCode else LineComment, s.depth)
    case BlockComment => Scan(if c == '*' then BlockStar else BlockComment, s.depth)
    case BlockStar => Scan(if c == '/' then InCode else if c == '*' then BlockStar else BlockComment, s.depth)
  }

  /** The state after the text from just past the open brace up to `k`. */
  function ScanTo(text: string, open: nat, k: nat): Scan
    requires open < k <= |text|
  {
    if k == open + 1 then Scan(InCode, 1) else Step(ScanTo(text, open, k - 1), text[k - 1])
  }

  /** No brace closes the open one up to `k`. */
  ghost predicate Unclosed(text: string, open: nat, k: int) {
    open < |text| && forall j :: open < j <= k && j <= |text| ==> ScanTo(text, open, j).depth != 0
  }

  /** `k` is just past the brace that closes the open one: the end of its shortest balanced text. */
  ghost predicate Closes(text: string, open: nat, k: nat) {
    open < k <= |text| && ScanTo(text, open, k).depth == 0 && Unclosed(text, open, k - 1)
  }

  // ---------------------------------------------------------------------------------------------
  // The scanner
  // ---------------------------------------------------------------------------------------------

  /** At `i` the scanner is about to read code: a slash just passed opens no comment, and a line comment ends here. */
  ghost predicate AtCode(text: string, open: nat, i: nat, depth: int) {
    && open < i <= |text| && Unclosed(text, open, i)
    && var s := ScanTo(text, open, i);
       && s.depth == depth
       && match s.lexer
          case InCode => true
          case Slash => i < |text| ==> text[i] != '/' && text[i] != '*'
          case LineComment => i < |text| ==> text[i] == '\n'
          case _ => false
  }

  /** At `i`, possibly past the end, the scanner is inside a literal or comment of the given kind. */
  ghost predicate Within(text: string, open: nat, i: nat, depth: int, lexer: Lexer) {
    && open < i && Unclosed(text, open, i)
    && (i <= |text| ==> ScanTo(text, open, i) == Scan(lexer, depth))
  }

  /** At `i` the scanner reads code again, or the text has run out. */
  ghost predicate Past(text: string, open: nat, i: nat, depth: int) {
    if i < |text| then AtCode(text, open, i, depth) else Unclosed(text, open, |text|)
  }

  lemma Advance(text: string, open: nat, i: nat)
    requires open < i < |text| && Unclosed(text, open, i)
    ensures ScanTo(text, open, i + 1) == Step(ScanTo(text, open, i), text[i])
    ensures ScanTo(text, open, i + 1).depth != 0 ==> Unclosed(text, open, i + 1)
  {
  }

  lemma Ended(text: string, open: nat, i: nat)
    requires i >= |text| && Unclosed(text, open, i)
    ensures Unclosed(text, open, i + 1) && Unclosed(text, open, |text|)
  {
  }

  /** Past a string or character literal, an escaped character at a time. */
  method SkipLiteral(text: string, open: nat, start: nat, quote: char, ghost depth: int) returns (i: nat)
    requires start < |text| && text[start] == quote && (quote == '"' || quote == '\'')
    requires AtCode(text, open, start, depth) && depth != 0
    ensures i > start && Past(text, open, i, depth)
    ensures i < |text| ==> exists units :: IsLiteral(text[start..i], quote, units)
  {
    ghost var units: seq<Unit> := [];
    assert UnitsUpTo(text, start + 1, start + 1, quote, units);
    ghost var lexer := if quote == '"' then Str else Chr;
    Advance(text, open, start);
    hide ScanTo, Unclosed, UnitsUpTo, UnitsText, IsLiteral, Step;
    i := start + 1;
    while i < |text|
      invariant i > start && Within(text, open, i, depth, lexer)
      invariant i <= |text| ==> UnitsUpTo(text, start + 1, i, quote, units)
      decreases |text| + 1 - i
    {
      AdvanceInLiteral(text, open, i, quote, depth);
      if text[i] == '\\' {
        if i + 1 < |text| {
          assert text[i..i + 2] == ['\\', text[i + 1]];
          UnitTo(text, start + 1, i, quote, units, Escaped(text[i + 1]), i + 2);
          units := units + [Escaped(text[i + 1])];
        } else {
          Ended(text, open, i + 1);
        }
        i := i + 2;
      } else if text[i] == quote {
        i := i + 1;
        if i == |text| {
          Ended(text, open, i);
        }
        LiteralTo(text, start, i, quote, units);
        return;
      } else {
        assert text[i..i + 1] == [text[i]];
        UnitTo(text, start + 1, i, quote, units, Ordinary(text[i]), i + 1);
        units := units + [Ordinary(text[i])];
        i := i + 1;
      }
    }
    Ended(text, open, i);
  }

  /** One unit further, or the closing quote. */
  lemma AdvanceInLiteral(text: string, open: nat, i: nat, quote: char, depth: int)
    requires open < i < |text| && depth != 0 && (quote == '"' || quote == '\'')
    requires Within(text, open, i, depth, if quote == '"' then Str else Chr)
    ensures text[i] == quote ==> AtCode(text, open, i + 1, depth)
    ensures text[i] != quote && text[i] != '\\' ==> Within(text, open, i + 1, depth, if quote == '"' then Str else Chr)
    ensures text[i] == '\\' && i + 1 < |text| ==> Within(text, open, i + 2, depth, if quote == '"' then Str else Chr)
    ensures text[i] == '\\' && i + 1 == |text| ==> Unclosed(text, open, i + 1)
  {
    hide ScanTo, Unclosed;
    Advance(text, open, i);
    if text[i] == '\\' && i + 1 < |text| {
      Advance(text, open, i + 1);
    }
  }

  /** These units reach from one position to another. */
  ghost predicate UnitsUpTo(text: string, from: nat, i: nat, quote: char, units: seq<Unit>) {
    && from <= i <= |text| && text[from..i] == UnitsText(units)
    && forall k :: 0 <= k < |units| ==> IsUnit(quote, units[k])
  }

  lemma UnitTo(text: string, from: nat, i: nat, quote: char, units: seq<Unit>, u: Unit, next: nat)
    requires UnitsUpTo(text, from, i, quote, units) && IsUnit(quote, u) && i < next <= |text|
    requires text[i..next] == if u.Ordinary? then [u.c] else ['\\', u.c]
    ensures UnitsUpTo(text, from, next, quote, units + [u])
  {
    OneUnit(units, u);
    assert text[from..next] == text[from..i] + text[i..next];
  }

  lemma LiteralTo(text: string, start: nat, i: nat, quote: char, units: seq<Unit>)
    requires start + 1 < i <= |text| && text[start] == quote == text[i - 1] && (quote == '"' || quote == '\'')
    requires UnitsUpTo(text, start + 1, i - 1, quote, units)
    ensures IsLiteral(text[start..i], quote, units)
  {
    assert text[start..i] == [text[start]] + text[start + 1..i - 1] + [text[i - 1]];
  }

  /** Up to the end of the line, which is read as code. */
  method SkipLine(text: string, open: nat, start: nat, ghost depth: int) returns (i: nat)
    requires start + 1 < |text| && text[start] == '/' && text[start + 1] == '/'
    requires AtCode(text, open, start, depth) && depth != 0
    ensures i > start && Past(text, open, i, depth)
  {
    hide ScanTo, Unclosed;
    Advance(text, open, start);
    Advance(text, open, start + 1);
    i := start;
    while i < |text| && text[i] != '\n'
      invariant start <= i <= |text|
      invariant if i < start + 2 then text[i] == '/' else Within(text, open, i, depth, LineComment)
    {
      if i >= start + 2 {
        Advance(text, open, i);
      }
      i := i + 1;
    }
    if i == |text| {
      Ended(text, open, i);
    }
  }

  /** Past the end of a block comment. */
  method SkipBlock(text: string, open: nat, start: nat, ghost depth: int) returns (i: nat)
    requires start + 1 < |text| && text[start] == '/' && text[start + 1] == '*'
    requires AtCode(text, open, start, depth) && depth != 0
    ensures i > start && Past(text, open, i, depth)
  {
    hide ScanTo, Unclosed;
    Advance(text, open, start);
    Advance(text, open, start + 1);
    i := start + 2;
    while i + 1 < |text| && !(text[i] == '*' && text[i + 1] == '/')
      invariant i >= start + 2 && InBlock(text, open, i, depth)
    {
      Advance(text, open, i);
      i := i + 1;
    }
    if i + 1 < |text| {
      Advance(text, open, i);
      Advance(text, open, i + 1);
    } else if i < |text| {
      Advance(text, open, i);
      Ended(text, open, i + 1);
    } else {
      Ended(text, open, i);
    }
    i := i + 2;
    if i == |text| {
      Ended(text, open, i);
    }
  }

  /** Inside a block comment; a star just passed is not followed by a slash. */
  ghost predicate InBlock(text: string, open: nat, i: nat, depth: int) {
    && open < i <= |text| && Unclosed(text, open, i)
    && var s := ScanTo(text, open, i);
       && s.depth == depth
       && (s.lexer == BlockComment || (s.lexer == BlockStar && (i < |text| ==> text[i] != '/')))
  }

  /** The end of the open brace's shortest balanced text; an error exactly if it has none. */
  method FindMatchingBrace(text: string, open: nat) returns (r: Result<nat, ()>)
    requires open < |text| && text[open] == '{'
    ensures forall k: nat :: ClosesJava(text, open, k) <==> r == Success(k)
    ensures forall k: nat :: Closes(text, open, k) <==> r == Success(k)
  {
    AllClose(text, open);
    hide ScanTo, Unclosed, ClosesJava;
    Opened(text, open);
    var i, depth := open + 1, 1;
    while i < |text| && depth > 0
      invariant i > open && depth > 0 && Past(text, open, i, depth)
      decreases |text| + 1 - i
    {
      var c := text[i];
      if c == '"' || c == '\'' {
        i := SkipLiteral(text, open, i, c, depth);
        continue;
      }
      if c == '/' && i + 1 < |text| {
        if text[i + 1] == '/' {
          i := SkipLine(text, open, i, depth);
          continue;
        }
        if text[i + 1] == '*' {
          i := SkipBlock(text, open, i, depth);
          continue;
        }
      }
      Advance(text, open, i);
      if c == '{' {
        depth := depth + 1;
      } else if c == '}' {
        depth := depth - 1;
        if depth == 0 {
          ClosesOnce(text, open, i + 1);
          return Success(i + 1);
        }
      }
      i := i + 1;
      if i == |text| {
        Ended(text, open, i);
      }
    }
    NeverCloses(text, open);
    r := Failure(());
  }

  lemma ClosesOnce(text: string, open: nat, k: nat)
    requires Closes(text, open, k)
    ensures forall l: nat :: Closes(text, open, l) <==> l == k
  {
  }

  lemma NeverCloses(text: string, open: nat)
    requires Unclosed(text, open, |text|)
    ensures forall k: nat :: !Closes(text, open, k)
  {
  }

  lemma Opened(text: string, open: nat)
    requires open < |text|
    ensures ScanTo(text, open, open + 1) == Scan(InCode, 1) && Unclosed(text, open, open + 1)
    ensures open + 1 == |text| ==> Unclosed(text, open, |text|)
  {
  }

  // ---------------------------------------------------------------------------------------------
  // What the match depends on
  // ---------------------------------------------------------------------------------------------

  /** Neither the text before the open brace nor that after the closing one decides where it closes. */
  lemma ClosingIsLocal(text: string, open: nat, k: nat, before: string, after: string)
    requires Closes(text, open, k)
    ensures Closes(before + text[open..k] + after, |before|, |before| + k - open)
  {
    var other := before + text[open..k] + after;
    forall j | open < j <= k ensures ScanTo(other, |before|, |before| + j - open) == ScanTo(text, open, j) {
      assert other[|before|..|before| + k - open] == text[open..k];
      assert text[open..j] == text[open..k][..j - open];
      assert other[|before|..|before| + j - open] == other[|before|..|before| + k - open][..j - open];
      ScanMoves(text, other, open, |before|, j - open);
    }
    forall j | |before| < j <= |before| + k - open - 1 ensures ScanTo(other, |before|, j).depth != 0 {
      assert ScanTo(other, |before|, |before| + (j - |before| + open) - open)
             == ScanTo(text, open, j - |before| + open);
    }
  }

  lemma {:induction false} ScanMoves(text: string, other: string, open: nat, start: nat, n: nat)
    requires 0 < n && open + n <= |text| && start + n <= |other| && text[open..open + n] == other[start..start + n]
    ensures ScanTo(text, open, open + n) == ScanTo(other, start, start + n)
  {
    if n > 1 {
      assert text[open..open + n][..n - 1] == text[open..open + n - 1];
      assert other[start..start + n][..n - 1] == other[start..start + n - 1];
      assert text[open..open + n][n - 1] == other[start..start + n][n - 1];
      ScanMoves(text, other, open, start, n - 1);
    }
  }

  /** In text without quotes and slashes the depth counts the braces. */
  lemma {:induction false} PlainTextCountsBraces(text: string, open: nat, k: nat)
    requires open < k <= |text|
    requires Plain(text[open + 1..k])
    ensures ScanTo(text, open, k) == Scan(InCode, 1 + Count(text[open + 1..k], '{') - Count(text[open + 1..k], '}'))
    decreases k
  {
    if k > open + 1 {
      var s := text[open + 1..k];
      assert s[..|s| - 1] == text[open + 1..k - 1] && s[|s| - 1] == text[k - 1];
      PlainTextCountsBraces(text, open, k - 1);
    }
  }

  // ---------------------------------------------------------------------------------------------
  // The lexer and the pieces
  // ---------------------------------------------------------------------------------------------

  /** The state after some text from a given state. */
  function Run(s: Scan, t: string): Scan {
    if t == [] then s else Step(Run(s, t[..|t| - 1]), t[|t| - 1])
  }

  /** The depth is positive all along the text. */
  predicate Open(s: Scan, t: string)
    decreases |t|
  {
    Run(s, t).depth > 0 && (t == [] || Open(s, t[..|t| - 1]))
  }

  lemma {:induction false} RunAppend(s: Scan, a: string, b: string)
    ensures Run(s, a + b) == Run(Run(s, a), b)
    ensures Open(s, a + b) <==> Open(s, a) && Open(Run(s, a), b)
    decreases |b|
  {
    hide Step;
    if b == [] {
      assert a + b == a;
    } else {
      assert (a + b)[..|a + b| - 1] == a + b[..|b| - 1];
      RunAppend(s, a, b[..|b| - 1]);
    }
  }

  lemma RunOne(s: Scan, c: char)
    ensures Run(s, [c]) == Step(s, c) && (Open(s, [c]) <==> s.depth > 0 && Step(s, c).depth > 0)
  {
    hide Step;
    assert [c][..0] == [];
    assert Run(s, []) == s && Open(s, []) == (s.depth > 0);
  }

  lemma {:induction false} ScanIsRun(text: string, open: nat, k: nat)
    requires open < k <= |text|
    ensures ScanTo(text, open, k) == Run(Scan(InCode, 1), text[open + 1..k])
    ensures Unclosed(text, open, k) <==> Open(Scan(InCode, 1), text[open + 1..k])
    decreases k
  {
    if k > open + 1 {
      var t := text[open + 1..k];
      assert t[..|t| - 1] == text[open + 1..k - 1] && t[|t| - 1] == text[k - 1];
      ScanIsRun(text, open, k - 1);
      StepByOne(ScanTo(text, open, k - 1), text[k - 1]);
      hide Step;
      assert Unclosed(text, open, k) <==> Unclosed(text, open, k - 1) && ScanTo(text, open, k).depth != 0;
    }
  }

  lemma StepByOne(s: Scan, c: char)
    ensures -1 <= Step(s, c).depth - s.depth <= 1
  {
  }

  function Net(s: string): int {
    Count(s, '{') - Count(s, '}')
  }

  /** From a depth, the braces of a text never close as many as are open. */
  ghost predicate Above(d: int, s: string) {
    forall k :: 0 <= k <= |s| ==> d + Net(s[..k]) > 0
  }

  lemma {:induction false} CountAppend(a: string, b: string, c: char)
    ensures Count(a + b, c) == Count(a, c) + Count(b, c)
    decreases |b|
  {
    if b == [] {
      assert a + b == a;
    } else {
      assert (a + b)[..|a + b| - 1] == a + b[..|b| - 1];
      CountAppend(a, b[..|b| - 1], c);
    }
  }

  lemma NetAppend(a: string, b: string)
    ensures Net(a + b) == Net(a) + Net(b)
  {
    CountAppend(a, b, '{');
    CountAppend(a, b, '}');
    hide Count;
  }

  lemma AboveAppend(d: int, a: string, b: string)
    ensures Above(d, a + b) <==> Above(d, a) && Above(d + Net(a), b)
  {
    hide Net;
    forall k | 0 <= k <= |a| ensures (a + b)[..k] == a[..k] {
    }
    forall k | 0 <= k <= |b| ensures Net((a + b)[..|a| + k]) == Net(a) + Net(b[..k]) {
      assert (a + b)[..|a| + k] == a + b[..k];
      NetAppend(a, b[..k]);
    }
    if Above(d, a + b) {
      forall k | 0 <= k <= |a| ensures d + Net(a[..k]) > 0 {
        assert (a + b)[..k] == a[..k];
      }
      forall k | 0 <= k <= |b| ensures d + Net(a) + Net(b[..k]) > 0 {
        assert d + Net((a + b)[..|a| + k]) > 0;
      }
    }
    if Above(d, a) && Above(d + Net(a), b) {
      forall k | 0 <= k <= |a + b| ensures d + Net((a + b)[..k]) > 0 {
        if k > |a| {
          assert d + Net(a) + Net(b[..k - |a|]) > 0;
          assert k == |a| + (k - |a|);
        }
      }
    }
  }

  lemma AboveOne(d: int, s: string, c: char)
    ensures Above(d, s + [c]) <==> Above(d, s) && d + Net(s + [c]) > 0
  {
    AboveAppend(d, s, [c]);
    NetAppend(s, [c]);
    hide Net;
    assert [c][..0] == [] && [c][..1] == [c];
    assert Net([]) == 0 by { NetNothing(); }
    assert s[..|s|] == s;
    assert Above(d, s) ==> d + Net(s) > 0;
    assert Above(d + Net(s), [c]) <==> d + Net(s) + Net([]) > 0 && d + Net(s) + Net([c]) > 0;
  }

  lemma NetNothing()
    ensures Net([]) == 0
  {
  }

  // What each piece does

  lemma {:induction false} CodeRuns(d: int, text: string)
    requires Plain(text) && d > 0
    ensures Run(Scan(InCode, d), text) == Scan(InCode, d + Net(text))
    ensures Open(Scan(InCode, d), text) <==> Above(d, text)
    decreases |text|
  {
    if text == [] {
      NetNothing();
      assert text[..0] == [];
    } else {
      var before, c := text[..|text| - 1], text[|text| - 1];
      CodeRuns(d, before);
      AboveOne(d, before, c);
      NetAppend(before, [c]);
      NetOfOne(c);
      hide Net;
      assert before + [c] == text;
    }
  }

  lemma NetOfOne(c: char)
    ensures Net([c]) == if c == '{' then 1 else if c == '}' then -1 else 0
  {
    assert [c][..|[c]| - 1] == [] && Count([], '{') == 0 && Count([], '}') == 0;
  }

  lemma {:induction false} UnitsRun(d: int, quote: char, units: seq<Unit>)
    requires quote == '"' || quote == '\''
    requires d > 0 && forall i :: 0 <= i < |units| ==> IsUnit(quote, units[i])
    ensures var s := Scan(if quote == '"' then Str else Chr, d);
            Run(s, UnitsText(units)) == s && Open(s, UnitsText(units))
    decreases |units|
  {
    var s := Scan(if quote == '"' then Str else Chr, d);
    if units != [] {
      var last := units[|units| - 1];
      var before := UnitsText(units[..|units| - 1]);
      UnitsRun(d, quote, units[..|units| - 1]);
      if last.Ordinary? {
        RunAppend(s, before, [last.c]);
        RunOne(s, last.c);
      } else {
        RunAppend(s, before, ['\\', last.c]);
        RunTwo(s, '\\', last.c);
      }
      hide Run, Open;
      assert IsUnit(quote, last);
    }
  }

  lemma RunTwo(s: Scan, b: char, c: char)
    ensures Run(s, [b, c]) == Step(Step(s, b), c)
    ensures Open(s, [b, c]) <==> s.depth > 0 && Step(s, b).depth > 0 && Step(Step(s, b), c).depth > 0
  {
    RunOne(s, b);
    RunOne(Step(s, b), c);
    RunAppend(s, [b], [c]);
    hide Step, Run, Open;
    assert [b, c] == [b] + [c];
  }

  lemma {:induction false} LineRuns(d: int, text: string)
    requires d > 0 && '\n' !in text
    ensures Run(Scan(LineComment, d), text) == Scan(LineComment, d) && Open(Scan(LineComment, d), text)
    decreases |text|
  {
    if text != [] {
      LineRuns(d, text[..|text| - 1]);
    }
  }

  lemma {:induction false} BlockRuns(d: int, text: string)
    requires d > 0 && NoBlockEnd(text)
    ensures var s := Run(Scan(BlockComment, d), text);
            && s.depth == d && Open(Scan(BlockComment, d), text)
            && s.lexer == if text != [] && text[|text| - 1] == '*' then BlockStar else BlockComment
    decreases |text|
  {
    if text != [] {
      var n := |text| - 1;
      BlockRuns(d, text[..n]);
      assert n > 0 ==> !(text[n - 1] == '*' && text[n - 1 + 1] == '/');
    }
  }

  function PieceNet(p: Piece): int {
    if p.Code? then Net(p.text) else 0
  }

  lemma PieceRuns(d: int, p: Piece)
    requires IsPiece(p) && d > 0
    ensures PieceText(p) != []
    ensures Run(Scan(InCode, d), PieceText(p)) == Scan(if p.LoneSlash? then Slash else InCode, d + PieceNet(p))
    ensures Open(Scan(InCode, d), PieceText(p)) <==> (p.Code? ==> Above(d, p.text))
  {
    hide Run, Open, Net, Above;
    var s := Scan(InCode, d);
    match p
    case Code(text) => CodeRuns(d, text);
    case Literal(quote, units) => LiteralRuns(d, quote, units);
    case Line(text) => LineTextRuns(d, text);
    case Block(text) => BlockTextRuns(d, text);
    case LoneSlash => RunOne(s, '/');
  }

  lemma LiteralRuns(d: int, quote: char, units: seq<Unit>)
    requires quote == '"' || quote == '\''
    requires d > 0 && forall i :: 0 <= i < |units| ==> IsUnit(quote, units[i])
    ensures Run(Scan(InCode, d), [quote] + UnitsText(units) + [quote]) == Scan(InCode, d)
    ensures Open(Scan(InCode, d), [quote] + UnitsText(units) + [quote])
  {
    var s, inside := Scan(InCode, d), Scan(if quote == '"' then Str else Chr, d);
    RunAppend(s, [quote] + UnitsText(units), [quote]);
    RunAppend(s, [quote], UnitsText(units));
    RunOne(s, quote);
    UnitsRun(d, quote, units);
    RunOne(inside, quote);
    hide Run, Open, UnitsText;
  }

  lemma LineTextRuns(d: int, text: string)
    requires d > 0 && '\n' !in text
    ensures Run(Scan(InCode, d), "//" + text + "\n") == Scan(InCode, d) && Open(Scan(InCode, d), "//" + text + "\n")
  {
    var s := Scan(InCode, d);
    RunAppend(s, "//" + text, "\n");
    RunAppend(s, "//", text);
    RunTwo(s, '/', '/');
    LineRuns(d, text);
    RunOne(Scan(LineComment, d), '\n');
    hide Run, Open;
  }

  lemma BlockTextRuns(d: int, text: string)
    requires d > 0 && NoBlockEnd(text + "*")
    ensures Run(Scan(InCode, d), "/*" + text + "*/") == Scan(InCode, d) && Open(Scan(InCode, d), "/*" + text + "*/")
  {
    var s := Scan(InCode, d);
    assert "*/" == "*" + "/";
    assert "/*" + text + "*/" == "/*" + (text + "*") + "/";
    RunAppend(s, "/*" + (text + "*"), "/");
    RunAppend(s, "/*", text + "*");
    BlockOpens(d);
    BlockRuns(d, text + "*");
    BlockEnds(d);
    hide Run, Open, Step, NoBlockEnd;
  }

  lemma BlockOpens(d: int)
    requires d > 0
    ensures Run(Scan(InCode, d), "/*") == Scan(BlockComment, d) && Open(Scan(InCode, d), "/*")
  {
    RunTwo(Scan(InCode, d), '/', '*');
  }

  lemma BlockEnds(d: int)
    requires d > 0
    ensures Run(Scan(BlockStar, d), "/") == Scan(InCode, d) && Open(Scan(BlockStar, d), "/")
  {
    RunOne(Scan(BlockStar, d), '/');
  }

  /** After a slash that opens no comment, text is read as code. */
  lemma {:induction false} SlashIsCode(d: int, t: string)
    requires t != [] && OpensNoComment(t) && d > 0
    ensures Run(Scan(Slash, d), t) == Run(Scan(InCode, d), t)
    ensures Open(Scan(Slash, d), t) <==> Open(Scan(InCode, d), t)
  {
    RunOne(Scan(Slash, d), t[0]);
    RunOne(Scan(InCode, d), t[0]);
    RunAppend(Scan(Slash, d), [t[0]], t[1..]);
    RunAppend(Scan(InCode, d), [t[0]], t[1..]);
    hide Run, Open;
    assert t == [t[0]] + t[1..];
  }

  /** Over pieces, only their code changes the depth. */
  lemma {:induction false} PiecesRun(pieces: seq<Piece>, follow: string)
    requires ArePieces(pieces, follow)
    ensures var s := Run(Scan(InCode, 1), Text(pieces));
            && (Open(Scan(InCode, 1), Text(pieces)) <==> Above(1, Codes(pieces)))
            && (Above(1, Codes(pieces)) ==>
                  && s.depth == 1 + Net(Codes(pieces))
                  && (s.lexer == InCode || (s.lexer == Slash && OpensNoComment(follow))))
    decreases |pieces|
  {
    if pieces == [] {
      NetNothing();
      assert Codes(pieces)[..0] == [];
    } else {
      var n := |pieces| - 1;
      var start, before, last := Scan(InCode, 1), pieces[..n], pieces[n];
      PiecesRun(before, PieceText(last) + follow);
      hide Run, Open, Above, Net, IsPiece, PieceText, OpensNoComment;
      TextIs(pieces);
      hide Text, Codes, ArePieces, Step;
      OneMoreRuns(Text(before), Codes(before), last, follow);
    }
  }

  /** The same for one more piece. */
  lemma OneMoreRuns(before: string, codes: string, p: Piece, follow: string)
    requires IsPiece(p) && (p.LoneSlash? ==> OpensNoComment(follow))
    requires Open(Scan(InCode, 1), before) <==> Above(1, codes)
    requires var s := Run(Scan(InCode, 1), before);
             Above(1, codes) ==>
               && s.depth == 1 + Net(codes)
               && (s.lexer == InCode || (s.lexer == Slash && OpensNoComment(PieceText(p) + follow)))
    ensures var text, code := before + PieceText(p), codes + if p.Code? then p.text else [];
            var s := Run(Scan(InCode, 1), text);
            && (Open(Scan(InCode, 1), text) <==> Above(1, code))
            && (Above(1, code) ==>
                  && s.depth == 1 + Net(code)
                  && (s.lexer == InCode || (s.lexer == Slash && OpensNoComment(follow))))
  {
    hide Run, Open, Above, Net, PieceNet, IsPiece, PieceText, OpensNoComment, Step;
    var start, text, d := Scan(InCode, 1), PieceText(p), 1 + Net(codes);
    var code := if p.Code? then p.text else [];
    PieceNetIs(p);
    RunAppend(start, before, text);
    AboveAppend(1, codes, code);
    NetAppend(codes, code);
    if Above(1, codes) {
      AboveMeans(1, codes);
      PieceRuns(d, p);
      NothingAbove(d);
      var s := Run(start, before);
      if s.lexer == Slash {
        FirstOfBoth(text, follow);
        SlashIsCode(d, text);
      }
      assert s == Scan(s.lexer, d);
    }
  }

  lemma TextIs(pieces: seq<Piece>)
    requires pieces != []
    ensures var before, last := pieces[..|pieces| - 1], pieces[|pieces| - 1];
            && Text(pieces) == Text(before) + PieceText(last)
            && Codes(pieces) == Codes(before) + if last.Code? then last.text else []
  {
  }

  lemma FirstOfBoth(text: string, follow: string)
    requires text != []
    ensures OpensNoComment(text + follow) <==> OpensNoComment(text)
  {
    assert (text + follow)[0] == text[0];
  }

  lemma AboveMeans(d: int, s: string)
    requires Above(d, s)
    ensures d + Net(s) > 0
  {
    assert s[..|s|] == s;
  }

  lemma NothingAbove(d: int)
    ensures Above(d, []) <==> d > 0
    ensures Net([]) == 0
  {
    assert ""[..0] == "";
  }

  lemma PieceNetIs(p: Piece)
    ensures PieceNet(p) == if p.Code? then Net(p.text) else 0
  {
  }

  // ---------------------------------------------------------------------------------------------
  // Every text the lexer reads is made of pieces
  // ---------------------------------------------------------------------------------------------

  /** What has been read of a piece that is not complete. */
  datatype Pending =
    | Nothing
    | OneSlash
    | InLiteral(quote: char, units: seq<Unit>, escaping: bool)
    | InLine(text: string)
    | InBlockOf(text: string)

  function PendingText(p: Pending): string {
    match p
    case Nothing => []
    case OneSlash => "/"
    case InLiteral(quote, units, escaping) => [quote] + UnitsText(units) + if escaping then "\\" else []
    case InLine(text) => "//" + text
    case InBlockOf(text) => "/*" + text
  }

  predicate StateOf(p: Pending, lexer: Lexer) {
    match p
    case Nothing => lexer == InCode
    case OneSlash => lexer == Slash
    case InLiteral(quote, units, escaping) =>
      && (quote == '"' || quote == '\'') && (forall i :: 0 <= i < |units| ==> IsUnit(quote, units[i]))
      && lexer == if quote == '"' then (if escaping then StrEscape else Str) else if escaping then ChrEscape else Chr
    case InLine(text) => '\n' !in text && lexer == LineComment
    case InBlockOf(text) =>
      NoBlockEnd(text) && lexer == if text != [] && text[|text| - 1] == '*' then BlockStar else BlockComment
  }

  predicate EndsWithSlash(pieces: seq<Piece>) {
    pieces != [] && pieces[|pieces| - 1].LoneSlash?
  }

  /** The text is these pieces and the pending one, and they account for the state. */
  ghost predicate Reads(t: string, s: Scan, pieces: seq<Piece>, pending: Pending) {
    && t == Text(pieces) + PendingText(pending)
    && ArePieces(pieces, PendingText(pending)) && (pending.Nothing? ==> !EndsWithSlash(pieces))
    && StateOf(pending, s.lexer) && s.depth == 1 + Net(Codes(pieces)) && Above(1, Codes(pieces))
  }

  /** Only the first character of what follows matters, and only to a slash at the end. */
  lemma {:induction false} FollowMatters(pieces: seq<Piece>, follow: string, other: string)
    requires ArePieces(pieces, follow)
    requires EndsWithSlash(pieces) ==> (OpensNoComment(follow) ==> OpensNoComment(other))
    ensures ArePieces(pieces, other)
    decreases |pieces|
  {
    if pieces != [] {
      var n := |pieces| - 1;
      var text := PieceText(pieces[n]);
      PieceHasText(pieces[n]);
      FirstOfBoth(text, follow);
      FirstOfBoth(text, other);
      hide IsPiece, PieceText;
      FollowMatters(pieces[..n], text + follow, text + other);
    }
  }

  lemma PieceHasText(p: Piece)
    requires IsPiece(p)
    ensures PieceText(p) != []
  {
  }

  /** One more piece. */
  lemma OnePiece(pieces: seq<Piece>, p: Piece, follow: string)
    requires IsPiece(p) && (p.LoneSlash? ==> OpensNoComment(follow)) && ArePieces(pieces, PieceText(p) + follow)
    ensures ArePieces(pieces + [p], follow)
    ensures Text(pieces + [p]) == Text(pieces) + PieceText(p)
    ensures Codes(pieces + [p]) == Codes(pieces) + if p.Code? then p.text else []
  {
    var more := pieces + [p];
    assert more[..|more| - 1] == pieces && more[|more| - 1] == p;
  }

  /** A character read as code, with nothing pending. */
  lemma ReadCode(t: string, s: Scan, pieces: seq<Piece>, c: char) returns (next: seq<Piece>, pending: Pending)
    requires s.lexer == InCode && Step(s, c).depth > 0
    requires t == Text(pieces) && ArePieces(pieces, [c]) && s.depth == 1 + Net(Codes(pieces)) && Above(1, Codes(pieces))
    requires EndsWithSlash(pieces) ==> c != '/'
    ensures Reads(t + [c], Step(s, c), next, pending)
  {
    hide Net, Above, Text, Codes, ArePieces, UnitsText;
    if c == '/' {
      next, pending := pieces, OneSlash;
    } else if c == '"' || c == '\'' {
      next, pending := pieces, InLiteral(c, [], false);
      NoUnits();
      assert PendingText(pending) == [c];
    } else {
      var p := Piece.Code([c]);
      next, pending := pieces + [p], Nothing;
      assert PieceText(p) + [] == [c];
      OnePiece(pieces, p, []);
      AboveOne(1, Codes(pieces), c);
      NetAppend(Codes(pieces), [c]);
      NetOfOne(c);
      assert Text(next) + [] == t + [c];
    }
  }

  lemma NoUnits()
    ensures UnitsText([]) == []
  {
  }

  lemma {:induction false} ReadNext(t: string, s: Scan, c: char, pieces: seq<Piece>, pending: Pending)
    returns (next: seq<Piece>, after: Pending)
    requires Reads(t, s, pieces, pending) && s.depth > 0 && Step(s, c).depth > 0
    ensures Reads(t + [c], Step(s, c), next, after)
  {
    match pending
    case Nothing =>
      assert Text(pieces) + [] == Text(pieces);
      hide Step, Net, Above, Text, Codes, Reads;
      FollowMatters(pieces, [], [c]);
      next, after := ReadCode(t, s, pieces, c);
    case OneSlash =>
      next, after := ReadAfterSlash(t, s, c, pieces);
    case InLiteral(quote, units, escaping) =>
      next, after := ReadInLiteral(t, s, c, pieces, quote, units, escaping);
    case InLine(text) =>
      next, after := ReadInLine(t, s, c, pieces, text);
    case InBlockOf(text) =>
      next, after := ReadInBlock(t, s, c, pieces, text);
  }

  lemma ReadAfterSlash(t: string, s: Scan, c: char, pieces: seq<Piece>) returns (next: seq<Piece>, after: Pending)
    requires Reads(t, s, pieces, OneSlash) && s.depth > 0 && Step(s, c).depth > 0
    ensures Reads(t + [c], Step(s, c), next, after)
  {
    hide Net, Above, Text, Codes, ArePieces, UnitsText;
    if c == '/' || c == '*' {
      next, after := pieces, if c == '/' then InLine([]) else InBlockOf([]);
      assert PendingText(after) == ['/', c] && "/" + [c] == ['/', c];
      FollowMatters(pieces, "/", ['/', c]);
      assert t + [c] == Text(pieces) + ("/" + [c]);
    } else {
      FollowMatters(pieces, "/", "/" + [c]);
      OnePiece(pieces, LoneSlash, [c]);
      var more := pieces + [LoneSlash];
      assert Codes(pieces) + [] == Codes(pieces);
      assert Step(s, c) == Step(Scan(InCode, s.depth), c);
      next, after := ReadCode(t, Scan(InCode, s.depth), more, c);
    }
  }

  lemma ReadInLiteral(t: string, s: Scan, c: char, pieces: seq<Piece>, quote: char, units: seq<Unit>, escaping: bool)
    returns (next: seq<Piece>, after: Pending)
    requires Reads(t, s, pieces, InLiteral(quote, units, escaping)) && s.depth > 0
    ensures Reads(t + [c], Step(s, c), next, after)
  {
    var pending := InLiteral(quote, units, escaping);
    StepInLiteral(s, c, quote, escaping);
    hide Step, Reads;
    ReadsState(t, s, pieces, pending);
    if !escaping && c == quote {
      var p := Literal(quote, units);
      hide UnitsText;
      NothingMore([quote] + UnitsText(units));
      CompletePiece(t, s, pieces, pending, p, c);
      next, after := pieces + [p], Nothing;
    } else {
      next := pieces;
      after := LiteralGoesOn(quote, units, escaping, c);
      hide UnitsText, PendingText;
      KeepPending(t, s, Step(s, c), pieces, pending, after, c);
    }
  }

  lemma LiteralGoesOn(quote: char, units: seq<Unit>, escaping: bool, c: char) returns (after: Pending)
    requires escaping || c != quote
    ensures PendingText(after) == PendingText(InLiteral(quote, units, escaping)) + [c]
    ensures after.InLiteral? && after.quote == quote && after.escaping == (!escaping && c == '\\')
    ensures (forall i :: 0 <= i < |units| ==> IsUnit(quote, units[i])) ==>
              forall i :: 0 <= i < |after.units| ==> IsUnit(quote, after.units[i])
  {
    if escaping {
      after := InLiteral(quote, units + [Escaped(c)], false);
      OneUnit(units, Escaped(c));
      hide UnitsText;
      assert [quote] + (UnitsText(units) + ['\\', c]) + [] == [quote] + UnitsText(units) + "\\" + [c];
    } else if c == '\\' {
      after := InLiteral(quote, units, true);
      hide UnitsText;
      assert [quote] + UnitsText(units) + "\\" == [quote] + UnitsText(units) + [] + [c];
    } else {
      after := InLiteral(quote, units + [Ordinary(c)], false);
      OneUnit(units, Ordinary(c));
      hide UnitsText;
      assert [quote] + (UnitsText(units) + [c]) + [] == [quote] + UnitsText(units) + [] + [c];
    }
  }

  lemma ReadsState(t: string, s: Scan, pieces: seq<Piece>, pending: Pending)
    requires Reads(t, s, pieces, pending)
    ensures StateOf(pending, s.lexer)
  {
  }

  /** The pending piece takes one more character. */
  lemma KeepPending(
      t: string, s: Scan, further: Scan, pieces: seq<Piece>, pending: Pending, after: Pending, c: char)
    requires Reads(t, s, pieces, pending) && PendingText(pending) != []
    requires PendingText(after) == PendingText(pending) + [c] && !after.Nothing?
    requires StateOf(after, further.lexer) && further.depth == s.depth
    ensures Reads(t + [c], further, pieces, after)
  {
    var text, more := PendingText(pending), PendingText(after);
    FirstOfBoth(text, [c]);
    hide Net, Above, Text, Codes, ArePieces, OpensNoComment, StateOf, PendingText, EndsWithSlash;
    FollowMatters(pieces, text, more);
    Appended(Text(pieces), text, [c]);
  }

  /** The pending piece ends with one more character. */
  lemma CompletePiece(t: string, s: Scan, pieces: seq<Piece>, pending: Pending, p: Piece, c: char)
    requires Reads(t, s, pieces, pending) && PendingText(pending) != []
    requires IsPiece(p) && !p.LoneSlash? && !p.Code? && PieceText(p) == PendingText(pending) + [c]
    ensures Reads(t + [c], Scan(InCode, s.depth), pieces + [p], Nothing)
  {
    var text, more := PendingText(pending), PieceText(p);
    FirstOfBoth(text, [c]);
    NothingMore(more);
    NothingMore(Codes(pieces));
    NothingMore(Text(pieces) + more);
    Appended(Text(pieces), text, [c]);
    assert PendingText(Nothing) == [];
    hide Net, Above, Text, Codes, ArePieces, OpensNoComment, PieceText, IsPiece, PendingText;
    FollowMatters(pieces, text, more);
    OnePiece(pieces, p, []);
  }

  lemma NothingMore(a: string)
    ensures a + [] == a
  {
  }

  lemma Appended(a: string, b: string, c: string)
    ensures a + b + c == a + (b + c)
  {
  }

  lemma StepInLiteral(s: Scan, c: char, quote: char, escaping: bool)
    requires quote == '"' || quote == '\''
    requires s.lexer == if quote == '"' then (if escaping then StrEscape else Str)
                        else if escaping then ChrEscape else Chr
    ensures Step(s, c) == Scan(
              if !escaping && c == quote then InCode
              else if !escaping && c == '\\' then (if quote == '"' then StrEscape else ChrEscape)
              else if quote == '"' then Str else Chr, s.depth)
  {
  }

  lemma OneUnit(units: seq<Unit>, u: Unit)
    ensures UnitsText(units + [u]) == UnitsText(units) + if u.Ordinary? then [u.c] else ['\\', u.c]
  {
    var more := units + [u];
    assert more[..|more| - 1] == units;
  }

  lemma ReadInLine(t: string, s: Scan, c: char, pieces: seq<Piece>, text: string)
    returns (next: seq<Piece>, after: Pending)
    requires Reads(t, s, pieces, InLine(text)) && s.depth > 0
    ensures Reads(t + [c], Step(s, c), next, after)
  {
    var pending := InLine(text);
    ReadsState(t, s, pieces, pending);
    assert Step(s, c) == Scan(if c == '\n' then InCode else LineComment, s.depth);
    hide Step, Reads;
    if c == '\n' {
      var p := Line(text);
      assert PieceText(p) == "//" + text + [c];
      CompletePiece(t, s, pieces, pending, p, c);
      next, after := pieces + [p], Nothing;
    } else {
      next, after := pieces, InLine(text + [c]);
      assert "//" + (text + [c]) == "//" + text + [c];
      KeepPending(t, s, Step(s, c), pieces, pending, after, c);
    }
  }

  lemma ReadInBlock(t: string, s: Scan, c: char, pieces: seq<Piece>, text: string)
    returns (next: seq<Piece>, after: Pending)
    requires Reads(t, s, pieces, InBlockOf(text)) && s.depth > 0
    ensures Reads(t + [c], Step(s, c), next, after)
  {
    var pending := InBlockOf(text);
    ReadsState(t, s, pieces, pending);
    BlockGoesOn(text, c);
    StepInBlock(s, c);
    hide NoBlockEnd, Step, Reads;
    if s.lexer == BlockStar && c == '/' {
      var p := Block(text[..|text| - 1]);
      assert text[..|text| - 1] + "*" == text;
      assert "/*" + text[..|text| - 1] + "*/" == "/*" + text + [c];
      CompletePiece(t, s, pieces, pending, p, c);
      next, after := pieces + [p], Nothing;
    } else {
      next, after := pieces, InBlockOf(text + [c]);
      assert "/*" + (text + [c]) == "/*" + text + [c];
      KeepPending(t, s, Step(s, c), pieces, pending, after, c);
    }
  }

  lemma StepInBlock(s: Scan, c: char)
    requires s.lexer == BlockComment || s.lexer == BlockStar
    ensures Step(s, c) == Scan(if s.lexer == BlockStar && c == '/' then InCode
                               else if c == '*' then BlockStar else BlockComment, s.depth)
  {
  }

  lemma BlockGoesOn(text: string, c: char)
    requires NoBlockEnd(text)
    ensures NoBlockEnd(text + [c]) <==> !(text != [] && text[|text| - 1] == '*' && c == '/')
  {
    var more := text + [c];
    if text != [] && text[|text| - 1] == '*' && c == '/' {
      assert more[|text| - 1] == '*' && more[|text| - 1 + 1] == '/';
    }
  }

  lemma {:induction false} ReadAll(t: string) returns (pieces: seq<Piece>, pending: Pending)
    requires Open(Scan(InCode, 1), t)
    ensures Reads(t, Run(Scan(InCode, 1), t), pieces, pending)
    decreases |t|
  {
    hide Step, Reads;
    if t == [] {
      pieces, pending := [], Nothing;
      NothingRead();
    } else {
      var n := |t| - 1;
      var before, s := t[..n], Run(Scan(InCode, 1), t[..n]);
      var first, rest := ReadAll(before);
      assert s.depth > 0;
      pieces, pending := ReadNext(before, s, t[n], first, rest);
      assert before + [t[n]] == t;
    }
  }

  lemma NothingRead()
    ensures Reads([], Scan(InCode, 1), [], Nothing)
  {
    NothingAbove(1);
  }

  lemma AllClose(text: string, open: nat)
    requires open < |text| && text[open] == '{'
    ensures forall k: nat :: Closes(text, open, k) <==> ClosesJava(text, open, k)
  {
    forall k: nat ensures Closes(text, open, k) <==> ClosesJava(text, open, k) {
      ClosesIff(text, open, k);
    }
  }

  /** A brace closes the open one exactly if between them there are pieces whose code is balanced. */
  lemma ClosesIff(text: string, open: nat, k: nat)
    requires open < |text| && text[open] == '{'
    ensures Closes(text, open, k) <==> ClosesJava(text, open, k)
  {
    hide Step, Run, Open;
    if Closes(text, open, k) {
      var pieces := PiecesEnclosed(text, open, k);
      assert Encloses(text, open, k, pieces);
    }
    if exists pieces :: Encloses(text, open, k, pieces) {
      var pieces :| Encloses(text, open, k, pieces);
      EnclosedCloses(text, open, k, pieces);
    }
  }

  lemma ClosingStep(s: Scan, c: char)
    requires s.depth > 0
    ensures Step(s, c).depth == 0 ==> s.depth == 1 && c == '}' && (s.lexer == InCode || s.lexer == Slash)
    ensures s.depth == 1 && c == '}' && (s.lexer == InCode || s.lexer == Slash) ==> Step(s, c).depth == 0
  {
  }

  lemma EnclosedCloses(text: string, open: nat, k: nat, pieces: seq<Piece>)
    requires Encloses(text, open, k, pieces)
    ensures Closes(text, open, k)
  {
    hide Step, Run, Open, Net, Text, ArePieces;
    var inside, start := Text(pieces), Scan(InCode, 1);
    InsideOf(text, open, k, inside);
    PiecesRun(pieces, "}");
    BalancedIsAbove(Codes(pieces));
    ScanIsRun(text, open, k - 1);
    ClosingStep(Run(start, inside), '}');
    assert ScanTo(text, open, k) == Step(ScanTo(text, open, k - 1), text[k - 1]);
  }

  lemma InsideOf(text: string, open: nat, k: nat, inside: string)
    requires open < k <= |text|
    ensures text[open..k] == "{" + inside + "}" <==>
              open + 1 < k && text[open] == '{' && text[open + 1..k - 1] == inside && text[k - 1] == '}'
  {
    var t := text[open..k];
    Braced(t, inside);
    if k > open + 1 {
      assert t[0] == text[open];
      assert t[|t| - 1] == text[k - 1];
      SliceOfSlice(text, open, k);
    }
  }

  lemma SliceOfSlice(text: string, open: nat, k: nat)
    requires open + 1 < k <= |text|
    ensures text[open..k][1..k - open - 1] == text[open + 1..k - 1]
  {
    var a, b := text[open..k][1..k - open - 1], text[open + 1..k - 1];
    assert |a| == |b|;
    forall i | 0 <= i < |a| ensures a[i] == b[i] {
      assert a[i] == text[open..k][i + 1] == text[open + i + 1];
    }
  }

  lemma Braced(t: string, inside: string)
    ensures t == "{" + inside + "}" <==> |t| > 1 && t[0] == '{' && t[1..|t| - 1] == inside && t[|t| - 1] == '}'
  {
    var other := "{" + inside + "}";
    assert |other| == |inside| + 2 && other[0] == '{' && other[|other| - 1] == '}';
    assert other[1..|other| - 1] == inside;
    if |t| > 1 && t[0] == '{' && t[1..|t| - 1] == inside && t[|t| - 1] == '}' {
      forall i | 0 <= i < |t| ensures t[i] == other[i] {
        assert 0 < i < |t| - 1 ==> t[i] == t[1..|t| - 1][i - 1];
      }
    }
  }

  lemma BalancedIsAbove(s: string)
    ensures StaysOpen(s) <==> Above(1, s)
    ensures Balanced(s) <==> Above(1, s) && Net(s) == 0
  {
    hide Count;
    assert forall k :: 0 <= k <= |s| ==> Net(s[..k]) == Count(s[..k], '{') - Count(s[..k], '}');
  }

  lemma PiecesEnclosed(text: string, open: nat, k: nat) returns (pieces: seq<Piece>)
    requires open < |text| && text[open] == '{' && Closes(text, open, k)
    ensures Encloses(text, open, k, pieces)
  {
    hide Step, Run, Open, Net;
    Opened(text, open);
    var inside, start := text[open + 1..k - 1], Scan(InCode, 1);
    ScanIsRun(text, open, k - 1);
    var s := Run(start, inside);
    assert ScanTo(text, open, k) == Step(s, text[k - 1]);
    OpenIsPositive(start, inside);
    ClosingStep(s, text[k - 1]);
    var first, pending := ReadAll(inside);
    pieces := Completed(inside, s, first, pending);
    BalancedIsAbove(Codes(pieces));
    InsideOf(text, open, k, Text(pieces));
  }

  /** Before a closing brace nothing is pending but a slash that opens no comment. */
  lemma Completed(t: string, s: Scan, first: seq<Piece>, pending: Pending) returns (pieces: seq<Piece>)
    requires Reads(t, s, first, pending) && (s.lexer == InCode || s.lexer == Slash)
    ensures t == Text(pieces) && ArePieces(pieces, "}")
    ensures s.depth == 1 + Net(Codes(pieces)) && Above(1, Codes(pieces))
  {
    hide Net, Above, Text, Codes, ArePieces, UnitsText;
    assert Codes(first) + [] == Codes(first) && Text(first) + [] == Text(first);
    if pending.OneSlash? {
      FollowMatters(first, "/", "/" + "}");
      OnePiece(first, LoneSlash, "}");
      pieces := first + [LoneSlash];
    } else {
      FollowMatters(first, [], "}");
      pieces := first;
    }
  }

  lemma OpenIsPositive(s: Scan, t: string)
    requires Open(s, t)
    ensures Run(s, t).depth > 0
  {
  }
}
