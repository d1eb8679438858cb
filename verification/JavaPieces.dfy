/**
 * Java text as the pieces a brace search has to tell apart: code without quotes and slashes, string and character
 * literals, comments, and slashes that open no comment.
 */
module JavaPieces {

  datatype Unit = Ordinary(c: char) | Escaped(c: char)

  datatype Piece =
    | Code(text: string)
    | Literal(quote: char, units: seq<Unit>)
    | Line(text: string)
    | Block(text: string)
    | LoneSlash

  function UnitsText(units: seq<Unit>): string {
    if units == [] then []
    else
      var last := units[|units| - 1];
      UnitsText(units[..|units| - 1]) + if last.Ordinary? then [last.c] else ['\\', last.c]
  }

  /** A line comment takes its newline with it. */
  function PieceText(p: Piece): string {
    match p
    case Code(text) => text
    case Literal(quote, units) => [quote] + UnitsText(units) + [quote]
    case Line(text) => "//" + text + "\n"
    case Block(text) => "/*" + text + "*/"
    case LoneSlash => "/"
  }

  function Text(pieces: seq<Piece>): string {
    if pieces == [] then [] else Text(pieces[..|pieces| - 1]) + PieceText(pieces[|pieces| - 1])
  }

  /** The code alone. */
  function Codes(pieces: seq<Piece>): string {
    if pieces == [] then []
    else
      var last := pieces[|pieces| - 1];
      Codes(pieces[..|pieces| - 1]) + if last.Code? then last.text else []
  }

  predicate Plain(s: string) {
    forall i :: 0 <= i < |s| ==> s[i] != '"' && s[i] != '\'' && s[i] != '/'
  }

  /** An ordinary character is neither the quote nor a backslash; any character can be escaped. */
  predicate IsUnit(quote: char, u: Unit) {
    u.Ordinary? ==> u.c != quote && u.c != '\\'
  }

  /** No star is followed by a slash. */
  predicate NoBlockEnd(s: string) {
    forall i :: 0 <= i < |s| - 1 ==> !(s[i] == '*' && s[i + 1] == '/')
  }

  predicate IsPiece(p: Piece) {
    match p
    case Code(text) => text != [] && Plain(text)
    case Literal(quote, units) =>
      (quote == '"' || quote == '\'') && forall i :: 0 <= i < |units| ==> IsUnit(quote, units[i])
    case Line(text) => '\n' !in text
    case Block(text) => NoBlockEnd(text + "*")
    case LoneSlash => true
  }

  ghost predicate IsLiteral(text: string, quote: char, units: seq<Unit>) {
    IsPiece(Literal(quote, units)) && text == PieceText(Literal(quote, units))
  }

  /** What follows does not make a comment of a slash. */
  predicate OpensNoComment(follow: string) {
    follow == [] || (follow[0] != '/' && follow[0] != '*')
  }

  /** Pieces that read as such in front of the text that follows. */
  predicate ArePieces(pieces: seq<Piece>, follow: string)
    decreases |pieces|
  {
    if pieces == [] then true
    else
      var last := pieces[|pieces| - 1];
      && IsPiece(last) && (last.LoneSlash? ==> OpensNoComment(follow))
      && ArePieces(pieces[..|pieces| - 1], PieceText(last) + follow)
  }

  function Count(s: string, c: char): nat {
    if s == [] then 0 else Count(s[..|s| - 1], c) + if s[|s| - 1] == c then 1 else 0
  }

  /** No closing brace before its opening one. */
  ghost predicate StaysOpen(s: string) {
    forall k :: 0 <= k <= |s| ==> Count(s[..k], '{') >= Count(s[..k], '}')
  }

  ghost predicate Balanced(s: string) {
    StaysOpen(s) && Count(s, '{') == Count(s, '}')
  }

  /** Between the open brace and the one before `k` there are pieces whose code is balanced. */
  ghost predicate Encloses(text: string, open: nat, k: nat, pieces: seq<Piece>) {
    && open < k <= |text| && text[open..k] == "{" + Text(pieces) + "}"
    && ArePieces(pieces, "}") && Balanced(Codes(pieces))
  }

  ghost predicate ClosesJava(text: string, open: nat, k: nat) {
    exists pieces :: Encloses(text, open, k, pieces)
  }
}
