/**
 * The SwissKnife expression subset of GenApi: a lexer over the expression
 * text, a recursive-descent parser with the usual precedence of `*`/`/`
 * over `+`/`-`, left-associative binary operators and nestable unary signs,
 * the identifier collection and the evaluation's error paths.
 *
 * The parser pulls tokens from the lexer one at a time, so a lexing error
 * is only reported when the parser asks for the offending token. The model
 * keeps that order by describing the lexer's output as the sequence of
 * tokens it yields before it ends or fails (`Lexed`), and the parser as
 * functions over an index into that sequence.
 */
module SwissKnife {
  import opened Wrappers
  import opened Text

  datatype BinaryOp = Add | Sub | Mul | Div
  datatype UnaryOp = Plus | Minus

  /** The AST; a number keeps its literal text, whose value is `LiteralValue`. */
  datatype AstNode =
    | Number(literal: string)
    | Variable(name: string)
    | Unary(sign: UnaryOp, expr: AstNode)
    | Binary(op: BinaryOp, left: AstNode, right: AstNode)

  datatype ParseError = ParseError(msg: string)

  datatype EvalError = UnknownVariable(name: string) | DivisionByZero

  datatype Token =
    | NumberTok(text: string)
    | IdentTok(name: string)
    | PlusTok | MinusTok | StarTok | SlashTok | LParenTok | RParenTok
    | EndTok

  // -------------------------------------------------------------------
  // Characters.

  /** `u8::is_ascii_whitespace`: space, tab, line feed, form feed, carriage return. */
  predicate IsAsciiWhitespace(c: char)
  {
    c == ' ' || c == '\t' || c == '\n' || c == '\U{000C}' || c == '\r'
  }

  predicate IsAsciiDigit(c: char) { '0' <= c <= '9' }

  predicate IsIdentStart(c: char) { 'a' <= c <= 'z' || 'A' <= c <= 'Z' || c == '_' }

  predicate IsIdentChar(c: char) { IsIdentStart(c) || IsAsciiDigit(c) }

  /**
   * The lexer works on the UTF-8 bytes of the text and reports an
   * unexpected byte as the `char` of that byte; for a non-ASCII character
   * that is the lead byte of its encoding.
   */
  function LeadByte(c: char): (r: char)
    ensures c as int < 0x80 ==> r == c
    ensures c as int >= 0x80 ==> 0xC0 <= r as int < 0xF8
  {
    var v := c as int;
    if v < 0x80 then c
    else if v < 0x800 then (0xC0 + v / 0x40) as char
    else if v < 0x1_0000 then (0xE0 + v / 0x1000) as char
    else (0xF0 + v / 0x4_0000) as char
  }

  // -------------------------------------------------------------------
  // Lexer specification.

  /** `skip_ws`: the first position at or after `pos` that is not ASCII whitespace. */
  function SkipWs(input: string, pos: nat): (r: nat)
    requires pos <= |input|
    ensures pos <= r <= |input|
    ensures r < |input| ==> !IsAsciiWhitespace(input[r])
    ensures forall i :: pos <= i < r ==> IsAsciiWhitespace(input[i])
    decreases |input| - pos
  {
    if pos < |input| && IsAsciiWhitespace(input[pos]) then SkipWs(input, pos + 1) else pos
  }

  /**
   * The scan of `lex_number` from `pos`: digits, and one '.', are taken;
   * the result is the end of the literal and whether it holds a digit.
   */
  function NumberScan(input: string, pos: nat, seenDot: bool, seenDigit: bool): (r: (nat, bool))
    requires pos <= |input|
    ensures pos <= r.0 <= |input|
    decreases |input| - pos
  {
    if pos < |input| && IsAsciiDigit(input[pos]) then NumberScan(input, pos + 1, seenDot, true)
    else if pos < |input| && input[pos] == '.' && !seenDot then NumberScan(input, pos + 1, true, seenDigit)
    else (pos, seenDigit)
  }

  /** The scan of `lex_ident`: identifier characters from `pos`. */
  function IdentEnd(input: string, pos: nat): (r: nat)
    requires pos <= |input|
    ensures pos <= r <= |input|
    ensures forall i :: pos <= i < r ==> IsIdentChar(input[i])
    ensures r < |input| ==> !IsIdentChar(input[r])
    decreases |input| - pos
  {
    if pos < |input| && IsIdentChar(input[pos]) then IdentEnd(input, pos + 1) else pos
  }

  /** The token of a single-character operator or parenthesis. */
  function Punctuation(c: char): Option<Token>
  {
    match c
    case '+' => Some(PlusTok)
    case '-' => Some(MinusTok)
    case '*' => Some(StarTok)
    case '/' => Some(SlashTok)
    case '(' => Some(LParenTok)
    case ')' => Some(RParenTok)
    case _ => None
  }

  /** `next_token` from position `pos`: the token and the position after it. */
  function NextTokenAt(input: string, pos: nat): (r: Result<(Token, nat), ParseError>)
    requires pos <= |input|
    ensures r.Ok? ==> pos <= r.value.1 <= |input|
    ensures r.Ok? && r.value.0 != EndTok ==> pos < r.value.1
    ensures r.Ok? && r.value.0 == EndTok ==> SkipWs(input, pos) == |input|
  {
    var p := SkipWs(input, pos);
    if p == |input| then Ok((EndTok, p))
    else
      var c := input[p];
      if IsAsciiDigit(c) || c == '.' then
        var scan := NumberScan(input, p, false, false);
        if scan.1 then Ok((NumberTok(input[p..scan.0]), scan.0))
        else Err(ParseError("invalid number literal"))
      else if IsIdentStart(c) then
        var e := IdentEnd(input, p + 1);
        Ok((IdentTok(input[p..e]), e))
      else
        match Punctuation(c)
        case Some(t) => Ok((t, p + 1))
        case None => Err(ParseError("unexpected character '" + [LeadByte(c)] + "'"))
  }

  /** A number literal: digits with at most one '.', and at least one digit. */
  predicate NumberLiteral(text: string)
  {
    && (forall i :: 0 <= i < |text| ==> IsAsciiDigit(text[i]) || text[i] == '.')
    && (forall i, j :: 0 <= i < j < |text| && text[i] == '.' ==> text[j] != '.')
    && (exists i :: 0 <= i < |text| && IsAsciiDigit(text[i]))
  }

  /** An identifier: a letter or '_', then letters, digits and '_'. */
  predicate Identifier(name: string)
  {
    |name| > 0 && IsIdentStart(name[0]) && forall i :: 0 <= i < |name| ==> IsIdentChar(name[i])
  }

  /** What the number scan takes. */
  lemma {:induction false} NumberScanShape(input: string, pos: nat, seenDot: bool, seenDigit: bool)
    requires pos <= |input|
    ensures var r := NumberScan(input, pos, seenDot, seenDigit);
      && (forall i :: pos <= i < r.0 ==> IsAsciiDigit(input[i]) || input[i] == '.')
      && (seenDot ==> forall i :: pos <= i < r.0 ==> input[i] != '.')
      && (forall i, j :: pos <= i < j < r.0 && input[i] == '.' ==> input[j] != '.')
      && (r.1 <==> seenDigit || exists i :: pos <= i < r.0 && IsAsciiDigit(input[i]))
      && (r.0 < |input| ==> !IsAsciiDigit(input[r.0]))
    decreases |input| - pos
  {
    if pos < |input| && IsAsciiDigit(input[pos]) {
      NumberScanShape(input, pos + 1, seenDot, true);
    } else if pos < |input| && input[pos] == '.' && !seenDot {
      NumberScanShape(input, pos + 1, true, seenDigit);
    }
  }

  /** A number token is a well-formed literal, and the longest one at that point. */
  lemma NumberTokenShape(input: string, pos: nat)
    requires pos <= |input| && NextTokenAt(input, pos).Ok? && NextTokenAt(input, pos).value.0.NumberTok?
    ensures NumberLiteral(NextTokenAt(input, pos).value.0.text)
    ensures var e := NextTokenAt(input, pos).value.1; e < |input| ==> !IsAsciiDigit(input[e])
  {
    var p := SkipWs(input, pos);
    var scan := NumberScan(input, p, false, false);
    NumberScanShape(input, p, false, false);
    var text := input[p..scan.0];
    assert forall i :: 0 <= i < |text| ==> text[i] == input[p + i];
    var d :| p <= d < scan.0 && IsAsciiDigit(input[d]);
    assert IsAsciiDigit(text[d - p]);
  }

  /** An identifier token is a well-formed identifier, and the longest one at that point. */
  lemma IdentTokenShape(input: string, pos: nat)
    requires pos <= |input| && NextTokenAt(input, pos).Ok? && NextTokenAt(input, pos).value.0.IdentTok?
    ensures Identifier(NextTokenAt(input, pos).value.0.name)
    ensures var e := NextTokenAt(input, pos).value.1; e < |input| ==> !IsIdentChar(input[e])
  {
    var p := SkipWs(input, pos);
    var e := IdentEnd(input, p + 1);
    var name := input[p..e];
    assert forall i :: 0 <= i < |name| ==> name[i] == input[p + i];
  }

  /** Only a digit or '.' that starts no digit run is rejected as a number. */
  lemma LoneDotRejected(input: string, pos: nat)
    requires pos < |input| && !IsAsciiWhitespace(input[pos]) && input[pos] == '.'
    requires pos + 1 == |input| || (!IsAsciiDigit(input[pos + 1]))
    ensures NextTokenAt(input, pos) == Err(ParseError("invalid number literal"))
  {
    assert SkipWs(input, pos) == pos;
    assert NumberScan(input, pos, false, false) == NumberScan(input, pos + 1, true, false);
    assert NumberScan(input, pos + 1, true, false) == (pos + 1, false);
  }

  /** Any character outside the expression alphabet is reported, as its first UTF-8 byte. */
  lemma UnexpectedCharacter(input: string, pos: nat)
    requires pos < |input| && SkipWs(input, pos) == pos
    requires var c := input[pos]; !IsAsciiDigit(c) && c != '.' && !IsIdentStart(c) && Punctuation(c).None?
    ensures NextTokenAt(input, pos) == Err(ParseError("unexpected character '" + [LeadByte(input[pos])] + "'"))
  {
  }

  // -------------------------------------------------------------------
  // The token sequence the lexer yields.

  /** The tokens pulled in order, the position after each, and the error that ended the lexing, if any. */
  datatype Lexed = Lexed(tokens: seq<Token>, ends: seq<nat>, failure: Option<ParseError>)

  /** `End` comes last exactly when the lexing did not fail. */
  predicate WellFormed(lx: Lexed)
  {
    && |lx.tokens| == |lx.ends|
    && (lx.failure.None? ==> |lx.tokens| > 0)
    && forall i :: 0 <= i < |lx.tokens| ==> (lx.tokens[i] == EndTok <==> i == |lx.tokens| - 1 && lx.failure.None?)
  }

  /** The tokens `next_token` yields from `pos` on, until `End` or an error. */
  function LexFrom(input: string, pos: nat): (r: Lexed)
    requires pos <= |input|
    ensures WellFormed(r)
    ensures forall i :: 0 <= i < |r.ends| ==> r.ends[i] <= |input|
    decreases |input| - pos
  {
    match NextTokenAt(input, pos)
    case Err(e) => Lexed([], [], Some(e))
    case Ok((t, q)) =>
      if t == EndTok then Lexed([EndTok], [q], None)
      else
        var rest := LexFrom(input, q);
        Lexed([t] + rest.tokens, [q] + rest.ends, rest.failure)
  }

  /** A token other than `End` is followed by what the lexer yields after it. */
  lemma LexStep(input: string, pos: nat, t: Token, q: nat)
    requires pos <= |input| && NextTokenAt(input, pos) == Ok((t, q)) && t != EndTok
    ensures LexFrom(input, pos).tokens == [t] + LexFrom(input, q).tokens
  {
  }

  /** Whitespace before a token does not change what is lexed. */
  lemma LexSkip(input: string, pos: nat)
    requires pos < |input| && IsAsciiWhitespace(input[pos])
    ensures LexFrom(input, pos) == LexFrom(input, pos + 1)
  {
    assert SkipWs(input, pos) == SkipWs(input, pos + 1);
    assert NextTokenAt(input, pos) == NextTokenAt(input, pos + 1);
  }

  /** The text ends: the lexer yields `End` alone. */
  lemma LexEnd(input: string)
    ensures LexFrom(input, |input|) == Lexed([EndTok], [|input|], None)
  {
  }

  /** A blank text lexes to `End` alone. */
  lemma LexBlank(input: string)
    requires forall i :: 0 <= i < |input| ==> IsAsciiWhitespace(input[i])
    ensures LexFrom(input, 0) == Lexed([EndTok], [|input|], None)
  {
    assert SkipWs(input, 0) == |input|;
  }

  /** An operator or parenthesis is one token. */
  lemma NextPunctuation(input: string, pos: nat, t: Token)
    requires pos < |input| && Punctuation(input[pos]) == Some(t)
    ensures NextTokenAt(input, pos) == Ok((t, pos + 1))
  {
    assert SkipWs(input, pos) == pos;
  }

  /** An identifier runs to the first character that cannot continue it. */
  lemma NextIdentifier(input: string, pos: nat, e: nat)
    requires pos < |input| && IsIdentStart(input[pos]) && IdentEnd(input, pos + 1) == e
    ensures NextTokenAt(input, pos) == Ok((IdentTok(input[pos..e]), e))
  {
    assert SkipWs(input, pos) == pos;
  }

  /** A number literal runs to the end of its digits. */
  lemma NextNumber(input: string, pos: nat, e: nat)
    requires pos < |input| && IsAsciiDigit(input[pos]) && NumberScan(input, pos, false, false) == (e, true)
    ensures NextTokenAt(input, pos) == Ok((NumberTok(input[pos..e]), e))
  {
    assert SkipWs(input, pos) == pos;
  }

  lemma LexPunctuation(input: string, pos: nat, t: Token)
    requires pos < |input| && Punctuation(input[pos]) == Some(t)
    ensures LexFrom(input, pos).tokens == [t] + LexFrom(input, pos + 1).tokens
  {
    NextPunctuation(input, pos, t);
    LexStep(input, pos, t, pos + 1);
  }

  lemma LexIdentifier(input: string, pos: nat, e: nat)
    requires pos < |input| && IsIdentStart(input[pos]) && IdentEnd(input, pos + 1) == e
    ensures LexFrom(input, pos).tokens == [IdentTok(input[pos..e])] + LexFrom(input, e).tokens
  {
    NextIdentifier(input, pos, e);
    LexStep(input, pos, IdentTok(input[pos..e]), e);
  }

  lemma LexNumber(input: string, pos: nat, e: nat)
    requires pos < |input| && IsAsciiDigit(input[pos]) && NumberScan(input, pos, false, false) == (e, true)
    ensures LexFrom(input, pos).tokens == [NumberTok(input[pos..e])] + LexFrom(input, e).tokens
  {
    NextNumber(input, pos, e);
    LexStep(input, pos, NumberTok(input[pos..e]), e);
  }

  /** A suffix of a token sequence is its first token followed by the rest. */
  lemma TokenSuffix(ts: seq<Token>, k: nat)
    requires k < |ts|
    ensures ts[k..] == [ts[k]] + ts[k + 1..]
  {
  }

  /** Where the lexer stands before token k. */
  function StartOf(lx: Lexed, pos: nat, k: nat): nat
    requires k <= |lx.ends|
  {
    if k == 0 then pos else lx.ends[k - 1]
  }

  /**
   * Token k of the sequence is what `next_token` returns after the first k,
   * and the failure is what it returns after all of them.
   */
  lemma {:induction false} LexFromAt(input: string, pos: nat, k: nat)
    requires pos <= |input|
    requires k <= |LexFrom(input, pos).tokens|
    ensures StartOf(LexFrom(input, pos), pos, k) <= |input|
    ensures var lx := LexFrom(input, pos);
      && (k < |lx.tokens| ==> NextTokenAt(input, StartOf(lx, pos, k)) == Ok((lx.tokens[k], lx.ends[k])))
      && (k == |lx.tokens| && lx.failure.Some? ==> NextTokenAt(input, StartOf(lx, pos, k)) == Err(lx.failure.value))
    decreases k
  {
    var lx := LexFrom(input, pos);
    if k > 0 && NextTokenAt(input, pos).value.0 != EndTok {
      var q := NextTokenAt(input, pos).value.1;
      var rest := LexFrom(input, q);
      assert lx.tokens == [lx.tokens[0]] + rest.tokens;
      LexFromAt(input, q, k - 1);
      assert StartOf(lx, pos, k) == StartOf(rest, q, k - 1);
    }
  }

  // -------------------------------------------------------------------
  // Parser specification, over the token sequence.

  /** `advance` from token k, which is not `End`: the next token, or the lexing error. */
  function AdvanceFrom(lx: Lexed, k: nat): (r: Result<nat, ParseError>)
    requires WellFormed(lx) && k < |lx.tokens| && lx.tokens[k] != EndTok
    ensures r.Ok? ==> r.value == k + 1 < |lx.tokens|
    ensures r.Err? ==> k + 1 == |lx.tokens| && lx.failure == Some(r.error)
  {
    if k + 1 < |lx.tokens| then Ok(k + 1) else Err(lx.failure.value)
  }

  /** `parse_expr`: a term, then any number of `+`/`-` terms, folded to the left. */
  function Expr(lx: Lexed, k: nat): (r: Result<(AstNode, nat), ParseError>)
    requires WellFormed(lx) && k < |lx.tokens|
    ensures r.Ok? ==> k < r.value.1 < |lx.tokens|
    decreases |lx.tokens| - k, 2
  {
    match Term(lx, k)
    case Err(e) => Err(e)
    case Ok((node, k1)) => ExprTail(lx, node, k1)
  }

  /** The loop of `parse_expr` from token k, with `node` parsed so far. */
  function ExprTail(lx: Lexed, node: AstNode, k: nat): (r: Result<(AstNode, nat), ParseError>)
    requires WellFormed(lx) && k < |lx.tokens|
    ensures r.Ok? ==> k <= r.value.1 < |lx.tokens|
    decreases |lx.tokens| - k, 0
  {
    var op := match lx.tokens[k] case PlusTok => Some(Add) case MinusTok => Some(Sub) case _ => None;
    match op
    case None => Ok((node, k))
    case Some(o) =>
      match AdvanceFrom(lx, k)
      case Err(e) => Err(e)
      case Ok(k1) =>
        match Term(lx, k1)
        case Err(e) => Err(e)
        case Ok((rhs, k2)) => ExprTail(lx, Binary(o, node, rhs), k2)
  }

  /** `parse_term`: a factor, then any number of `*`/`/` factors, folded to the left. */
  function Term(lx: Lexed, k: nat): (r: Result<(AstNode, nat), ParseError>)
    requires WellFormed(lx) && k < |lx.tokens|
    ensures r.Ok? ==> k < r.value.1 < |lx.tokens|
    decreases |lx.tokens| - k, 1
  {
    match Factor(lx, k)
    case Err(e) => Err(e)
    case Ok((node, k1)) => TermTail(lx, node, k1)
  }

  /** The loop of `parse_term`. */
  function TermTail(lx: Lexed, node: AstNode, k: nat): (r: Result<(AstNode, nat), ParseError>)
    requires WellFormed(lx) && k < |lx.tokens|
    ensures r.Ok? ==> k <= r.value.1 < |lx.tokens|
    decreases |lx.tokens| - k, 0
  {
    var op := match lx.tokens[k] case StarTok => Some(Mul) case SlashTok => Some(Div) case _ => None;
    match op
    case None => Ok((node, k))
    case Some(o) =>
      match AdvanceFrom(lx, k)
      case Err(e) => Err(e)
      case Ok(k1) =>
        match Factor(lx, k1)
        case Err(e) => Err(e)
        case Ok((rhs, k2)) => TermTail(lx, Binary(o, node, rhs), k2)
  }

  /** `parse_factor`: a signed factor, a number, a variable or a parenthesised expression. */
  function Factor(lx: Lexed, k: nat): (r: Result<(AstNode, nat), ParseError>)
    requires WellFormed(lx) && k < |lx.tokens|
    ensures r.Ok? ==> k < r.value.1 < |lx.tokens|
    decreases |lx.tokens| - k, 0
  {
    match lx.tokens[k]
    case PlusTok =>
      (match AdvanceFrom(lx, k)
       case Err(e) => Err(e)
       case Ok(k1) =>
         match Factor(lx, k1)
         case Err(e) => Err(e)
         case Ok((inner, k2)) => Ok((Unary(Plus, inner), k2)))
    case MinusTok =>
      (match AdvanceFrom(lx, k)
       case Err(e) => Err(e)
       case Ok(k1) =>
         match Factor(lx, k1)
         case Err(e) => Err(e)
         case Ok((inner, k2)) => Ok((Unary(Minus, inner), k2)))
    case NumberTok(text) =>
      (match AdvanceFrom(lx, k)
       case Err(e) => Err(e)
       case Ok(k1) => Ok((Number(text), k1)))
    case IdentTok(name) =>
      (match AdvanceFrom(lx, k)
       case Err(e) => Err(e)
       case Ok(k1) => Ok((Variable(name), k1)))
    case LParenTok =>
      (match AdvanceFrom(lx, k)
       case Err(e) => Err(e)
       case Ok(k1) =>
         match Expr(lx, k1)
         case Err(e) => Err(e)
         case Ok((inner, k2)) =>
           if lx.tokens[k2] != RParenTok then Err(ParseError("missing closing ')'"))
           else
             match AdvanceFrom(lx, k2)
             case Err(e) => Err(e)
             case Ok(k3) => Ok((inner, k3)))
    case EndTok => Err(ParseError("unexpected end of expression"))
    case StarTok => Err(ParseError("unexpected token Star"))
    case SlashTok => Err(ParseError("unexpected token Slash"))
    case RParenTok => Err(ParseError("unexpected token RParen"))
  }

  /** `parse_expression` over the token sequence: the first token, an expression, then `End`. */
  function ParseTokens(lx: Lexed): (r: Result<AstNode, ParseError>)
    requires WellFormed(lx)
    ensures |lx.tokens| == 0 ==> r == Err(lx.failure.value)
    ensures r.Ok? ==> lx.failure.None?
  {
    if |lx.tokens| == 0 then Err(lx.failure.value)
    else
      match Expr(lx, 0)
      case Err(e) => Err(e)
      case Ok((node, k)) => if lx.tokens[k] != EndTok then Err(ParseError("unexpected trailing tokens")) else Ok(node)
  }

  /** `parse_expression`. */
  function Parse(input: string): (r: Result<AstNode, ParseError>)
    ensures r.Ok? ==> LexFrom(input, 0).failure.None?
  {
    ParseTokens(LexFrom(input, 0))
  }

  /** A blank text is a premature end of the expression. */
  lemma ParseBlank(input: string)
    requires forall i :: 0 <= i < |input| ==> IsAsciiWhitespace(input[i])
    ensures Parse(input) == Err(ParseError("unexpected end of expression"))
  {
    LexBlank(input);
    var lx := Lexed([EndTok], [|input|], None);
    assert lx.tokens[0] == EndTok;
    assert Factor(lx, 0) == Err(ParseError("unexpected end of expression"));
    assert Term(lx, 0) == Err(ParseError("unexpected end of expression"));
    assert Expr(lx, 0) == Err(ParseError("unexpected end of expression"));
  }

  // -------------------------------------------------------------------
  // The lexer and the parser as the objects the source steps.

  /** `Lexer`: the expression text and the scan position in it. */
  class Lexer {
    const input: string
    var pos: nat

    ghost predicate Valid()
      reads this
    {
      pos <= |input|
    }

    constructor (input: string)
      ensures this.input == input && pos == 0 && Valid()
    {
      this.input := input;
      pos := 0;
    }

    /** `skip_ws`. */
    method SkipWhitespace()
      requires Valid()
      modifies this
      ensures Valid() && pos == SkipWs(input, old(pos))
    {
      while pos < |input| && IsAsciiWhitespace(input[pos])
        invariant pos <= |input|
        invariant SkipWs(input, old(pos)) == SkipWs(input, pos)
        decreases |input| - pos
      {
        pos := pos + 1;
      }
    }

    /** `lex_number`: digits and at most one '.', of which at least one is a digit. */
    method LexNumber() returns (r: Result<Token, ParseError>)
      requires Valid()
      modifies this
      ensures Valid()
      ensures var scan := NumberScan(input, old(pos), false, false);
        && (scan.1 ==> r == Ok(NumberTok(input[old(pos)..scan.0])) && pos == scan.0)
        && (!scan.1 ==> r == Err(ParseError("invalid number literal")))
    {
      var start := pos;
      var seenDigit, seenDot := false, false;
      while pos < |input|
        invariant start <= pos <= |input|
        invariant NumberScan(input, start, false, false) == NumberScan(input, pos, seenDot, seenDigit)
        decreases |input| - pos
      {
        var c := input[pos];
        if IsAsciiDigit(c) {
          seenDigit := true;
          pos := pos + 1;
        } else if c == '.' && !seenDot {
          seenDot := true;
          pos := pos + 1;
        } else {
          break;
        }
      }
      if !seenDigit {
        return Err(ParseError("invalid number literal"));
      }
      r := Ok(NumberTok(input[start..pos]));
    }

    /** `lex_ident`: the start character, then identifier characters. */
    method LexIdent() returns (t: Token)
      requires Valid() && pos < |input| && IsIdentStart(input[pos])
      modifies this
      ensures Valid()
      ensures pos == IdentEnd(input, old(pos) + 1) && t == IdentTok(input[old(pos)..pos])
    {
      var start := pos;
      pos := pos + 1;
      while pos < |input| && IsIdentChar(input[pos])
        invariant start < pos <= |input|
        invariant IdentEnd(input, start + 1) == IdentEnd(input, pos)
        decreases |input| - pos
      {
        pos := pos + 1;
      }
      t := IdentTok(input[start..pos]);
    }

    /** `next_token`: the token at the position after any whitespace. */
    method NextToken() returns (r: Result<Token, ParseError>)
      requires Valid()
      modifies this
      ensures Valid()
      ensures r.Ok? ==> NextTokenAt(input, old(pos)) == Ok((r.value, pos))
      ensures r.Err? ==> NextTokenAt(input, old(pos)) == Err(r.error)
    {
      SkipWhitespace();
      if pos == |input| {
        return Ok(EndTok);
      }
      var c := input[pos];
      if IsAsciiDigit(c) || c == '.' {
        r := LexNumber();
      } else if IsIdentStart(c) {
        var t := LexIdent();
        r := Ok(t);
      } else {
        match Punctuation(c)
        case Some(t) =>
          pos := pos + 1;
          r := Ok(t);
        case None =>
          r := Err(ParseError("unexpected character '" + [LeadByte(c)] + "'"));
      }
    }
  }

  /**
   * `Parser`: the lexer and the one-token lookahead. Its ghost state places
   * the lookahead in the token sequence of the whole text.
   */
  class Parser {
    const lexer: Lexer
    var lookahead: Token
    ghost const lexed: Lexed
    ghost var k: nat

    ghost predicate Valid()
      reads this, lexer
    {
      && lexer.Valid()
      && lexed == LexFrom(lexer.input, 0)
      && k < |lexed.tokens|
      && lookahead == lexed.tokens[k]
      && lexer.pos == lexed.ends[k]
    }

    constructor (lexer: Lexer, first: Token)
      requires lexer.Valid() && |LexFrom(lexer.input, 0).tokens| > 0
      requires first == LexFrom(lexer.input, 0).tokens[0] && lexer.pos == LexFrom(lexer.input, 0).ends[0]
      ensures Valid() && this.lexer == lexer && k == 0
    {
      this.lexer := lexer;
      lookahead := first;
      lexed := LexFrom(lexer.input, 0);
      k := 0;
    }

    /** `Parser::new`: a lexer over the text and its first token. */
    static method New(input: string) returns (r: Result<Parser, ParseError>)
      ensures r.Ok? ==> && fresh(r.value) && fresh(r.value.lexer)
                        && r.value.Valid() && r.value.lexer.input == input && r.value.k == 0
      ensures r.Err? ==> |LexFrom(input, 0).tokens| == 0 && LexFrom(input, 0).failure == Some(r.error)
    {
      var lexer := new Lexer(input);
      var first := lexer.NextToken();
      if first.Err? {
        return Err(first.error);
      }
      var parser := new Parser(lexer, first.value);
      r := Ok(parser);
    }

    /** `advance`: the lookahead becomes the next token, or the lexing error is returned. */
    method Advance() returns (r: Result<(), ParseError>)
      requires Valid() && lookahead != EndTok
      modifies this, lexer
      ensures r.Ok? ==> Valid() && AdvanceFrom(lexed, old(k)) == Ok(k)
      ensures r.Err? ==> AdvanceFrom(lexed, old(k)) == Err(r.error)
    {
      LexFromAt(lexer.input, 0, k + 1);
      var t := lexer.NextToken();
      if t.Err? {
        return Err(t.error);
      }
      lookahead := t.value;
      k := k + 1;
      r := Ok(());
    }

    /** `parse_expr`. */
    method ParseExpr() returns (r: Result<AstNode, ParseError>)
      requires Valid()
      modifies this, lexer
      ensures r.Ok? ==> Valid() && Expr(lexed, old(k)) == Ok((r.value, k))
      ensures r.Err? ==> Expr(lexed, old(k)) == Err(r.error)
      decreases |lexed.tokens| - k, 2
    {
      var first := ParseTerm();
      if first.Err? {
        return Err(first.error);
      }
      var node := first.value;
      while lookahead == PlusTok || lookahead == MinusTok
        invariant Valid() && old(k) < k
        invariant Expr(lexed, old(k)) == ExprTail(lexed, node, k)
        decreases |lexed.tokens| - k
      {
        ghost var k0 := k;
        var op := if lookahead == PlusTok then Add else Sub;
        var a := Advance();
        if a.Err? {
          return Err(a.error);
        }
        var rhs := ParseTerm();
        if rhs.Err? {
          return Err(rhs.error);
        }
        assert ExprTail(lexed, node, k0) == ExprTail(lexed, Binary(op, node, rhs.value), k);
        node := Binary(op, node, rhs.value);
      }
      r := Ok(node);
    }

    /** `parse_term`. */
    method ParseTerm() returns (r: Result<AstNode, ParseError>)
      requires Valid()
      modifies this, lexer
      ensures r.Ok? ==> Valid() && Term(lexed, old(k)) == Ok((r.value, k))
      ensures r.Err? ==> Term(lexed, old(k)) == Err(r.error)
      decreases |lexed.tokens| - k, 1
    {
      var first := ParseFactor();
      if first.Err? {
        return Err(first.error);
      }
      var node := first.value;
      while lookahead == StarTok || lookahead == SlashTok
        invariant Valid() && old(k) < k
        invariant Term(lexed, old(k)) == TermTail(lexed, node, k)
        decreases |lexed.tokens| - k
      {
        ghost var k0 := k;
        var op := if lookahead == StarTok then Mul else Div;
        var a := Advance();
        if a.Err? {
          return Err(a.error);
        }
        var rhs := ParseFactor();
        if rhs.Err? {
          return Err(rhs.error);
        }
        assert TermTail(lexed, node, k0) == TermTail(lexed, Binary(op, node, rhs.value), k);
        node := Binary(op, node, rhs.value);
      }
      r := Ok(node);
    }

    /** `parse_factor`. */
    method ParseFactor() returns (r: Result<AstNode, ParseError>)
      requires Valid()
      modifies this, lexer
      ensures r.Ok? ==> Valid() && Factor(lexed, old(k)) == Ok((r.value, k))
      ensures r.Err? ==> Factor(lexed, old(k)) == Err(r.error)
      decreases |lexed.tokens| - k, 0
    {
      match lookahead
      case PlusTok =>
        var a := Advance();
        if a.Err? {
          return Err(a.error);
        }
        var inner := ParseFactor();
        if inner.Err? {
          return Err(inner.error);
        }
        r := Ok(Unary(Plus, inner.value));
      case MinusTok =>
        var a := Advance();
        if a.Err? {
          return Err(a.error);
        }
        var inner := ParseFactor();
        if inner.Err? {
          return Err(inner.error);
        }
        r := Ok(Unary(Minus, inner.value));
      case NumberTok(text) =>
        var a := Advance();
        if a.Err? {
          return Err(a.error);
        }
        r := Ok(Number(text));
      case IdentTok(name) =>
        var a := Advance();
        if a.Err? {
          return Err(a.error);
        }
        r := Ok(Variable(name));
      case LParenTok =>
        var a := Advance();
        if a.Err? {
          return Err(a.error);
        }
        var inner := ParseExpr();
        if inner.Err? {
          return Err(inner.error);
        }
        if lookahead != RParenTok {
          return Err(ParseError("missing closing ')'"));
        }
        var b := Advance();
        if b.Err? {
          return Err(b.error);
        }
        r := Ok(inner.value);
      case EndTok =>
        r := Err(ParseError("unexpected end of expression"));
      case StarTok =>
        r := Err(ParseError("unexpected token Star"));
      case SlashTok =>
        r := Err(ParseError("unexpected token Slash"));
      case RParenTok =>
        r := Err(ParseError("unexpected token RParen"));
    }
  }

  /** `parse_expression`, run on the objects: the same result as the specification. */
  method ParseExpression(input: string) returns (r: Result<AstNode, ParseError>)
    ensures r == Parse(input)
  {
    var p := Parser.New(input);
    if p.Err? {
      return Err(p.error);
    }
    var parser := p.value;
    var e := parser.ParseExpr();
    if e.Err? {
      return Err(e.error);
    }
    if parser.lookahead != EndTok {
      return Err(ParseError("unexpected trailing tokens"));
    }
    r := Ok(e.value);
  }

  // -------------------------------------------------------------------
  // Identifiers and evaluation.

  /** The variable names of the AST. */
  function Identifiers(ast: AstNode): set<string>
  {
    match ast
    case Number(_) => {}
    case Variable(name) => {name}
    case Unary(_, e) => Identifiers(e)
    case Binary(_, l, r) => Identifiers(l) + Identifiers(r)
  }

  /** `ast` has a `Variable(name)` node. */
  predicate Mentions(ast: AstNode, name: string)
  {
    match ast
    case Number(_) => false
    case Variable(n) => n == name
    case Unary(_, e) => Mentions(e, name)
    case Binary(_, l, r) => Mentions(l, name) || Mentions(r, name)
  }

  /** The collected set is exactly the set of names the AST mentions. */
  lemma {:induction false} IdentifiersMentioned(ast: AstNode, name: string)
    ensures name in Identifiers(ast) <==> Mentions(ast, name)
  {
    match ast
    case Number(_) =>
    case Variable(_) =>
    case Unary(_, e) => IdentifiersMentioned(e, name);
    case Binary(_, l, r) =>
      IdentifiersMentioned(l, name);
      IdentifiersMentioned(r, name);
  }

  /** `collect_identifiers`: inserts the AST's variable names into `out`. */
  method CollectIdentifiers(ast: AstNode, out: set<string>) returns (result: set<string>)
    ensures result == out + Identifiers(ast)
  {
    match ast
    case Number(_) =>
      result := out;
    case Variable(name) =>
      result := out + {name};
    case Unary(_, e) =>
      result := CollectIdentifiers(e, out);
    case Binary(_, l, r) =>
      var left := CollectIdentifiers(l, out);
      result := CollectIdentifiers(r, left);
  }

  function Pow10(n: nat): (r: nat)
    ensures r >= 1
  {
    if n == 0 then 1 else 10 * Pow10(n - 1)
  }

  /** The first index of '.' in `s`, or |s|. */
  function DotIndex(s: string): (r: nat)
    ensures r <= |s| && forall i :: 0 <= i < r ==> s[i] != '.'
    ensures r < |s| ==> s[r] == '.'
  {
    if |s| == 0 || s[0] == '.' then 0 else 1 + DotIndex(s[1..])
  }

  /** The exact decimal value of a number literal (`f64` is not modelled; see the README). */
  function LiteralValue(text: string): real
  {
    var d := DotIndex(text);
    var whole := DigitsValue(text[..d], 10) as real;
    if d == |text| then whole
    else whole + (DigitsValue(text[d + 1..], 10) as real) / (Pow10(|text| - d - 1) as real)
  }

  /**
   * `evaluate` with a variable resolver, on exact real numbers: operands
   * left to right, the first error returned as it is, and a zero divisor
   * an error.
   */
  function Evaluate(ast: AstNode, vars: string -> Result<real, EvalError>): (r: Result<real, EvalError>)
    ensures r.Ok? ==> forall name :: name in Identifiers(ast) ==> vars(name).Ok?
  {
    match ast
    case Number(text) => Ok(LiteralValue(text))
    case Variable(name) => vars(name)
    case Unary(op, e) =>
      (match Evaluate(e, vars)
       case Err(err) => Err(err)
       case Ok(v) => if op == Plus then Ok(v) else Ok(-v))
    case Binary(op, l, r) =>
      match Evaluate(l, vars)
      case Err(err) => Err(err)
      case Ok(lhs) =>
        match Evaluate(r, vars)
        case Err(err) => Err(err)
        case Ok(rhs) =>
          match op
          case Add => Ok(lhs + rhs)
          case Sub => Ok(lhs - rhs)
          case Mul => Ok(Product(lhs, rhs))
          case Div => if rhs == 0.0 then Err(DivisionByZero) else Ok(Quotient(lhs, rhs))
  }

  // Kept as functions so that proofs about evaluation do not face nonlinear real arithmetic.
  function Product(a: real, b: real): real { a * b }
  function Quotient(a: real, b: real): real requires b != 0.0 { a / b }

  /** Evaluation only consults the resolver on the AST's own identifiers. */
  lemma {:induction false} EvaluateReadsIdentifiers(ast: AstNode, v1: string -> Result<real, EvalError>,
                                                    v2: string -> Result<real, EvalError>)
    requires forall n :: n in Identifiers(ast) ==> v1(n) == v2(n)
    ensures Evaluate(ast, v1) == Evaluate(ast, v2)
  {
    match ast
    case Number(_) =>
    case Variable(name) => assert name in Identifiers(ast);
    case Unary(_, e) => EvaluateReadsIdentifiers(e, v1, v2);
    case Binary(_, l, r) =>
      EvaluateReadsIdentifiers(l, v1, v2);
      EvaluateReadsIdentifiers(r, v1, v2);
  }

  /** Every error other than a zero divisor is the resolver's own error for one of the identifiers. */
  lemma {:induction false} EvaluateErrorOrigin(ast: AstNode, vars: string -> Result<real, EvalError>) returns (name: string)
    requires Evaluate(ast, vars).Err? && Evaluate(ast, vars).error != DivisionByZero
    ensures name in Identifiers(ast) && vars(name) == Err(Evaluate(ast, vars).error)
  {
    match ast
    case Variable(n) =>
      name := n;
    case Unary(_, e) =>
      name := EvaluateErrorOrigin(e, vars);
    case Binary(_, l, r) =>
      if Evaluate(l, vars).Err? {
        name := EvaluateErrorOrigin(l, vars);
      } else {
        name := EvaluateErrorOrigin(r, vars);
      }
  }

  // -------------------------------------------------------------------
  // Precedence, associativity and error order, on token sequences.

  /** A complete lexing of `ts` followed by `End`. */
  function Complete(ts: seq<Token>): (lx: Lexed)
    requires forall i :: 0 <= i < |ts| ==> ts[i] != EndTok
    ensures WellFormed(lx) && lx.tokens == ts + [EndTok]
  {
    Lexed(ts + [EndTok], seq(|ts| + 1, i => i + 1), None)
  }

  // One-step facts about the parser functions, so that the examples below
  // follow the parse token by token instead of unfolding it whole.

  lemma FactorAtom(lx: Lexed, k: nat)
    requires WellFormed(lx) && k + 1 < |lx.tokens| && (lx.tokens[k].IdentTok? || lx.tokens[k].NumberTok?)
    ensures Factor(lx, k)
         == Ok((if lx.tokens[k].IdentTok? then Variable(lx.tokens[k].name) else Number(lx.tokens[k].text), k + 1))
  {
  }

  lemma FactorSigned(lx: Lexed, k: nat, inner: AstNode, k2: nat)
    requires WellFormed(lx) && k + 1 < |lx.tokens| && (lx.tokens[k] == PlusTok || lx.tokens[k] == MinusTok)
    requires Factor(lx, k + 1) == Ok((inner, k2))
    ensures Factor(lx, k) == Ok((Unary(if lx.tokens[k] == PlusTok then Plus else Minus, inner), k2))
  {
  }

  lemma FactorParen(lx: Lexed, k: nat, inner: AstNode, k2: nat)
    requires WellFormed(lx) && k + 1 < |lx.tokens| && lx.tokens[k] == LParenTok
    requires Expr(lx, k + 1) == Ok((inner, k2)) && lx.tokens[k2] == RParenTok && k2 + 1 < |lx.tokens|
    ensures Factor(lx, k) == Ok((inner, k2 + 1))
  {
  }

  lemma TermOf(lx: Lexed, k: nat, node: AstNode, k1: nat)
    requires WellFormed(lx) && k < |lx.tokens| && Factor(lx, k) == Ok((node, k1))
    ensures Term(lx, k) == TermTail(lx, node, k1)
  {
  }

  lemma TermTailStop(lx: Lexed, node: AstNode, k: nat)
    requires WellFormed(lx) && k < |lx.tokens| && lx.tokens[k] != StarTok && lx.tokens[k] != SlashTok
    ensures TermTail(lx, node, k) == Ok((node, k))
  {
  }

  lemma TermTailStep(lx: Lexed, node: AstNode, k: nat, rhs: AstNode, k2: nat)
    requires WellFormed(lx) && k + 1 < |lx.tokens| && (lx.tokens[k] == StarTok || lx.tokens[k] == SlashTok)
    requires Factor(lx, k + 1) == Ok((rhs, k2))
    ensures TermTail(lx, node, k) == TermTail(lx, Binary(if lx.tokens[k] == StarTok then Mul else Div, node, rhs), k2)
  {
  }

  lemma ExprOf(lx: Lexed, k: nat, node: AstNode, k1: nat)
    requires WellFormed(lx) && k < |lx.tokens| && Term(lx, k) == Ok((node, k1))
    ensures Expr(lx, k) == ExprTail(lx, node, k1)
  {
  }

  lemma ExprTailStop(lx: Lexed, node: AstNode, k: nat)
    requires WellFormed(lx) && k < |lx.tokens| && lx.tokens[k] != PlusTok && lx.tokens[k] != MinusTok
    ensures ExprTail(lx, node, k) == Ok((node, k))
  {
  }

  lemma ExprTailStep(lx: Lexed, node: AstNode, k: nat, rhs: AstNode, k2: nat)
    requires WellFormed(lx) && k + 1 < |lx.tokens| && (lx.tokens[k] == PlusTok || lx.tokens[k] == MinusTok)
    requires Term(lx, k + 1) == Ok((rhs, k2))
    ensures ExprTail(lx, node, k) == ExprTail(lx, Binary(if lx.tokens[k] == PlusTok then Add else Sub, node, rhs), k2)
  {
  }

  lemma ParsedWhole(lx: Lexed, node: AstNode, k: nat)
    requires WellFormed(lx) && 0 < |lx.tokens| && Expr(lx, 0) == Ok((node, k)) && lx.tokens[k] == EndTok
    ensures ParseTokens(lx) == Ok(node)
  {
  }

  /** The token of a binary operator. */
  function OpToken(o: BinaryOp): Token
  {
    match o
    case Add => PlusTok
    case Sub => MinusTok
    case Mul => StarTok
    case Div => SlashTok
  }

  /** `*` and `/` bind tighter than `+` and `-`. */
  predicate Tight(o: BinaryOp)
  {
    o == Mul || o == Div
  }

  /** The tokens of `a o1 b o2 c`, lexed. */
  function ThreeOperands(a: string, b: string, c: string, o1: BinaryOp, o2: BinaryOp): Lexed
  {
    Complete([IdentTok(a), OpToken(o1), IdentTok(b), OpToken(o2), IdentTok(c)])
  }

  /**
   * Precedence and associativity for every pair of operators: in
   * `a o1 b o2 c` the second operator is applied first exactly when it
   * binds tighter than the first; otherwise the operations group to the left.
   */
  lemma Precedence(a: string, b: string, c: string, o1: BinaryOp, o2: BinaryOp)
    ensures ParseTokens(ThreeOperands(a, b, c, o1, o2))
         == Ok(if Tight(o2) && !Tight(o1) then Binary(o1, Variable(a), Binary(o2, Variable(b), Variable(c)))
               else Binary(o2, Binary(o1, Variable(a), Variable(b)), Variable(c)))
  {
    if Tight(o1) {
      if Tight(o2) { PrecedenceTightTight(a, b, c, o1, o2); } else { PrecedenceTightLoose(a, b, c, o1, o2); }
    } else {
      if Tight(o2) { PrecedenceLooseTight(a, b, c, o1, o2); } else { PrecedenceLooseLoose(a, b, c, o1, o2); }
    }
  }

  lemma PrecedenceTightTight(a: string, b: string, c: string, o1: BinaryOp, o2: BinaryOp)
    requires Tight(o1) && Tight(o2)
    ensures ParseTokens(ThreeOperands(a, b, c, o1, o2))
         == Ok(Binary(o2, Binary(o1, Variable(a), Variable(b)), Variable(c)))
  {
    var lx := ThreeOperands(a, b, c, o1, o2);
    var x, y, z := Variable(a), Variable(b), Variable(c);
    var first := Binary(o1, x, y);
    var whole := Binary(o2, first, z);
    FactorAtom(lx, 0); FactorAtom(lx, 2); FactorAtom(lx, 4);
    TermTailStep(lx, x, 1, y, 3); TermTailStep(lx, first, 3, z, 5); TermTailStop(lx, whole, 5);
    TermOf(lx, 0, x, 1);
    ExprOf(lx, 0, whole, 5); ExprTailStop(lx, whole, 5);
    ParsedWhole(lx, whole, 5);
  }

  lemma PrecedenceTightLoose(a: string, b: string, c: string, o1: BinaryOp, o2: BinaryOp)
    requires Tight(o1) && !Tight(o2)
    ensures ParseTokens(ThreeOperands(a, b, c, o1, o2))
         == Ok(Binary(o2, Binary(o1, Variable(a), Variable(b)), Variable(c)))
  {
    var lx := ThreeOperands(a, b, c, o1, o2);
    var x, y, z := Variable(a), Variable(b), Variable(c);
    var first := Binary(o1, x, y);
    var whole := Binary(o2, first, z);
    FactorAtom(lx, 0); FactorAtom(lx, 2); FactorAtom(lx, 4);
    TermTailStep(lx, x, 1, y, 3); TermTailStop(lx, first, 3); TermOf(lx, 0, x, 1);
    TermTailStop(lx, z, 5); TermOf(lx, 4, z, 5);
    ExprOf(lx, 0, first, 3); ExprTailStep(lx, first, 3, z, 5); ExprTailStop(lx, whole, 5);
    ParsedWhole(lx, whole, 5);
  }

  lemma PrecedenceLooseTight(a: string, b: string, c: string, o1: BinaryOp, o2: BinaryOp)
    requires !Tight(o1) && Tight(o2)
    ensures ParseTokens(ThreeOperands(a, b, c, o1, o2))
         == Ok(Binary(o1, Variable(a), Binary(o2, Variable(b), Variable(c))))
  {
    var lx := ThreeOperands(a, b, c, o1, o2);
    var x, y, z := Variable(a), Variable(b), Variable(c);
    var second := Binary(o2, y, z);
    var whole := Binary(o1, x, second);
    FactorAtom(lx, 0); FactorAtom(lx, 2); FactorAtom(lx, 4);
    TermTailStop(lx, x, 1); TermOf(lx, 0, x, 1);
    TermTailStep(lx, y, 3, z, 5); TermTailStop(lx, second, 5); TermOf(lx, 2, y, 3);
    ExprOf(lx, 0, x, 1); ExprTailStep(lx, x, 1, second, 5); ExprTailStop(lx, whole, 5);
    ParsedWhole(lx, whole, 5);
  }

  lemma PrecedenceLooseLoose(a: string, b: string, c: string, o1: BinaryOp, o2: BinaryOp)
    requires !Tight(o1) && !Tight(o2)
    ensures ParseTokens(ThreeOperands(a, b, c, o1, o2))
         == Ok(Binary(o2, Binary(o1, Variable(a), Variable(b)), Variable(c)))
  {
    var lx := ThreeOperands(a, b, c, o1, o2);
    var x, y, z := Variable(a), Variable(b), Variable(c);
    var first := Binary(o1, x, y);
    var whole := Binary(o2, first, z);
    FactorAtom(lx, 0); FactorAtom(lx, 2); FactorAtom(lx, 4);
    TermTailStop(lx, x, 1); TermOf(lx, 0, x, 1);
    TermTailStop(lx, y, 3); TermOf(lx, 2, y, 3);
    TermTailStop(lx, z, 5); TermOf(lx, 4, z, 5);
    ExprOf(lx, 0, x, 1); ExprTailStep(lx, x, 1, y, 3); ExprTailStep(lx, first, 3, z, 5); ExprTailStop(lx, whole, 5);
    ParsedWhole(lx, whole, 5);
  }

  /** `a - b - c` groups to the left. */
  lemma LeftAssociative(a: string, b: string, c: string)
    ensures ParseTokens(Complete([IdentTok(a), MinusTok, IdentTok(b), MinusTok, IdentTok(c)]))
         == Ok(Binary(Sub, Binary(Sub, Variable(a), Variable(b)), Variable(c)))
  {
    Precedence(a, b, c, Sub, Sub);
    assert ThreeOperands(a, b, c, Sub, Sub) == Complete([IdentTok(a), MinusTok, IdentTok(b), MinusTok, IdentTok(c)]);
  }

  /** `a + b * c` multiplies first. */
  lemma ProductBindsTighter(a: string, b: string, c: string)
    ensures ParseTokens(Complete([IdentTok(a), PlusTok, IdentTok(b), StarTok, IdentTok(c)]))
         == Ok(Binary(Add, Variable(a), Binary(Mul, Variable(b), Variable(c))))
  {
    Precedence(a, b, c, Add, Mul);
    assert ThreeOperands(a, b, c, Add, Mul) == Complete([IdentTok(a), PlusTok, IdentTok(b), StarTok, IdentTok(c)]);
  }

  /** Signs nest, and bind tighter than `*`: `- - a * b` is `(-(-a)) * b`. */
  lemma UnaryNests(a: string, b: string)
    ensures ParseTokens(Complete([MinusTok, MinusTok, IdentTok(a), StarTok, IdentTok(b)]))
         == Ok(Binary(Mul, Unary(Minus, Unary(Minus, Variable(a))), Variable(b)))
  {
    var lx := Complete([MinusTok, MinusTok, IdentTok(a), StarTok, IdentTok(b)]);
    assert Factor(lx, 2) == Ok((Variable(a), 3));
    assert Factor(lx, 1) == Ok((Unary(Minus, Variable(a)), 3));
    assert Factor(lx, 0) == Ok((Unary(Minus, Unary(Minus, Variable(a))), 3));
    assert Factor(lx, 4) == Ok((Variable(b), 5));
    assert TermTail(lx, Unary(Minus, Unary(Minus, Variable(a))), 3)
        == Ok((Binary(Mul, Unary(Minus, Unary(Minus, Variable(a))), Variable(b)), 5));
    assert Term(lx, 0) == Ok((Binary(Mul, Unary(Minus, Unary(Minus, Variable(a))), Variable(b)), 5));
    assert Expr(lx, 0) == Ok((Binary(Mul, Unary(Minus, Unary(Minus, Variable(a))), Variable(b)), 5));
  }

  /** `( a` is missing its closing parenthesis. */
  lemma MissingParen(a: string)
    ensures ParseTokens(Complete([LParenTok, IdentTok(a)])) == Err(ParseError("missing closing ')'"))
  {
    var lx := Complete([LParenTok, IdentTok(a)]);
    assert Term(lx, 1) == Ok((Variable(a), 2));
    assert Expr(lx, 1) == Ok((Variable(a), 2));
    assert Factor(lx, 0) == Err(ParseError("missing closing ')'"));
    assert Term(lx, 0) == Err(ParseError("missing closing ')'"));
    assert Expr(lx, 0) == Err(ParseError("missing closing ')'"));
  }

  /** `a b` is a complete expression followed by a stray token. */
  lemma TrailingTokens(a: string, b: string)
    ensures ParseTokens(Complete([IdentTok(a), IdentTok(b)])) == Err(ParseError("unexpected trailing tokens"))
  {
    var lx := Complete([IdentTok(a), IdentTok(b)]);
    assert Term(lx, 0) == Ok((Variable(a), 1));
    assert Expr(lx, 0) == Ok((Variable(a), 1));
  }

  /**
   * The parser stops before a lexing error it never reaches: `a b` followed
   * by an unlexable character reports the trailing token; `a +` followed by
   * one reports the lexing error.
   */
  lemma LexErrorOnlyWhenReached(a: string, b: string, e: ParseError)
    ensures ParseTokens(Lexed([IdentTok(a), IdentTok(b)], [1, 2], Some(e))) == Err(ParseError("unexpected trailing tokens"))
    ensures ParseTokens(Lexed([IdentTok(a), PlusTok], [1, 2], Some(e))) == Err(e)
  {
    var lx1 := Lexed([IdentTok(a), IdentTok(b)], [1, 2], Some(e));
    assert Term(lx1, 0) == Ok((Variable(a), 1));
    assert Expr(lx1, 0) == Ok((Variable(a), 1));
    var lx2 := Lexed([IdentTok(a), PlusTok], [1, 2], Some(e));
    assert Term(lx2, 0) == Ok((Variable(a), 1));
    assert ExprTail(lx2, Variable(a), 1) == Err(e);
    assert Expr(lx2, 0) == Err(e);
  }

  /** The AST of `(A + 2) * 3 - B / 4`. */
  function SampleAst(): AstNode
  {
    Binary(Sub, Binary(Mul, Binary(Add, Variable("A"), Number("2")), Number("3")), Binary(Div, Variable("B"), Number("4")))
  }

  lemma SampleWhole(lx: Lexed)
    requires WellFormed(lx) && lx.tokens == SAMPLE_LEXED
    ensures ParseTokens(lx) == Ok(SampleAst())
  {
    var left := Binary(Mul, Binary(Add, Variable("A"), Number("2")), Number("3"));
    var right := Binary(Div, Variable("B"), Number("4"));
    SampleSum(lx);
    SampleLeft(lx);
    SampleRight(lx);
    ExprOf(lx, 0, left, 7); ExprTailStep(lx, left, 7, right, 11); ExprTailStop(lx, Binary(Sub, left, right), 11);
    ParsedWhole(lx, Binary(Sub, left, right), 11);
  }

  const SAMPLE_LEXED: seq<Token> :=
    [LParenTok, IdentTok("A"), PlusTok, NumberTok("2"), RParenTok, StarTok, NumberTok("3"),
     MinusTok, IdentTok("B"), SlashTok, NumberTok("4"), EndTok]

  lemma SampleSum(lx: Lexed)
    requires WellFormed(lx) && lx.tokens == SAMPLE_LEXED
    ensures Factor(lx, 0) == Ok((Binary(Add, Variable("A"), Number("2")), 5))
  {
    SampleInner(lx);
    FactorParen(lx, 0, Binary(Add, Variable("A"), Number("2")), 4);
  }

  lemma SampleInner(lx: Lexed)
    requires WellFormed(lx) && lx.tokens == SAMPLE_LEXED
    ensures Expr(lx, 1) == Ok((Binary(Add, Variable("A"), Number("2")), 4))
  {
    var a, two := Variable("A"), Number("2");
    SampleOperands(lx);
    ExprOf(lx, 1, a, 2); ExprTailStep(lx, a, 2, two, 4); ExprTailStop(lx, Binary(Add, a, two), 4);
  }

  lemma SampleOperands(lx: Lexed)
    requires WellFormed(lx) && lx.tokens == SAMPLE_LEXED
    ensures Term(lx, 1) == Ok((Variable("A"), 2)) && Term(lx, 3) == Ok((Number("2"), 4))
  {
    FactorAtom(lx, 1); TermTailStop(lx, Variable("A"), 2); TermOf(lx, 1, Variable("A"), 2);
    FactorAtom(lx, 3); TermTailStop(lx, Number("2"), 4); TermOf(lx, 3, Number("2"), 4);
  }

  lemma SampleLeft(lx: Lexed)
    requires WellFormed(lx) && lx.tokens == SAMPLE_LEXED
    requires Factor(lx, 0) == Ok((Binary(Add, Variable("A"), Number("2")), 5))
    ensures Term(lx, 0) == Ok((Binary(Mul, Binary(Add, Variable("A"), Number("2")), Number("3")), 7))
  {
    var sum := Binary(Add, Variable("A"), Number("2"));
    FactorAtom(lx, 6); TermTailStep(lx, sum, 5, Number("3"), 7); TermTailStop(lx, Binary(Mul, sum, Number("3")), 7);
    TermOf(lx, 0, sum, 5);
  }

  lemma SampleRight(lx: Lexed)
    requires WellFormed(lx) && lx.tokens == SAMPLE_LEXED
    ensures Term(lx, 8) == Ok((Binary(Div, Variable("B"), Number("4")), 11))
  {
    var b, four := Variable("B"), Number("4");
    FactorAtom(lx, 8); FactorAtom(lx, 10); TermTailStep(lx, b, 9, four, 11); TermTailStop(lx, Binary(Div, b, four), 11);
    TermOf(lx, 8, b, 9);
  }

  /** With A = 4 and B = 8, `(A + 2) * 3 - B / 4` is 16. */
  lemma SampleEvaluates()
    ensures Evaluate(SampleAst(), n => if n == "A" then Ok(4.0) else if n == "B" then Ok(8.0) else Err(UnknownVariable(n)))
         == Ok(16.0)
  {
    LiteralDigit('2');
    LiteralDigit('3');
    LiteralDigit('4');
  }

  /** `parse_expression("A / B")` is one quotient, and with B = 0 its evaluation is a division by zero. */
  lemma DivisionByZeroExample()
    ensures Parse("A / B") == Ok(Binary(Div, Variable("A"), Variable("B")))
    ensures Evaluate(Binary(Div, Variable("A"), Variable("B")),
                     n => if n == "A" then Ok(5.0) else if n == "B" then Ok(0.0) else Err(UnknownVariable(n)))
         == Err(DivisionByZero)
  {
    QuotientTextParses();
    var vars: string -> Result<real, EvalError> :=
      n => if n == "A" then Ok(5.0) else if n == "B" then Ok(0.0) else Err(UnknownVariable(n));
    assert "A" != "B" by { assert "A"[0] != "B"[0]; }
    DivisionByZeroOf(Variable("A"), Variable("B"), vars);
  }

  /** A divisor that evaluates to zero makes the quotient a division by zero, once the dividend evaluates. */
  lemma DivisionByZeroOf(l: AstNode, r: AstNode, vars: string -> Result<real, EvalError>)
    requires Evaluate(l, vars).Ok? && Evaluate(r, vars) == Ok(0.0)
    ensures Evaluate(Binary(Div, l, r), vars) == Err(DivisionByZero)
  {
  }

  lemma QuotientTextParses()
    ensures Parse("A / B") == Ok(Binary(Div, Variable("A"), Variable("B")))
  {
    QuotientTextFrom0("A / B");
    QuotientParses(LexFrom("A / B", 0));
  }

  lemma QuotientParses(lx: Lexed)
    requires WellFormed(lx) && lx.tokens == QUOTIENT_LEXED
    ensures ParseTokens(lx) == Ok(Binary(Div, Variable("A"), Variable("B")))
  {
    var q := Binary(Div, Variable("A"), Variable("B"));
    FactorAtom(lx, 0); FactorAtom(lx, 2); TermTailStep(lx, Variable("A"), 1, Variable("B"), 3); TermTailStop(lx, q, 3);
    TermOf(lx, 0, Variable("A"), 1); ExprOf(lx, 0, q, 3); ExprTailStop(lx, q, 3);
    ParsedWhole(lx, q, 3);
  }

  /**
   * `parse_expression("(A + 2) * 3 - B / 4")`: the parenthesised sum is taken
   * first, and the products before the difference.
   */
  lemma SampleParses()
    ensures Parse("(A + 2) * 3 - B / 4") == Ok(SampleAst())
  {
    SampleTextFrom0("(A + 2) * 3 - B / 4");
    SampleWhole(LexFrom("(A + 2) * 3 - B / 4", 0));
  }

  /** `s` is `(A + 2) * 3 - B / 4`, character by character. */
  predicate SampleTextSpelled(s: string)
  {
    |s| == 19 && s[0] == '(' && s[1] == 'A' && s[2] == ' ' && s[3] == '+' && s[4] == ' ' && s[5] == '2' && s[6] == ')' && s[7] == ' ' && s[8] == '*' && s[9] == ' ' && s[10] == '3' && s[11] == ' ' && s[12] == '-' && s[13] == ' ' && s[14] == 'B' && s[15] == ' ' && s[16] == '/' && s[17] == ' ' && s[18] == '4'
  }

  lemma SampleTextFrom19(s: string)
    requires SampleTextSpelled(s)
    ensures LexFrom(s, 19).tokens == SAMPLE_LEXED[11..]
  {
    LexEnd(s);
  }

  lemma SampleTextFrom18(s: string)
    requires SampleTextSpelled(s)
    ensures LexFrom(s, 18).tokens == SAMPLE_LEXED[10..]
  {
    SampleTextFrom19(s);
    assert NumberScan(s, 18, false, false) == (19, true);
    LexNumber(s, 18, 19);
    assert s[18..19] == "4";
    TokenSuffix(SAMPLE_LEXED, 10);
  }

  lemma SampleTextFrom16(s: string)
    requires SampleTextSpelled(s)
    ensures LexFrom(s, 16).tokens == SAMPLE_LEXED[9..]
  {
    SampleTextFrom18(s);
    LexSkip(s, 17);
    LexPunctuation(s, 16, SlashTok);
    TokenSuffix(SAMPLE_LEXED, 9);
  }

  lemma SampleTextFrom14(s: string)
    requires SampleTextSpelled(s)
    ensures LexFrom(s, 14).tokens == SAMPLE_LEXED[8..]
  {
    SampleTextFrom16(s);
    LexSkip(s, 15);
    assert IdentEnd(s, 15) == 15;
    LexIdentifier(s, 14, 15);
    assert s[14..15] == "B";
    TokenSuffix(SAMPLE_LEXED, 8);
  }

  lemma SampleTextFrom12(s: string)
    requires SampleTextSpelled(s)
    ensures LexFrom(s, 12).tokens == SAMPLE_LEXED[7..]
  {
    SampleTextFrom14(s);
    LexSkip(s, 13);
    LexPunctuation(s, 12, MinusTok);
    TokenSuffix(SAMPLE_LEXED, 7);
  }

  lemma SampleTextFrom10(s: string)
    requires SampleTextSpelled(s)
    ensures LexFrom(s, 10).tokens == SAMPLE_LEXED[6..]
  {
    SampleTextFrom12(s);
    LexSkip(s, 11);
    assert NumberScan(s, 10, false, false) == (11, true);
    LexNumber(s, 10, 11);
    assert s[10..11] == "3";
    TokenSuffix(SAMPLE_LEXED, 6);
  }

  lemma SampleTextFrom8(s: string)
    requires SampleTextSpelled(s)
    ensures LexFrom(s, 8).tokens == SAMPLE_LEXED[5..]
  {
    SampleTextFrom10(s);
    LexSkip(s, 9);
    LexPunctuation(s, 8, StarTok);
    TokenSuffix(SAMPLE_LEXED, 5);
  }

  lemma SampleTextFrom6(s: string)
    requires SampleTextSpelled(s)
    ensures LexFrom(s, 6).tokens == SAMPLE_LEXED[4..]
  {
    SampleTextFrom8(s);
    LexSkip(s, 7);
    LexPunctuation(s, 6, RParenTok);
    TokenSuffix(SAMPLE_LEXED, 4);
  }

  lemma SampleTextFrom5(s: string)
    requires SampleTextSpelled(s)
    ensures LexFrom(s, 5).tokens == SAMPLE_LEXED[3..]
  {
    SampleTextFrom6(s);
    assert NumberScan(s, 5, false, false) == (6, true);
    LexNumber(s, 5, 6);
    assert s[5..6] == "2";
    TokenSuffix(SAMPLE_LEXED, 3);
  }

  lemma SampleTextFrom3(s: string)
    requires SampleTextSpelled(s)
    ensures LexFrom(s, 3).tokens == SAMPLE_LEXED[2..]
  {
    SampleTextFrom5(s);
    LexSkip(s, 4);
    LexPunctuation(s, 3, PlusTok);
    TokenSuffix(SAMPLE_LEXED, 2);
  }

  lemma SampleTextFrom1(s: string)
    requires SampleTextSpelled(s)
    ensures LexFrom(s, 1).tokens == SAMPLE_LEXED[1..]
  {
    SampleTextFrom3(s);
    LexSkip(s, 2);
    assert IdentEnd(s, 2) == 2;
    LexIdentifier(s, 1, 2);
    assert s[1..2] == "A";
    TokenSuffix(SAMPLE_LEXED, 1);
  }

  lemma SampleTextFrom0(s: string)
    requires SampleTextSpelled(s)
    ensures LexFrom(s, 0).tokens == SAMPLE_LEXED
  {
    SampleTextFrom1(s);
    LexPunctuation(s, 0, LParenTok);
    TokenSuffix(SAMPLE_LEXED, 0);
  }

  const QUOTIENT_LEXED: seq<Token> := [IdentTok("A"), SlashTok, IdentTok("B"), EndTok]

  /** `s` is `A / B`, character by character. */
  predicate QuotientTextSpelled(s: string)
  {
    |s| == 5 && s[0] == 'A' && s[1] == ' ' && s[2] == '/' && s[3] == ' ' && s[4] == 'B'
  }

  lemma QuotientTextFrom5(s: string)
    requires QuotientTextSpelled(s)
    ensures LexFrom(s, 5).tokens == QUOTIENT_LEXED[3..]
  {
    LexEnd(s);
  }

  lemma QuotientTextFrom4(s: string)
    requires QuotientTextSpelled(s)
    ensures LexFrom(s, 4).tokens == QUOTIENT_LEXED[2..]
  {
    QuotientTextFrom5(s);
    assert IdentEnd(s, 5) == 5;
    LexIdentifier(s, 4, 5);
    assert s[4..5] == "B";
    TokenSuffix(QUOTIENT_LEXED, 2);
  }

  lemma QuotientTextFrom2(s: string)
    requires QuotientTextSpelled(s)
    ensures LexFrom(s, 2).tokens == QUOTIENT_LEXED[1..]
  {
    QuotientTextFrom4(s);
    LexSkip(s, 3);
    LexPunctuation(s, 2, SlashTok);
    TokenSuffix(QUOTIENT_LEXED, 1);
  }

  lemma QuotientTextFrom0(s: string)
    requires QuotientTextSpelled(s)
    ensures LexFrom(s, 0).tokens == QUOTIENT_LEXED
  {
    QuotientTextFrom2(s);
    LexSkip(s, 1);
    assert IdentEnd(s, 1) == 1;
    LexIdentifier(s, 0, 1);
    assert s[0..1] == "A";
    TokenSuffix(QUOTIENT_LEXED, 0);
  }

  /** The AST of `-A + 10 / (B - 5)`. */
  function UnaryAst(): AstNode
  {
    Binary(Add, Unary(Minus, Variable("A")), Binary(Div, Number("10"), Binary(Sub, Variable("B"), Number("5"))))
  }

  lemma UnaryWhole(lx: Lexed)
    requires WellFormed(lx) && lx.tokens == UNARY_LEXED
    ensures ParseTokens(lx) == Ok(UnaryAst())
  {
    var neg := Unary(Minus, Variable("A"));
    var quot := Binary(Div, Number("10"), Binary(Sub, Variable("B"), Number("5")));
    UnaryNegation(lx);
    UnaryDifference(lx);
    UnaryQuotient(lx);
    ExprOf(lx, 0, neg, 2); ExprTailStep(lx, neg, 2, quot, 10); ExprTailStop(lx, Binary(Add, neg, quot), 10);
    ParsedWhole(lx, Binary(Add, neg, quot), 10);
  }

  /** `parse_expression("-A + 10 / (B - 5)")`: the sign binds to `A`, the quotient before the sum. */
  lemma UnaryParses()
    ensures Parse("-A + 10 / (B - 5)") == Ok(UnaryAst())
  {
    UnaryTextFrom0("-A + 10 / (B - 5)");
    UnaryWhole(LexFrom("-A + 10 / (B - 5)", 0));
  }

  /** `s` is `-A + 10 / (B - 5)`, character by character. */
  predicate UnaryTextSpelled(s: string)
  {
    |s| == 17 && s[0] == '-' && s[1] == 'A' && s[2] == ' ' && s[3] == '+' && s[4] == ' ' && s[5] == '1' && s[6] == '0' && s[7] == ' ' && s[8] == '/' && s[9] == ' ' && s[10] == '(' && s[11] == 'B' && s[12] == ' ' && s[13] == '-' && s[14] == ' ' && s[15] == '5' && s[16] == ')'
  }

  lemma UnaryTextFrom17(s: string)
    requires UnaryTextSpelled(s)
    ensures LexFrom(s, 17).tokens == UNARY_LEXED[10..]
  {
    LexEnd(s);
  }

  lemma UnaryTextFrom16(s: string)
    requires UnaryTextSpelled(s)
    ensures LexFrom(s, 16).tokens == UNARY_LEXED[9..]
  {
    UnaryTextFrom17(s);
    LexPunctuation(s, 16, RParenTok);
    TokenSuffix(UNARY_LEXED, 9);
  }

  lemma UnaryTextFrom15(s: string)
    requires UnaryTextSpelled(s)
    ensures LexFrom(s, 15).tokens == UNARY_LEXED[8..]
  {
    UnaryTextFrom16(s);
    assert NumberScan(s, 15, false, false) == (16, true);
    LexNumber(s, 15, 16);
    assert s[15..16] == "5";
    TokenSuffix(UNARY_LEXED, 8);
  }

  lemma UnaryTextFrom13(s: string)
    requires UnaryTextSpelled(s)
    ensures LexFrom(s, 13).tokens == UNARY_LEXED[7..]
  {
    UnaryTextFrom15(s);
    LexSkip(s, 14);
    LexPunctuation(s, 13, MinusTok);
    TokenSuffix(UNARY_LEXED, 7);
  }

  lemma UnaryTextFrom11(s: string)
    requires UnaryTextSpelled(s)
    ensures LexFrom(s, 11).tokens == UNARY_LEXED[6..]
  {
    UnaryTextFrom13(s);
    LexSkip(s, 12);
    assert IdentEnd(s, 12) == 12;
    LexIdentifier(s, 11, 12);
    assert s[11..12] == "B";
    TokenSuffix(UNARY_LEXED, 6);
  }

  lemma UnaryTextFrom10(s: string)
    requires UnaryTextSpelled(s)
    ensures LexFrom(s, 10).tokens == UNARY_LEXED[5..]
  {
    UnaryTextFrom11(s);
    LexPunctuation(s, 10, LParenTok);
    TokenSuffix(UNARY_LEXED, 5);
  }

  lemma UnaryTextFrom8(s: string)
    requires UnaryTextSpelled(s)
    ensures LexFrom(s, 8).tokens == UNARY_LEXED[4..]
  {
    UnaryTextFrom10(s);
    LexSkip(s, 9);
    LexPunctuation(s, 8, SlashTok);
    TokenSuffix(UNARY_LEXED, 4);
  }

  lemma UnaryTextFrom5(s: string)
    requires UnaryTextSpelled(s)
    ensures LexFrom(s, 5).tokens == UNARY_LEXED[3..]
  {
    UnaryTextFrom8(s);
    LexSkip(s, 7);
    assert NumberScan(s, 6, false, true) == (7, true);
    assert NumberScan(s, 5, false, false) == (7, true);
    LexNumber(s, 5, 7);
    assert s[5..7] == "10";
    TokenSuffix(UNARY_LEXED, 3);
  }

  lemma UnaryTextFrom3(s: string)
    requires UnaryTextSpelled(s)
    ensures LexFrom(s, 3).tokens == UNARY_LEXED[2..]
  {
    UnaryTextFrom5(s);
    LexSkip(s, 4);
    LexPunctuation(s, 3, PlusTok);
    TokenSuffix(UNARY_LEXED, 2);
  }

  lemma UnaryTextFrom1(s: string)
    requires UnaryTextSpelled(s)
    ensures LexFrom(s, 1).tokens == UNARY_LEXED[1..]
  {
    UnaryTextFrom3(s);
    LexSkip(s, 2);
    assert IdentEnd(s, 2) == 2;
    LexIdentifier(s, 1, 2);
    assert s[1..2] == "A";
    TokenSuffix(UNARY_LEXED, 1);
  }

  lemma UnaryTextFrom0(s: string)
    requires UnaryTextSpelled(s)
    ensures LexFrom(s, 0).tokens == UNARY_LEXED
  {
    UnaryTextFrom1(s);
    LexPunctuation(s, 0, MinusTok);
    TokenSuffix(UNARY_LEXED, 0);
  }

  const UNARY_LEXED: seq<Token> :=
    [MinusTok, IdentTok("A"), PlusTok, NumberTok("10"), SlashTok, LParenTok, IdentTok("B"),
     MinusTok, NumberTok("5"), RParenTok, EndTok]

  lemma UnaryNegation(lx: Lexed)
    requires WellFormed(lx) && lx.tokens == UNARY_LEXED
    ensures Term(lx, 0) == Ok((Unary(Minus, Variable("A")), 2))
  {
    var a := Variable("A");
    FactorAtom(lx, 1); FactorSigned(lx, 0, a, 2); TermTailStop(lx, Unary(Minus, a), 2); TermOf(lx, 0, Unary(Minus, a), 2);
  }

  lemma UnaryDifference(lx: Lexed)
    requires WellFormed(lx) && lx.tokens == UNARY_LEXED
    ensures Factor(lx, 5) == Ok((Binary(Sub, Variable("B"), Number("5")), 10))
  {
    UnaryInner(lx);
    FactorParen(lx, 5, Binary(Sub, Variable("B"), Number("5")), 9);
  }

  lemma UnaryInner(lx: Lexed)
    requires WellFormed(lx) && lx.tokens == UNARY_LEXED
    ensures Expr(lx, 6) == Ok((Binary(Sub, Variable("B"), Number("5")), 9))
  {
    var b, five := Variable("B"), Number("5");
    FactorAtom(lx, 6); TermTailStop(lx, b, 7); TermOf(lx, 6, b, 7);
    FactorAtom(lx, 8); TermTailStop(lx, five, 9); TermOf(lx, 8, five, 9);
    ExprOf(lx, 6, b, 7); ExprTailStep(lx, b, 7, five, 9); ExprTailStop(lx, Binary(Sub, b, five), 9);
  }

  lemma UnaryQuotient(lx: Lexed)
    requires WellFormed(lx) && lx.tokens == UNARY_LEXED
    requires Factor(lx, 5) == Ok((Binary(Sub, Variable("B"), Number("5")), 10))
    ensures Term(lx, 3) == Ok((Binary(Div, Number("10"), Binary(Sub, Variable("B"), Number("5"))), 10))
  {
    var ten, diff := Number("10"), Binary(Sub, Variable("B"), Number("5"));
    FactorAtom(lx, 3); TermTailStep(lx, ten, 4, diff, 10); TermTailStop(lx, Binary(Div, ten, diff), 10); TermOf(lx, 3, ten, 4);
  }

  /** With A = 3 and B = 7, `-A + 10 / (B - 5)` is 2. */
  lemma UnaryEvaluates()
    ensures Evaluate(UnaryAst(), n => if n == "A" then Ok(3.0) else if n == "B" then Ok(7.0) else Err(UnknownVariable(n)))
         == Ok(2.0)
  {
    LiteralDigit('5');
    assert LiteralValue("10") == 10.0 by {
      assert DotIndex("10") == 2;
      assert "10"[..2] == "10" && "10"[..1] == "1" && "1"[..0] == [];
      assert DigitsValue("10", 10) == DigitsValue("1", 10) * 10 + DigitValue('0');
      assert DigitsValue("1", 10) == DigitsValue([], 10) * 10 + DigitValue('1');
    }
  }

  lemma LiteralDigit(c: char)
    requires '0' <= c <= '9'
    ensures LiteralValue([c]) == (c as int - '0' as int) as real
  {
    assert [c][..1] == [c];
    assert DigitsValue([c], 10) == DigitsValue([], 10) * 10 + DigitValue(c);
  }
}
