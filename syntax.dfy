/**
  The part of a C# syntax tree that the extern rewriter looks at: tokens with their
  leading and trailing trivia, method-like declarations, and the text a tree
  serialises to (Roslyn's ToFullString).
 */
module Syntax {
  import opened Sequences

  datatype Option<+T> = None | Some(value: T)

  /** One trivia atom (a whitespace run, a line break or a comment), kept as its literal text. */
  type Trivia = string

  /** The single-space separator the rewriter synthesises. */
  const Space: Trivia := " "

  datatype TokenKind =
    | ExternKeyword
    | AbstractKeyword
    | VirtualKeyword
    | VoidKeyword
    | ReturnKeyword
    | SemicolonToken
    | OpenBraceToken
    | CloseBraceToken
    | OtherToken  // identifiers, literals, punctuation and the remaining keywords

  datatype Token = Token(kind: TokenKind, text: string, leading: seq<Trivia>, trailing: seq<Trivia>)

  /** A syntax node, seen as the tokens it spans; every node spans at least one token. */
  type NonEmptyTokens = ts: seq<Token> | |ts| > 0 witness [Token(OtherToken, "", [], [])]

  /** The fixed text of a keyword or punctuation kind. */
  function FixedText(kind: TokenKind): string
    requires kind != OtherToken
  {
    match kind
    case ExternKeyword => "extern"
    case AbstractKeyword => "abstract"
    case VirtualKeyword => "virtual"
    case VoidKeyword => "void"
    case ReturnKeyword => "return"
    case SemicolonToken => ";"
    case OpenBraceToken => "{"
    case CloseBraceToken => "}"
  }

  /** A token made by the factory: fixed text and no trivia of its own. */
  function NewToken(kind: TokenKind): (t: Token)
    requires kind != OtherToken
    ensures t.kind == kind && t.leading == [] && t.trailing == []
  {
    Token(kind, FixedText(kind), [], [])
  }

  /** A return type: a predefined keyword type (`void`, `int`, `bool`, ...) or any other type syntax. */
  datatype TypeSyntax =
    | PredefinedType(keyword: Token)
    | OtherType(tokens: NonEmptyTokens)

  function TypeTokens(t: TypeSyntax): NonEmptyTokens
  {
    match t
    case PredefinedType(k) => [k]
    case OtherType(ts) => ts
  }

  datatype Stmt =
    | ReturnStatement(returnKeyword: Token, expression: Option<NonEmptyTokens>, semicolon: Token)
    | OtherStatement(tokens: seq<Token>)

  datatype Block = Block(openBrace: Token, statements: seq<Stmt>, closeBrace: Token)

  /** A declaration ends either in a block body or in a `;` (abstract, extern, expression-bodied). */
  datatype Ending = Body(block: Block) | Semicolon(token: Token)

  datatype DeclKind = Method | Operator

  /**
    A method or operator declaration. `signature` holds everything between the return type
    and the ending: name or operator token, type parameters, parameters, constraints and an
    expression body's `=> expr`.
   */
  datatype Declaration = Declaration(
    kind: DeclKind,
    attributes: seq<Token>,
    modifiers: seq<Token>,
    returnType: TypeSyntax,
    signature: NonEmptyTokens,
    ending: Ending)

  // ---------------------------------------------------------------------------
  // Serialisation

  function Concat(trivia: seq<Trivia>): string
  {
    if |trivia| == 0 then "" else Concat(trivia[..|trivia| - 1]) + trivia[|trivia| - 1]
  }

  function RenderToken(t: Token): string
  {
    Concat(t.leading) + t.text + Concat(t.trailing)
  }

  function RenderTokens(ts: seq<Token>): string
  {
    if |ts| == 0 then "" else RenderTokens(ts[..|ts| - 1]) + RenderToken(ts[|ts| - 1])
  }

  function RenderStmt(s: Stmt): string
  {
    match s
    case ReturnStatement(kw, e, semi) =>
      RenderToken(kw) + (match e case Some(ts) => RenderTokens(ts) case None => "") + RenderToken(semi)
    case OtherStatement(ts) => RenderTokens(ts)
  }

  function RenderStmts(ss: seq<Stmt>): string
  {
    if |ss| == 0 then "" else RenderStmts(ss[..|ss| - 1]) + RenderStmt(ss[|ss| - 1])
  }

  function RenderEnding(e: Ending): string
  {
    match e
    case Body(b) => RenderToken(b.openBrace) + RenderStmts(b.statements) + RenderToken(b.closeBrace)
    case Semicolon(t) => RenderToken(t)
  }

  /** The full text of a declaration, trivia included. */
  function Render(d: Declaration): string
  {
    RenderTokens(d.attributes) + RenderTokens(d.modifiers) + RenderTokens(TypeTokens(d.returnType))
    + RenderTokens(d.signature) + RenderEnding(d.ending)
  }

  /** The text of a node up to the end of its last token's text (its trailing trivia left off). */
  function OpenText(ts: NonEmptyTokens): string
  {
    var last := ts[|ts| - 1];
    RenderTokens(ts[..|ts| - 1]) + Concat(last.leading) + last.text
  }

  /** The text of a node from the start of its first token's text (its leading trivia left off). */
  function ClosedText(ts: NonEmptyTokens): string
  {
    ts[0].text + Concat(ts[0].trailing) + RenderTokens(ts[1..])
  }

  /**
    A node's text without its outer trivia: the first token's leading trivia and the last
    token's trailing trivia are left off, trivia between its tokens is kept (Roslyn's
    SyntaxNode.ToString).
   */
  function ToText(ts: NonEmptyTokens): string
  {
    var n := |ts|;
    var inner := ts[0 := ts[0].(leading := [])];
    RenderTokens(inner[n - 1 := inner[n - 1].(trailing := [])])
  }

  // ---------------------------------------------------------------------------
  // Facts about serialisation

  lemma {:induction false} RenderTokensAppend(a: seq<Token>, b: seq<Token>)
    ensures RenderTokens(a + b) == RenderTokens(a) + RenderTokens(b)
    decreases |b|
  {
    if |b| == 0 {
      AppendEmpty(a, b);
    } else {
      var b', last := b[..|b| - 1], b[|b| - 1];
      DropLastOfAppend(a, b);
      IndexInAppend(a, b, |b| - 1);
      RenderTokensAppend(a, b');
      Assoc(RenderTokens(a), RenderTokens(b'), RenderToken(last));
    }
  }

  lemma RenderSingle(t: Token)
    ensures RenderTokens([t]) == RenderToken(t)
  {
    SnocParts([], t);
  }

  /** A node's text is its first token's leading trivia followed by its closed text. */
  lemma LeadingThenClosedText(ts: NonEmptyTokens)
    ensures RenderTokens(ts) == Concat(ts[0].leading) + ClosedText(ts)
  {
    var lead, text, trail, rest := Concat(ts[0].leading), ts[0].text, Concat(ts[0].trailing), RenderTokens(ts[1..]);
    HeadTail(ts);
    RenderTokensAppend([ts[0]], ts[1..]);
    RenderSingle(ts[0]);
    assert RenderTokens(ts) == lead + text + trail + rest;
    Assoc(lead, text, trail);
    Assoc(lead, text + trail, rest);
    Assoc(text, trail, rest);
  }

  /** A node's text without outer trivia does not depend on that outer trivia. */
  lemma {:induction false} ToTextIgnoresOuterTrivia(ts: NonEmptyTokens, lead: seq<Trivia>, trail: seq<Trivia>)
    ensures var n := |ts|;
            var ts' := ts[0 := ts[0].(leading := lead)];
            ToText(ts'[n - 1 := ts'[n - 1].(trailing := trail)]) == ToText(ts)
  {
    var n := |ts|;
    var ts' := ts[0 := ts[0].(leading := lead)];
    var us := ts'[n - 1 := ts'[n - 1].(trailing := trail)];
    var a := ts[0 := ts[0].(leading := [])];
    var b := us[0 := us[0].(leading := [])];
    assert a[n - 1 := a[n - 1].(trailing := [])] == b[n - 1 := b[n - 1].(trailing := [])];
  }
}
