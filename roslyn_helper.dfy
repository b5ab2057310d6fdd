/**
  The rewrite of a trivially empty method or operator into an `extern` declaration
  without a body: the eligibility predicate, the trivia-moving join helpers, the
  modifier inserter, the body remover and the transformation that chains them.
 */
module RoslynHelper {
  import opened Syntax

  /** The returned-expression texts that count as "no result". */
  const EmptyResultSet: set<string> := {"0", "false", "null", "default(T)"}

  // ---------------------------------------------------------------------------
  // Eligibility

  /** Some token of the list has the given kind. */
  predicate AnyOfKind(ts: seq<Token>, kind: TokenKind)
  {
    exists i :: 0 <= i < |ts| && ts[i].kind == kind
  }

  /** Whether one of the declaration's modifiers has the given kind. */
  predicate IsModifierApplied(m: Declaration, modifierKind: TokenKind)
  {
    AnyOfKind(m.modifiers, modifierKind)
  }

  /** Everything except a return type that is the predefined `void` keyword is a function. */
  predicate IsFunction(m: Declaration)
  {
    !(m.returnType.PredefinedType? && m.returnType.keyword.kind == VoidKeyword)
  }

  /** Statement i is the first return statement of the list. */
  ghost predicate IsFirstReturn(statements: seq<Stmt>, i: int)
  {
    && 0 <= i < |statements|
    && statements[i].ReturnStatement?
    && forall k :: 0 <= k < i ==> !statements[k].ReturnStatement?
  }

  /**
    The text, outer trivia excluded, of the expression returned by the first return
    statement; None when there is no return statement or it returns no expression.
   */
  function GetReturningValue(statements: seq<Stmt>): (r: Option<string>)
    ensures r.Some? <==> exists i :: IsFirstReturn(statements, i) && statements[i].expression.Some?
    ensures forall i :: IsFirstReturn(statements, i) && statements[i].expression.Some? ==>
              r == Some(ToText(statements[i].expression.value))
  {
    if |statements| == 0 then None
    else if statements[0].ReturnStatement? then
      assert IsFirstReturn(statements, 0);
      match statements[0].expression
      case Some(e) => Some(ToText(e))
      case None => None
    else
      var rest := statements[1..];
      var r := GetReturningValue(rest);
      assert forall i :: IsFirstReturn(statements, i) <==> i >= 1 && IsFirstReturn(rest, i - 1) by {
        forall i | 1 <= i < |statements|
          ensures IsFirstReturn(statements, i) <==> IsFirstReturn(rest, i - 1)
        {
          assert forall k :: 1 <= k < i ==> statements[k] == rest[k - 1];
          if IsFirstReturn(rest, i - 1) {
            forall k | 0 <= k < i ensures !statements[k].ReturnStatement? {
              if k > 0 { assert statements[k] == rest[k - 1]; }
            }
          }
        }
      }
      r
  }

  /**
    A procedure (void) qualifies when its body has no statements; a function qualifies
    when its body is one statement whose first return expression reads exactly as one
    of EmptyResultSet. The body is read without a check that it exists.
   */
  predicate IsMethodWithEmptyBody(m: Declaration)
    requires m.ending.Body?
  {
    var statements := m.ending.block.statements;
    if IsFunction(m) then
      |statements| == 1 && var value := GetReturningValue(statements); value.Some? && value.value in EmptyResultSet
    else
      |statements| == 0
  }

  /** The predicate reaches the missing body of a declaration: the source throws here. */
  predicate ReadsMissingBody(m: Declaration)
  {
    !IsModifierApplied(m, ExternKeyword) && !IsModifierApplied(m, AbstractKeyword) && m.ending.Semicolon?
  }

  /** The declaration is rewritten: no extern, no abstract, and a trivially empty body. */
  predicate Eligible(m: Declaration)
  {
    && !IsModifierApplied(m, ExternKeyword)
    && !IsModifierApplied(m, AbstractKeyword)
    && m.ending.Body?
    && IsMethodWithEmptyBody(m)
  }

  // ---------------------------------------------------------------------------
  // Joining tokens: move trivia off an anchor token onto an added token

  /**
    {LeadingTrivia}{src} becomes {LeadingTrivia}{adding}{delimiters}{src}: the source's
    leading trivia moves onto the added token and the source keeps only the delimiters;
    with no leading trivia the added token gets one trailing space instead.
    Returns (src', adding').
   */
  function UpdateForJoinFromLeft(src: Token, adding: Token, delimiters: seq<Trivia>): (r: (Token, Token))
    ensures r.0.kind == src.kind && r.0.text == src.text && r.0.trailing == src.trailing
    ensures r.1.kind == adding.kind && r.1.text == adding.text
  {
    if |src.leading| == 0 then
      (src, adding.(trailing := [Space]))
    else
      (src.(leading := delimiters), adding.(leading := src.leading))
  }

  /**
    {src}{TrailingTrivia} becomes {src}{delimiters}{adding}{TrailingTrivia}: the source's
    trailing trivia moves onto the added token and the source keeps only the delimiters;
    with no trailing trivia the added token gets one leading space instead.
    Returns (src', adding').
   */
  function UpdateForJoinFromRight(src: Token, adding: Token, delimiters: seq<Trivia>): (r: (Token, Token))
    ensures r.0.kind == src.kind && r.0.text == src.text && r.0.leading == src.leading
    ensures r.1.kind == adding.kind && r.1.text == adding.text
  {
    if |src.trailing| == 0 then
      (src, adding.(leading := [Space]))
    else
      (src.(trailing := delimiters), adding.(trailing := src.trailing))
  }

  /** The node form of UpdateForJoinFromLeft: a node's leading trivia is its first token's. */
  function UpdateNodeForJoinFromLeft(node: NonEmptyTokens, adding: Token, delimiters: seq<Trivia>): (r: (NonEmptyTokens, Token))
    ensures |r.0| == |node| && r.0[1..] == node[1..]
  {
    var (first, added) := UpdateForJoinFromLeft(node[0], adding, delimiters);
    (node[0 := first], added)
  }

  /** The node form of UpdateForJoinFromRight: a node's trailing trivia is its last token's. */
  function UpdateNodeForJoinFromRight(node: NonEmptyTokens, adding: Token, delimiters: seq<Trivia>): (r: (NonEmptyTokens, Token))
    ensures |r.0| == |node| && r.0[..|node| - 1] == node[..|node| - 1]
  {
    var (last, added) := UpdateForJoinFromRight(node[|node| - 1], adding, delimiters);
    (node[|node| - 1 := last], added)
  }

  /** Joins onto the return type from the left, keeping its predefined or other form. */
  function UpdateTypeForJoinFromLeft(t: TypeSyntax, adding: Token, delimiters: seq<Trivia>): (r: (TypeSyntax, Token))
    ensures (TypeTokens(r.0), r.1) == UpdateNodeForJoinFromLeft(TypeTokens(t), adding, delimiters)
    ensures r.0.PredefinedType? == t.PredefinedType?
  {
    match t
    case PredefinedType(k) =>
      var (k', added) := UpdateForJoinFromLeft(k, adding, delimiters);
      assert [k][0 := k'] == [k'];
      (PredefinedType(k'), added)
    case OtherType(ts) =>
      var (ts', added) := UpdateNodeForJoinFromLeft(ts, adding, delimiters);
      (OtherType(ts'), added)
  }

  // ---------------------------------------------------------------------------
  // The two edits

  /**
    Adds a modifier keyword. With modifiers present it goes after the last one, which hands
    over its trailing trivia and keeps one space; with none it goes before the return type,
    which hands over its leading trivia and keeps one space.
   */
  function AddMethodModifier(m: Declaration, newModifierKind: TokenKind): (r: Declaration)
    requires newModifierKind != OtherToken
    ensures |r.modifiers| == |m.modifiers| + 1
    ensures forall i :: 0 <= i < |m.modifiers| - 1 ==> r.modifiers[i] == m.modifiers[i]
    ensures var added := r.modifiers[|m.modifiers|];
            added.kind == newModifierKind && added.text == FixedText(newModifierKind)
    ensures r.kind == m.kind && r.attributes == m.attributes && r.signature == m.signature && r.ending == m.ending
    // after the last modifier
    ensures |m.modifiers| > 0 ==>
              var n := |m.modifiers|;
              var last := m.modifiers[n - 1];
              && r.returnType == m.returnType
              && (|last.trailing| > 0 ==>
                    && r.modifiers[n - 1] == last.(trailing := [Space])
                    && r.modifiers[n].leading == [] && r.modifiers[n].trailing == last.trailing)
              && (|last.trailing| == 0 ==>
                    && r.modifiers[n - 1] == last
                    && r.modifiers[n].leading == [Space] && r.modifiers[n].trailing == [])
    // before the return type
    ensures |m.modifiers| == 0 ==>
              var first := TypeTokens(m.returnType)[0];
              && r.returnType.PredefinedType? == m.returnType.PredefinedType?
              && TypeTokens(r.returnType)[1..] == TypeTokens(m.returnType)[1..]
              && (|first.leading| > 0 ==>
                    && TypeTokens(r.returnType)[0] == first.(leading := [Space])
                    && r.modifiers[0].leading == first.leading && r.modifiers[0].trailing == [])
              && (|first.leading| == 0 ==>
                    && r.returnType == m.returnType
                    && r.modifiers[0].leading == [] && r.modifiers[0].trailing == [Space])
  {
    var newModifier := NewToken(newModifierKind);
    if |m.modifiers| > 0 then
      var n := |m.modifiers|;
      var (lastModifier, added) := UpdateForJoinFromRight(m.modifiers[n - 1], newModifier, [Space]);
      m.(modifiers := m.modifiers[..n - 1] + [lastModifier] + [added])
    else
      var (returnType, added) := UpdateTypeForJoinFromLeft(m.returnType, newModifier, [Space]);
      m.(returnType := returnType, modifiers := [added])
  }

  /**
    Drops the body and ends the declaration with a `;`. The token before the body hands its
    trailing trivia to the `;` and keeps none; when it has none, the `;` gets one leading
    space. The body goes with its own trivia.
   */
  function RemoveMethodBody(m: Declaration): (r: Declaration)
    requires m.ending.Body?
    ensures r.ending.Semicolon? && r.ending.token.kind == SemicolonToken && r.ending.token.text == ";"
    ensures r.kind == m.kind && r.attributes == m.attributes && r.modifiers == m.modifiers && r.returnType == m.returnType
    ensures |r.signature| == |m.signature|
    ensures r.signature[..|m.signature| - 1] == m.signature[..|m.signature| - 1]
    ensures var last := m.signature[|m.signature| - 1];
            var semicolon := r.ending.token;
            && (|last.trailing| > 0 ==>
                  && r.signature[|m.signature| - 1] == last.(trailing := [])
                  && semicolon.leading == [] && semicolon.trailing == last.trailing)
            && (|last.trailing| == 0 ==>
                  && r.signature == m.signature
                  && semicolon.leading == [Space] && semicolon.trailing == [])
  {
    var (signature, semicolon) := UpdateNodeForJoinFromRight(m.signature, NewToken(SemicolonToken), []);
    m.(signature := signature, ending := Semicolon(semicolon))
  }

  /** The declaration an eligible one is rewritten to. */
  function ExternForm(m: Declaration): Declaration
    requires m.ending.Body?
  {
    RemoveMethodBody(AddMethodModifier(m, ExternKeyword))
  }

  datatype Status = Transformed | NotTransformed | NullReference

  /**
    Rewrites a trivially empty declaration into an extern one. Declarations that are already
    extern or abstract, or whose body is not trivially empty, come back untouched; a
    declaration with no body that is neither extern nor abstract makes the predicate fail.
   */
  method TransformEmptyMethodToExtern(m: Declaration) returns (status: Status, updated: Declaration)
    ensures status == NullReference <==> ReadsMissingBody(m)
    ensures status == Transformed <==> Eligible(m)
    ensures status == Transformed ==> updated == ExternForm(m)
    ensures status != Transformed ==> updated == m
  {
    updated := m;
    if IsModifierApplied(m, ExternKeyword) || IsModifierApplied(m, AbstractKeyword) {
      return NotTransformed, updated;
    }
    if m.ending.Semicolon? {
      return NullReference, updated;
    }
    if !IsMethodWithEmptyBody(m) {
      return NotTransformed, updated;
    }
    var updatedMethod := AddMethodModifier(m, ExternKeyword);
    updatedMethod := RemoveMethodBody(updatedMethod);
    updated := updatedMethod;
    status := Transformed;
  }
}
