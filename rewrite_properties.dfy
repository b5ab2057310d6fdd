/**
  What the extern rewrite does to the text of a declaration, and which declarations
  it selects.
 */
module RewriteProperties {
  import opened Syntax
  import opened RoslynHelper
  import opened Sequences

  /** The separator a join leaves between the two tokens: its delimiters, or one space when the anchor had no trivia. */
  function Separator(anchorTrivia: seq<Trivia>, delimiters: seq<Trivia>): seq<Trivia>
  {
    if |anchorTrivia| == 0 then [Space] else delimiters
  }

  lemma ConcatSingle(t: Trivia)
    ensures Concat([t]) == t
  {
    assert [t][..0] == [];
  }

  lemma ExternWithSpace()
    ensures " " + "extern" == " extern" && "extern" + " " == "extern "
  {
  }

  // ---------------------------------------------------------------------------
  // Joins

  /** {LeadingTrivia}{src} renders as {LeadingTrivia}{adding}{separator}{src} after the join. */
  lemma JoinFromLeftRender(src: Token, adding: Token, delimiters: seq<Trivia>)
    requires adding.leading == [] && adding.trailing == []
    ensures var (s, a) := UpdateForJoinFromLeft(src, adding, delimiters);
            RenderToken(a) + RenderToken(s)
            == Concat(src.leading) + adding.text + Concat(Separator(src.leading, delimiters)) + src.text + Concat(src.trailing)
  {
    ConcatSingle(Space);
  }

  /** {src}{TrailingTrivia} renders as {src}{separator}{adding}{TrailingTrivia} after the join. */
  lemma JoinFromRightRender(src: Token, adding: Token, delimiters: seq<Trivia>)
    requires adding.leading == [] && adding.trailing == []
    ensures var (s, a) := UpdateForJoinFromRight(src, adding, delimiters);
            RenderToken(s) + RenderToken(a)
            == Concat(src.leading) + src.text + Concat(Separator(src.trailing, delimiters)) + adding.text + Concat(src.trailing)
  {
    ConcatSingle(Space);
  }

  /** Joining in front of a node: the node's leading trivia ends up in front of the added token. */
  lemma NodeJoinFromLeftRender(node: NonEmptyTokens, adding: Token, delimiters: seq<Trivia>)
    requires adding.leading == [] && adding.trailing == []
    ensures var (n, a) := UpdateNodeForJoinFromLeft(node, adding, delimiters);
            RenderToken(a) + RenderTokens(n)
            == Concat(node[0].leading) + adding.text + Concat(Separator(node[0].leading, delimiters)) + ClosedText(node)
  {
    var (n, a) := UpdateNodeForJoinFromLeft(node, adding, delimiters);
    var (first, _) := UpdateForJoinFromLeft(node[0], adding, delimiters);
    JoinFromLeftRender(node[0], adding, delimiters);
    LeadingThenClosedText(n);
    assert n[0] == first;
    assert ClosedText(n) == first.text + Concat(first.trailing) + RenderTokens(node[1..]);
  }

  /** Joining behind a node: the node's trailing trivia ends up behind the added token. */
  lemma NodeJoinFromRightRender(node: NonEmptyTokens, adding: Token, delimiters: seq<Trivia>)
    requires adding.leading == [] && adding.trailing == []
    ensures var (n, a) := UpdateNodeForJoinFromRight(node, adding, delimiters);
            var trailing := node[|node| - 1].trailing;
            RenderTokens(n) + RenderToken(a)
            == OpenText(node) + Concat(Separator(trailing, delimiters)) + adding.text + Concat(trailing)
  {
    var (n, a) := UpdateNodeForJoinFromRight(node, adding, delimiters);
    var (last, _) := UpdateForJoinFromRight(node[|node| - 1], adding, delimiters);
    JoinFromRightRender(node[|node| - 1], adding, delimiters);
    assert n[..|n| - 1] == node[..|node| - 1];
    assert n[|n| - 1] == last;
  }

  // ---------------------------------------------------------------------------
  // The two edits, as text

  /** With modifiers present, the keyword and one space go in right after the last modifier's text. */
  lemma AddModifierAfterLastRender(m: Declaration, kind: TokenKind)
    requires kind != OtherToken && |m.modifiers| > 0
    ensures var r := AddMethodModifier(m, kind);
            var last := m.modifiers[|m.modifiers| - 1];
            && r.returnType == m.returnType
            && RenderTokens(r.modifiers) == OpenText(m.modifiers) + " " + FixedText(kind) + Concat(last.trailing)
  {
    var r := AddMethodModifier(m, kind);
    var n := |m.modifiers|;
    var (lastModifier, added) := UpdateForJoinFromRight(m.modifiers[n - 1], NewToken(kind), [Space]);
    assert r.modifiers == m.modifiers[..n - 1] + [lastModifier] + [added];
    NodeJoinFromRightRender(m.modifiers, NewToken(kind), [Space]);
    var (node', _) := UpdateNodeForJoinFromRight(m.modifiers, NewToken(kind), [Space]);
    assert node' == m.modifiers[..n - 1] + [lastModifier];
    RenderTokensAppend(node', [added]);
    RenderSingle(added);
    ConcatSingle(Space);
  }

  /** With no modifiers, the keyword takes the return type's leading trivia and one space follows it. */
  lemma AddModifierBeforeTypeRender(m: Declaration, kind: TokenKind)
    requires kind != OtherToken && |m.modifiers| == 0
    ensures var r := AddMethodModifier(m, kind);
            var typeTokens := TypeTokens(m.returnType);
            RenderTokens(r.modifiers) + RenderTokens(TypeTokens(r.returnType))
            == Concat(typeTokens[0].leading) + FixedText(kind) + " " + ClosedText(typeTokens)
  {
    var r := AddMethodModifier(m, kind);
    var (t', added) := UpdateTypeForJoinFromLeft(m.returnType, NewToken(kind), [Space]);
    assert r.modifiers == [added];
    RenderSingle(added);
    NodeJoinFromLeftRender(TypeTokens(m.returnType), NewToken(kind), [Space]);
    ConcatSingle(Space);
  }

  /** The body and its trivia are gone; `;` follows the last signature token's text and takes over its trailing trivia. */
  lemma RemoveBodyRender(m: Declaration)
    requires m.ending.Body?
    ensures var r := RemoveMethodBody(m);
            var trailing := m.signature[|m.signature| - 1].trailing;
            RenderTokens(r.signature) + RenderEnding(r.ending)
            == OpenText(m.signature) + (if |trailing| == 0 then " " else "") + ";" + Concat(trailing)
  {
    NodeJoinFromRightRender(m.signature, NewToken(SemicolonToken), []);
    ConcatSingle(Space);
    assert Concat([]) == "";
  }

  // ---------------------------------------------------------------------------
  // The whole rewrite, as text

  /**
    With modifiers present the rewritten text is the original with ` extern` inserted after
    the last modifier's text and the body replaced by `;` (one space before it when the
    signature had no trailing trivia); the signature's trailing trivia moves behind the `;`.
   */
  lemma ExternFormRenderWithModifiers(m: Declaration)
    requires m.ending.Body? && |m.modifiers| > 0
    ensures var sigTrailing := m.signature[|m.signature| - 1].trailing;
            Render(ExternForm(m))
            == RenderTokens(m.attributes)
               + (OpenText(m.modifiers) + " extern" + Concat(m.modifiers[|m.modifiers| - 1].trailing))
               + RenderTokens(TypeTokens(m.returnType))
               + (OpenText(m.signature) + (if |sigTrailing| == 0 then " " else "") + ";" + Concat(sigTrailing))
  {
    var a := AddMethodModifier(m, ExternKeyword);
    var r := RemoveMethodBody(a);
    AddModifierAfterLastRender(m, ExternKeyword);
    RemoveBodyRender(a);
    var sigTrailing := m.signature[|m.signature| - 1].trailing;
    var open := OpenText(m.modifiers);
    var trailing := Concat(m.modifiers[|m.modifiers| - 1].trailing);
    assert open + " " + "extern" + trailing == open + " extern" + trailing by {
      Assoc(open, " ", "extern");
      ExternWithSpace();
    }
    var head := open + " extern" + trailing;
    var tail := OpenText(m.signature) + (if |sigTrailing| == 0 then " " else "") + ";" + Concat(sigTrailing);
    assert RenderTokens(r.modifiers) == head;
    assert r.returnType == m.returnType;
    assert RenderTokens(r.signature) + RenderEnding(r.ending) == tail;
    var front := RenderTokens(m.attributes) + head + RenderTokens(TypeTokens(m.returnType));
    assert Render(r) == front + RenderTokens(r.signature) + RenderEnding(r.ending);
    Assoc(front, RenderTokens(r.signature), RenderEnding(r.ending));
  }

  /**
    With no modifiers the rewritten text starts `extern ` where the return type used to
    start, after the return type's leading trivia; the body is replaced as above.
   */
  lemma ExternFormRenderWithoutModifiers(m: Declaration)
    requires m.ending.Body? && |m.modifiers| == 0
    ensures var sigTrailing := m.signature[|m.signature| - 1].trailing;
            var typeTokens := TypeTokens(m.returnType);
            Render(ExternForm(m))
            == RenderTokens(m.attributes)
               + (Concat(typeTokens[0].leading) + "extern " + ClosedText(typeTokens))
               + (OpenText(m.signature) + (if |sigTrailing| == 0 then " " else "") + ";" + Concat(sigTrailing))
  {
    var a := AddMethodModifier(m, ExternKeyword);
    var r := RemoveMethodBody(a);
    AddModifierBeforeTypeRender(m, ExternKeyword);
    RemoveBodyRender(a);
    var sigTrailing := m.signature[|m.signature| - 1].trailing;
    var typeTokens := TypeTokens(m.returnType);
    var lead := Concat(typeTokens[0].leading);
    var closed := ClosedText(typeTokens);
    assert lead + "extern" + " " + closed == lead + "extern " + closed by {
      Assoc(lead, "extern", " ");
      ExternWithSpace();
    }
    var head := lead + "extern " + closed;
    var tail := OpenText(m.signature) + (if |sigTrailing| == 0 then " " else "") + ";" + Concat(sigTrailing);
    assert RenderTokens(r.modifiers) + RenderTokens(TypeTokens(r.returnType)) == head;
    assert RenderTokens(r.signature) + RenderEnding(r.ending) == tail;
    Regroup5(RenderTokens(m.attributes), RenderTokens(r.modifiers), RenderTokens(TypeTokens(r.returnType)),
      RenderTokens(r.signature), RenderEnding(r.ending));
  }

  // ---------------------------------------------------------------------------
  // Selection

  /** Eligibility spelled out without the helpers: both directions. */
  lemma EligibleCharacterization(m: Declaration)
    ensures Eligible(m) <==>
              && !IsModifierApplied(m, ExternKeyword)
              && !IsModifierApplied(m, AbstractKeyword)
              && m.ending.Body?
              && var statements := m.ending.block.statements;
                 if m.returnType.PredefinedType? && m.returnType.keyword.kind == VoidKeyword then
                   statements == []
                 else
                   && |statements| == 1
                   && statements[0].ReturnStatement?
                   && statements[0].expression.Some?
                   && ToText(statements[0].expression.value) in EmptyResultSet
  {
    if m.ending.Body? && |m.ending.block.statements| == 1 {
      var statements := m.ending.block.statements;
      if statements[0].ReturnStatement? {
        assert IsFirstReturn(statements, 0);
      } else {
        assert forall i :: !IsFirstReturn(statements, i);
      }
    }
  }

  /** Only extern and abstract disqualify: adding any other modifier leaves eligibility as it was. */
  lemma OtherModifiersDoNotDisqualify(m: Declaration, t: Token)
    requires t.kind != ExternKeyword && t.kind != AbstractKeyword
    ensures Eligible(m.(modifiers := m.modifiers + [t])) == Eligible(m)
  {
    var m' := m.(modifiers := m.modifiers + [t]);
    forall k | k == ExternKeyword || k == AbstractKeyword
      ensures IsModifierApplied(m', k) == IsModifierApplied(m, k)
    {
      if IsModifierApplied(m', k) {
        var i :| 0 <= i < |m'.modifiers| && m'.modifiers[i].kind == k;
        assert i < |m.modifiers| && m.modifiers[i].kind == k;
      }
      if IsModifierApplied(m, k) {
        var i :| 0 <= i < |m.modifiers| && m.modifiers[i].kind == k;
        assert m'.modifiers[i].kind == k;
      }
    }
  }

  /** The rewrite keeps every modifier kind the declaration had and adds extern. */
  lemma ExternFormModifiers(m: Declaration, kind: TokenKind)
    requires m.ending.Body?
    ensures IsModifierApplied(ExternForm(m), kind) <==> IsModifierApplied(m, kind) || kind == ExternKeyword
  {
    var added := AddMethodModifier(m, ExternKeyword);
    var n := |m.modifiers|;
    assert ExternForm(m).modifiers == added.modifiers;
    assert forall i :: 0 <= i < n ==> added.modifiers[i].kind == m.modifiers[i].kind;
    OneKindMore(m.modifiers, added.modifiers, ExternKeyword, kind);
  }

  /** A token list that repeats another's kinds and ends in one more token has that one kind more. */
  lemma OneKindMore(ts: seq<Token>, us: seq<Token>, extra: TokenKind, kind: TokenKind)
    requires |us| == |ts| + 1 && us[|ts|].kind == extra
    requires forall i :: 0 <= i < |ts| ==> us[i].kind == ts[i].kind
    ensures AnyOfKind(us, kind) <==> AnyOfKind(ts, kind) || kind == extra
  {
    if AnyOfKind(ts, kind) {
      var i :| 0 <= i < |ts| && ts[i].kind == kind;
      assert us[i].kind == kind;
    }
    if AnyOfKind(us, kind) && kind != extra {
      var i :| 0 <= i < |us| && us[i].kind == kind;
      assert ts[i].kind == kind;
    }
    if kind == extra {
      assert us[|ts|].kind == kind;
    }
  }

  /**
    Idempotence: the rewritten declaration carries extern, so a second pass neither
    rewrites it nor reaches for its (now missing) body.
   */
  lemma TransformIdempotent(m: Declaration)
    requires Eligible(m)
    ensures IsModifierApplied(ExternForm(m), ExternKeyword)
    ensures !Eligible(ExternForm(m)) && !ReadsMissingBody(ExternForm(m))
  {
    ExternFormModifiers(m, ExternKeyword);
  }

  /** A second call of the transformation on its own output leaves it as it is. */
  method TransformTwice(m: Declaration) returns (first: Status, second: Status, result: Declaration)
    ensures first == Transformed <==> Eligible(m)
    ensures first == Transformed ==> second == NotTransformed && result == ExternForm(m)
  {
    var once;
    first, once := TransformEmptyMethodToExtern(m);
    second, result := TransformEmptyMethodToExtern(once);
    if first == Transformed {
      TransformIdempotent(m);
    }
  }
}
