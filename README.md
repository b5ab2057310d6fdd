# Extern rewriter: a verified model

BridgeExternUtility bulk-edits C# sources. It finds method and operator declarations whose body is
trivially empty and turns each into a body-less `extern` declaration. A trivially empty body is
either no statements (for `void`) or a single `return` of `0`, `false`, `null` or `default(T)`.
The edit keeps every whitespace run, line break and comment ("trivia") of the surrounding text in place.

The model has four modules, plus one module of proof helpers:

- `Syntax` (`syntax.dfy`): tokens with their leading and trailing trivia, and declarations with
  attributes, modifiers, return type, signature and an ending. The ending is either a block body or
  a `;`. The module also defines the text a tree serialises to (`Render`, Roslyn's `ToFullString`)
  and the text of a node without its outer trivia (`ToText`, Roslyn's `ToString`).
- `RoslynHelper` (`roslyn_helper.dfy`): the whole rewrite. This covers:
  - the eligibility predicate (`IsModifierApplied`, `IsFunction`, `GetReturningValue`, `IsMethodWithEmptyBody`);
  - the trivia-moving join helpers (`UpdateForJoinFromLeft/Right` and their node forms);
  - the modifier inserter `AddMethodModifier` and the body remover `RemoveMethodBody`;
  - the entry point `TransformEmptyMethodToExtern`, a method returning a status and the updated declaration.
- `RewriteProperties` (`rewrite_properties.dfy`): what the rewrite does to a declaration's text. It
  also covers which declarations it selects and why a second pass changes nothing.
- `Program` (`program.dfy`): the per-file scan `ProcessFile`. It works as follows:
  - It loops over every class declaration of the tree and, inside it, over every method or operator below that class.
  - Each one goes through the rewrite. A rewritten one is stored in a map keyed by the original node and counted.
  - Each class with a rewritten member is counted once.
  - When the map is non-empty, the tree is rebuilt in one replacement pass and its new text is produced.
  - The loops are methods proved against the function `ScanOutcome`. The properties the source
    promises are lemmas about that function.

`Sequences` (`sequences.dfy`) holds small generic facts about sequences used by the proofs.

In these places the model follows the code, which may surprise a reader:

- Only `extern` and `abstract` disqualify a declaration; `virtual` does not.
- The predicate reads the body without a null check. A declaration with no block body that is neither
  `extern` nor `abstract` makes it throw, and the whole file then fails. The model makes this an
  explicit outcome: status `NullReference` from `TransformEmptyMethodToExtern`, `Failed` from `ProcessFile`.
- The body is removed together with its own trivia, so the line break after `}` goes with it. The
  `;` takes over the trailing trivia of the token in front of the body, usually `)`. When that
  token has none, the `;` gets one leading space. So `void Foo() { }` followed by a line break
  becomes `extern void Foo();` followed by the space that stood after `)`. The line break is gone.
- The counters count visits: a method inside a nested class is visited once per enclosing class,
  and each successful visit is counted again. The map is written by key, so it holds the node once.
- The helper is declared for method declarations only, yet the scan hands it operator declarations
  too. The helper touches only modifiers, return type, body and ending, so the model applies it to
  both kinds alike.

## Model

| member | source | states |
|---|---|---|
| Syntax.ToTextIgnoresOuterTrivia | BridgeExternUtility/BridgeExternUtility/RoslynHelper.cs:83 | the text of a returned expression does not depend on the trivia before its first token or after its last |
| RoslynHelper.GetReturningValue | BridgeExternUtility/BridgeExternUtility/RoslynHelper.cs:73-88 | a value exists exactly when the first return statement has an expression, and it is that expression's text without outer trivia; a bare `return;` or no return gives none |
| RoslynHelper.UpdateForJoinFromLeft | BridgeExternUtility/BridgeExternUtility/RoslynHelper.cs:151-171 | the join keeps both tokens' kinds and texts and the source token's trailing trivia |
| RoslynHelper.UpdateForJoinFromRight | BridgeExternUtility/BridgeExternUtility/RoslynHelper.cs:204-220 | the join keeps both tokens' kinds and texts and the source token's leading trivia |
| RoslynHelper.UpdateNodeForJoinFromLeft | BridgeExternUtility/BridgeExternUtility/RoslynHelper.cs:177-198 | joining in front of a node touches only its first token |
| RoslynHelper.UpdateNodeForJoinFromRight | BridgeExternUtility/BridgeExternUtility/RoslynHelper.cs:226-243 | joining behind a node touches only its last token |
| RoslynHelper.UpdateTypeForJoinFromLeft | BridgeExternUtility/BridgeExternUtility/RoslynHelper.cs:135-138 | joining in front of the return type acts on its tokens as on any node and keeps it predefined or not |
| RoslynHelper.AddMethodModifier | BridgeExternUtility/BridgeExternUtility/RoslynHelper.cs:111-145 | exactly one modifier more, the new keyword, at the end; all parts but modifiers and return type unchanged; with modifiers, the last one hands its trailing trivia to the keyword and keeps one space, or the keyword gets a leading space; without modifiers, the return type's first token hands its leading trivia to the keyword and keeps one space, or the keyword gets a trailing space |
| RoslynHelper.RemoveMethodBody | BridgeExternUtility/BridgeExternUtility/RoslynHelper.cs:93-106 | the body is gone and a `;` ends the declaration; the last signature token hands its trailing trivia to the `;`, or the `;` gets one leading space; nothing before the body changes |
| RoslynHelper.TransformEmptyMethodToExtern | BridgeExternUtility/BridgeExternUtility/RoslynHelper.cs:16-29 | fails exactly on a body-less declaration that is neither extern nor abstract; transforms exactly the eligible ones, into the body-removed form of the declaration with `extern` added; leaves every other declaration as it was |
| RewriteProperties.JoinFromLeftRender | BridgeExternUtility/BridgeExternUtility/RoslynHelper.cs:147-171 | after the join the two tokens read as the source's leading trivia, the added text, the separator, then the source token unchanged: no trivia lost or duplicated |
| RewriteProperties.JoinFromRightRender | BridgeExternUtility/BridgeExternUtility/RoslynHelper.cs:200-220 | after the join the two tokens read as the source token's text, the separator, the added text, then the source's trailing trivia |
| RewriteProperties.NodeJoinFromLeftRender | BridgeExternUtility/BridgeExternUtility/RoslynHelper.cs:173-198 | the node form of the left join keeps the node's text and moves its leading trivia in front of the added token |
| RewriteProperties.NodeJoinFromRightRender | BridgeExternUtility/BridgeExternUtility/RoslynHelper.cs:222-243 | the node form of the right join keeps the node's text and moves its trailing trivia behind the added token |
| RewriteProperties.AddModifierAfterLastRender | BridgeExternUtility/BridgeExternUtility/RoslynHelper.cs:119-129 | with modifiers, the modifier text becomes the old text up to the last modifier, one space, the keyword, then the old trailing trivia |
| RewriteProperties.AddModifierBeforeTypeRender | BridgeExternUtility/BridgeExternUtility/RoslynHelper.cs:130-142 | without modifiers, the text becomes the return type's leading trivia, the keyword, one space, then the return type's text |
| RewriteProperties.RemoveBodyRender | BridgeExternUtility/BridgeExternUtility/RoslynHelper.cs:93-106 | the signature and ending read as the signature's text, a space only when it had no trailing trivia, `;`, then the signature's trailing trivia |
| RewriteProperties.ExternFormRenderWithModifiers | BridgeExternUtility/BridgeExternUtility/RoslynHelper.cs:25-26 | the rewritten text of a declaration with modifiers: ` extern` right after the last modifier's text, and the body replaced by `;` |
| RewriteProperties.ExternFormRenderWithoutModifiers | BridgeExternUtility/BridgeExternUtility/RoslynHelper.cs:25-26 | the rewritten text of a declaration without modifiers: `extern ` where the return type started, after its leading trivia, and the body replaced by `;` |
| RewriteProperties.EligibleCharacterization | BridgeExternUtility/BridgeExternUtility/RoslynHelper.cs:43-88 | both directions: eligible iff not extern, not abstract, has a body, and either returns `void` with no statements or has one return statement whose expression reads exactly as one of the four values |
| RewriteProperties.OtherModifiersDoNotDisqualify | BridgeExternUtility/BridgeExternUtility/RoslynHelper.cs:18-19 | adding any modifier other than extern or abstract (`virtual` included) leaves eligibility as it was |
| RewriteProperties.ExternFormModifiers | BridgeExternUtility/BridgeExternUtility/RoslynHelper.cs:116-142 | the rewritten declaration has every modifier kind it had, plus `extern`, and no other |
| RewriteProperties.TransformIdempotent | BridgeExternUtility/BridgeExternUtility/RoslynHelper.cs:18-19 | a rewritten declaration carries `extern`, so it is neither eligible again nor a declaration whose missing body the predicate would read |
| RewriteProperties.TransformTwice | BridgeExternUtility/BridgeExternUtility/RoslynHelper.cs:16-29 | a second transformation of a transformed declaration reports no change and keeps the first result |
| Program.ProcessFile | BridgeExternUtility/BridgeExternUtility/Program.cs:79-126 | the scan's outcome is exactly `ScanOutcome`: failure, or the map, the two counters, and the rebuilt tree and its text when the map is non-empty |
| Program.ProcessClasses | BridgeExternUtility/BridgeExternUtility/Program.cs:88-115 | the class loop faults exactly when some visit reads a missing body; otherwise it returns the map, the method count and the class count over all visits |
| Program.ProcessClass | BridgeExternUtility/BridgeExternUtility/Program.cs:91-114 | one class's pass faults exactly when a declaration below it reads a missing body; otherwise it extends the map and the counters from the classes before it to this class |
| Program.FaultsMeans | BridgeExternUtility/BridgeExternUtility/Program.cs:99-102 | the visits fault exactly when one of them is a body-less declaration that is neither extern nor abstract |
| Program.AnyRewrittenMeans | BridgeExternUtility/BridgeExternUtility/Program.cs:107-114 | a class is marked modified exactly when some declaration below it was transformed |
| Program.RewriteMapKeys | BridgeExternUtility/BridgeExternUtility/Program.cs:99-105 | a node is a key of the map exactly when some visit of it was transformed |
| Program.RewriteMapValues | BridgeExternUtility/BridgeExternUtility/Program.cs:104 | when visits of a node agree, a transformed node maps to its extern form, the helper's output |
| Program.RevisitKeepsMap | BridgeExternUtility/BridgeExternUtility/Program.cs:104 | visiting a node again, as a method in a nested class is, leaves the map as it was |
| Program.MapSizeAtMostCount | BridgeExternUtility/BridgeExternUtility/Program.cs:104-106 | the map never has more entries than the method counter |
| Program.CountPositiveMeansMapNonEmpty | BridgeExternUtility/BridgeExternUtility/Program.cs:104-118 | both directions: the method counter is positive exactly when the map is non-empty |
| Program.AnyRewrittenIsCounted | BridgeExternUtility/BridgeExternUtility/Program.cs:106-107 | both directions: some visit was transformed exactly when the method counter grew |
| Program.ClassesAtMostMethods | BridgeExternUtility/BridgeExternUtility/Program.cs:106-114 | the class counter never exceeds the method counter: a class is counted once and only with a counted method below it |
| Program.InVisits | BridgeExternUtility/BridgeExternUtility/Program.cs:88-97 | both directions: the scan visits exactly the declarations below the classes it loops over |
| Program.InsideClassesMeans | BridgeExternUtility/BridgeExternUtility/Program.cs:88-97 | both directions: a declaration lies inside a class exactly when it is below one of the forest's class declarations |
| Program.ScanVisitsClassMembers | BridgeExternUtility/BridgeExternUtility/Program.cs:88-97 | both directions: the scan visits exactly the method and operator declarations that lie inside some class of the file |
| Program.ScanRewritesClassMembers | BridgeExternUtility/BridgeExternUtility/Program.cs:99-105 | a declaration inside a class is a key of the file's map exactly when it is eligible, and then it maps to its extern form |
| Program.ScanRewritesOnlyClassMembers | BridgeExternUtility/BridgeExternUtility/Program.cs:99-105 | every key of the file's map is an eligible declaration inside a class |
| Program.ReplaceAllAt | BridgeExternUtility/BridgeExternUtility/Program.cs:120 | a replaced list of declarations has the same length, and each position holds the mapped value of a keyed declaration or the declaration itself |
| Program.ReplacedMembers | BridgeExternUtility/BridgeExternUtility/Program.cs:120 | the declarations inside classes of the replaced forest are the original ones in the same order, each replaced by its mapped value when it is a key |
| Program.AllInsideClass | BridgeExternUtility/BridgeExternUtility/Program.cs:93-97 | below a class every method and operator declaration is collected, nested containers included |
| Program.ReplacedMethods | BridgeExternUtility/BridgeExternUtility/Program.cs:120 | the replaced forest has just as many declarations, and the i-th is the i-th original one, replaced by its mapped value when it is a key |
| Program.ReplaceNothing | BridgeExternUtility/BridgeExternUtility/Program.cs:120 | a pass whose keys name none of the forest's declarations gives back the same forest |
| Program.ReplacePiecesAt | BridgeExternUtility/BridgeExternUtility/Program.cs:120-121 | replacing pieces keeps their number, keeps every piece of fixed text and swaps each declaration for its mapped value when it is a key |
| Program.TextIsPieces | BridgeExternUtility/BridgeExternUtility/Program.cs:121 | a forest's full text is its fixed text and its declarations' texts, in document order |
| Program.ReplaceKeepsFixedText | BridgeExternUtility/BridgeExternUtility/Program.cs:120 | the replaced forest cuts into the same pieces as the original: all text outside declarations is kept byte for byte, and only declarations are swapped |
| Program.ReplacedFrom | BridgeExternUtility/BridgeExternUtility/Program.cs:120 | each declaration inside a class of the rebuilt tree is a declaration inside a class of the old one, replaced by its mapped value if it has one |
| Program.RescanVisitIsSettled | BridgeExternUtility/BridgeExternUtility/Program.cs:88-120 | after the rewrite, each declaration a second scan visits is neither eligible nor missing its body |
| Program.ScanIdempotent | BridgeExternUtility/BridgeExternUtility/Program.cs:79-126 | scanning the rebuilt tree again does not fail, rewrites nothing, counts no method or class and leaves the file alone |
| Program.ScanFails | BridgeExternUtility/BridgeExternUtility/Program.cs:99-102 | both directions: the scan fails exactly when some declaration inside a class has no body and is neither extern nor abstract |
| Program.ScanModifiesFile | BridgeExternUtility/BridgeExternUtility/Program.cs:117-125 | both directions: the file is rewritten exactly when some declaration inside a class is eligible |
| Program.ScanCounters | BridgeExternUtility/BridgeExternUtility/Program.cs:104-125 | map size at most the method count; class count at most the method count; the file is modified iff the method count is positive; new text exists iff the file is modified |
| Program.ScanReplacesClassMembers | BridgeExternUtility/BridgeExternUtility/Program.cs:99-120 | the rebuilt tree has the same declarations inside classes, in the same places; each one is its extern form when eligible and is unchanged otherwise |
| Program.ScanKeepsTextOutsideDeclarations | BridgeExternUtility/BridgeExternUtility/Program.cs:117-125 | the new text of a modified file is the original file's pieces with all text outside declarations kept and each keyed declaration swapped for its mapped value; an unmodified file keeps its tree and gets no new text |

## Left out

- `Main`, `ProcessDirs` and the `Statistics` class: directory enumeration, the per-file
  try/catch, console progress and reports. They are I/O and orchestration. The counters are
  returned by `ProcessFile` instead. The per-file failure is its `Failed` outcome.
- Reading the file, parsing it, and writing the new text back. These are I/O and the foreign
  Roslyn parser. The tree is given as a value; `RenderNodes` stands for `ToFullString`.
- Roslyn's `ReplaceNode`, `ReplaceNodes`, `ReplaceTrivia` and `SyntaxFactory`. These are foreign
  library calls, modelled only by their effect on the declaration values. The zero-width
  "elastic" trivia the factory gives new tokens render as nothing and are modelled as no trivia.
- Node identity is modelled by a `Handle` per declaration node. The map's contents are proved
  under `DistinctHandles`, which says distinct declaration nodes have distinct handles, as
  distinct objects do.
- The ref-parameter join helpers are functions returning the updated pair of tokens (or node
  and token). Roslyn values are immutable, so nothing is updated in place.
- `RemoveMethodBody` with `addSemicolon` false is not modelled. Its only call passes true.
- The token overload of `UpdateForJoinFromLeft` is never called. The node overload is modelled
  through `UpdateNodeForJoinFromLeft`, which applies the token logic to the node's first token.
- Program.ProcessClasses: on a fault, the returned map and counters are left unspecified. The
  source throws there, and the counts it had already reported to `Statistics` are not modelled.
- The nested `foreach` of `ProcessFile` is modelled as two methods. `ProcessClasses` holds the
  class loop and `ProcessClass` holds one class's pass over its declarations.
