/**
  The per-file scan: every method and operator declaration reached from a class is put
  through the extern rewrite, rewritten declarations are collected in a map keyed by the
  original node, and the tree is rebuilt in one replacement pass only when the map is
  non-empty.
 */
module Program {
  import opened Syntax
  import opened RoslynHelper
  import opened Sequences
  import RewriteProperties

  /** The identity of a declaration node in the parsed tree. */
  type Handle = nat

  datatype ContainerKind = CompilationUnit | Namespace | Class | Struct | Interface

  /**
    A syntax tree, reduced to what the scan sees: containers (compilation unit, namespaces
    and type declarations), method and operator declarations, and everything else as leaves
    (fields, properties, constructors, conversion operators, usings, ...).
   */
  datatype Node =
    | Container(kind: ContainerKind, head: seq<Token>, members: seq<Node>, tail: seq<Token>)
    | MethodOrOperator(handle: Handle, decl: Declaration)
    | Leaf(tokens: seq<Token>)

  /** A method or operator declaration found by the scan, with the identity of its node. */
  datatype Candidate = Candidate(handle: Handle, decl: Declaration)

  function Children(n: Node): seq<Node>
  {
    if n.Container? then n.members else []
  }

  // ---------------------------------------------------------------------------
  // Document-order traversals of a forest

  /** The class declarations in a forest, each before its descendants. */
  function ClassesIn(ns: seq<Node>): seq<Node>
    decreases ns
  {
    if |ns| == 0 then []
    else
      var here := match ns[0]
        case Container(kind, _, members, _) => (if kind == Class then [ns[0]] else []) + ClassesIn(members)
        case _ => [];
      here + ClassesIn(ns[1..])
  }

  /** The method and operator declarations in a forest, in document order. */
  function MethodsIn(ns: seq<Node>): seq<Candidate>
    decreases ns
  {
    if |ns| == 0 then []
    else
      var here := match ns[0]
        case Container(_, _, members, _) => MethodsIn(members)
        case MethodOrOperator(h, d) => [Candidate(h, d)]
        case Leaf(_) => [];
      here + MethodsIn(ns[1..])
  }

  /** The declarations in a forest that lie inside some class (insideClass: an ancestor above the forest is one). */
  function MethodsInsideClasses(ns: seq<Node>, insideClass: bool): seq<Candidate>
    decreases ns
  {
    if |ns| == 0 then []
    else
      var here := match ns[0]
        case Container(kind, _, members, _) => MethodsInsideClasses(members, insideClass || kind == Class)
        case MethodOrOperator(h, d) => if insideClass then [Candidate(h, d)] else []
        case Leaf(_) => [];
      here + MethodsInsideClasses(ns[1..], insideClass)
  }

  /**
    The candidates the scan visits, class after class: each class contributes all method
    and operator declarations below it, nested classes included, so a declaration in a
    nested class is visited once per enclosing class.
   */
  function Visits(classes: seq<Node>, n: nat): seq<Candidate>
    requires n <= |classes|
  {
    if n == 0 then []
    else Visits(classes, n - 1) + MethodsIn(Children(classes[n - 1]))
  }

  // ---------------------------------------------------------------------------
  // What the scan computes, as folds over the visits

  /** The replacement map after visiting vs in order: an indexer write per rewritten visit. */
  function RewriteMap(vs: seq<Candidate>): map<Handle, Declaration>
  {
    if |vs| == 0 then map[]
    else
      var m := RewriteMap(vs[..|vs| - 1]);
      var v := vs[|vs| - 1];
      if Eligible(v.decl) then m[v.handle := ExternForm(v.decl)] else m
  }

  /** The number of visits that rewrote their declaration, repeats included. */
  function CountRewritten(vs: seq<Candidate>): nat
  {
    if |vs| == 0 then 0
    else CountRewritten(vs[..|vs| - 1]) + (if Eligible(vs[|vs| - 1].decl) then 1 else 0)
  }

  /** Some visit rewrote its declaration. */
  predicate AnyRewritten(vs: seq<Candidate>)
  {
    if |vs| == 0 then false
    else AnyRewritten(vs[..|vs| - 1]) || Eligible(vs[|vs| - 1].decl)
  }

  /** Some visit reaches the missing body of its declaration, which makes the predicate throw. */
  predicate Faults(vs: seq<Candidate>)
  {
    if |vs| == 0 then false
    else Faults(vs[..|vs| - 1]) || ReadsMissingBody(vs[|vs| - 1].decl)
  }

  /** The number of classes with at least one rewritten declaration below them. */
  function ClassesTouched(classes: seq<Node>, n: nat): nat
    requires n <= |classes|
  {
    if n == 0 then 0
    else ClassesTouched(classes, n - 1) + (if AnyRewritten(MethodsIn(Children(classes[n - 1]))) then 1 else 0)
  }

  /** One replacement pass: every declaration whose handle is a key becomes the mapped value. */
  function ReplaceNodes(ns: seq<Node>, replacements: map<Handle, Declaration>): (r: seq<Node>)
    ensures |r| == |ns|
    decreases ns
  {
    if |ns| == 0 then []
    else
      var here := match ns[0]
        case Container(kind, head, members, tail) => Container(kind, head, ReplaceNodes(members, replacements), tail)
        case MethodOrOperator(h, d) => if h in replacements then MethodOrOperator(h, replacements[h]) else ns[0]
        case Leaf(_) => ns[0];
      [here] + ReplaceNodes(ns[1..], replacements)
  }

  /** The full text of a forest (ToFullString). */
  function RenderNodes(ns: seq<Node>): string
    decreases ns
  {
    if |ns| == 0 then ""
    else
      var here := match ns[0]
        case Container(_, head, members, tail) => RenderTokens(head) + RenderNodes(members) + RenderTokens(tail)
        case MethodOrOperator(_, d) => Render(d)
        case Leaf(ts) => RenderTokens(ts);
      here + RenderNodes(ns[1..])
  }

  // ---------------------------------------------------------------------------
  // The scan

  datatype FileOutcome =
    | Failed  // the predicate hit a declaration without a body; the file is left alone
    | Processed(
        updatedMethods: map<Handle, Declaration>,
        methodsModified: nat,
        classesModified: nat,
        fileModified: bool,
        newRoot: Node,
        newText: Option<string>)  // what is written back, when anything is

  /**
    What scanning a parsed file comes to: it fails when some visited declaration has no
    body; otherwise the map of rewritten declarations, the two counters, and the rebuilt
    tree and its text when the map is non-empty.
   */
  function ScanOutcome(root: Node): FileOutcome
  {
    var classes := ClassesIn(Children(root));
    var vs := Visits(classes, |classes|);
    if Faults(vs) then Failed
    else
      var updatedMethods := RewriteMap(vs);
      if |updatedMethods| > 0 then
        var newRoot := ReplaceNodes([root], updatedMethods)[0];
        Processed(updatedMethods, CountRewritten(vs), ClassesTouched(classes, |classes|), true, newRoot, Some(RenderNodes([newRoot])))
      else
        Processed(updatedMethods, CountRewritten(vs), ClassesTouched(classes, |classes|), false, root, None)
  }

  /**
    Scans the classes of a parsed file, rewrites every eligible method or operator below
    them, and rebuilds the tree when at least one was rewritten.
   */
  method ProcessFile(root: Node) returns (outcome: FileOutcome)
    ensures outcome == ScanOutcome(root)
  {
    var classes := ClassesIn(Children(root));
    var faulted, updatedMethods, methodsModified, classesModified := ProcessClasses(classes);
    if faulted {
      return Failed;
    }

    // Modify the file if there are any changes
    if |updatedMethods| > 0 {
      var newRoot := ReplaceNodes([root], updatedMethods)[0];
      outcome := Processed(updatedMethods, methodsModified, classesModified, true, newRoot, Some(RenderNodes([newRoot])));
    } else {
      outcome := Processed(updatedMethods, methodsModified, classesModified, false, root, None);
    }
  }

  /** The loop over the classes of a file, stopping at the first declaration without a body. */
  method ProcessClasses(classes: seq<Node>)
    returns (faulted: bool, updatedMethods: map<Handle, Declaration>, methodsModified: nat, classesModified: nat)
    ensures faulted == Faults(Visits(classes, |classes|))
    ensures !faulted ==>
              && updatedMethods == RewriteMap(Visits(classes, |classes|))
              && methodsModified == CountRewritten(Visits(classes, |classes|))
              && classesModified == ClassesTouched(classes, |classes|)
  {
    updatedMethods, methodsModified, classesModified := map[], 0, 0;
    var i := 0;
    while i < |classes|
      invariant 0 <= i <= |classes|
      invariant ClassesScanned(classes, i, updatedMethods, methodsModified, classesModified)
    {
      faulted, updatedMethods, methodsModified, classesModified :=
        ProcessClass(classes, i, updatedMethods, methodsModified, classesModified);
      if faulted {
        FaultIsVisited(classes, |classes|, i);
        return;
      }
      i := i + 1;
    }
    faulted := false;
  }

  /**
    The body of the scan for class i: each candidate below it goes through the rewrite; a
    rewritten one is recorded under its original node and counted, and the class is counted
    once when any candidate below it was rewritten.
   */
  method ProcessClass(classes: seq<Node>, i: nat,
                      updatedMethods: map<Handle, Declaration>, methodsModified: nat, classesModified: nat)
    returns (faulted: bool, updatedMethods': map<Handle, Declaration>, methodsModified': nat, classesModified': nat)
    requires i < |classes| && ClassesScanned(classes, i, updatedMethods, methodsModified, classesModified)
    ensures faulted == Faults(MethodsIn(Children(classes[i])))
    ensures !faulted ==> ClassesScanned(classes, i + 1, updatedMethods', methodsModified', classesModified')
  {
    var candidates := MethodsIn(Children(classes[i]));
    ghost var seen := Visits(classes, i);
    updatedMethods', methodsModified' := updatedMethods, methodsModified;
    var classModified := false;
    var j := 0;
    PrefixEmpty(seen, candidates);
    while j < |candidates|
      invariant 0 <= j <= |candidates|
      invariant CandidatesScanned(seen, candidates, j, updatedMethods', methodsModified', classModified)
    {
      var candidate := candidates[j];
      var status, updatedMethod := TransformEmptyMethodToExtern(candidate.decl);
      if status == NullReference {
        FaultAt(candidates, j);
        return true, updatedMethods', methodsModified', classesModified;
      }
      CandidateScanned(seen, candidates, j, updatedMethods', methodsModified', classModified);
      if status == Transformed {
        updatedMethods' := updatedMethods'[candidate.handle := updatedMethod];
        methodsModified' := methodsModified' + 1;
        classModified := true;
      }
      j := j + 1;
    }
    PrefixWhole(candidates);
    ClassScanned(classes, i, updatedMethods, methodsModified, classesModified, updatedMethods', methodsModified', classModified);
    faulted := false;
    classesModified' := classesModified + if classModified then 1 else 0;
  }

  // ---------------------------------------------------------------------------
  // Loop states of the scan

  /** What the scan holds after the first n classes: no fault yet, the map, the method count and the class count. */
  ghost predicate ClassesScanned(classes: seq<Node>, n: nat, m: map<Handle, Declaration>, count: nat, touched: nat)
    requires n <= |classes|
  {
    && !Faults(Visits(classes, n))
    && m == RewriteMap(Visits(classes, n))
    && count == CountRewritten(Visits(classes, n))
    && touched == ClassesTouched(classes, n)
  }

  lemma ClassScanned(classes: seq<Node>, i: nat, m: map<Handle, Declaration>, count: nat, touched: nat,
                     m': map<Handle, Declaration>, count': nat, any: bool)
    requires i < |classes| && ClassesScanned(classes, i, m, count, touched)
    requires var here := MethodsIn(Children(classes[i]));
             && !Faults(here)
             && m' == RewriteMap(Visits(classes, i) + here)
             && count' == CountRewritten(Visits(classes, i) + here)
             && any == AnyRewritten(here)
    ensures ClassesScanned(classes, i + 1, m', count', touched + if any then 1 else 0)
  {
    FaultsAppend(Visits(classes, i), MethodsIn(Children(classes[i])));
  }

  /** What the scan of one class holds after its first j candidates, on top of the visits `seen` before it. */
  ghost predicate CandidatesScanned(seen: seq<Candidate>, cs: seq<Candidate>, j: nat,
                                    m: map<Handle, Declaration>, count: nat, any: bool)
    requires j <= |cs|
  {
    && !Faults(cs[..j])
    && m == RewriteMap(seen + cs[..j])
    && count == CountRewritten(seen + cs[..j])
    && any == AnyRewritten(cs[..j])
  }

  lemma CandidateScanned(seen: seq<Candidate>, cs: seq<Candidate>, j: nat,
                         m: map<Handle, Declaration>, count: nat, any: bool)
    requires j < |cs| && CandidatesScanned(seen, cs, j, m, count, any)
    requires !ReadsMissingBody(cs[j].decl)
    ensures var c := cs[j];
            if Eligible(c.decl) then CandidatesScanned(seen, cs, j + 1, m[c.handle := ExternForm(c.decl)], count + 1, true)
            else CandidatesScanned(seen, cs, j + 1, m, count, any)
  {
    PrefixSnoc(seen, cs, j);
    ScanStep(seen + cs[..j], cs[j]);
    ScanStep(cs[..j], cs[j]);
    FaultsStep(cs[..j], cs[j]);
  }

  /** A declaration without a body anywhere among the candidates makes the whole class fault. */
  lemma FaultAt(cs: seq<Candidate>, j: nat)
    requires j < |cs| && ReadsMissingBody(cs[j].decl)
    ensures Faults(cs)
  {
    PrefixSnoc([], cs, j);
    FaultsStep(cs[..j], cs[j]);
    FaultsPrefix(cs, j + 1);
  }

  // ---------------------------------------------------------------------------
  // Facts the scan's proof rests on

  /** One more visit: how each fold over the visits changes. */
  lemma ScanStep(vs: seq<Candidate>, v: Candidate)
    ensures RewriteMap(vs + [v]) == if Eligible(v.decl) then RewriteMap(vs)[v.handle := ExternForm(v.decl)] else RewriteMap(vs)
    ensures CountRewritten(vs + [v]) == CountRewritten(vs) + if Eligible(v.decl) then 1 else 0
    ensures AnyRewritten(vs + [v]) == (AnyRewritten(vs) || Eligible(v.decl))
  {
    SnocParts(vs, v);
  }

  lemma FaultsStep(vs: seq<Candidate>, v: Candidate)
    ensures Faults(vs + [v]) == (Faults(vs) || ReadsMissingBody(v.decl))
  {
    SnocParts(vs, v);
  }

  lemma {:induction false} FaultsAppend(a: seq<Candidate>, b: seq<Candidate>)
    ensures Faults(a + b) == (Faults(a) || Faults(b))
    decreases |b|
  {
    if |b| == 0 {
      AppendEmpty(a, b);
    } else {
      DropLastOfAppend(a, b);
      IndexInAppend(a, b, |b| - 1);
      FaultsAppend(a, b[..|b| - 1]);
    }
  }

  lemma FaultsPrefix(vs: seq<Candidate>, k: nat)
    requires k <= |vs| && Faults(vs[..k])
    ensures Faults(vs)
  {
    SplitAt(vs, k);
    FaultsAppend(vs[..k], vs[k..]);
  }

  /** A declaration without a body below class i makes every later point of the scan fault. */
  lemma {:induction false} FaultIsVisited(classes: seq<Node>, n: nat, i: nat)
    requires i < n <= |classes| && Faults(MethodsIn(Children(classes[i])))
    ensures Faults(Visits(classes, n))
    decreases n
  {
    var before, here := Visits(classes, n - 1), MethodsIn(Children(classes[n - 1]));
    assert Visits(classes, n) == before + here;
    FaultsAppend(before, here);
    if i < n - 1 {
      FaultIsVisited(classes, n - 1, i);
    }
  }

  // ---------------------------------------------------------------------------
  // The folds, read as statements about single visits

  /** The scan fails exactly when some visited declaration has no body and is neither extern nor abstract. */
  lemma {:induction false} FaultsMeans(vs: seq<Candidate>)
    ensures Faults(vs) <==> exists i :: 0 <= i < |vs| && ReadsMissingBody(vs[i].decl)
    decreases |vs|
  {
    if |vs| > 0 {
      var vs' := vs[..|vs| - 1];
      FaultsMeans(vs');
      if Faults(vs') {
        var i :| 0 <= i < |vs'| && ReadsMissingBody(vs'[i].decl);
        assert vs[i] == vs'[i];
      }
      if !Faults(vs) {
        forall i | 0 <= i < |vs| ensures !ReadsMissingBody(vs[i].decl) {
          if i < |vs'| {
            assert vs'[i] == vs[i];
          }
        }
      }
    }
  }

  /** A class counts as modified exactly when some declaration below it was rewritten. */
  lemma {:induction false} AnyRewrittenMeans(vs: seq<Candidate>)
    ensures AnyRewritten(vs) <==> exists i :: 0 <= i < |vs| && Eligible(vs[i].decl)
    decreases |vs|
  {
    if |vs| > 0 {
      var vs' := vs[..|vs| - 1];
      AnyRewrittenMeans(vs');
      if AnyRewritten(vs') {
        var i :| 0 <= i < |vs'| && Eligible(vs'[i].decl);
        assert vs[i] == vs'[i];
      }
      if !AnyRewritten(vs) {
        forall i | 0 <= i < |vs| ensures !Eligible(vs[i].decl) {
          if i < |vs'| {
            assert vs'[i] == vs[i];
          }
        }
      }
    }
  }

  /** Visits of the same node carry the same declaration. */
  ghost predicate Consistent(vs: seq<Candidate>)
  {
    forall i, j :: 0 <= i < |vs| && 0 <= j < |vs| && vs[i].handle == vs[j].handle ==> vs[i].decl == vs[j].decl
  }

  /** Some visit of node h rewrote its declaration. */
  ghost predicate RewrittenVisitOf(vs: seq<Candidate>, h: Handle)
  {
    exists i :: 0 <= i < |vs| && vs[i].handle == h && Eligible(vs[i].decl)
  }

  lemma RewrittenVisitOfStep(vs: seq<Candidate>, h: Handle)
    requires |vs| > 0
    ensures var v := vs[|vs| - 1];
            RewrittenVisitOf(vs, h) <==> RewrittenVisitOf(vs[..|vs| - 1], h) || (v.handle == h && Eligible(v.decl))
  {
    var vs' := vs[..|vs| - 1];
    if RewrittenVisitOf(vs', h) {
      var i :| 0 <= i < |vs'| && vs'[i].handle == h && Eligible(vs'[i].decl);
      assert vs[i] == vs'[i];
    }
    if RewrittenVisitOf(vs, h) {
      var i :| 0 <= i < |vs| && vs[i].handle == h && Eligible(vs[i].decl);
      if i < |vs'| {
        assert vs'[i] == vs[i];
      }
    }
  }

  lemma ConsistentPrefix(vs: seq<Candidate>, k: nat)
    requires Consistent(vs) && k <= |vs|
    ensures Consistent(vs[..k])
  {
    forall a, b | 0 <= a < k && 0 <= b < k && vs[..k][a].handle == vs[..k][b].handle
      ensures vs[..k][a].decl == vs[..k][b].decl
    {
      assert vs[..k][a] == vs[a] && vs[..k][b] == vs[b];
    }
  }

  /** The map's keys are exactly the nodes some visit rewrote. */
  lemma {:induction false} RewriteMapKeys(vs: seq<Candidate>, h: Handle)
    ensures h in RewriteMap(vs) <==> RewrittenVisitOf(vs, h)
    decreases |vs|
  {
    if |vs| > 0 {
      RewriteMapKeys(vs[..|vs| - 1], h);
      RewrittenVisitOfStep(vs, h);
    }
  }

  /** When visits of a node agree, every rewritten visit's node is mapped to that declaration's extern form. */
  lemma {:induction false} RewriteMapValues(vs: seq<Candidate>, i: nat)
    requires Consistent(vs)
    requires i < |vs| && Eligible(vs[i].decl)
    ensures vs[i].handle in RewriteMap(vs)
    ensures RewriteMap(vs)[vs[i].handle] == ExternForm(vs[i].decl)
    decreases |vs|
  {
    var vs', v := vs[..|vs| - 1], vs[|vs| - 1];
    if !(v.handle == vs[i].handle && Eligible(v.decl)) {
      ConsistentPrefix(vs, |vs| - 1);
      assert vs'[i] == vs[i];
      RewriteMapValues(vs', i);
    }
  }

  /** Revisiting a node (as happens for declarations in nested classes) leaves the map as it was. */
  lemma RevisitKeepsMap(vs: seq<Candidate>, i: nat)
    requires Consistent(vs) && i < |vs|
    ensures RewriteMap(vs + [vs[i]]) == RewriteMap(vs)
  {
    var v := vs[i];
    ScanStep(vs, v);
    if Eligible(v.decl) {
      RewriteMapValues(vs, i);
    }
  }

  // ---------------------------------------------------------------------------
  // The counters

  /** Every map entry was written by at least one counted visit. */
  lemma {:induction false} MapSizeAtMostCount(vs: seq<Candidate>)
    ensures |RewriteMap(vs)| <= CountRewritten(vs)
    decreases |vs|
  {
    if |vs| > 0 {
      MapSizeAtMostCount(vs[..|vs| - 1]);
    }
  }

  /** Some visit was counted exactly when the map is non-empty. */
  lemma {:induction false} CountPositiveMeansMapNonEmpty(vs: seq<Candidate>)
    ensures CountRewritten(vs) > 0 <==> |RewriteMap(vs)| > 0
    decreases |vs|
  {
    MapSizeAtMostCount(vs);
    if |vs| > 0 {
      var vs', v := vs[..|vs| - 1], vs[|vs| - 1];
      CountPositiveMeansMapNonEmpty(vs');
      if Eligible(v.decl) {
        assert v.handle in RewriteMap(vs);
      } else if CountRewritten(vs') > 0 {
        var h :| h in RewriteMap(vs');
        assert h in RewriteMap(vs);
      }
    }
  }

  lemma {:induction false} CountRewrittenAppend(a: seq<Candidate>, b: seq<Candidate>)
    ensures CountRewritten(a + b) == CountRewritten(a) + CountRewritten(b)
    decreases |b|
  {
    if |b| == 0 {
      AppendEmpty(a, b);
    } else {
      DropLastOfAppend(a, b);
      IndexInAppend(a, b, |b| - 1);
      CountRewrittenAppend(a, b[..|b| - 1]);
    }
  }

  /** Some visit rewrote its declaration exactly when the count is positive. */
  lemma {:induction false} AnyRewrittenIsCounted(vs: seq<Candidate>)
    ensures AnyRewritten(vs) <==> CountRewritten(vs) > 0
    decreases |vs|
  {
    if |vs| > 0 {
      AnyRewrittenIsCounted(vs[..|vs| - 1]);
    }
  }

  /** A class is counted as modified only when it contributed at least one counted method. */
  lemma {:induction false} ClassesAtMostMethods(classes: seq<Node>, n: nat)
    requires n <= |classes|
    ensures ClassesTouched(classes, n) <= CountRewritten(Visits(classes, n))
    decreases n
  {
    if n == 0 {
      assert ClassesTouched(classes, n) == 0;
    } else {
      ClassesAtMostMethods(classes, n - 1);
      CountClassStep(classes, n);
      TouchedClassStep(classes, n);
      BoundStep(ClassesTouched(classes, n), ClassesTouched(classes, n - 1),
                CountRewritten(Visits(classes, n)), CountRewritten(Visits(classes, n - 1)),
                CountRewritten(MethodsIn(Children(classes[n - 1]))));
    }
  }

  /** A bound survives adding the same amount on both sides. */
  lemma BoundStep(touched: nat, touchedBefore: nat, count: nat, countBefore: nat, added: nat)
    requires touched <= touchedBefore + added && count == countBefore + added
    requires touchedBefore <= countBefore
    ensures touched <= count
  {
  }

  /** Class n - 1 adds at most as many modified classes as it adds counted methods. */
  lemma TouchedClassStep(classes: seq<Node>, n: nat)
    requires 0 < n <= |classes|
    ensures ClassesTouched(classes, n)
            <= ClassesTouched(classes, n - 1) + CountRewritten(MethodsIn(Children(classes[n - 1])))
  {
    AnyRewrittenIsCounted(MethodsIn(Children(classes[n - 1])));
  }

  /** The count after class n - 1 adds the count of the declarations below it. */
  lemma CountClassStep(classes: seq<Node>, n: nat)
    requires 0 < n <= |classes|
    ensures CountRewritten(Visits(classes, n))
            == CountRewritten(Visits(classes, n - 1)) + CountRewritten(MethodsIn(Children(classes[n - 1])))
  {
    CountRewrittenAppend(Visits(classes, n - 1), MethodsIn(Children(classes[n - 1])));
  }

  // ---------------------------------------------------------------------------
  // Which declarations the scan reaches

  /** Some declaration below one of the nodes ks is c. */
  ghost predicate BelowSomeClass(ks: seq<Node>, c: Candidate)
  {
    exists i :: 0 <= i < |ks| && c in MethodsIn(Children(ks[i]))
  }

  /** A declaration below class i is among the visits of every later point of the scan. */
  lemma {:induction false} VisitsContain(classes: seq<Node>, n: nat, i: nat, c: Candidate)
    requires i < n <= |classes| && c in MethodsIn(Children(classes[i]))
    ensures c in Visits(classes, n)
    decreases n
  {
    if i < n - 1 {
      VisitsContain(classes, n - 1, i, c);
    }
  }

  /** Every visit is a declaration below one of the classes visited so far. */
  lemma {:induction false} VisitedBelow(classes: seq<Node>, n: nat, c: Candidate) returns (i: nat)
    requires n <= |classes| && c in Visits(classes, n)
    ensures i < n && c in MethodsIn(Children(classes[i]))
    decreases n
  {
    if c in MethodsIn(Children(classes[n - 1])) {
      i := n - 1;
    } else {
      i := VisitedBelow(classes, n - 1, c);
    }
  }

  /** The scan visits exactly the declarations below the classes it scans. */
  lemma InVisits(classes: seq<Node>, c: Candidate)
    ensures c in Visits(classes, |classes|) <==> BelowSomeClass(classes, c)
  {
    if c in Visits(classes, |classes|) {
      var i := VisitedBelow(classes, |classes|, c);
    }
    if BelowSomeClass(classes, c) {
      var i :| 0 <= i < |classes| && c in MethodsIn(Children(classes[i]));
      VisitsContain(classes, |classes|, i, c);
    }
  }

  lemma BelowAppend(a: seq<Node>, b: seq<Node>, c: Candidate)
    ensures BelowSomeClass(a + b, c) <==> BelowSomeClass(a, c) || BelowSomeClass(b, c)
  {
    if BelowSomeClass(a + b, c) {
      var i :| 0 <= i < |a + b| && c in MethodsIn(Children((a + b)[i]));
      if i < |a| {
        IndexInAppend(a, b, i);
      } else {
        IndexInAppend(a, b, i - |a|);
      }
    }
    if BelowSomeClass(a, c) {
      var i :| 0 <= i < |a| && c in MethodsIn(Children(a[i]));
      IndexInAppend(a, b, i);
    }
    if BelowSomeClass(b, c) {
      var i :| 0 <= i < |b| && c in MethodsIn(Children(b[i]));
      IndexInAppend(a, b, i);
    }
  }

  /**
    A declaration lies inside a class exactly when it is below some class declaration of the
    forest, or the forest itself is inside a class.
   */
  lemma {:induction false} InsideClassesMeans(ns: seq<Node>, insideClass: bool, c: Candidate)
    ensures c in MethodsInsideClasses(ns, insideClass)
            <==> (insideClass && c in MethodsIn(ns)) || BelowSomeClass(ClassesIn(ns), c)
    decreases ns
  {
    if |ns| > 0 {
      var rest := ns[1..];
      InsideClassesMeans(rest, insideClass, c);
      match ns[0]
      case Container(kind, _, members, _) =>
        var own := if kind == Class then [ns[0]] else [];
        InsideClassesMeans(members, insideClass || kind == Class, c);
        BelowAppend(own + ClassesIn(members), ClassesIn(rest), c);
        BelowAppend(own, ClassesIn(members), c);
        if kind == Class {
          assert BelowSomeClass(own, c) <==> c in MethodsIn(members) by {
            assert own[0] == ns[0];
          }
        }
      case MethodOrOperator(_, _) =>
        BelowAppend([], ClassesIn(rest), c);
      case Leaf(_) =>
        BelowAppend([], ClassesIn(rest), c);
    }
  }

  /** The scan visits exactly the declarations that lie inside some class of the file. */
  lemma ScanVisitsClassMembers(root: Node, c: Candidate)
    ensures var classes := ClassesIn(Children(root));
            c in Visits(classes, |classes|) <==> c in MethodsInsideClasses(Children(root), false)
  {
    InVisits(ClassesIn(Children(root)), c);
    InsideClassesMeans(Children(root), false, c);
  }

  /** Declarations inside classes are among the forest's declarations. */
  lemma {:induction false} InsideIsAmongMethods(ns: seq<Node>, insideClass: bool, c: Candidate)
    requires c in MethodsInsideClasses(ns, insideClass)
    ensures c in MethodsIn(ns)
    decreases ns
  {
    assert |ns| > 0;
    var rest := ns[1..];
    if c in MethodsInsideClasses(rest, insideClass) {
      InsideIsAmongMethods(rest, insideClass, c);
    }
    match ns[0]
    case Container(kind, _, members, _) =>
      if c in MethodsInsideClasses(members, insideClass || kind == Class) {
        InsideIsAmongMethods(members, insideClass || kind == Class, c);
      }
    case MethodOrOperator(_, _) =>
    case Leaf(_) =>
  }

  // ---------------------------------------------------------------------------
  // What the file's replacement map holds

  /** Distinct declaration nodes of the file have distinct handles (the map is keyed by node identity). */
  ghost predicate DistinctHandles(root: Node)
  {
    var ms := MethodsIn(Children(root));
    forall i, j :: 0 <= i < j < |ms| ==> ms[i].handle != ms[j].handle
  }

  /** Every visit is one of the file's declarations. */
  lemma VisitIsDeclaration(root: Node, c: Candidate)
    requires var classes := ClassesIn(Children(root)); c in Visits(classes, |classes|)
    ensures c in MethodsIn(Children(root))
  {
    ScanVisitsClassMembers(root, c);
    InsideIsAmongMethods(Children(root), false, c);
  }

  /** Visits of the same node see the same declaration. */
  lemma VisitsConsistent(root: Node)
    requires DistinctHandles(root)
    ensures var classes := ClassesIn(Children(root)); Consistent(Visits(classes, |classes|))
  {
    var classes := ClassesIn(Children(root));
    var vs, ms := Visits(classes, |classes|), MethodsIn(Children(root));
    forall a, b | 0 <= a < |vs| && 0 <= b < |vs| && vs[a].handle == vs[b].handle
      ensures vs[a].decl == vs[b].decl
    {
      VisitIsDeclaration(root, vs[a]);
      VisitIsDeclaration(root, vs[b]);
      var x :| 0 <= x < |ms| && ms[x] == vs[a];
      var y :| 0 <= y < |ms| && ms[y] == vs[b];
      assert x == y;
    }
  }

  /**
    A declaration inside a class is a key of the file's replacement map exactly when it is
    rewritten, and then it is mapped to its extern form.
   */
  lemma ScanRewritesClassMembers(root: Node, c: Candidate)
    requires DistinctHandles(root)
    requires ScanOutcome(root).Processed?
    requires c in MethodsInsideClasses(Children(root), false)
    ensures c.handle in ScanOutcome(root).updatedMethods <==> Eligible(c.decl)
    ensures Eligible(c.decl) ==> ScanOutcome(root).updatedMethods[c.handle] == ExternForm(c.decl)
  {
    var classes := ClassesIn(Children(root));
    var vs := Visits(classes, |classes|);
    assert ScanOutcome(root).updatedMethods == RewriteMap(vs);
    ScanVisitsClassMembers(root, c);
    var j :| 0 <= j < |vs| && vs[j] == c;
    VisitsConsistent(root);
    RewriteMapKeys(vs, c.handle);
    if Eligible(c.decl) {
      RewriteMapValues(vs, j);
    }
    if c.handle in RewriteMap(vs) {
      var i :| 0 <= i < |vs| && vs[i].handle == c.handle && Eligible(vs[i].decl);
      assert vs[i].decl == vs[j].decl;
    }
  }

  /** Every key of the file's replacement map is a rewritten declaration inside a class. */
  lemma ScanRewritesOnlyClassMembers(root: Node, h: Handle)
    requires ScanOutcome(root).Processed?
    requires h in ScanOutcome(root).updatedMethods
    ensures exists c :: c in MethodsInsideClasses(Children(root), false) && c.handle == h && Eligible(c.decl)
  {
    var classes := ClassesIn(Children(root));
    var vs := Visits(classes, |classes|);
    assert ScanOutcome(root).updatedMethods == RewriteMap(vs);
    RewriteMapKeys(vs, h);
    var i :| 0 <= i < |vs| && vs[i].handle == h && Eligible(vs[i].decl);
    ScanVisitsClassMembers(root, vs[i]);
  }

  // ---------------------------------------------------------------------------
  // The replacement pass and a second scan

  /** A declaration as the replacement pass leaves it. */
  function Replaced(c: Candidate, replacements: map<Handle, Declaration>): Candidate
  {
    if c.handle in replacements then Candidate(c.handle, replacements[c.handle]) else c
  }

  /** The first node of a replaced forest is the replaced first node, and the rest is the replaced rest. */
  lemma ReplaceNodesCons(ns: seq<Node>, m: map<Handle, Declaration>)
    requires |ns| > 0
    ensures ReplaceNodes(ns, m)[1..] == ReplaceNodes(ns[1..], m)
    ensures ns[0].Container? ==> ReplaceNodes(ns, m)[0] == ns[0].(members := ReplaceNodes(ns[0].members, m))
    ensures ns[0].MethodOrOperator? ==>
              ReplaceNodes(ns, m)[0] == if ns[0].handle in m then ns[0].(decl := m[ns[0].handle]) else ns[0]
    ensures ns[0].Leaf? ==> ReplaceNodes(ns, m)[0] == ns[0]
  {
    var r := ReplaceNodes(ns, m);
    DropCons(r[0], ReplaceNodes(ns[1..], m));
  }

  /** The rebuilt root's children are the replaced children of the old root. */
  lemma NewRootChildren(root: Node, m: map<Handle, Declaration>)
    ensures Children(ReplaceNodes([root], m)[0]) == ReplaceNodes(Children(root), m)
  {
    ReplaceNodesCons([root], m);
  }

  /** Each declaration inside a class of a replaced forest is a replaced declaration inside a class of the original. */
  lemma {:induction false} ReplacedFrom(ns: seq<Node>, insideClass: bool, m: map<Handle, Declaration>, c': Candidate)
    returns (c: Candidate)
    requires c' in MethodsInsideClasses(ReplaceNodes(ns, m), insideClass)
    ensures c in MethodsInsideClasses(ns, insideClass) && c' == Replaced(c, m)
    decreases ns
  {
    assert |ns| > 0;
    var rest := ns[1..];
    ReplaceNodesCons(ns, m);
    if c' in MethodsInsideClasses(ReplaceNodes(rest, m), insideClass) {
      c := ReplacedFrom(rest, insideClass, m, c');
    } else {
      match ns[0]
      case Container(kind, _, members, _) =>
        c := ReplacedFrom(members, insideClass || kind == Class, m, c');
      case MethodOrOperator(h, d) =>
        c := Candidate(h, d);
      case Leaf(_) =>
        assert false;
    }
  }

  /** After the rewrite, a declaration the second scan visits is neither rewritable nor missing its body. */
  lemma RescanVisitIsSettled(root: Node, c': Candidate)
    requires DistinctHandles(root)
    requires ScanOutcome(root).Processed?
    requires var newRoot := ScanOutcome(root).newRoot;
             var classes := ClassesIn(Children(newRoot));
             c' in Visits(classes, |classes|)
    ensures !Eligible(c'.decl) && !ReadsMissingBody(c'.decl)
  {
    var first := ScanOutcome(root);
    var m := first.updatedMethods;
    var classes := ClassesIn(Children(root));
    var vs := Visits(classes, |classes|);
    assert !Faults(vs) && m == RewriteMap(vs);
    ScanVisitsClassMembers(first.newRoot, c');
    var c := c';
    if |m| > 0 {
      NewRootChildren(root, m);
      c := ReplacedFrom(Children(root), false, m, c');
    }
    ScanRewritesClassMembers(root, c);
    if c.handle in m {
      RewriteProperties.TransformIdempotent(c.decl);
    } else {
      ScanVisitsClassMembers(root, c);
      FaultsMeans(vs);
      var k :| 0 <= k < |vs| && vs[k] == c;
    }
  }

  /**
    Running the scan again on the rewritten tree changes nothing: it does not fail, rewrites
    no declaration, counts no method or class and does not modify the file.
   */
  lemma ScanIdempotent(root: Node)
    requires DistinctHandles(root)
    requires ScanOutcome(root).Processed?
    ensures var again := ScanOutcome(ScanOutcome(root).newRoot);
            && again.Processed?
            && |again.updatedMethods| == 0
            && again.methodsModified == 0
            && again.classesModified == 0
            && !again.fileModified
  {
    var classes := ClassesIn(Children(ScanOutcome(root).newRoot));
    var vs := Visits(classes, |classes|);
    forall i | 0 <= i < |vs|
      ensures !Eligible(vs[i].decl) && !ReadsMissingBody(vs[i].decl)
    {
      RescanVisitIsSettled(root, vs[i]);
    }
    FaultsMeans(vs);
    AnyRewrittenMeans(vs);
    AnyRewrittenIsCounted(vs);
    CountPositiveMeansMapNonEmpty(vs);
    ClassesAtMostMethods(classes, |classes|);
  }

  // ---------------------------------------------------------------------------
  // The scan's outcome

  /** The scan of a file fails exactly when some declaration inside a class has no body and is neither extern nor abstract. */
  lemma ScanFails(root: Node)
    ensures ScanOutcome(root).Failed?
            <==> exists c :: c in MethodsInsideClasses(Children(root), false) && ReadsMissingBody(c.decl)
  {
    var classes := ClassesIn(Children(root));
    var vs := Visits(classes, |classes|);
    FaultsMeans(vs);
    if Faults(vs) {
      var i :| 0 <= i < |vs| && ReadsMissingBody(vs[i].decl);
      ScanVisitsClassMembers(root, vs[i]);
    }
    if exists c :: c in MethodsInsideClasses(Children(root), false) && ReadsMissingBody(c.decl) {
      var c :| c in MethodsInsideClasses(Children(root), false) && ReadsMissingBody(c.decl);
      ScanVisitsClassMembers(root, c);
      var i :| 0 <= i < |vs| && vs[i] == c;
    }
  }

  /** A scanned file is modified exactly when some declaration inside a class is rewritten. */
  lemma ScanModifiesFile(root: Node)
    requires ScanOutcome(root).Processed?
    ensures ScanOutcome(root).fileModified
            <==> exists c :: c in MethodsInsideClasses(Children(root), false) && Eligible(c.decl)
  {
    var classes := ClassesIn(Children(root));
    var vs := Visits(classes, |classes|);
    CountPositiveMeansMapNonEmpty(vs);
    AnyRewrittenIsCounted(vs);
    AnyRewrittenMeans(vs);
    if AnyRewritten(vs) {
      var i :| 0 <= i < |vs| && Eligible(vs[i].decl);
      ScanVisitsClassMembers(root, vs[i]);
    }
    if exists c :: c in MethodsInsideClasses(Children(root), false) && Eligible(c.decl) {
      var c :| c in MethodsInsideClasses(Children(root), false) && Eligible(c.decl);
      ScanVisitsClassMembers(root, c);
      var i :| 0 <= i < |vs| && vs[i] == c;
    }
  }

  /**
    The counters agree with the map and with each other: a map entry per rewritten node at
    most, a class counted only for a rewritten method below it, and the file written exactly
    when some method was counted.
   */
  lemma ScanCounters(root: Node)
    requires ScanOutcome(root).Processed?
    ensures var outcome := ScanOutcome(root);
            && |outcome.updatedMethods| <= outcome.methodsModified
            && outcome.classesModified <= outcome.methodsModified
            && (outcome.fileModified <==> outcome.methodsModified > 0)
            && (outcome.newText.Some? <==> outcome.fileModified)
  {
    var classes := ClassesIn(Children(root));
    var vs := Visits(classes, |classes|);
    MapSizeAtMostCount(vs);
    ClassesAtMostMethods(classes, |classes|);
    CountPositiveMeansMapNonEmpty(vs);
  }

  // ---------------------------------------------------------------------------
  // What the replacement pass keeps and what it changes

  /** Each declaration of a list as the replacement pass leaves it. */
  function ReplaceAll(cs: seq<Candidate>, replacements: map<Handle, Declaration>): seq<Candidate>
    decreases |cs|
  {
    if |cs| == 0 then [] else [Replaced(cs[0], replacements)] + ReplaceAll(cs[1..], replacements)
  }

  /** Position by position, the replaced list holds the replaced declaration. */
  lemma {:induction false} ReplaceAllAt(cs: seq<Candidate>, replacements: map<Handle, Declaration>, i: nat)
    requires i < |cs|
    ensures |ReplaceAll(cs, replacements)| == |cs|
    ensures ReplaceAll(cs, replacements)[i] == Replaced(cs[i], replacements)
    decreases |cs|
  {
    ReplaceAllLength(cs, replacements);
    if i > 0 {
      ReplaceAllAt(cs[1..], replacements, i - 1);
    }
  }

  lemma {:induction false} ReplaceAllLength(cs: seq<Candidate>, replacements: map<Handle, Declaration>)
    ensures |ReplaceAll(cs, replacements)| == |cs|
    decreases |cs|
  {
    if |cs| > 0 {
      ReplaceAllLength(cs[1..], replacements);
    }
  }

  lemma {:induction false} ReplaceAllAppend(a: seq<Candidate>, b: seq<Candidate>, replacements: map<Handle, Declaration>)
    ensures ReplaceAll(a + b, replacements) == ReplaceAll(a, replacements) + ReplaceAll(b, replacements)
    decreases |a|
  {
    if |a| == 0 {
      EmptyAppend(a, b);
      EmptyAppend(ReplaceAll(a, replacements), ReplaceAll(b, replacements));
    } else {
      ConsAppend(a, b);
      ReplaceAllAppend(a[1..], b, replacements);
      Assoc([Replaced(a[0], replacements)], ReplaceAll(a[1..], replacements), ReplaceAll(b, replacements));
    }
  }

  /**
    The declarations inside classes of a replaced forest are those of the original forest, in
    the same order, each replaced by its mapped value when it has one.
   */
  lemma {:induction false} ReplacedMembers(ns: seq<Node>, insideClass: bool, replacements: map<Handle, Declaration>)
    ensures MethodsInsideClasses(ReplaceNodes(ns, replacements), insideClass)
            == ReplaceAll(MethodsInsideClasses(ns, insideClass), replacements)
    decreases ns
  {
    if |ns| > 0 {
      var rest := ns[1..];
      ReplaceNodesCons(ns, replacements);
      ReplacedMembers(rest, insideClass, replacements);
      var here := match ns[0]
        case Container(kind, _, members, _) => MethodsInsideClasses(members, insideClass || kind == Class)
        case MethodOrOperator(h, d) => if insideClass then [Candidate(h, d)] else []
        case Leaf(_) => [];
      ReplaceAllAppend(here, MethodsInsideClasses(rest, insideClass), replacements);
      match ns[0]
      case Container(kind, _, members, _) =>
        ReplacedMembers(members, insideClass || kind == Class, replacements);
      case MethodOrOperator(h, d) =>
        if insideClass {
          DropCons(Replaced(Candidate(h, d), replacements), ReplaceAll([], replacements));
        }
      case Leaf(_) =>
    }
  }

  /** Seen from a forest that is already inside a class, every declaration is inside a class. */
  lemma {:induction false} AllInsideClass(ns: seq<Node>)
    ensures MethodsInsideClasses(ns, true) == MethodsIn(ns)
    decreases ns
  {
    if |ns| > 0 {
      AllInsideClass(ns[1..]);
      match ns[0]
      case Container(_, _, members, _) => AllInsideClass(members);
      case MethodOrOperator(_, _) =>
      case Leaf(_) =>
    }
  }

  /**
    The declarations of a replaced forest are those of the original, in the same order and
    just as many, each replaced by its mapped value when it has one.
   */
  lemma ReplacedMethods(ns: seq<Node>, replacements: map<Handle, Declaration>, i: nat)
    requires i < |MethodsIn(ns)|
    ensures |MethodsIn(ReplaceNodes(ns, replacements))| == |MethodsIn(ns)|
    ensures MethodsIn(ReplaceNodes(ns, replacements))[i] == Replaced(MethodsIn(ns)[i], replacements)
  {
    AllInsideClass(ns);
    AllInsideClass(ReplaceNodes(ns, replacements));
    ReplacedMembers(ns, true, replacements);
    ReplaceAllAt(MethodsIn(ns), replacements, i);
  }

  /** A pass whose map has no key among the forest's declarations gives back the same forest. */
  lemma {:induction false} ReplaceNothing(ns: seq<Node>, replacements: map<Handle, Declaration>)
    requires forall c :: c in MethodsIn(ns) ==> c.handle !in replacements
    ensures ReplaceNodes(ns, replacements) == ns
    decreases ns
  {
    if |ns| > 0 {
      var rest := ns[1..];
      var r := ReplaceNodes(ns, replacements);
      ReplaceNodesCons(ns, replacements);
      var here := match ns[0]
        case Container(_, _, members, _) => MethodsIn(members)
        case MethodOrOperator(h, d) => [Candidate(h, d)]
        case Leaf(_) => [];
      assert MethodsIn(ns) == here + MethodsIn(rest);
      forall c | c in MethodsIn(rest) ensures c.handle !in replacements {
        assert c in MethodsIn(ns);
      }
      ReplaceNothing(rest, replacements);
      HeadTail(r);
      HeadTail(ns);
      match ns[0]
      case Container(_, _, members, _) =>
        forall c | c in MethodsIn(members) ensures c.handle !in replacements {
          assert c in MethodsIn(ns);
        }
        ReplaceNothing(members, replacements);
      case MethodOrOperator(h, d) =>
        assert Candidate(h, d) in MethodsIn(ns);
      case Leaf(_) =>
    }
  }

  /** A piece of a file's text: text outside every declaration, or one declaration. */
  datatype Piece = Fixed(text: string) | Decl(candidate: Candidate)

  /**
    A forest's text cut into pieces in document order: the tokens of containers and leaves
    are fixed text, each method or operator declaration is a piece of its own.
   */
  function Pieces(ns: seq<Node>): seq<Piece>
    decreases ns
  {
    if |ns| == 0 then []
    else
      var here := match ns[0]
        case Container(_, head, members, tail) => [Fixed(RenderTokens(head))] + Pieces(members) + [Fixed(RenderTokens(tail))]
        case MethodOrOperator(h, d) => [Decl(Candidate(h, d))]
        case Leaf(ts) => [Fixed(RenderTokens(ts))];
      here + Pieces(ns[1..])
  }

  function PieceText(p: Piece): string
  {
    match p
    case Fixed(t) => t
    case Decl(c) => Render(c.decl)
  }

  /** The text of a list of pieces. */
  function PiecesText(ps: seq<Piece>): string
    decreases |ps|
  {
    if |ps| == 0 then "" else PieceText(ps[0]) + PiecesText(ps[1..])
  }

  function ReplacePiece(p: Piece, replacements: map<Handle, Declaration>): Piece
  {
    match p
    case Fixed(_) => p
    case Decl(c) => Decl(Replaced(c, replacements))
  }

  /** The pieces after the replacement pass would have left them: fixed text kept, declarations replaced. */
  function ReplacePieces(ps: seq<Piece>, replacements: map<Handle, Declaration>): seq<Piece>
    decreases |ps|
  {
    if |ps| == 0 then []
    else
      [ReplacePiece(ps[0], replacements)] + ReplacePieces(ps[1..], replacements)
  }

  /** Position by position, fixed text stays as it is and each declaration is replaced. */
  lemma {:induction false} ReplacePiecesAt(ps: seq<Piece>, replacements: map<Handle, Declaration>, i: nat)
    requires i < |ps|
    ensures |ReplacePieces(ps, replacements)| == |ps|
    ensures ps[i].Fixed? ==> ReplacePieces(ps, replacements)[i] == ps[i]
    ensures ps[i].Decl? ==> ReplacePieces(ps, replacements)[i] == Decl(Replaced(ps[i].candidate, replacements))
    decreases |ps|
  {
    ReplacePiecesLength(ps, replacements);
    if i > 0 {
      ReplacePiecesAt(ps[1..], replacements, i - 1);
    }
  }

  lemma {:induction false} ReplacePiecesLength(ps: seq<Piece>, replacements: map<Handle, Declaration>)
    ensures |ReplacePieces(ps, replacements)| == |ps|
    decreases |ps|
  {
    if |ps| > 0 {
      ReplacePiecesLength(ps[1..], replacements);
    }
  }

  lemma {:induction false} PiecesTextAppend(a: seq<Piece>, b: seq<Piece>)
    ensures PiecesText(a + b) == PiecesText(a) + PiecesText(b)
    decreases |a|
  {
    if |a| == 0 {
      EmptyAppend(a, b);
      EmptyAppend(PiecesText(a), PiecesText(b));
    } else {
      ConsAppend(a, b);
      PiecesTextAppend(a[1..], b);
      Assoc(PieceText(a[0]), PiecesText(a[1..]), PiecesText(b));
    }
  }

  lemma {:induction false} ReplacePiecesAppend(a: seq<Piece>, b: seq<Piece>, replacements: map<Handle, Declaration>)
    ensures ReplacePieces(a + b, replacements) == ReplacePieces(a, replacements) + ReplacePieces(b, replacements)
    decreases |a|
  {
    if |a| == 0 {
      EmptyAppend(a, b);
      EmptyAppend(ReplacePieces(a, replacements), ReplacePieces(b, replacements));
    } else {
      ConsAppend(a, b);
      ReplacePiecesAppend(a[1..], b, replacements);
      Assoc([ReplacePiece(a[0], replacements)], ReplacePieces(a[1..], replacements), ReplacePieces(b, replacements));
    }
  }

  lemma FixedText(t: string)
    ensures PiecesText([Fixed(t)]) == t
  {
    assert [Fixed(t)][1..] == [];
  }

  /** A forest's full text is the text of its pieces. */
  lemma {:induction false} TextIsPieces(ns: seq<Node>)
    ensures RenderNodes(ns) == PiecesText(Pieces(ns))
    decreases ns
  {
    if |ns| > 0 {
      var rest := ns[1..];
      TextIsPieces(rest);
      var here := match ns[0]
        case Container(_, head, members, tail) => [Fixed(RenderTokens(head))] + Pieces(members) + [Fixed(RenderTokens(tail))]
        case MethodOrOperator(h, d) => [Decl(Candidate(h, d))]
        case Leaf(ts) => [Fixed(RenderTokens(ts))];
      PiecesTextAppend(here, Pieces(rest));
      match ns[0]
      case Container(_, head, members, tail) =>
        TextIsPieces(members);
        PiecesTextAppend([Fixed(RenderTokens(head))], Pieces(members));
        PiecesTextAppend([Fixed(RenderTokens(head))] + Pieces(members), [Fixed(RenderTokens(tail))]);
        FixedText(RenderTokens(head));
        FixedText(RenderTokens(tail));
      case MethodOrOperator(h, d) =>
        assert [Decl(Candidate(h, d))][1..] == [];
      case Leaf(ts) =>
        FixedText(RenderTokens(ts));
    }
  }

  /**
    The replacement pass keeps every piece of fixed text where it was and only swaps
    declarations: the pieces of the replaced forest are the original pieces, replaced.
   */
  lemma {:induction false} ReplaceKeepsFixedText(ns: seq<Node>, replacements: map<Handle, Declaration>)
    ensures Pieces(ReplaceNodes(ns, replacements)) == ReplacePieces(Pieces(ns), replacements)
    decreases ns
  {
    if |ns| > 0 {
      var rest := ns[1..];
      var r := ReplaceNodes(ns, replacements);
      ReplaceNodesCons(ns, replacements);
      ReplaceKeepsFixedText(rest, replacements);
      var here := match ns[0]
        case Container(_, head, members, tail) => [Fixed(RenderTokens(head))] + Pieces(members) + [Fixed(RenderTokens(tail))]
        case MethodOrOperator(h, d) => [Decl(Candidate(h, d))]
        case Leaf(ts) => [Fixed(RenderTokens(ts))];
      ReplacePiecesAppend(here, Pieces(rest), replacements);
      match ns[0]
      case Container(_, head, members, tail) =>
        ReplaceKeepsFixedText(members, replacements);
        ReplacePiecesAppend([Fixed(RenderTokens(head))], Pieces(members), replacements);
        ReplacePiecesAppend([Fixed(RenderTokens(head))] + Pieces(members), [Fixed(RenderTokens(tail))], replacements);
        assert ReplacePieces([Fixed(RenderTokens(head))], replacements) == [Fixed(RenderTokens(head))];
        assert ReplacePieces([Fixed(RenderTokens(tail))], replacements) == [Fixed(RenderTokens(tail))];
      case MethodOrOperator(h, d) =>
        assert ReplacePieces([Decl(Candidate(h, d))], replacements) == [Decl(Replaced(Candidate(h, d), replacements))];
      case Leaf(ts) =>
        assert ReplacePieces([Fixed(RenderTokens(ts))], replacements) == [Fixed(RenderTokens(ts))];
    }
  }

  /**
    Each declaration inside a class appears in the rebuilt tree in its place: as its extern form
    when it is eligible, unchanged otherwise.
   */
  lemma ScanReplacesClassMembers(root: Node, i: nat)
    requires DistinctHandles(root)
    requires ScanOutcome(root).Processed?
    requires i < |MethodsInsideClasses(Children(root), false)|
    ensures var c := MethodsInsideClasses(Children(root), false)[i];
            var after := MethodsInsideClasses(Children(ScanOutcome(root).newRoot), false);
            && |after| == |MethodsInsideClasses(Children(root), false)|
            && after[i] == Candidate(c.handle, if Eligible(c.decl) then ExternForm(c.decl) else c.decl)
  {
    var outcome := ScanOutcome(root);
    var m := outcome.updatedMethods;
    var before := MethodsInsideClasses(Children(root), false);
    var c := before[i];
    ScanRewritesClassMembers(root, c);
    if |m| > 0 {
      NewRootChildren(root, m);
      ReplacedMembers(Children(root), false, m);
      ReplaceAllAt(before, m, i);
    }
  }

  /**
    The rewritten file's text is the original file's pieces with every piece outside the
    declarations kept byte for byte and each declaration inside a class swapped for its
    rewritten text; an unmodified file keeps its tree.
   */
  lemma ScanKeepsTextOutsideDeclarations(root: Node)
    requires ScanOutcome(root).Processed?
    ensures var outcome := ScanOutcome(root);
            && RenderNodes([root]) == PiecesText(Pieces([root]))
            && (outcome.fileModified ==>
                  outcome.newText == Some(PiecesText(ReplacePieces(Pieces([root]), outcome.updatedMethods))))
            && (!outcome.fileModified ==> outcome.newRoot == root && outcome.newText.None?)
  {
    var outcome := ScanOutcome(root);
    TextIsPieces([root]);
    if outcome.fileModified {
      TextIsPieces([outcome.newRoot]);
      ReplaceKeepsFixedText([root], outcome.updatedMethods);
      var r := ReplaceNodes([root], outcome.updatedMethods);
      assert r == [outcome.newRoot] by {
        HeadTail(r);
      }
    }
  }
}
