/** When the ledger's keys are distinct, stated in the program's own terms:
    every declaration that records a key sits at its own source position,
    and no name the pass reads ends in a digit. Then the depth theorem of
    `Properties` applies to the whole file. */
module Uniqueness {
  import opened Ast
  import opened Keys
  import opened Pass
  import opened Properties

  /** A declaration that records a key: its name and its position. */
  datatype Decl = Decl(name: string, pos: nat)

  /** The first value name belongs to one of the group's value specs. */
  lemma {:induction false} FirstValueNameIn(specs: seq<Kind>)
    ensures var n := FirstValueName(specs);
      n.Some? ==> exists i :: 0 <= i < |specs| && specs[i].ValueSpec? && specs[i].names[0] == n.value
  {
    if specs != [] && !specs[0].ValueSpec? {
      FirstValueNameIn(specs[1..]);
      var n := FirstValueName(specs);
      if n.Some? {
        var i :| 0 <= i < |specs[1..]| && specs[1..][i].ValueSpec? && specs[1..][i].names[0] == n.value;
        assert specs[i + 1] == specs[1..][i];
      }
    }
  }

  /** The declaration whose key Visit records at a node, if any. */
  function VisitDecl(kind: Kind, specs: seq<Kind>): Option<Decl> {
    match kind
    case FuncDecl(name, pos) => Some(Decl(name, pos))
    case GenDecl(pos) =>
      var n := FirstValueName(specs);
      if n.Some? then Some(Decl(n.value, pos)) else None
    case _ => None
  }

  function DeclList(d: Option<Decl>): seq<Decl> {
    if d.Some? then [d.value] else []
  }

  /** The declarations whose keys `ast.Walk` records in `t`, in visiting order. */
  function Decls(t: Tree): seq<Decl> {
    DeclList(VisitDecl(t.kind, Kinds(t.children))) + DeclsList(t.children)
  }

  function DeclsList(ts: seq<Tree>): seq<Decl> {
    if ts == [] then [] else DeclsList(ts[..|ts| - 1]) + Decls(ts[|ts| - 1])
  }

  function KeysOf(ds: seq<Decl>): (r: seq<string>)
    ensures |r| == |ds|
  {
    seq(|ds|, i requires 0 <= i < |ds| => Key(ds[i].name, ds[i].pos))
  }

  lemma KeysOfAppend(a: seq<Decl>, b: seq<Decl>)
    ensures KeysOf(a + b) == KeysOf(a) + KeysOf(b)
  {
  }

  /** The keys a walk records are the keys of its declarations. */
  lemma {:induction false} WalkKeysDecls(t: Tree)
    ensures WalkKeys(t) == KeysOf(Decls(t))
    decreases t, 1
  {
    var specs := Kinds(t.children);
    VisitDeclKey(t.kind, specs);
    WalkKeysDeclsList(t.children);
    KeysOfAppend(DeclList(VisitDecl(t.kind, specs)), DeclsList(t.children));
  }

  /** The key Visit records at a node is the key of its declaration. */
  lemma VisitDeclKey(kind: Kind, specs: seq<Kind>)
    ensures KeysOf(DeclList(VisitDecl(kind, specs))) == KeyList(VisitKey(kind, specs))
  {
  }

  lemma {:induction false} WalkKeysDeclsList(ts: seq<Tree>)
    ensures WalkKeysList(ts) == KeysOf(DeclsList(ts))
    decreases ts, 0
  {
    if ts != [] {
      var n := |ts| - 1;
      WalkKeysDeclsList(ts[..n]);
      WalkKeysDecls(ts[n]);
      KeysOfAppend(DeclsList(ts[..n]), Decls(ts[n]));
    }
  }

  /** No name the pass reads in a node ends in a digit. */
  predicate PlainKind(kind: Kind) {
    match kind
    case FuncDecl(name, _) => PlainName(name)
    case TypeSpec(name) => PlainName(name)
    case ValueSpec(names) => PlainName(names[0])
    case _ => true
  }

  predicate PlainNames(t: Tree) {
    PlainKind(t.kind) && forall i :: 0 <= i < |t.children| ==> PlainNames(t.children[i])
  }

  /** No two declarations share a position. */
  ghost predicate DistinctPositions(ds: seq<Decl>) {
    forall i, j :: 0 <= i < j < |ds| ==> ds[i].pos != ds[j].pos
  }

  /** The declarations of a tree with plain names have plain names. */
  lemma {:induction false} DeclsPlain(t: Tree)
    requires PlainNames(t)
    ensures forall d :: d in Decls(t) ==> PlainName(d.name)
    decreases t, 1
  {
    var specs := Kinds(t.children);
    if t.kind.GenDecl? {
      FirstValueNameIn(specs);
      var n := FirstValueName(specs);
      if n.Some? {
        var i :| 0 <= i < |specs| && specs[i].ValueSpec? && specs[i].names[0] == n.value;
        assert PlainNames(t.children[i]);
      }
    }
    DeclsPlainList(t.children);
  }

  lemma {:induction false} DeclsPlainList(ts: seq<Tree>)
    requires forall i :: 0 <= i < |ts| ==> PlainNames(ts[i])
    ensures forall d :: d in DeclsList(ts) ==> PlainName(d.name)
    decreases ts, 0
  {
    if ts != [] {
      var n := |ts| - 1;
      DeclsPlainList(ts[..n]);
      DeclsPlain(ts[n]);
    }
  }

  /** Declarations with plain names at distinct positions have distinct keys. */
  lemma {:induction false} KeysOfDistinct(ds: seq<Decl>)
    requires forall d :: d in ds ==> PlainName(d.name)
    requires DistinctPositions(ds)
    ensures forall k :: multiset(KeysOf(ds))[k] <= 1
  {
    if ds != [] {
      var n := |ds| - 1;
      var last := ds[n];
      assert ds == ds[..n] + [last];
      KeysOfAppend(ds[..n], [last]);
      KeysOfDistinct(ds[..n]);
      var k := Key(last.name, last.pos);
      if k in KeysOf(ds[..n]) {
        var j :| 0 <= j < n && KeysOf(ds[..n])[j] == k;
        KeyInjective(ds[j].name, ds[j].pos, last.name, last.pos);
        assert false;
      }
      OnceEach(KeysOf(ds[..n]), k);
    }
  }

  /** A list without repeats stays so when a new element is appended. */
  lemma OnceEach(s: seq<string>, x: string)
    requires forall y :: multiset(s)[y] <= 1
    requires x !in s
    ensures forall y :: multiset(s + [x])[y] <= 1
  {
    assert multiset(s + [x]) == multiset(s) + multiset{x};
  }

  /** A key in the list `KeysOf(ds)` belongs to a declaration of `ds`. */
  lemma KeyOfDecl(ds: seq<Decl>, k: string) returns (j: nat)
    requires k in KeysOf(ds)
    ensures j < |ds| && k == Key(ds[j].name, ds[j].pos)
  {
    j :| 0 <= j < |ds| && KeysOf(ds)[j] == k;
  }

  /** A plain name is never a key: every key ends in a digit. */
  lemma PlainNotKey(name: string, ds: seq<Decl>)
    requires PlainName(name)
    ensures name !in KeysOf(ds)
  {
    if name in KeysOf(ds) {
      var j := KeyOfDecl(ds, name);
    }
  }

  /** The keys FindComment reads in `t` but Visit does not record there are
      recorded for no declaration of `D`, when `D` holds the declarations of
      `t`, its names are plain and its positions distinct. */
  lemma {:induction false} LookupFree(t: Tree, D: seq<Decl>)
    requires PlainNames(t)
    requires forall d :: d in Decls(t) ==> d in D
    requires forall d :: d in D ==> PlainName(d.name)
    requires DistinctPositions(D)
    ensures forall k :: k in LookupKeys(t) ==> k !in KeysOf(D)
    decreases t, 1
  {
    var specs := Kinds(t.children);
    var own := VisitKey(t.kind, specs);
    forall k | k in ReadKeys(t.kind, specs) && !(own.Some? && k == own.value)
      ensures k !in KeysOf(D)
    {
      if t.kind.GenDecl? {
        var g := t.kind.pos;
        if i :| 0 <= i < |specs| && specs[i].TypeSpec? && k == specs[i].name {
          assert PlainNames(t.children[i]);
          PlainNotKey(k, D);
        } else {
          var i :| 0 <= i < |specs| && specs[i].ValueSpec? && k == Key(specs[i].names[0], g);
          assert PlainNames(t.children[i]);
          ValueLookupFree(specs, g, i, D);
        }
      }
    }
    LookupFreeList(t.children, D);
  }

  /** The key of a value spec after the first, in a general declaration at
      position `g` that records its key, is recorded for no declaration of `D`. */
  lemma ValueLookupFree(specs: seq<Kind>, g: nat, i: nat, D: seq<Decl>)
    requires i < |specs| && specs[i].ValueSpec? && PlainName(specs[i].names[0])
    requires FirstValueName(specs).Some? ==> Decl(FirstValueName(specs).value, g) in D
    requires forall d :: d in D ==> PlainName(d.name)
    requires DistinctPositions(D)
    requires FirstValueKey(specs, g) != Some(Key(specs[i].names[0], g))
    ensures Key(specs[i].names[0], g) !in KeysOf(D)
  {
    var k := Key(specs[i].names[0], g);
    FirstValueNameIn(specs);
    if k in KeysOf(D) {
      var j := KeyOfDecl(D, k);
      KeyInjective(D[j].name, D[j].pos, specs[i].names[0], g);
    }
  }

  lemma {:induction false} LookupFreeList(ts: seq<Tree>, D: seq<Decl>)
    requires forall i :: 0 <= i < |ts| ==> PlainNames(ts[i])
    requires forall d :: d in DeclsList(ts) ==> d in D
    requires forall d :: d in D ==> PlainName(d.name)
    requires DistinctPositions(D)
    ensures forall k :: k in LookupKeysList(ts) ==> k !in KeysOf(D)
    decreases ts, 0
  {
    if ts != [] {
      var n := |ts| - 1;
      LookupFreeList(ts[..n], D);
      LookupFree(ts[n], D);
    }
  }

  /** Plain names and one position per declaration give distinct keys. */
  lemma SourceDistinctKeys(t: Tree)
    requires PlainNames(t)
    requires DistinctPositions(Decls(t))
    ensures DistinctKeys(t)
  {
    WalkKeysDecls(t);
    DeclsPlain(t);
    KeysOfDistinct(Decls(t));
    LookupFree(t, Decls(t));
  }

  /** In a file whose names are plain and whose declarations have distinct
      positions, no function declaration of the file is cleared: each gets
      the placeholder when it is exported and its Doc has no text, and
      keeps its Doc otherwise. */
  lemma TopLevelFuncDoc(root: Tree, dflt: string, i: nat)
    requires root.kind.FileNode? && i < |root.children|
    requires PlainNames(root)
    requires DistinctPositions(Decls(root))
    requires root.children[i].kind.FuncDecl?
    ensures var f := root.children[i];
      CommentPass(root, dflt).tree.children[i].doc
        == if IsExported(f.kind.name) && TextEmpty(f.doc) then Some(FuncComment(f.kind.name, f.kind.pos, dflt)) else f.doc
  {
    var f := root.children[i];
    SourceDistinctKeys(root);
    CommentPassExpected(root, dflt);
    var ideal := Ideal(root.kind, Kinds(root.children), 0);
    var docs := SpecDocs(root.kind, root.doc, root.children, ideal, dflt);
    assert Expected(root, root.doc, 0, dflt).children[i] == Expected(f, docs[i], 1, dflt);
    ExpectedFuncDoc(f, docs[i], 1, dflt);
  }
}
