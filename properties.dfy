/** What the comment pass of lazy-comment.go guarantees, stated on the
    functions of `Pass` that the methods of `LazyComment` are proved against. */
module Properties {
  import opened Ast
  import opened Keys
  import opened Ledger
  import opened Pass

  // ------------------------------------------------ Visit and FindComment

  /** Visit adds one to the count of the key of a function declaration, or
      of the first value spec of a general declaration, and to no other. */
  lemma VisitCounts(kind: Kind, specs: seq<Kind>, visits: Visits, k: string)
    ensures var r := RecordKey(visits, VisitKey(kind, specs));
      && (kind.FuncDecl? ==> Count(r, k) == Count(visits, k) + (if k == Key(kind.name, kind.pos) then 1 else 0))
      && (kind.GenDecl? ==> Count(r, k) == Count(visits, k) + (if FirstValueKey(specs, kind.pos) == Some(k) then 1 else 0))
      && (!kind.FuncDecl? && !kind.GenDecl? ==> r == visits)
  {
  }

  /** A type spec ends up with a Doc that has text exactly when its bare
      name was counted at most twice and it was given the placeholder
      (exported name, group Doc without text) or had text already. Within
      two counts that placeholder replaces the spec's own Doc, whatever it
      held; otherwise the spec keeps its Doc. */
  lemma TypeSpecDoc(name: string, doc: Doc, groupDoc: Doc, pos: nat, visits: Visits, dflt: string)
    ensures var r := SpecDoc(TypeSpec(name), doc, groupDoc, pos, visits, dflt);
      && (Count(visits, name) > 2 ==> r == Cleared())
      && (!TextEmpty(r) <==> Count(visits, name) <= 2 && ((IsExported(name) && TextEmpty(groupDoc)) || !TextEmpty(doc)))
      && (Count(visits, name) <= 2 ==>
            r == if IsExported(name) && TextEmpty(groupDoc) then Some(TypeComment(name, pos, dflt)) else doc)
  {
    if IsExported(name) {
      SynthesizedHasText(name, pos, dflt);
    }
  }

  /** A value spec in a group whose Doc has no text is given the placeholder
      whatever its own Doc was, exported or not, and it is an empty group
      exactly when its key was counted more than twice; in a group with a
      documented Doc the spec keeps its Doc, whatever the count. */
  lemma ValueSpecDoc(names: Names, doc: Doc, groupDoc: Doc, pos: nat, visits: Visits, dflt: string)
    ensures var r := SpecDoc(ValueSpec(names), doc, groupDoc, pos, visits, dflt);
      && (!TextEmpty(groupDoc) ==> r == doc)
      && (TextEmpty(groupDoc) ==> (r == Cleared() <==> Count(visits, Key(names[0], pos)) > 2))
      && (TextEmpty(groupDoc) && Count(visits, Key(names[0], pos)) <= 2 ==> r == Some(FuncComment(names[0], pos, dflt)))
  {
  }

  // ------------------------------------------------ only Docs change

  /** The pass changes no structure, and it changes the Doc of no node
      other than a function declaration: every other node ends up with the
      Doc it held when the traversal reached it. */
  lemma {:induction false} InspectShape(t: Tree, doc: Doc, visits: Visits, dflt: string)
    ensures var r := InspectNode(t, doc, visits, dflt);
      && Strip(r.tree) == Strip(t)
      && (!t.kind.FuncDecl? ==> r.tree.doc == doc)
    decreases t, 1
  {
    var walked := RecordAll(visits, WalkKeys(t));
    InspectShapeList(t.children, SpecDocs(t.kind, doc, t.children, walked, dflt), walked, dflt);
  }

  lemma {:induction false} InspectShapeList(ts: seq<Tree>, docs: seq<Doc>, visits: Visits, dflt: string)
    requires |docs| == |ts|
    ensures var r := InspectList(ts, docs, visits, dflt);
      && StripAll(r.trees) == StripAll(ts)
      && (forall i :: 0 <= i < |ts| && !ts[i].kind.FuncDecl? ==> r.trees[i].doc == docs[i])
    decreases ts, 0
  {
    if ts != [] {
      var n := |ts| - 1;
      var p := InspectList(ts[..n], docs[..n], visits, dflt);
      var q := InspectNode(ts[n], docs[n], p.visits, dflt);
      var trees := p.trees + [q.tree];
      InspectShapeList(ts[..n], docs[..n], visits, dflt);
      InspectShape(ts[n], docs[n], p.visits, dflt);
      StripStep(ts, p.trees, q.tree);
      DocStep(ts, docs, p.trees, q.tree);
    }
  }

  /** The structure of the list, from those of its first siblings and its last. */
  lemma StripStep(ts: seq<Tree>, trees: seq<Tree>, last: Tree)
    requires |ts| == |trees| + 1
    requires StripAll(trees) == StripAll(ts[..|trees|])
    requires Strip(last) == Strip(ts[|trees|])
    ensures StripAll(trees + [last]) == StripAll(ts)
  {
    StripAllSnoc(trees, last);
  }

  /** The Docs of the list, from those of its first siblings and its last. */
  lemma DocStep(ts: seq<Tree>, docs: seq<Doc>, trees: seq<Tree>, last: Tree)
    requires |docs| == |ts| == |trees| + 1
    requires forall i :: 0 <= i < |trees| && !ts[i].kind.FuncDecl? ==> trees[i].doc == docs[i]
    requires !ts[|trees|].kind.FuncDecl? ==> last.doc == docs[|trees|]
    ensures forall i :: 0 <= i < |ts| && !ts[i].kind.FuncDecl? ==> (trees + [last])[i].doc == docs[i]
  {
    forall i | 0 <= i < |ts| && !ts[i].kind.FuncDecl?
      ensures (trees + [last])[i].doc == docs[i]
    {
      if i < |trees| {
        assert (trees + [last])[i] == trees[i];
      } else {
        assert (trees + [last])[i] == last;
      }
    }
  }

  // ------------------------------------------------ file.Comments

  /** The groups Inspect collects are the comment groups of the tree it
      leaves, in pre-order: `file.Comments` lists the Docs the pass wrote. */
  lemma {:induction false} InspectGroups(t: Tree, doc: Doc, visits: Visits, dflt: string)
    ensures var r := InspectNode(t, doc, visits, dflt); r.groups == Groups(r.tree)
    decreases t, 1
  {
    var walked := RecordAll(visits, WalkKeys(t));
    InspectGroupsList(t.children, SpecDocs(t.kind, doc, t.children, walked, dflt), walked, dflt);
  }

  lemma {:induction false} InspectGroupsList(ts: seq<Tree>, docs: seq<Doc>, visits: Visits, dflt: string)
    requires |docs| == |ts|
    ensures var r := InspectList(ts, docs, visits, dflt); r.groups == GroupsList(r.trees)
    decreases ts, 0
  {
    if ts != [] {
      var n := |ts| - 1;
      var p := InspectList(ts[..n], docs[..n], visits, dflt);
      var q := InspectNode(ts[n], docs[n], p.visits, dflt);
      InspectGroupsList(ts[..n], docs[..n], visits, dflt);
      InspectGroups(ts[n], docs[n], p.visits, dflt);
      var trees := p.trees + [q.tree];
      assert trees[..|trees| - 1] == p.trees;
    }
  }

  // ------------------------------------------------ the ledger

  /** The ledger after the pass over `t` has recorded, on top of what it held,
      the keys of one walk per node of `t`, each walk over that node's subtree. */
  lemma {:induction false} InspectLedger(t: Tree, doc: Doc, visits: Visits, dflt: string)
    ensures InspectNode(t, doc, visits, dflt).visits == RecordAll(visits, PassKeys(t))
    decreases t, 1
  {
    var walked := RecordAll(visits, WalkKeys(t));
    InspectLedgerList(t.children, SpecDocs(t.kind, doc, t.children, walked, dflt), walked, dflt);
    RecordAllAppend(visits, WalkKeys(t), PassKeysList(t.children));
  }

  lemma {:induction false} InspectLedgerList(ts: seq<Tree>, docs: seq<Doc>, visits: Visits, dflt: string)
    requires |docs| == |ts|
    ensures InspectList(ts, docs, visits, dflt).visits == RecordAll(visits, PassKeysList(ts))
    decreases ts, 0
  {
    if ts != [] {
      var n := |ts| - 1;
      var p := InspectList(ts[..n], docs[..n], visits, dflt);
      InspectLedgerList(ts[..n], docs[..n], visits, dflt);
      InspectLedger(ts[n], docs[n], p.visits, dflt);
      RecordAllAppend(visits, PassKeysList(ts[..n]), PassKeys(ts[n]));
    }
  }

  /** Every key a per-node walk records in `t` is a key of the walk of `t`. */
  lemma {:induction false} PassKeysWithin(t: Tree)
    ensures forall k :: k in PassKeys(t) ==> k in WalkKeys(t)
    decreases t, 1
  {
    PassKeysWithinList(t.children);
  }

  lemma {:induction false} PassKeysWithinList(ts: seq<Tree>)
    ensures forall k :: k in PassKeysList(ts) ==> k in WalkKeysList(ts)
    decreases ts, 0
  {
    if ts != [] {
      PassKeysWithinList(ts[..|ts| - 1]);
      PassKeysWithin(ts[|ts| - 1]);
    }
  }

  /** The pass over `t` leaves the count of every key outside the walk of `t` alone. */
  lemma InspectFrame(t: Tree, doc: Doc, visits: Visits, dflt: string)
    ensures forall k :: k !in WalkKeys(t) ==> Count(InspectNode(t, doc, visits, dflt).visits, k) == Count(visits, k)
  {
    InspectLedger(t, doc, visits, dflt);
    PassKeysWithin(t);
  }

  lemma InspectFrameList(ts: seq<Tree>, docs: seq<Doc>, visits: Visits, dflt: string)
    requires |docs| == |ts|
    ensures forall k :: k !in WalkKeysList(ts) ==> Count(InspectList(ts, docs, visits, dflt).visits, k) == Count(visits, k)
  {
    InspectLedgerList(ts, docs, visits, dflt);
    PassKeysWithinList(ts);
  }

  // ------------------------------------------------ FindComment reads few keys

  /** FindComment on a node depends on the ledger only through the counts
      of the keys it reads. */
  lemma Locality(kind: Kind, doc: Doc, children: seq<Tree>, v1: Visits, v2: Visits, dflt: string)
    requires forall k :: k in ReadKeys(kind, Kinds(children)) ==> Count(v1, k) == Count(v2, k)
    ensures OwnDoc(kind, doc, v1, dflt) == OwnDoc(kind, doc, v2, dflt)
    ensures SpecDocs(kind, doc, children, v1, dflt) == SpecDocs(kind, doc, children, v2, dflt)
  {
    if kind.GenDecl? {
      var specs := Kinds(children);
      forall i | 0 <= i < |children|
        ensures SpecDocs(kind, doc, children, v1, dflt)[i] == SpecDocs(kind, doc, children, v2, dflt)[i]
      {
        assert specs[i] == children[i].kind;
        match children[i].kind {
          case TypeSpec(name) =>
            assert name in ReadKeys(kind, specs);
          case ValueSpec(names) =>
            assert Key(names[0], kind.pos) in ReadKeys(kind, specs);
          case _ =>
        }
      }
    }
  }

  // ------------------------------------------------ the pass by depth

  /** What the walk of a node leaves in the ledger, given that every key
      recorded below it was recorded once per enclosing walk (`depth` times)
      and no key read only for lookup was ever recorded: the children see
      one more walk, and FindComment at the node sees the ideal ledger. */
  lemma ChildrenCounts(t: Tree, visits: Visits, depth: nat)
    requires DistinctKeys(t)
    requires forall k :: k in WalkKeys(t) ==> Count(visits, k) == depth
    requires forall k :: k in LookupKeys(t) ==> Count(visits, k) == 0
    ensures var walked := RecordAll(visits, WalkKeys(t));
      && DistinctKeysList(t.children)
      && (forall k :: k in WalkKeysList(t.children) ==> Count(walked, k) == depth + 1)
      && (forall k :: k in LookupKeysList(t.children) ==> Count(walked, k) == 0)
      && (forall k :: k in ReadKeys(t.kind, Kinds(t.children)) ==> Count(walked, k) == Count(Ideal(t.kind, Kinds(t.children), depth), k))
  {
    var specs := Kinds(t.children);
    var own := KeyList(VisitKey(t.kind, specs));
    var all := WalkKeys(t);
    var below := WalkKeysList(t.children);
    var walked := RecordAll(visits, all);
    assert all == own + below;
    assert multiset(all) == multiset(own) + multiset(below);
    forall k | k in below
      ensures Count(walked, k) == depth + 1
    {
      assert k in all && k in multiset(all);
    }
    forall k | k in LookupKeysList(t.children)
      ensures Count(walked, k) == 0 && k !in below
    {
      assert k in LookupKeys(t);
      assert k !in multiset(all);
    }
    forall k
      ensures multiset(below)[k] <= 1
    {
      assert multiset(all)[k] == multiset(own)[k] + multiset(below)[k];
    }
    forall k | k in ReadKeys(t.kind, specs)
      ensures Count(walked, k) == Count(Ideal(t.kind, specs, depth), k)
    {
      var key := VisitKey(t.kind, specs);
      if key.Some? && k == key.value {
        assert k in all && k in multiset(all);
      } else {
        assert k in LookupKeys(t);
        assert k !in multiset(all);
      }
    }
  }

  /** The counts the last of the siblings `ts` and the ones before it see. */
  lemma SiblingCounts(ts: seq<Tree>, visits: Visits, depth: nat)
    requires ts != []
    requires DistinctKeysList(ts)
    requires forall k :: k in WalkKeysList(ts) ==> Count(visits, k) == depth
    requires forall k :: k in LookupKeysList(ts) ==> Count(visits, k) == 0
    ensures var n := |ts| - 1;
      && DistinctKeysList(ts[..n]) && DistinctKeys(ts[n])
      && (forall k :: k in WalkKeysList(ts[..n]) ==> Count(visits, k) == depth)
      && (forall k :: k in LookupKeysList(ts[..n]) ==> Count(visits, k) == 0)
      && (forall k :: k in WalkKeys(ts[n]) ==> k !in WalkKeysList(ts[..n]) && Count(visits, k) == depth)
      && (forall k :: k in LookupKeys(ts[n]) ==> k !in WalkKeysList(ts[..n]) && Count(visits, k) == 0)
  {
    var n := |ts| - 1;
    var all := WalkKeysList(ts);
    var before := WalkKeysList(ts[..n]);
    var last := WalkKeys(ts[n]);
    assert all == before + last;
    assert multiset(all) == multiset(before) + multiset(last);
    forall k
      ensures multiset(before)[k] <= 1 && multiset(last)[k] <= 1
      ensures k in last ==> k !in before
    {
      assert multiset(all)[k] == multiset(before)[k] + multiset(last)[k];
      if k in last {
        assert k in multiset(last);
      }
    }
    assert LookupKeysList(ts) == LookupKeysList(ts[..n]) + LookupKeys(ts[n]);
  }

  /** The trees of the list, from those of its first siblings and its last. */
  lemma ExpectedStep(ts: seq<Tree>, docs: seq<Doc>, depth: nat, dflt: string, trees: seq<Tree>, last: Tree)
    requires |docs| == |ts| == |trees| + 1
    requires forall i :: 0 <= i < |trees| ==> trees[i] == Expected(ts[..|trees|][i], docs[..|trees|][i], depth, dflt)
    requires last == Expected(ts[|trees|], docs[|trees|], depth, dflt)
    ensures forall i :: 0 <= i < |ts| ==> (trees + [last])[i] == Expected(ts[i], docs[i], depth, dflt)
  {
    forall i | 0 <= i < |ts|
      ensures (trees + [last])[i] == Expected(ts[i], docs[i], depth, dflt)
    {
      if i < |trees| {
        assert (trees + [last])[i] == trees[i];
        assert ts[..|trees|][i] == ts[i] && docs[..|trees|][i] == docs[i];
      } else {
        assert (trees + [last])[i] == last;
      }
    }
  }

  /** Under distinct keys, the pass over a subtree whose root lies at depth
      `depth` gives the tree Expected computes, where every FindComment sees
      its node's key counted once per node on the path from the root. */
  lemma {:induction false} InspectExpected(t: Tree, doc: Doc, visits: Visits, depth: nat, dflt: string)
    requires DistinctKeys(t)
    requires forall k :: k in WalkKeys(t) ==> Count(visits, k) == depth
    requires forall k :: k in LookupKeys(t) ==> Count(visits, k) == 0
    ensures InspectNode(t, doc, visits, dflt).tree == Expected(t, doc, depth, dflt)
    decreases t, 1
  {
    var walked := RecordAll(visits, WalkKeys(t));
    var ideal := Ideal(t.kind, Kinds(t.children), depth);
    ChildrenCounts(t, visits, depth);
    Locality(t.kind, doc, t.children, walked, ideal, dflt);
    var docs := SpecDocs(t.kind, doc, t.children, walked, dflt);
    InspectExpectedList(t.children, docs, walked, depth + 1, dflt);
    var rest := InspectList(t.children, docs, walked, dflt);
    var e := Expected(t, doc, depth, dflt);
    assert rest.trees == e.children;
  }

  lemma {:induction false} InspectExpectedList(ts: seq<Tree>, docs: seq<Doc>, visits: Visits, depth: nat, dflt: string)
    requires |docs| == |ts|
    requires DistinctKeysList(ts)
    requires forall k :: k in WalkKeysList(ts) ==> Count(visits, k) == depth
    requires forall k :: k in LookupKeysList(ts) ==> Count(visits, k) == 0
    ensures var r := InspectList(ts, docs, visits, dflt);
      forall i :: 0 <= i < |ts| ==> r.trees[i] == Expected(ts[i], docs[i], depth, dflt)
    decreases ts, 0
  {
    if ts != [] {
      var n := |ts| - 1;
      var p := InspectList(ts[..n], docs[..n], visits, dflt);
      SiblingCounts(ts, visits, depth);
      InspectFrameList(ts[..n], docs[..n], visits, dflt);
      InspectExpectedList(ts[..n], docs[..n], visits, depth, dflt);
      InspectExpected(ts[n], docs[n], p.visits, depth, dflt);
      ExpectedStep(ts, docs, depth, dflt, p.trees, InspectNode(ts[n], docs[n], p.visits, dflt).tree);
    }
  }

  /** The per-file pass: under distinct keys, the file's tree after the pass
      is Expected from depth 0. */
  lemma CommentPassExpected(root: Tree, dflt: string)
    requires DistinctKeys(root)
    ensures CommentPass(root, dflt).tree == Expected(root, root.doc, 0, dflt)
  {
    InspectExpected(root, root.doc, map[], 0, dflt);
  }

  /** A function declaration at depth 0 or 1 (a top-level one) gets or keeps
      its comment; one nested deeper has its Doc cleared. */
  lemma ExpectedFuncDoc(t: Tree, doc: Doc, depth: nat, dflt: string)
    requires t.kind.FuncDecl?
    ensures var r := Expected(t, doc, depth, dflt).doc;
      && (depth >= 2 ==> r == Cleared())
      && (depth < 2 ==> r == if IsExported(t.kind.name) && TextEmpty(doc) then Some(FuncComment(t.kind.name, t.kind.pos, dflt)) else doc)
  {
    assert Count(Ideal(t.kind, Kinds(t.children), depth), Key(t.kind.name, t.kind.pos)) == depth + 1;
  }

  /** The specs of a general declaration, as Expected leaves them: a type
      spec whose name is plain is never cleared; the first value spec's
      comment is cleared exactly when the declaration is nested at depth 2
      or more; a later value spec with a key of its own keeps its comment. */
  lemma ExpectedSpecDoc(t: Tree, doc: Doc, depth: nat, dflt: string, i: nat)
    requires t.kind.GenDecl? && i < |t.children|
    ensures var c := t.children[i];
            var r := Expected(t, doc, depth, dflt).children[i].doc;
            var first := FirstValueKey(Kinds(t.children), t.kind.pos);
      && (c.kind.TypeSpec? && PlainName(c.kind.name) ==>
            r == if IsExported(c.kind.name) && TextEmpty(doc) then Some(TypeComment(c.kind.name, t.kind.pos, dflt)) else c.doc)
      && (c.kind.ValueSpec? && !TextEmpty(doc) ==> r == c.doc)
      && (c.kind.ValueSpec? && TextEmpty(doc) && first == Some(Key(c.kind.names[0], t.kind.pos)) ==>
            r == if depth >= 2 then Cleared() else Some(FuncComment(c.kind.names[0], t.kind.pos, dflt)))
      && (c.kind.ValueSpec? && TextEmpty(doc) && first != Some(Key(c.kind.names[0], t.kind.pos)) ==>
            r == Some(FuncComment(c.kind.names[0], t.kind.pos, dflt)))
  {
    var c := t.children[i];
    var specs := Kinds(t.children);
    var ideal := Ideal(t.kind, specs, depth);
    var docs := SpecDocs(t.kind, doc, t.children, ideal, dflt);
    assert Expected(t, doc, depth, dflt).children[i] == Expected(c, docs[i], depth + 1, dflt);
    FirstValueKeyIsFirst(specs, t.kind.pos);
    if c.kind.TypeSpec? && PlainName(c.kind.name) {
      var first := FirstValueKey(specs, t.kind.pos);
      if first.Some? {
        var j :| 0 <= j < |specs| && specs[j].ValueSpec? && first.value == Key(specs[j].names[0], t.kind.pos);
        KeyParts(specs[j].names[0], t.kind.pos);
      }
      assert Count(ideal, c.kind.name) == 0;
    }
  }

  // ------------------------------------------------ a second pass changes nothing

  /** FindComment on a function declaration is idempotent. */
  lemma FuncDocIdempotent(name: string, pos: nat, doc: Doc, visits: Visits, dflt: string)
    ensures var once := FuncDoc(name, pos, doc, visits, dflt);
            FuncDoc(name, pos, once, visits, dflt) == once
  {
    if IsExported(name) {
      SynthesizedHasText(name, pos, dflt);
    }
  }

  /** FindComment on the specs of a general declaration is idempotent. */
  lemma SpecDocIdempotent(spec: Kind, doc: Doc, groupDoc: Doc, pos: nat, visits: Visits, dflt: string)
    ensures var once := SpecDoc(spec, doc, groupDoc, pos, visits, dflt);
            SpecDoc(spec, once, groupDoc, pos, visits, dflt) == once
  {
  }

  /** Equal structures have equal kinds. */
  lemma KindsOfStripped(a: seq<Tree>, b: seq<Tree>)
    requires StripAll(a) == StripAll(b)
    ensures Kinds(a) == Kinds(b)
  {
    forall i | 0 <= i < |a|
      ensures a[i].kind == b[i].kind
    {
      StripAllIndex(a, i);
      StripAllIndex(b, i);
    }
  }

  /** The pass run again over the tree the pass left, each node starting
      from the Doc the pass gave it, gives back the same tree, ledger and
      comment groups. */
  lemma {:induction false} InspectIdempotent(t: Tree, doc: Doc, visits: Visits, dflt: string)
    ensures var r := InspectNode(t, doc, visits, dflt);
            InspectNode(r.tree, r.tree.doc, visits, dflt) == r
    decreases t, 1
  {
    var r := InspectNode(t, doc, visits, dflt);
    var walked := RecordAll(visits, WalkKeys(t));
    var docs := SpecDocs(t.kind, doc, t.children, walked, dflt);
    var rest := InspectList(t.children, docs, walked, dflt);
    assert r.tree.children == rest.trees;
    InspectShape(t, doc, visits, dflt);
    InspectShapeList(t.children, docs, walked, dflt);
    WalkKeysStrip(t);
    WalkKeysStrip(r.tree);
    KindsOfStripped(rest.trees, t.children);
    if t.kind.FuncDecl? {
      FuncDocIdempotent(t.kind.name, t.kind.pos, doc, walked, dflt);
    }
    RedoneSpecDocs(t, doc, walked, dflt, docs, rest.trees);
    InspectIdempotentList(t.children, docs, walked, dflt);
  }

  /** The children's Docs FindComment gives on the second pass are the ones
      the first pass left. */
  lemma RedoneSpecDocs(t: Tree, doc: Doc, walked: Visits, dflt: string, docs: seq<Doc>, trees: seq<Tree>)
    requires docs == SpecDocs(t.kind, doc, t.children, walked, dflt)
    requires |trees| == |t.children| && Kinds(trees) == Kinds(t.children)
    requires forall i :: 0 <= i < |trees| && !t.children[i].kind.FuncDecl? ==> trees[i].doc == docs[i]
    ensures SpecDocs(t.kind, OwnDoc(t.kind, doc, walked, dflt), trees, walked, dflt) == DocsOf(trees)
  {
    forall i | 0 <= i < |trees|
      ensures SpecDocs(t.kind, OwnDoc(t.kind, doc, walked, dflt), trees, walked, dflt)[i] == trees[i].doc
    {
      assert Kinds(trees)[i] == Kinds(t.children)[i];
      if t.kind.GenDecl? {
        SpecDocIdempotent(t.children[i].kind, t.children[i].doc, doc, t.kind.pos, walked, dflt);
      }
    }
  }

  lemma {:induction false} InspectIdempotentList(ts: seq<Tree>, docs: seq<Doc>, visits: Visits, dflt: string)
    requires |docs| == |ts|
    ensures var r := InspectList(ts, docs, visits, dflt);
            InspectList(r.trees, DocsOf(r.trees), visits, dflt) == r
    decreases ts, 0
  {
    if ts != [] {
      var n := |ts| - 1;
      var p := InspectList(ts[..n], docs[..n], visits, dflt);
      var q := InspectNode(ts[n], docs[n], p.visits, dflt);
      InspectIdempotentList(ts[..n], docs[..n], visits, dflt);
      InspectIdempotent(ts[n], docs[n], p.visits, dflt);
      var trees := p.trees + [q.tree];
      assert trees[..n] == p.trees && trees[n] == q.tree;
      assert DocsOf(trees)[..n] == DocsOf(p.trees);
    }
  }

  /** Running the per-file pass on the tree it produced changes nothing. */
  lemma CommentPassIdempotent(root: Tree, dflt: string)
    ensures var r := CommentPass(root, dflt); CommentPass(r.tree, dflt) == r
  {
    InspectIdempotent(root, root.doc, map[], dflt);
  }
}
