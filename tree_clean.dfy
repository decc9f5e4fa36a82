/** `_clean_xml_tree` (app/src/JBGSuperDocumentEditor.py): after the
    conversion, every `w:proofErr`, then every `w:noProof`, then every `w:rPr`
    that has no children is removed from its parent. Each pass collects its
    nodes first and removes them one by one; a removed node takes its subtree
    with it, and the root, which has no parent, is never removed. */
module TreeClean {
  import opened Xml

  /** What one pass removes: the elements with a tag, or the run-properties
      elements without children. Whether an `rPr` is empty is decided when
      its pass reaches it, before anything below it is removed. */
  datatype Rule = Tagged(tag: string) | EmptyRunProps

  predicate Drops(rule: Rule, n: Node) {
    match rule
    case Tagged(t) => n.tag == t
    case EmptyRunProps => n.tag == "w:rPr" && n.kids == []
  }

  /** The subtree with every descendant the rule drops removed, together
      with everything below it; the other nodes keep their order. */
  function Prune(n: Node, rule: Rule): (r: Node)
    ensures r.tag == n.tag && r.attrs == n.attrs && r.text == n.text
    decreases n
  {
    n.(kids := PruneKids(n.kids, rule))
  }

  function PruneKids(kids: seq<Node>, rule: Rule): (r: seq<Node>)
    ensures |r| <= |kids|
    decreases kids
  {
    if kids == [] then []
    else
      var last := kids[|kids| - 1];
      PruneKids(kids[..|kids| - 1], rule) + (if Drops(rule, last) then [] else [Prune(last, rule)])
  }

  /** The three passes in order. */
  function Clean(root: Node): Node {
    Prune(Prune(Prune(root, Tagged("w:proofErr")), Tagged("w:noProof")), EmptyRunProps)
  }

  // ---------------------------------------------------------------------------
  // what a pass leaves

  /** No node below the root is one the rule drops. */
  predicate Spared(n: Node, rule: Rule)
    decreases n
  {
    SparedKids(n.kids, rule)
  }

  predicate SparedKids(kids: seq<Node>, rule: Rule)
    decreases kids
  {
    forall i :: 0 <= i < |kids| ==> !Drops(rule, kids[i]) && Spared(kids[i], rule)
  }

  /** No run-properties element has a run-properties element as a child,
      anywhere in the subtree. */
  predicate RPrFlat(n: Node)
    decreases n
  {
    forall i :: 0 <= i < |n.kids| ==> (n.tag == "w:rPr" ==> n.kids[i].tag != "w:rPr") && RPrFlat(n.kids[i])
  }

  lemma SparedKidsSnoc(kids: seq<Node>, n: Node, rule: Rule)
    requires SparedKids(kids, rule) && !Drops(rule, n) && Spared(n, rule)
    ensures SparedKids(kids + [n], rule)
  {
    forall i | 0 <= i < |kids + [n]| ensures !Drops(rule, (kids + [n])[i]) && Spared((kids + [n])[i], rule) {
      if i < |kids| {
        assert (kids + [n])[i] == kids[i];
      }
    }
  }

  lemma SparedKidsInit(kids: seq<Node>, rule: Rule)
    requires kids != [] && SparedKids(kids, rule)
    ensures SparedKids(kids[..|kids| - 1], rule)
  {
    assert forall i :: 0 <= i < |kids| - 1 ==> kids[..|kids| - 1][i] == kids[i];
  }

  /** A pass keeps every child when it drops none of them. */
  lemma {:induction false} PruneKidsKeepsAll(kids: seq<Node>, rule: Rule)
    requires forall i :: 0 <= i < |kids| ==> !Drops(rule, kids[i])
    ensures |PruneKids(kids, rule)| == |kids|
    decreases kids
  {
    if kids != [] {
      PruneKidsKeepsAll(kids[..|kids| - 1], rule);
    }
  }

  /** After a pass, nothing below the root is of the kind it removes. For
      empty run properties this needs the run properties not to be nested:
      an `rPr` whose only children are empty `rPr`s is non-empty when its
      turn comes and empty afterwards. */
  lemma {:induction false} PruneSettles(n: Node, rule: Rule)
    requires rule.Tagged? || RPrFlat(n)
    ensures Spared(Prune(n, rule), rule)
    decreases n
  {
    PruneKidsSettle(n.kids, n.tag == "w:rPr", rule);
  }

  lemma {:induction false} PruneKidsSettle(kids: seq<Node>, underRPr: bool, rule: Rule)
    requires rule.Tagged? || forall i :: 0 <= i < |kids| ==> (underRPr ==> kids[i].tag != "w:rPr") && RPrFlat(kids[i])
    ensures SparedKids(PruneKids(kids, rule), rule)
    decreases kids
  {
    if kids != [] {
      var init := kids[..|kids| - 1];
      var last := kids[|kids| - 1];
      PruneKidsSettle(init, underRPr, rule);
      if !Drops(rule, last) {
        var x := Prune(last, rule);
        PruneSettles(last, rule);
        if rule.EmptyRunProps? && last.tag == "w:rPr" {
          PruneKidsKeepsAll(last.kids, rule);
        }
        SparedKidsSnoc(PruneKids(init, rule), x, rule);
      }
    }
  }

  /** A later pass keeps what an earlier tag pass achieved: passes only
      remove nodes. */
  lemma {:induction false} PruneKeepsSpared(n: Node, tag: string, rule: Rule)
    requires Spared(n, Tagged(tag))
    ensures Spared(Prune(n, rule), Tagged(tag))
    decreases n
  {
    PruneKidsKeepSpared(n.kids, tag, rule);
  }

  lemma {:induction false} PruneKidsKeepSpared(kids: seq<Node>, tag: string, rule: Rule)
    requires SparedKids(kids, Tagged(tag))
    ensures SparedKids(PruneKids(kids, rule), Tagged(tag))
    decreases kids
  {
    if kids != [] {
      var init := kids[..|kids| - 1];
      var last := kids[|kids| - 1];
      SparedKidsInit(kids, Tagged(tag));
      PruneKidsKeepSpared(init, tag, rule);
      if !Drops(rule, last) {
        PruneKeepsSpared(last, tag, rule);
        SparedKidsSnoc(PruneKids(init, rule), Prune(last, rule), Tagged(tag));
      }
    }
  }

  /** A pass with nothing to remove changes nothing. */
  lemma {:induction false} PruneIdentity(n: Node, rule: Rule)
    requires Spared(n, rule)
    ensures Prune(n, rule) == n
    decreases n
  {
    PruneKidsIdentity(n.kids, rule);
  }

  lemma {:induction false} PruneKidsIdentity(kids: seq<Node>, rule: Rule)
    requires SparedKids(kids, rule)
    ensures PruneKids(kids, rule) == kids
    decreases kids
  {
    if kids != [] {
      var last := kids[|kids| - 1];
      SparedKidsInit(kids, rule);
      PruneKidsIdentity(kids[..|kids| - 1], rule);
      PruneIdentity(last, rule);
      assert kids[..|kids| - 1] + [last] == kids;
    }
  }

  /** Removing nodes does not nest run properties. */
  lemma {:induction false} PruneKeepsFlat(n: Node, rule: Rule)
    requires RPrFlat(n)
    ensures RPrFlat(Prune(n, rule))
    decreases n
  {
    PruneKidsKeepFlat(n.kids, n.tag == "w:rPr", rule);
  }

  lemma {:induction false} PruneKidsKeepFlat(kids: seq<Node>, underRPr: bool, rule: Rule)
    requires forall i :: 0 <= i < |kids| ==> (underRPr ==> kids[i].tag != "w:rPr") && RPrFlat(kids[i])
    ensures forall i :: 0 <= i < |PruneKids(kids, rule)| ==>
              (underRPr ==> PruneKids(kids, rule)[i].tag != "w:rPr") && RPrFlat(PruneKids(kids, rule)[i])
    decreases kids
  {
    if kids != [] {
      var init := kids[..|kids| - 1];
      var last := kids[|kids| - 1];
      var done := PruneKids(init, rule);
      assert forall i :: 0 <= i < |init| ==> init[i] == kids[i];
      PruneKidsKeepFlat(init, underRPr, rule);
      if !Drops(rule, last) {
        PruneKeepsFlat(last, rule);
        var r := done + [Prune(last, rule)];
        assert forall i :: 0 <= i < |done| ==> r[i] == done[i];
      }
    }
  }

  /** Cleaning leaves no proofing mark below the root, and no empty run
      properties when run properties are not nested. */
  lemma CleanSettles(root: Node)
    ensures Spared(Clean(root), Tagged("w:proofErr")) && Spared(Clean(root), Tagged("w:noProof"))
    ensures RPrFlat(root) ==> Spared(Clean(root), EmptyRunProps)
  {
    var a := Prune(root, Tagged("w:proofErr"));
    var b := Prune(a, Tagged("w:noProof"));
    PruneSettles(root, Tagged("w:proofErr"));
    PruneKeepsSpared(a, "w:proofErr", Tagged("w:noProof"));
    PruneKeepsSpared(b, "w:proofErr", EmptyRunProps);
    PruneSettles(a, Tagged("w:noProof"));
    PruneKeepsSpared(b, "w:noProof", EmptyRunProps);
    if RPrFlat(root) {
      PruneKeepsFlat(root, Tagged("w:proofErr"));
      PruneKeepsFlat(a, Tagged("w:noProof"));
      PruneSettles(b, EmptyRunProps);
    }
  }

  /** A tag pass done twice removes nothing the second time. */
  lemma PruneTagIdempotent(n: Node, tag: string)
    ensures Prune(Prune(n, Tagged(tag)), Tagged(tag)) == Prune(n, Tagged(tag))
  {
    PruneSettles(n, Tagged(tag));
    PruneIdentity(Prune(n, Tagged(tag)), Tagged(tag));
  }
}
