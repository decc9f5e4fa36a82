/** `_convert_markup_to_tracked` of the native revision converter
    (app/src/JBGSuperDocumentEditor.py): the runs the markup editor styled
    as struck red or green become tracked deletions and insertions, every
    paragraph gets session ids that change every two to four paragraphs, and
    the tree is cleaned of proofing marks and empty run properties. The
    random session-id choices, the uuids, the `randint` block lengths and the
    clock are given as functions of the draw number. */
module RunConversion {
  import opened Wrappers
  import opened Text
  import opened Xml
  import opened PackagePatches

  /** The author written on every tracked change. */
  const Author := "JBG Klarspråkningstjänst"

  /** What the converter draws from the outside world, by draw number:
      `pick(k)` picks the k-th `random.choice` from the pool, `span(j)` is
      `randint(2, 4) - 2` after the j-th paragraph (taken modulo 3), `uuid(k)`
      is the k-th `uuid4().hex[:8]`, and `clock(i)` is the time stamp of the
      i-th tracked change. */
  datatype Chance = Chance(pick: nat -> nat, span: nat -> nat, uuid: nat -> string, clock: nat -> string)

  /** The k-th `random.choice(available_rsids)`. */
  function Choice(pool: seq<string>, c: Chance, k: nat): (r: string)
    requires |pool| > 0
    ensures r in pool
  {
    pool[c.pick(k) % |pool|]
  }

  // ---------------------------------------------------------------------------
  // which runs are converted

  datatype Mark = Deletion | Insertion

  /** The `w:val` of the first `w:color` of the run properties. */
  function ColorVal(rpr: Node): Option<string> {
    match FindChild(rpr, "w:color")
    case None => None
    case Some(c) => Attr(c, "w:val")
  }

  /** The tracked change a run's properties ask for: a deletion when the
      colour is red (FF0000) and the run is struck, an insertion when the
      colour is green (008000); nothing without run properties or with
      another colour. */
  function Painted(run: Node): (r: Option<Mark>)
    ensures r.Some? ==> HasChild(run, "w:rPr")
  {
    match FindChild(run, "w:rPr")
    case None => None
    case Some(rpr) =>
      var red := ColorVal(rpr) == Some("FF0000") && HasChild(rpr, "w:strike");
      var green := ColorVal(rpr) == Some("008000");
      if red then Some(Deletion)
      else if green then Some(Insertion)
      else None
  }

  /** What a run becomes: the change its properties ask for, provided it
      has a `w:t` child; a painted run without text is skipped. */
  function MarkOf(run: Node): (r: Option<Mark>)
    ensures r.Some? ==> HasChild(run, "w:rPr") && HasChild(run, "w:t")
  {
    if HasChild(run, "w:t") then Painted(run) else None
  }

  /** A run is deleted exactly when it is red and struck, inserted exactly
      when it is green and not red and struck, and in both cases only when
      it has properties and text. */
  lemma MarkOfMeaning(run: Node)
    ensures MarkOf(run) == Some(Deletion) <==>
      HasChild(run, "w:rPr") && HasChild(run, "w:t")
      && ColorVal(FindChild(run, "w:rPr").value) == Some("FF0000")
      && HasChild(FindChild(run, "w:rPr").value, "w:strike")
    ensures MarkOf(run) == Some(Insertion) <==>
      HasChild(run, "w:rPr") && HasChild(run, "w:t")
      && ColorVal(FindChild(run, "w:rPr").value) == Some("008000")
  {
  }

  predicate Convertible(n: Node) {
    n.tag == "w:r" && MarkOf(n).Some?
  }

  /** How many runs of the subtree are converted (or would be). */
  function Marked(n: Node): nat
    decreases n
  {
    (if Convertible(n) then 1 else 0) + MarkedKids(n.kids)
  }

  function MarkedKids(kids: seq<Node>): nat
    decreases kids
  {
    if kids == [] then 0 else MarkedKids(kids[..|kids| - 1]) + Marked(kids[|kids| - 1])
  }

  // ---------------------------------------------------------------------------
  // the text of a converted run

  /** The characters after which no space is added. */
  const Terminators: seq<char> := [' ', '.', ',', ';', ':', '!', '?', '\U{201D}', '\U{2019}']

  /** The run text with one space appended when it is non-empty and does not
      end in a space or punctuation. */
  function Padded(t: string): (r: string)
    ensures t == [] || t[|t| - 1] in Terminators ==> r == t
    ensures t != [] && t[|t| - 1] !in Terminators ==> r == t + " "
  {
    if t != [] && t[|t| - 1] !in Terminators then t + " " else t
  }

  /** Padding twice pads once, and padded non-empty text ends in a terminator. */
  lemma PaddedIdempotent(t: string)
    ensures Padded(Padded(t)) == Padded(t)
    ensures t != [] ==> Padded(t)[|Padded(t)| - 1] in Terminators
  {
    assert ' ' in Terminators;
    if t != [] && t[|t| - 1] !in Terminators {
      var r := t + " ";
      assert r[|r| - 1] == ' ';
    }
  }

  // ---------------------------------------------------------------------------
  // one converted run

  /** The wrapper that replaces a converted run with tracked id `id`: a
      `w:del` or `w:ins` with the id, the author, the time, an `rsidR` and an
      `rsidDel` or `rsidIns` drawn from the pool, around one fresh run whose
      only child is the padded text, as `w:delText` or `w:t`, space-preserved.
      The run's own properties are not carried over. */
  function WrapperFor(run: Node, mark: Mark, id: nat, pool: seq<string>, c: Chance): Node
    requires |pool| > 0 && id >= 1 && HasChild(run, "w:t")
  {
    var text := Padded(FindChild(run, "w:t").value.text.GetOr(""));
    var leaf := Node(if mark == Deletion then "w:delText" else "w:t", map["xml:space" := "preserve"], Some(text), []);
    var first := 2 * (id - 1);
    var attrs := map[
      "w:id" := Decimal(id),
      "w:author" := Author,
      "w:date" := c.clock(id),
      "w:rsidR" := Choice(pool, c, first),
      (if mark == Deletion then "w:rsidDel" else "w:rsidIns") := Choice(pool, c, first + 1)];
    Node(if mark == Deletion then "w:del" else "w:ins", attrs, None, [Elem("w:r", [leaf])])
  }

  /** The text held by the `tag` children of the runs below a wrapper, in
      order: with "w:delText" what a deletion removes, with "w:t" what an
      insertion adds. */
  function WrapperText(runs: seq<Node>, tag: string): string {
    if runs == [] then ""
    else WrapperText(runs[..|runs| - 1], tag) + RunText(runs[|runs| - 1].kids, tag)
  }

  function RunText(leaves: seq<Node>, tag: string): string {
    if leaves == [] then ""
    else
      var l := leaves[|leaves| - 1];
      RunText(leaves[..|leaves| - 1], tag) + (if l.tag == tag then l.text.GetOr("") else "")
  }

  /** A red struck run becomes a `w:del` whose deleted text is the run's
      padded text and which inserts nothing; a green run becomes a `w:ins`
      whose inserted text is the padded text and which deletes nothing. The
      wrapper carries the id and session ids from the pool. */
  lemma WrapperViews(run: Node, mark: Mark, id: nat, pool: seq<string>, c: Chance)
    requires |pool| > 0 && id >= 1 && HasChild(run, "w:t")
    ensures var w := WrapperFor(run, mark, id, pool, c);
            var text := Padded(FindChild(run, "w:t").value.text.GetOr(""));
            && (mark == Deletion ==>
                  w.tag == "w:del" && WrapperText(w.kids, "w:delText") == text && WrapperText(w.kids, "w:t") == ""
                  && w.attrs["w:rsidDel"] in pool)
            && (mark == Insertion ==>
                  w.tag == "w:ins" && WrapperText(w.kids, "w:t") == text && WrapperText(w.kids, "w:delText") == ""
                  && w.attrs["w:rsidIns"] in pool)
            && w.attrs["w:id"] == Decimal(id) && w.attrs["w:rsidR"] in pool
  {
    var w := WrapperFor(run, mark, id, pool, c);
    var inner := w.kids[0];
    assert w.kids[..0] == [] && inner.kids[..0] == [];
    assert RunText(inner.kids, "w:delText") == (if mark == Deletion then inner.kids[0].text.GetOr("") else "");
    assert RunText(inner.kids, "w:t") == (if mark == Insertion then inner.kids[0].text.GetOr("") else "");
  }

  /** The run placed right after the wrapper: a copy of the run's
      `w:commentReference`, only when motivations are included. */
  function CommentRun(run: Node, motivations: bool): seq<Node> {
    match FindChild(run, "w:commentReference")
    case Some(ref) => if motivations then [Elem("w:r", [ref])] else []
    case None => []
  }

  // ---------------------------------------------------------------------------
  // the run loop over `//w:r`

  /** The nodes of the subtree that replace `n`, and the next tracked id.
      The runs are visited in document order. A converted run is replaced by
      its wrapper (and the comment run); the runs inside it are still
      visited by the source after it has been detached, so they use up ids
      without changing the document. */
  function ConvertOne(n: Node, id: nat, pool: seq<string>, c: Chance, motivations: bool): (r: (seq<Node>, nat))
    requires |pool| > 0 && id >= 1
    ensures r.1 >= id
    decreases n
  {
    if Convertible(n) then
      var out := [WrapperFor(n, MarkOf(n).value, id, pool, c)] + CommentRun(n, motivations);
      var next: nat := id + 1 + MarkedKids(n.kids);
      (out, next)
    else
      var (kids, next) := ConvertKids(n.kids, id, pool, c, motivations);
      ([n.(kids := kids)], next)
  }

  function ConvertKids(kids: seq<Node>, id: nat, pool: seq<string>, c: Chance, motivations: bool): (r: (seq<Node>, nat))
    requires |pool| > 0 && id >= 1
    ensures r.1 >= id
    decreases kids
  {
    if kids == [] then ([], id)
    else
      var (done, next) := ConvertKids(kids[..|kids| - 1], id, pool, c, motivations);
      var (more, after) := ConvertOne(kids[|kids| - 1], next, pool, c, motivations);
      (done + more, after)
  }

  /** The run loop on the document root, with ids from 1. A root that is
      itself a painted run has no parent to look itself up in, and the
      source raises before it looks for the text. */
  function ConvertRuns(root: Node, pool: seq<string>, c: Chance, motivations: bool): (r: Result<(Node, nat), PatchError>)
    requires |pool| > 0
    ensures r.Failure? <==> root.tag == "w:r" && Painted(root).Some?
    ensures r.Success? ==> r.value.0.tag == root.tag && r.value.1 == 1 + Marked(root)
  {
    if root.tag == "w:r" && Painted(root).Some? then Failure(DetachedRoot)
    else
      ConvertKidsConsume(root.kids, 1, pool, c, motivations);
      var (kids, next) := ConvertKids(root.kids, 1, pool, c, motivations);
      Success((root.(kids := kids), next))
  }

  /** Every run to convert uses up one id, whether it is replaced or lies
      inside a replaced run. */
  lemma {:induction false} ConvertOneConsume(n: Node, id: nat, pool: seq<string>, c: Chance, motivations: bool)
    requires |pool| > 0 && id >= 1
    ensures ConvertOne(n, id, pool, c, motivations).1 == id + Marked(n)
    decreases n
  {
    if !Convertible(n) {
      ConvertKidsConsume(n.kids, id, pool, c, motivations);
    }
  }

  lemma {:induction false} ConvertKidsConsume(kids: seq<Node>, id: nat, pool: seq<string>, c: Chance, motivations: bool)
    requires |pool| > 0 && id >= 1
    ensures ConvertKids(kids, id, pool, c, motivations).1 == id + MarkedKids(kids)
    decreases kids
  {
    if kids != [] {
      var init := kids[..|kids| - 1];
      ConvertKidsConsume(init, id, pool, c, motivations);
      ConvertOneConsume(kids[|kids| - 1], ConvertKids(init, id, pool, c, motivations).1, pool, c, motivations);
    }
  }

  // ---------------------------------------------------------------------------
  // the tracked changes in a tree

  predicate IsWrapper(n: Node) {
    n.tag == "w:del" || n.tag == "w:ins"
  }

  /** The `w:del` and `w:ins` elements of the subtree, in document order. */
  function Tracked(n: Node): seq<Node>
    decreases n
  {
    (if IsWrapper(n) then [n] else []) + TrackedKids(n.kids)
  }

  function TrackedKids(kids: seq<Node>): seq<Node>
    decreases kids
  {
    if kids == [] then [] else TrackedKids(kids[..|kids| - 1]) + Tracked(kids[|kids| - 1])
  }

  /** No converted run lies inside another converted run. */
  predicate Unnested(n: Node)
    decreases n
  {
    if Convertible(n) then MarkedKids(n.kids) == 0 else UnnestedKids(n.kids)
  }

  predicate UnnestedKids(kids: seq<Node>)
    decreases kids
  {
    forall i :: 0 <= i < |kids| ==> Unnested(kids[i])
  }

  /** A tracked change made by the converter for id `k`: a deletion or an
      insertion with that id and the author, holding one run that holds one
      text leaf of the matching kind, so no tracked change lies inside
      another. */
  predicate MadeFor(w: Node, k: nat) {
    && IsWrapper(w)
    && "w:id" in w.attrs && w.attrs["w:id"] == Decimal(k)
    && "w:author" in w.attrs && w.attrs["w:author"] == Author
    && |w.kids| == 1 && w.kids[0].tag == "w:r" && |w.kids[0].kids| == 1
    && w.kids[0].kids[0].kids == []
    && w.kids[0].kids[0].tag == (if w.tag == "w:del" then "w:delText" else "w:t")
  }

  lemma {:induction false} TrackedKidsAppend(a: seq<Node>, b: seq<Node>)
    ensures TrackedKids(a + b) == TrackedKids(a) + TrackedKids(b)
    decreases |b|
  {
    if b == [] {
      assert a + b == a;
    } else {
      var init := b[..|b| - 1];
      var last := Tracked(b[|b| - 1]);
      assert (a + b)[..|a + b| - 1] == a + init;
      assert (a + b)[|a + b| - 1] == b[|b| - 1];
      assert TrackedKids(a + b) == TrackedKids(a + init) + last;
      TrackedKidsAppend(a, init);
      assert TrackedKids(b) == TrackedKids(init) + last;
      assert (TrackedKids(a) + TrackedKids(init)) + last == TrackedKids(a) + (TrackedKids(init) + last);
    }
  }

  lemma {:induction false} TrackedKidsEmpty(kids: seq<Node>)
    ensures TrackedKids(kids) == [] <==> forall i :: 0 <= i < |kids| ==> Tracked(kids[i]) == []
    decreases kids
  {
    if kids != [] {
      var init := kids[..|kids| - 1];
      TrackedKidsEmpty(init);
      assert forall i :: 0 <= i < |init| ==> init[i] == kids[i];
    }
  }

  /** A made wrapper is the only tracked change of its subtree. */
  lemma WrapperIsAlone(run: Node, mark: Mark, id: nat, pool: seq<string>, c: Chance)
    requires |pool| > 0 && id >= 1 && HasChild(run, "w:t")
    ensures var w := WrapperFor(run, mark, id, pool, c);
            Tracked(w) == [w] && MadeFor(w, id)
  {
    var w := WrapperFor(run, mark, id, pool, c);
    var inner := w.kids[0];
    assert TrackedKids(inner.kids) == [] by {
      assert inner.kids[..0] == [];
      assert Tracked(inner.kids[0]) == [];
    }
    assert TrackedKids(w.kids) == [] by {
      assert w.kids[..0] == [];
    }
  }

  /** A converted run becomes exactly one tracked change, with its id. */
  lemma ConvertedRunIds(n: Node, mark: Mark, id: nat, pool: seq<string>, c: Chance, motivations: bool)
    requires |pool| > 0 && id >= 1 && HasChild(n, "w:t") && TrackedKids(n.kids) == []
    ensures var w := WrapperFor(n, mark, id, pool, c);
            TrackedKids([w] + CommentRun(n, motivations)) == [w] && MadeFor(w, id)
  {
    var w := WrapperFor(n, mark, id, pool, c);
    WrapperIsAlone(n, mark, id, pool, c);
    var extra := CommentRun(n, motivations);
    TrackedKidsAppend([w], extra);
    assert [w][..0] == [];
    CommentRunUntracked(n, motivations);
  }

  /** The comment run holds no tracked change when the run holds none. */
  lemma CommentRunUntracked(run: Node, motivations: bool)
    requires TrackedKids(run.kids) == []
    ensures TrackedKids(CommentRun(run, motivations)) == []
  {
    var extra := CommentRun(run, motivations);
    if extra != [] {
      var ref := FindChild(run, "w:commentReference").value;
      var j := FirstIndex(run.kids, "w:commentReference").value;
      TrackedKidsEmpty(run.kids);
      assert Tracked(run.kids[j]) == [];
      UntrackedLeafRun(ref);
      assert extra == [Elem("w:r", [ref])];
      assert extra[..0] == [];
    }
  }

  lemma UntrackedLeafRun(ref: Node)
    requires Tracked(ref) == []
    ensures Tracked(Elem("w:r", [ref])) == []
  {
    var r := Elem("w:r", [ref]);
    assert !IsWrapper(r) by {
      assert |r.tag| == 3;
    }
    assert r.kids[..0] == [];
    assert TrackedKids(r.kids) == Tracked(ref);
  }

  /** `ws` are the tracked changes made for the ids `id`, `id + 1`, ... */
  predicate NumberedFrom(ws: seq<Node>, id: nat) {
    forall k :: 0 <= k < |ws| ==> MadeFor(ws[k], id + k)
  }

  /** The output of the run loop from id `id` holds one tracked change per
      id it used up, made for those ids in order. */
  predicate Numbered(r: (seq<Node>, nat), id: nat) {
    |TrackedKids(r.0)| == r.1 - id && NumberedFrom(TrackedKids(r.0), id)
  }

  lemma NumberedConcat(a: seq<Node>, b: seq<Node>, id: nat)
    requires NumberedFrom(a, id) && NumberedFrom(b, id + |a|)
    ensures NumberedFrom(a + b, id)
  {
    forall k | 0 <= k < |a + b| ensures MadeFor((a + b)[k], id + k) {
      if k < |a| {
        assert (a + b)[k] == a[k];
      } else {
        assert (a + b)[k] == b[k - |a|];
      }
    }
  }

  /** With no tracked change in the input and no converted run inside
      another, the tracked changes of the output are the converted runs, in
      document order, with consecutive ids from `id`. */
  lemma {:induction false} ConvertOneIds(n: Node, id: nat, pool: seq<string>, c: Chance, motivations: bool)
    requires |pool| > 0 && id >= 1
    requires Tracked(n) == [] && Unnested(n)
    ensures Numbered(ConvertOne(n, id, pool, c, motivations), id)
    decreases n
  {
    if Convertible(n) {
      ConvertedNumbered(n, id, pool, c, motivations);
    } else {
      var kr := ConvertKids(n.kids, id, pool, c, motivations);
      ConvertKidsIds(n.kids, id, pool, c, motivations);
      UpdatedKidsTracked(n, kr.0);
    }
  }

  lemma ConvertedNumbered(n: Node, id: nat, pool: seq<string>, c: Chance, motivations: bool)
    requires |pool| > 0 && id >= 1
    requires Convertible(n) && Tracked(n) == [] && MarkedKids(n.kids) == 0
    ensures Numbered(ConvertOne(n, id, pool, c, motivations), id)
  {
    var w := WrapperFor(n, MarkOf(n).value, id, pool, c);
    var extra := CommentRun(n, motivations);
    ConvertOneOfRun(n, id, pool, c, motivations);
    ConvertedRunIds(n, MarkOf(n).value, id, pool, c, motivations);
    NumberedOne(w, extra, id);
  }

  lemma ConvertOneOfRun(n: Node, id: nat, pool: seq<string>, c: Chance, motivations: bool)
    requires |pool| > 0 && id >= 1 && Convertible(n) && MarkedKids(n.kids) == 0
    ensures ConvertOne(n, id, pool, c, motivations)
      == ([WrapperFor(n, MarkOf(n).value, id, pool, c)] + CommentRun(n, motivations), id + 1)
  {
    var r := ConvertOne(n, id, pool, c, motivations);
    assert r.0 == [WrapperFor(n, MarkOf(n).value, id, pool, c)] + CommentRun(n, motivations);
    assert r.1 == id + 1 + MarkedKids(n.kids);
  }

  lemma NumberedOne(w: Node, extra: seq<Node>, id: nat)
    requires MadeFor(w, id) && TrackedKids([w] + extra) == [w]
    ensures Numbered(([w] + extra, id + 1), id)
  {
    assert [w][0] == w;
  }

  /** A node that is no tracked change keeps its children's tracked changes. */
  lemma UpdatedKidsTracked(n: Node, kids: seq<Node>)
    requires !IsWrapper(n)
    ensures TrackedKids([n.(kids := kids)]) == TrackedKids(kids)
  {
    assert [n.(kids := kids)][..0] == [];
  }

  lemma {:induction false} ConvertKidsIds(kids: seq<Node>, id: nat, pool: seq<string>, c: Chance, motivations: bool)
    requires |pool| > 0 && id >= 1
    requires TrackedKids(kids) == [] && UnnestedKids(kids)
    ensures Numbered(ConvertKids(kids, id, pool, c, motivations), id)
    decreases kids
  {
    if kids != [] {
      var init := kids[..|kids| - 1];
      var last := kids[|kids| - 1];
      TrackedKidsEmpty(kids);
      TrackedKidsEmpty(init);
      assert forall i :: 0 <= i < |init| ==> init[i] == kids[i];
      var done := ConvertKids(init, id, pool, c, motivations);
      var more := ConvertOne(last, done.1, pool, c, motivations);
      ConvertKidsIds(init, id, pool, c, motivations);
      ConvertOneIds(last, done.1, pool, c, motivations);
      assert ConvertKids(kids, id, pool, c, motivations) == (done.0 + more.0, more.1);
      NumberedStep(done, more, id);
    }
  }

  /** Numbered output from `id` followed by numbered output from where it
      stopped is numbered from `id`. */
  lemma NumberedStep(done: (seq<Node>, nat), more: (seq<Node>, nat), id: nat)
    requires Numbered(done, id) && Numbered(more, done.1)
    ensures Numbered((done.0 + more.0, more.1), id)
  {
    TrackedKidsAppend(done.0, more.0);
    NumberedConcat(TrackedKids(done.0), TrackedKids(more.0), id);
  }

  /** Nothing to convert leaves the tree as it is. */
  lemma {:induction false} NothingMarkedIsIdentity(n: Node, id: nat, pool: seq<string>, c: Chance, motivations: bool)
    requires |pool| > 0 && id >= 1 && Marked(n) == 0
    ensures ConvertOne(n, id, pool, c, motivations) == ([n], id)
    decreases n
  {
    NothingMarkedKidsIsIdentity(n.kids, id, pool, c, motivations);
  }

  lemma {:induction false} NothingMarkedKidsIsIdentity(kids: seq<Node>, id: nat, pool: seq<string>, c: Chance, motivations: bool)
    requires |pool| > 0 && id >= 1 && MarkedKids(kids) == 0
    ensures ConvertKids(kids, id, pool, c, motivations) == (kids, id)
    decreases kids
  {
    if kids != [] {
      NothingMarkedKidsIsIdentity(kids[..|kids| - 1], id, pool, c, motivations);
      NothingMarkedIsIdentity(kids[|kids| - 1], id, pool, c, motivations);
      assert kids[..|kids| - 1] + [kids[|kids| - 1]] == kids;
    }
  }
}
