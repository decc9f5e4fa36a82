/** The paragraph pass of `_convert_markup_to_tracked`
    (app/src/JBGSuperDocumentEditor.py): every `w:p`, in document order, gets
    a fresh paragraph id and text id and one session id as its `rsidR`,
    `rsidP` and `rsidRPr`. A session id is kept for two to four paragraphs
    (`randint(2, 4)` is drawn after every paragraph) and then replaced by a
    fresh choice from the pool, so that the edits look like a few sittings. */
module ParagraphStamps {
  import opened Xml
  import opened RunConversion

  // ---------------------------------------------------------------------------
  // the session schedule

  /** The loop state before a paragraph: how many fresh session choices
      were made after the first one, and how many paragraphs have used the
      current one. */
  datatype Cursor = Cursor(draw: nat, counter: nat)

  /** One paragraph later: the counter goes up, and when it reaches the
      length drawn for this paragraph (two plus `s` modulo 3) a new session
      starts. */
  function Step(cur: Cursor, s: nat): Cursor {
    if cur.counter + 1 >= 2 + s % 3 then Cursor(cur.draw + 1, 0) else Cursor(cur.draw, cur.counter + 1)
  }

  /** The loop state before paragraph `j`. A session never reaches a count
      of four, and there are never more sessions than paragraphs. */
  function CursorAt(span: nat -> nat, j: nat): (r: Cursor)
    ensures r.counter <= 3 && r.draw <= j
  {
    if j == 0 then Cursor(0, 0) else Step(CursorAt(span, j - 1), span(j - 1))
  }

  /** The session id of paragraph `j` when the paragraph pass starts at draw
      number `base`. */
  function SessionOf(pool: seq<string>, c: Chance, base: nat, j: nat): (r: string)
    requires |pool| > 0
    ensures r in pool
  {
    Choice(pool, c, base + CursorAt(c.span, j).draw)
  }

  /** The `current_rsid` loop over `count` paragraphs: the session id each
      paragraph gets, in document order. */
  method ScheduleSessions(count: nat, pool: seq<string>, c: Chance, base: nat) returns (rsids: seq<string>)
    requires |pool| > 0
    ensures |rsids| == count
    ensures forall j :: 0 <= j < count ==> rsids[j] == SessionOf(pool, c, base, j)
  {
    var draws := 0;
    var counter := 0;
    var current := Choice(pool, c, base);
    rsids := [];
    var j := 0;
    while j < count
      invariant 0 <= j <= count && |rsids| == j
      invariant CursorAt(c.span, j) == Cursor(draws, counter)
      invariant current == Choice(pool, c, base + draws)
      invariant forall i :: 0 <= i < j ==> rsids[i] == SessionOf(pool, c, base, i)
    {
      rsids := rsids + [current];
      counter := counter + 1;
      if counter >= 2 + c.span(j) % 3 {
        draws := draws + 1;
        current := Choice(pool, c, base + draws);
        counter := 0;
      }
      j := j + 1;
    }
  }

  /** Sessions only move forward, one at a time. */
  lemma {:induction false} DrawMonotone(span: nat -> nat, j: nat, m: nat)
    ensures CursorAt(span, j).draw <= CursorAt(span, j + m).draw <= CursorAt(span, j).draw + m
    decreases m
  {
    if m > 0 {
      DrawMonotone(span, j, m - 1);
    }
  }

  /** Within one session the counter counts the paragraphs. */
  lemma {:induction false} SameSessionCounts(span: nat -> nat, j: nat, m: nat)
    requires CursorAt(span, j + m).draw == CursorAt(span, j).draw
    ensures CursorAt(span, j + m).counter == CursorAt(span, j).counter + m
    decreases m
  {
    if m > 0 {
      var i := j + m - 1;
      var before := CursorAt(span, i);
      DrawMonotone(span, j, m - 1);
      assert CursorAt(span, i + 1) == Step(before, span(i));
      assert before.draw == CursorAt(span, j).draw;
      SameSessionCounts(span, j, m - 1);
    }
  }

  /** No session covers more than four paragraphs: four paragraphs on, a
      new choice has been made. */
  lemma SessionAtMostFour(span: nat -> nat, j: nat)
    ensures CursorAt(span, j + 4).draw > CursorAt(span, j).draw
  {
    DrawMonotone(span, j, 4);
    if CursorAt(span, j + 4).draw == CursorAt(span, j).draw {
      SameSessionCounts(span, j, 4);
    }
  }

  /** Every session covers at least two paragraphs: a new choice is never
      made right after the first paragraph of a session. */
  lemma SessionAtLeastTwo(span: nat -> nat, j: nat)
    requires CursorAt(span, j + 1).draw != CursorAt(span, j).draw
    ensures j >= 1 && CursorAt(span, j).draw == CursorAt(span, j - 1).draw
  {
  }

  // ---------------------------------------------------------------------------
  // stamping the paragraphs

  /** What one paragraph receives: `uuid4().hex[:8]` twice and the session id. */
  datatype Stamp = Stamp(paraId: string, textId: string, rsid: string)

  /** The stamp of paragraph `j`: the uuids are drawn two per paragraph. */
  function StampOf(c: Chance, rsid: string, j: nat): Stamp {
    Stamp(c.uuid(2 * j), c.uuid(2 * j + 1), rsid)
  }

  /** The five attributes the pass sets on a paragraph. */
  function StampAttrs(attrs: map<string, string>, s: Stamp): (r: map<string, string>)
    ensures Carries(r, s)
    ensures forall k :: k !in StampKeys ==> (k in r <==> k in attrs) && (k in attrs ==> r[k] == attrs[k])
  {
    attrs["w14:paraId" := s.paraId]["w14:textId" := s.textId]
      ["w:rsidR" := s.rsid]["w:rsidP" := s.rsid]["w:rsidRPr" := s.rsid]
  }

  const StampKeys: set<string> := {"w14:paraId", "w14:textId", "w:rsidR", "w:rsidP", "w:rsidRPr"}

  predicate Carries(attrs: map<string, string>, s: Stamp) {
    && "w14:paraId" in attrs && attrs["w14:paraId"] == s.paraId
    && "w14:textId" in attrs && attrs["w14:textId"] == s.textId
    && "w:rsidR" in attrs && attrs["w:rsidR"] == s.rsid
    && "w:rsidP" in attrs && attrs["w:rsidP"] == s.rsid
    && "w:rsidRPr" in attrs && attrs["w:rsidRPr"] == s.rsid
  }

  /** The subtree with its paragraphs, in document order, stamped with
      `stamps[j]`, `stamps[j + 1]`, ...; nothing else changes. */
  function StampNode(n: Node, j: nat, stamps: seq<Stamp>): (r: Node)
    requires j + Count(n, "w:p") <= |stamps|
    ensures r.tag == n.tag && r.text == n.text
    decreases n
  {
    var isPara := n.tag == "w:p";
    n.(attrs := if isPara then StampAttrs(n.attrs, stamps[j]) else n.attrs,
       kids := StampKids(n.kids, if isPara then j + 1 else j, stamps))
  }

  function StampKids(kids: seq<Node>, j: nat, stamps: seq<Stamp>): (r: seq<Node>)
    requires j + CountKids(kids, "w:p") <= |stamps|
    ensures |r| == |kids|
    decreases kids
  {
    if kids == [] then []
    else
      var init := kids[..|kids| - 1];
      StampKids(init, j, stamps) + [StampNode(kids[|kids| - 1], j + CountKids(init, "w:p"), stamps)]
  }

  /** `b` is `a` with `a[k]` stamped with `stamps[j + k]`. */
  predicate StampedFrom(a: seq<Node>, b: seq<Node>, stamps: seq<Stamp>, j: nat) {
    |a| == |b| && j + |a| <= |stamps|
    && forall k :: 0 <= k < |a| ==> b[k].attrs == StampAttrs(a[k].attrs, stamps[j + k])
  }

  lemma StampedConcat(a1: seq<Node>, b1: seq<Node>, a2: seq<Node>, b2: seq<Node>, stamps: seq<Stamp>, j: nat)
    requires StampedFrom(a1, b1, stamps, j) && StampedFrom(a2, b2, stamps, j + |a1|)
    ensures StampedFrom(a1 + a2, b1 + b2, stamps, j)
  {
    forall k | 0 <= k < |a1 + a2| ensures (b1 + b2)[k].attrs == StampAttrs((a1 + a2)[k].attrs, stamps[j + k]) {
      if k >= |a1| {
        assert (b1 + b2)[k] == b2[k - |a1|] && (a1 + a2)[k] == a2[k - |a1|];
      }
    }
  }

  /** The k-th paragraph of the stamped tree, in document order, is the
      k-th paragraph of the original with `stamps[j + k]` set. */
  lemma {:induction false} StampNodeInOrder(n: Node, j: nat, stamps: seq<Stamp>)
    requires j + Count(n, "w:p") <= |stamps|
    ensures StampedFrom(Iter(n, "w:p"), Iter(StampNode(n, j, stamps), "w:p"), stamps, j)
    decreases n
  {
    var r := StampNode(n, j, stamps);
    var isPara := n.tag == "w:p";
    var k := if isPara then j + 1 else j;
    StampKidsInOrder(n.kids, k, stamps);
    CountMatchesIter(n, "w:p");
    var head := if isPara then [n] else [];
    var head' := if isPara then [r] else [];
    assert StampedFrom(head, head', stamps, j);
    StampedConcat(head, head', IterKids(n.kids, "w:p"), IterKids(r.kids, "w:p"), stamps, j);
  }

  lemma {:induction false} StampKidsInOrder(kids: seq<Node>, j: nat, stamps: seq<Stamp>)
    requires j + CountKids(kids, "w:p") <= |stamps|
    ensures StampedFrom(IterKids(kids, "w:p"), IterKids(StampKids(kids, j, stamps), "w:p"), stamps, j)
    decreases kids
  {
    if kids != [] {
      var init := kids[..|kids| - 1];
      var last := kids[|kids| - 1];
      var k := j + CountKids(init, "w:p");
      var done := StampKids(init, j, stamps);
      var r := StampKids(kids, j, stamps);
      StampKidsInOrder(init, j, stamps);
      StampNodeInOrder(last, k, stamps);
      CountKidsMatchesIterKids(init, "w:p");
      assert r[..|r| - 1] == done;
      StampedConcat(IterKids(init, "w:p"), IterKids(done, "w:p"), Iter(last, "w:p"), Iter(StampNode(last, k, stamps), "w:p"), stamps, j);
    }
  }

  /** A stamped paragraph: both ids are set and the three session
      attributes hold the same id from the pool. */
  predicate InSession(attrs: map<string, string>, pool: seq<string>) {
    && "w14:paraId" in attrs && "w14:textId" in attrs
    && "w:rsidR" in attrs && attrs["w:rsidR"] in pool
    && "w:rsidP" in attrs && attrs["w:rsidP"] == attrs["w:rsidR"]
    && "w:rsidRPr" in attrs && attrs["w:rsidRPr"] == attrs["w:rsidR"]
  }

  /** Every paragraph of the subtree is stamped with a session id from the
      pool. */
  predicate AllStamped(n: Node, pool: seq<string>)
    decreases n
  {
    (n.tag == "w:p" ==> InSession(n.attrs, pool))
    && forall i :: 0 <= i < |n.kids| ==> AllStamped(n.kids[i], pool)
  }

  lemma {:induction false} StampNodeStampsAll(n: Node, j: nat, stamps: seq<Stamp>, pool: seq<string>)
    requires j + Count(n, "w:p") <= |stamps|
    requires forall k :: 0 <= k < |stamps| ==> stamps[k].rsid in pool
    ensures AllStamped(StampNode(n, j, stamps), pool)
    decreases n
  {
    var isPara := n.tag == "w:p";
    var r := StampNode(n, j, stamps);
    StampKidsStampAll(n.kids, if isPara then j + 1 else j, stamps, pool);
    if isPara {
      assert Carries(r.attrs, stamps[j]);
    }
  }

  lemma {:induction false} StampKidsStampAll(kids: seq<Node>, j: nat, stamps: seq<Stamp>, pool: seq<string>)
    requires j + CountKids(kids, "w:p") <= |stamps|
    requires forall k :: 0 <= k < |stamps| ==> stamps[k].rsid in pool
    ensures forall i :: 0 <= i < |kids| ==> AllStamped(StampKids(kids, j, stamps)[i], pool)
    decreases kids
  {
    if kids != [] {
      var init := kids[..|kids| - 1];
      var r := StampKids(kids, j, stamps);
      StampKidsStampAll(init, j, stamps, pool);
      StampNodeStampsAll(kids[|kids| - 1], j + CountKids(init, "w:p"), stamps, pool);
      forall i | 0 <= i < |kids| ensures AllStamped(r[i], pool) {
        if i < |init| {
          assert r[i] == StampKids(init, j, stamps)[i];
        }
      }
    }
  }
}
