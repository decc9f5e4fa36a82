/** XML documents as values. An element has a qualified tag, written with the
    conventional prefix of its namespace ("w:r" for a run of the
    WordprocessingML main namespace, "w14:paraId" for the Word 2010
    extension, "rel:Relationship" for the package-relationships namespace and
    a bare local name for an element in no namespace), its attributes keyed
    the same way, its text and its children. Text after a child (lxml's
    `tail`), comments and processing instructions are not modelled. A package
    maps each zip entry name to its content. */
module Xml {
  import opened Wrappers

  datatype Node = Node(tag: string, attrs: map<string, string>, text: Option<string>, kids: seq<Node>)

  /** An element with no attributes and no text. */
  function Elem(tag: string, kids: seq<Node>): Node {
    Node(tag, map[], None, kids)
  }

  /** The content of one zip entry: a parsed XML tree, or bytes that do not
      parse as XML. */
  datatype Part = Xml(root: Node) | Unparsed

  type Package = map<string, Part>

  /** What a reader finds at one entry name: nothing, bytes that do not
      parse, or a tree. */
  datatype View = Absent | Broken | Present(root: Node)

  function ViewOf(pkg: Package, name: string): View {
    if name !in pkg then Absent
    else match pkg[name]
      case Xml(root) => Present(root)
      case Unparsed => Broken
  }

  function Attr(n: Node, key: string): Option<string> {
    if key in n.attrs then Some(n.attrs[key]) else None
  }

  // ---------------------------------------------------------------------------
  // direct children: lxml `find` / `findall` with a plain tag

  /** The position of the first child with the given tag. */
  function FirstIndex(kids: seq<Node>, tag: string): (r: Option<nat>)
    ensures r.Some? ==> r.value < |kids| && kids[r.value].tag == tag
                        && forall j :: 0 <= j < r.value ==> kids[j].tag != tag
    ensures r.None? ==> forall j :: 0 <= j < |kids| ==> kids[j].tag != tag
  {
    if kids == [] then None
    else if kids[0].tag == tag then Some(0)
    else match FirstIndex(kids[1..], tag)
      case None => None
      case Some(i) => Some(i + 1)
  }

  /** `n.find(tag)`: the first direct child with the tag. */
  function FindChild(n: Node, tag: string): (r: Option<Node>)
    ensures r.Some? <==> exists j :: 0 <= j < |n.kids| && n.kids[j].tag == tag
    ensures r.Some? ==> r.value in n.kids && r.value.tag == tag
  {
    match FirstIndex(n.kids, tag)
    case None => None
    case Some(i) => Some(n.kids[i])
  }

  predicate HasChild(n: Node, tag: string) {
    exists j :: 0 <= j < |n.kids| && n.kids[j].tag == tag
  }

  /** `n.findall(tag)`: the direct children with the tag, in order. */
  function ChildrenWith(kids: seq<Node>, tag: string): (r: seq<Node>)
    ensures forall x :: x in r ==> x in kids && x.tag == tag
    ensures forall j :: 0 <= j < |kids| && kids[j].tag == tag ==> kids[j] in r
  {
    if kids == [] then []
    else ChildrenWith(kids[..|kids| - 1], tag)
         + (if kids[|kids| - 1].tag == tag then [kids[|kids| - 1]] else [])
  }

  // ---------------------------------------------------------------------------
  // descendants in document order: `n.iter(tag)`, `.//tag`, `//tag`

  /** `n.iter(tag)`: `n` itself when it has the tag, then every descendant
      with the tag, in document (pre-)order. */
  function Iter(n: Node, tag: string): seq<Node>
    decreases n
  {
    (if n.tag == tag then [n] else []) + IterKids(n.kids, tag)
  }

  /** The nodes with the tag in the subtrees of `kids`, in document order;
      for `kids == n.kids` this is `n.findall(".//" + tag)`. */
  function IterKids(kids: seq<Node>, tag: string): seq<Node>
    decreases kids
  {
    if kids == [] then []
    else IterKids(kids[..|kids| - 1], tag) + Iter(kids[|kids| - 1], tag)
  }

  /** How many nodes of the subtree carry the tag. */
  function Count(n: Node, tag: string): nat
    decreases n
  {
    (if n.tag == tag then 1 else 0) + CountKids(n.kids, tag)
  }

  function CountKids(kids: seq<Node>, tag: string): nat
    decreases kids
  {
    if kids == [] then 0
    else CountKids(kids[..|kids| - 1], tag) + Count(kids[|kids| - 1], tag)
  }

  /** No node of the subtree carries the tag. */
  predicate Free(n: Node, tag: string)
    decreases n
  {
    n.tag != tag && FreeKids(n.kids, tag)
  }

  predicate FreeKids(kids: seq<Node>, tag: string)
    decreases kids
  {
    forall i :: 0 <= i < |kids| ==> Free(kids[i], tag)
  }

  lemma {:induction false} CountMatchesIter(n: Node, tag: string)
    ensures Count(n, tag) == |Iter(n, tag)|
    decreases n
  {
    CountKidsMatchesIterKids(n.kids, tag);
  }

  lemma {:induction false} CountKidsMatchesIterKids(kids: seq<Node>, tag: string)
    ensures CountKids(kids, tag) == |IterKids(kids, tag)|
    decreases kids
  {
    if kids != [] {
      CountKidsMatchesIterKids(kids[..|kids| - 1], tag);
      CountMatchesIter(kids[|kids| - 1], tag);
    }
  }

  lemma {:induction false} FreeMeansNone(n: Node, tag: string)
    ensures Free(n, tag) <==> Count(n, tag) == 0
    decreases n
  {
    FreeKidsMeansNone(n.kids, tag);
  }

  lemma {:induction false} FreeKidsMeansNone(kids: seq<Node>, tag: string)
    ensures FreeKids(kids, tag) <==> CountKids(kids, tag) == 0
    decreases kids
  {
    if kids != [] {
      var init := kids[..|kids| - 1];
      var last := kids[|kids| - 1];
      FreeKidsMeansNone(init, tag);
      FreeMeansNone(last, tag);
      if FreeKids(kids, tag) {
        assert FreeKids(init, tag) by {
          forall i | 0 <= i < |init| ensures Free(init[i], tag) {
            assert init[i] == kids[i];
          }
        }
      } else if CountKids(kids, tag) == 0 {
        forall i | 0 <= i < |kids| ensures Free(kids[i], tag) {
          if i < |init| {
            assert kids[i] == init[i];
          }
        }
      }
    }
  }

  lemma {:induction false} IterKidsAppend(a: seq<Node>, b: seq<Node>, tag: string)
    ensures IterKids(a + b, tag) == IterKids(a, tag) + IterKids(b, tag)
    decreases |b|
  {
    if b == [] {
      assert a + b == a;
    } else {
      var init := b[..|b| - 1];
      var last := Iter(b[|b| - 1], tag);
      assert (a + b)[..|a + b| - 1] == a + init;
      assert (a + b)[|a + b| - 1] == b[|b| - 1];
      assert IterKids(a + b, tag) == IterKids(a + init, tag) + last;
      IterKidsAppend(a, init, tag);
      assert IterKids(b, tag) == IterKids(init, tag) + last;
      assert (IterKids(a, tag) + IterKids(init, tag)) + last == IterKids(a, tag) + (IterKids(init, tag) + last);
    }
  }

  /** A forest without the tag yields nothing when searched for it. */
  lemma FreeKidsIterEmpty(kids: seq<Node>, tag: string)
    requires FreeKids(kids, tag)
    ensures IterKids(kids, tag) == []
  {
    FreeKidsMeansNone(kids, tag);
    CountKidsMatchesIterKids(kids, tag);
  }
}
