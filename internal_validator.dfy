/** `DocxInternalValidator` (app/src/JBGDocxInternalValidator.py): a
    validator object over one Word package that appends what it finds to its
    `errors` list. The checks run in a fixed order (relationships, styles,
    settings, comments, well-formedness); a part that exists but does not
    parse makes the check that reads it raise, which ends `validate` with the
    errors found so far kept in the object. The list is never cleared, so a
    second `validate` appends to the first one's findings.

    The checks are stated over a `Reader`, the attribute lookup
    `element.get(key)`. `LiteralKeys` is lxml's answer for the literal keys
    the validator passes ("Target", "w:styleId", "w:id"): lxml names a
    namespaced attribute `{uri}local`, so a prefixed key finds nothing.
    `ClarkKeys` reads the namespaced attribute the prefixed key denotes, as
    evidently intended. */
module InternalValidator {
  import opened Wrappers
  import opened Text
  import opened Xml

  const RelsName := "word/_rels/document.xml.rels"
  const StylesName := "word/styles.xml"
  const SettingsName := "word/settings.xml"
  const CommentsName := "word/comments.xml"
  const DocumentName := "word/document.xml"

  /** The relationship targets the document must have, matched as
      substrings of the declared targets. */
  const RequiredTargets: seq<string> := ["styles.xml", "settings.xml", "comments.xml", "fontTable.xml", "webSettings.xml"]

  /** The style ids the document must define, after translation. */
  const RequiredStyles: seq<string> := ["Normal", "DefaultParagraphFont", "TableNormal", "CommentText", "InsertedText", "DeletedText"]

  /** `STYLE_TRANSLATION_MAP`: the English counterpart of a Swedish
      built-in style id. */
  function EnglishName(id: string): Option<string> {
    match id
    case "Standard" => Some("Normal")
    case "Standardstycketeckensnitt" => Some("DefaultParagraphFont")
    case "Normaltabell" => Some("TableNormal")
    case "Rubrik" => Some("Title")
    case "Rubrik1" => Some("heading 1")
    case "Rubrik2" => Some("heading 2")
    case "Rubrik3" => Some("heading 3")
    case "Rubrik4" => Some("heading 4")
    case "Rubrik5" => Some("heading 5")
    case "Rubrik6" => Some("heading 6")
    case "Rubrik7" => Some("heading 7")
    case "Rubrik8" => Some("heading 8")
    case "Rubrik9" => Some("heading 9")
    case "Underrubrik" => Some("Subtitle")
    case "Brödtext" => Some("Body Text")
    case "Fotnotstext" => Some("footnote text")
    case "Sidhuvud" => Some("header")
    case "Sidfot" => Some("footer")
    case "Citat" => Some("Quote")
    case "Ballongtext" => Some("Balloon Text")
    case "Beskrivning" => Some("caption")
    case "Slutkommentar" => Some("endnote text")
    case "Tabellrubrik" => Some("Table Heading")
    case "Innehåll1" => Some("toc 1")
    case "Innehåll2" => Some("toc 2")
    case "Innehåll3" => Some("toc 3")
    case "Innehållsförteckningsrubrik" => Some("TOC Heading")
    case "Rubrik1Char" => Some("heading 1 Char")
    case "Rubrik2Char" => Some("heading 2 Char")
    case "Rubrik3Char" => Some("heading 3 Char")
    case "Rubrik4Char" => Some("heading 4 Char")
    case "Rubrik5Char" => Some("heading 5 Char")
    case "Rubrik6Char" => Some("heading 6 Char")
    case "Rubrik7Char" => Some("heading 7 Char")
    case "Rubrik8Char" => Some("heading 8 Char")
    case "Rubrik9Char" => Some("heading 9 Char")
    case "RubrikChar" => Some("Title Char")
    case "UnderrubrikChar" => Some("Subtitle Char")
    case "BrdtextChar" => Some("Body Text Char")
    case "BallongtextChar" => Some("Balloon Text Char")
    case "Doldtext" => Some("Hidden Text")
    case "Hyperlnk" => Some("Hyperlink")
    case "FotnotstextChar" => Some("Footnote Text Char")
    case "SlutkommentarChar" => Some("Endnote Text Char")
    case "SidhuvudChar" => Some("Header Char")
    case "SidfotChar" => Some("Footer Char")
    case "CitatChar" => Some("Quote Char")
    case "Platshållartext" => Some("Placeholder Text")
    case "Ingenlista" => Some("No List")
    case "Punktlista" => Some("List Bullet")
    case "Punktlista2" => Some("List Bullet 2")
    case "Punktlista3" => Some("List Bullet 3")
    case "Numreradlista" => Some("List Number")
    case "Numreradlista2" => Some("List Number 2")
    case "Numreradlista3" => Some("List Number 3")
    case "Sidnummer" => Some("page number")
    case "Tabellrutnät" => Some("Table Grid")
    case "IAF" => Some("TableNormal")
    case "IAFBlåkolumn" => Some("Table Colorful 1")
    case _ => None
  }

  /** One entry of the error list; the message texts are not modelled. */
  datatype Problem =
    | MissingRels
    | MissingRelationship(target: string)
    | MissingStyles
    | MissingStyle(id: string)
    | MissingSettings
    | NoTrackRevisions
    | MissingDocument
    | DanglingReference(ref: Option<string>)
    | BrokenPart(name: string)

  /** `element.get(key)`. */
  datatype Reader = Reader(get: (Node, string) -> Option<string>)

  /** The attribute stored under `k`, if any. */
  function Attr(n: Node, k: string): Option<string> {
    if k in n.attrs then Some(n.attrs[k]) else None
  }

  /** lxml with a literal key: a key with a namespace prefix matches no
      attribute; a key without one reads the attribute in no namespace. */
  const LiteralKeys := Reader((n: Node, k: string) => if ':' in k then None else Attr(n, k))

  /** The lookup with the key written `{uri}local`: the namespaced
      attribute is read. */
  const ClarkKeys := Reader((n: Node, k: string) => Attr(n, k))

  /** What one check appends to the list, and whether it then raises. */
  datatype Outcome = Outcome(found: seq<Problem>, raised: bool)

  // ---------------------------------------------------------------------------
  // `_validate_relationships`

  /** Every element strictly below `n`, in document order (`n.findall(".//")`). */
  function Below(n: Node): seq<Node>
    decreases n, 1
  {
    BelowKids(n.kids)
  }

  function BelowKids(kids: seq<Node>): seq<Node>
    decreases kids, 0
  {
    if kids == [] then []
    else
      var last := kids[|kids| - 1];
      BelowKids(kids[..|kids| - 1]) + [last] + Below(last)
  }

  /** Below a list of childless elements there are just those elements. */
  lemma {:induction false} BelowLeaves(kids: seq<Node>)
    requires forall i :: 0 <= i < |kids| ==> kids[i].kids == []
    ensures BelowKids(kids) == kids
    decreases |kids|
  {
    if kids != [] {
      var init := kids[..|kids| - 1];
      BelowLeaves(init);
      assert Below(kids[|kids| - 1]) == BelowKids([]);
      assert kids == init + [kids[|kids| - 1]];
    }
  }

  /** The set of declared targets: the "Target" of every element below the
      root, whatever its namespace, with `None` for an element that has no
      target. `findall(".//")` with the relationships namespace as the
      default selects every descendant: the path ends in a wildcard step,
      and the default namespace does not qualify a wildcard. */
  function Targets(root: Node, read: Reader): set<Option<string>> {
    var all := Below(root);
    set i | 0 <= i < |all| :: read.get(all[i], "Target")
  }

  /** Some declared target contains `t`. */
  predicate Linked(t: string, targets: set<Option<string>>) {
    exists u :: u in targets && u.Some? && Contains(u.value, t)
  }

  predicate AllLinked(required: seq<string>, targets: set<Option<string>>) {
    forall i :: 0 <= i < |required| ==> Linked(required[i], targets)
  }

  /** The containment test over the target set raises TypeError when it
      reaches a missing target, which it must for a required target that no
      declared target contains. */
  predicate TargetTypeError(targets: set<Option<string>>) {
    None in targets && !AllLinked(RequiredTargets, targets)
  }

  /** One problem per required target, in order, that no target contains. */
  function Unlinked(required: seq<string>, targets: set<Option<string>>): seq<Problem> {
    if required == [] then []
    else
      var t := required[|required| - 1];
      Unlinked(required[..|required| - 1], targets) + (if Linked(t, targets) then [] else [MissingRelationship(t)])
  }

  function RelsCheck(pkg: Package, read: Reader): Outcome {
    match ViewOf(pkg, RelsName)
    case Absent => Outcome([MissingRels], false)
    case Broken => Outcome([], true)
    case Present(root) =>
      var targets := Targets(root, read);
      if TargetTypeError(targets) then Outcome([], true)
      else Outcome(Unlinked(RequiredTargets, targets), false)
  }

  // ---------------------------------------------------------------------------
  // `_validate_styles`

  /** A style id after translation; an unmapped id and a missing id stay. */
  function Translate(id: Option<string>): (r: Option<string>)
    ensures id.None? ==> r.None?
    ensures id.Some? && EnglishName(id.value).None? ==> r == id
    ensures id.Some? && EnglishName(id.value).Some? ==> r == EnglishName(id.value)
  {
    match id
    case None => None
    case Some(s) => Some(EnglishName(s).GetOr(s))
  }

  /** The translated ids of the `w:style` elements below the root. */
  function StyleIds(root: Node, read: Reader): set<Option<string>> {
    var styles := IterKids(root.kids, "w:style");
    set i | 0 <= i < |styles| :: Translate(read.get(styles[i], "w:styleId"))
  }

  function Undefined(required: seq<string>, ids: set<Option<string>>): seq<Problem> {
    if required == [] then []
    else
      var s := required[|required| - 1];
      Undefined(required[..|required| - 1], ids) + (if Some(s) in ids then [] else [MissingStyle(s)])
  }

  function StylesCheck(pkg: Package, read: Reader): Outcome {
    match ViewOf(pkg, StylesName)
    case Absent => Outcome([MissingStyles], false)
    case Broken => Outcome([], true)
    case Present(root) => Outcome(Undefined(RequiredStyles, StyleIds(root, read)), false)
  }

  // ---------------------------------------------------------------------------
  // `_validate_settings`

  function SettingsCheck(pkg: Package): Outcome {
    match ViewOf(pkg, SettingsName)
    case Absent => Outcome([MissingSettings], false)
    case Broken => Outcome([], true)
    case Present(root) => Outcome(if HasChild(root, "w:trackRevisions") then [] else [NoTrackRevisions], false)
  }

  // ---------------------------------------------------------------------------
  // `_validate_comments`

  function CommentIds(root: Node, read: Reader): set<Option<string>> {
    var comments := IterKids(root.kids, "w:comment");
    set i | 0 <= i < |comments| :: read.get(comments[i], "w:id")
  }

  /** The ids of the comment references below the root, in document order. */
  function RefIds(root: Node, read: Reader): (r: seq<Option<string>>)
    ensures |r| == |IterKids(root.kids, "w:commentReference")|
  {
    var refs := IterKids(root.kids, "w:commentReference");
    seq(|refs|, i requires 0 <= i < |refs| => read.get(refs[i], "w:id"))
  }

  function Dangling(refs: seq<Option<string>>, ids: set<Option<string>>): seq<Problem> {
    if refs == [] then []
    else
      var id := refs[|refs| - 1];
      Dangling(refs[..|refs| - 1], ids) + (if id in ids then [] else [DanglingReference(id)])
  }

  function CommentsCheck(pkg: Package, read: Reader): Outcome {
    match ViewOf(pkg, CommentsName)
    case Absent => Outcome([], false)
    case Broken => Outcome([], true)
    case Present(comments) =>
      match ViewOf(pkg, DocumentName)
      case Absent => Outcome([MissingDocument], false)
      case Broken => Outcome([], true)
      case Present(doc) => Outcome(Dangling(RefIds(doc, read), CommentIds(comments, read)), false)
  }

  // ---------------------------------------------------------------------------
  // `_check_wellformed_parts`

  /** One problem per entry, in zip order, whose name ends in ".xml" and
      whose bytes do not parse. */
  function Unparsable(pkg: Package, names: seq<string>): seq<Problem> {
    if names == [] then []
    else
      var n := names[|names| - 1];
      Unparsable(pkg, names[..|names| - 1]) + (if EndsWith(n, ".xml") && ViewOf(pkg, n).Broken? then [BrokenPart(n)] else [])
  }

  // ---------------------------------------------------------------------------
  // `validate`

  /** Check `a` and then, unless it raised, check `b`. */
  function Then(a: Outcome, b: Outcome): (r: Outcome)
    ensures r.raised <==> a.raised || b.raised
  {
    if a.raised then a else Outcome(a.found + b.found, b.raised)
  }

  /** The checks in order, up to and including the first that raises. */
  function ValidateSpec(pkg: Package, names: seq<string>, read: Reader): Outcome {
    Then(RelsCheck(pkg, read), Then(StylesCheck(pkg, read), Then(SettingsCheck(pkg),
      Then(CommentsCheck(pkg, read), Outcome(Unparsable(pkg, names), false)))))
  }

  // ---------------------------------------------------------------------------
  // what the checks report

  /** A required target is reported iff no declared target contains it. */
  lemma {:induction false} UnlinkedIff(required: seq<string>, targets: set<Option<string>>, t: string)
    ensures MissingRelationship(t) in Unlinked(required, targets) <==> t in required && !Linked(t, targets)
    ensures Unlinked(required, targets) == [] <==> AllLinked(required, targets)
    decreases required
  {
    if required != [] {
      var init := required[..|required| - 1];
      var last := required[|required| - 1];
      UnlinkedIff(init, targets, t);
      UnlinkedIff(init, targets, last);
      assert required == init + [last];
      if AllLinked(init, targets) && Linked(last, targets) {
        forall i | 0 <= i < |required|
          ensures Linked(required[i], targets)
        {
          if i < |init| {
            assert required[i] == init[i];
          }
        }
      }
    }
  }

  /** One more required target: it adds its problem when unlinked. */
  lemma RelsStep(targets: set<Option<string>>, i: nat)
    requires i < |RequiredTargets|
    ensures var t := RequiredTargets[i];
      && Unlinked(RequiredTargets[..i + 1], targets)
           == Unlinked(RequiredTargets[..i], targets) + (if Linked(t, targets) then [] else [MissingRelationship(t)])
      && (AllLinked(RequiredTargets[..i + 1], targets) <==> AllLinked(RequiredTargets[..i], targets) && Linked(t, targets))
  {
    var pre := RequiredTargets[..i + 1];
    assert pre[..i] == RequiredTargets[..i];
    assert pre == RequiredTargets[..i] + [RequiredTargets[i]];
  }

  /** The containment test stops at the first unlinked target when some
      relationship has no target; nothing has been reported by then. */
  lemma RaiseAt(targets: set<Option<string>>, i: nat)
    requires i < |RequiredTargets| && None in targets
    requires AllLinked(RequiredTargets[..i], targets) && !Linked(RequiredTargets[i], targets)
    ensures TargetTypeError(targets) && Unlinked(RequiredTargets[..i], targets) == []
  {
    UnlinkedIff(RequiredTargets[..i], targets, RequiredTargets[i]);
  }

  /** Without a relationships part there is exactly one error and no
      per-target check; with one, the check raises iff some relationship
      lacks a target and some required target is not linked. When it does
      not raise, each required target is reported iff no declared target
      contains it; when it raises, it has reported nothing, since every
      target before the first unlinked one is linked. */
  lemma RelsReports(pkg: Package, read: Reader, t: string)
    ensures ViewOf(pkg, RelsName).Absent? ==> RelsCheck(pkg, read) == Outcome([MissingRels], false)
    ensures ViewOf(pkg, RelsName).Broken? ==> RelsCheck(pkg, read).raised
    ensures ViewOf(pkg, RelsName).Present? ==>
      var targets := Targets(ViewOf(pkg, RelsName).root, read);
      && (RelsCheck(pkg, read).raised <==> None in targets && exists u :: u in RequiredTargets && !Linked(u, targets))
      && (RelsCheck(pkg, read).raised ==> RelsCheck(pkg, read).found == [])
      && (!RelsCheck(pkg, read).raised ==>
            (MissingRelationship(t) in RelsCheck(pkg, read).found <==> t in RequiredTargets && !Linked(t, targets)))
  {
    if ViewOf(pkg, RelsName).Present? {
      var targets := Targets(ViewOf(pkg, RelsName).root, read);
      UnlinkedIff(RequiredTargets, targets, t);
      if !AllLinked(RequiredTargets, targets) {
        var i :| 0 <= i < |RequiredTargets| && !Linked(RequiredTargets[i], targets);
        assert RequiredTargets[i] in RequiredTargets;
      }
    }
  }

  /** The relationships of a typical broken part: one links "styles.xml",
      the other has no target. The check raises on "settings.xml" before
      reporting anything. */
  lemma UntargetedRelationshipRaises(pkg: Package)
    requires ViewOf(pkg, RelsName) == Present(Node("rel:Relationships", map[], None, [
      Node("rel:Relationship", map["Target" := "styles.xml"], None, []),
      Node("rel:Relationship", map[], None, [])]))
    ensures RelsCheck(pkg, LiteralKeys) == Outcome([], true)
  {
    var root := ViewOf(pkg, RelsName).root;
    ReadTwoRelationships(root);
    TwoRelationships(root, LiteralKeys);
    StylesOnlyRaises(Targets(root, LiteralKeys));
  }

  lemma ReadTwoRelationships(root: Node)
    requires root == Node("rel:Relationships", map[], None, [
      Node("rel:Relationship", map["Target" := "styles.xml"], None, []),
      Node("rel:Relationship", map[], None, [])])
    ensures LiteralKeys.get(root.kids[0], "Target") == Some("styles.xml")
    ensures LiteralKeys.get(root.kids[1], "Target") == None
  {
    assert ':' !in "Target";
  }

  /** A missing target beside "styles.xml" alone raises: "settings.xml" is
      not linked. */
  lemma StylesOnlyRaises(targets: set<Option<string>>)
    requires targets == {Some("styles.xml"), None}
    ensures TargetTypeError(targets)
  {
    assert !Linked(RequiredTargets[1], targets) by {
      assert |"styles.xml"| < |RequiredTargets[1]|;
    }
  }

  /** The targets of two childless elements. */
  lemma TwoRelationships(root: Node, read: Reader)
    requires |root.kids| == 2 && root.kids[0].kids == [] && root.kids[1].kids == []
    ensures Targets(root, read) == {read.get(root.kids[0], "Target"), read.get(root.kids[1], "Target")}
  {
    BelowLeaves(root.kids);
    var all := Below(root);
    assert all == root.kids;
  }

  /** An element outside the relationships namespace, such as the
      unqualified "Relationship" the theme step appends, declares its target
      like any other: its "styles.xml" links the styles part. */
  lemma ForeignElementLinks(root: Node)
    requires root.kids == [Node("Relationship", map["Target" := "styles.xml"], None, [])]
    ensures Targets(root, LiteralKeys) == {Some("styles.xml")}
    ensures Linked("styles.xml", Targets(root, LiteralKeys))
  {
    BelowLeaves(root.kids);
    assert ':' !in "Target";
    assert Contains("styles.xml", "styles.xml") by {
      assert IsAt("styles.xml", "styles.xml", 0);
    }
  }

  /** A required style is reported iff no translated id equals it. */
  lemma {:induction false} UndefinedIff(required: seq<string>, ids: set<Option<string>>, s: string)
    ensures MissingStyle(s) in Undefined(required, ids) <==> s in required && Some(s) !in ids
    decreases required
  {
    if required != [] {
      var init := required[..|required| - 1];
      UndefinedIff(init, ids, s);
      assert required == init + [required[|required| - 1]];
    }
  }

  /** With the namespaced key, a style whose id is a Swedish name counts as
      its English counterpart: a styles part with a "Standard" style is not
      reported as missing "Normal". */
  lemma TranslatedStyleCounts(pkg: Package, i: nat)
    requires ViewOf(pkg, StylesName).Present?
    requires var styles := IterKids(ViewOf(pkg, StylesName).root.kids, "w:style");
      i < |styles| && Attr(styles[i], "w:styleId") == Some("Standard")
    ensures MissingStyle("Normal") !in StylesCheck(pkg, ClarkKeys).found
  {
    var root := ViewOf(pkg, StylesName).root;
    var styles := IterKids(root.kids, "w:style");
    assert Translate(ClarkKeys.get(styles[i], "w:styleId")) == Some("Normal");
    assert Some("Normal") in StyleIds(root, ClarkKeys);
    UndefinedIff(RequiredStyles, StyleIds(root, ClarkKeys), "Normal");
  }

  /** As written, every style id reads as missing, so every required style
      is reported for any styles part that parses, whatever it defines. */
  lemma LiteralKeysMissEveryStyle(pkg: Package, s: string)
    requires ViewOf(pkg, StylesName).Present?
    ensures MissingStyle(s) in StylesCheck(pkg, LiteralKeys).found <==> s in RequiredStyles
  {
    var ids := StyleIds(ViewOf(pkg, StylesName).root, LiteralKeys);
    assert Some(s) !in ids;
    UndefinedIff(RequiredStyles, ids, s);
  }

  /** The settings check reports at most one problem, and a missing
      `trackRevisions` child exactly when the part is there without one. */
  lemma SettingsReports(pkg: Package)
    ensures |SettingsCheck(pkg).found| <= 1
    ensures NoTrackRevisions in SettingsCheck(pkg).found <==>
      ViewOf(pkg, SettingsName).Present? && !HasChild(ViewOf(pkg, SettingsName).root, "w:trackRevisions")
  {
  }

  /** One problem per reference whose id no comment has, and nothing for a
      comment no reference points to. */
  lemma {:induction false} DanglingIff(refs: seq<Option<string>>, ids: set<Option<string>>, id: Option<string>)
    ensures DanglingReference(id) in Dangling(refs, ids) <==> id in refs && id !in ids
    ensures forall p :: p in Dangling(refs, ids) ==> p.DanglingReference? && p.ref in refs
    ensures |Dangling(refs, ids)| <= |refs|
    decreases refs
  {
    if refs != [] {
      var init := refs[..|refs| - 1];
      DanglingIff(init, ids, id);
      assert refs == init + [refs[|refs| - 1]];
    }
  }

  /** Without a comments part nothing is checked; when every reference
      resolves nothing is reported. */
  lemma CommentsReports(pkg: Package, read: Reader)
    ensures ViewOf(pkg, CommentsName).Absent? ==> CommentsCheck(pkg, read) == Outcome([], false)
    ensures ViewOf(pkg, CommentsName).Present? && ViewOf(pkg, DocumentName).Present? ==>
      var refs := RefIds(ViewOf(pkg, DocumentName).root, read);
      var ids := CommentIds(ViewOf(pkg, CommentsName).root, read);
      (forall j :: 0 <= j < |refs| ==> refs[j] in ids) ==> CommentsCheck(pkg, read).found == []
  {
    if ViewOf(pkg, CommentsName).Present? && ViewOf(pkg, DocumentName).Present? {
      var refs := RefIds(ViewOf(pkg, DocumentName).root, read);
      var ids := CommentIds(ViewOf(pkg, CommentsName).root, read);
      if forall j :: 0 <= j < |refs| ==> refs[j] in ids {
        var found := Dangling(refs, ids);
        if found != [] {
          DanglingIff(refs, ids, None);
          DanglingIff(refs, ids, found[0].ref);
          assert false;
        }
      }
    }
  }

  /** As written, every comment id and every reference id reads as missing,
      so once the comments part holds a comment no reference is reported,
      whatever the ids. */
  lemma LiteralKeysHideDangling(pkg: Package)
    requires ViewOf(pkg, CommentsName).Present? && ViewOf(pkg, DocumentName).Present?
    requires IterKids(ViewOf(pkg, CommentsName).root.kids, "w:comment") != []
    ensures CommentsCheck(pkg, LiteralKeys).found == []
  {
    var comments := IterKids(ViewOf(pkg, CommentsName).root.kids, "w:comment");
    var ids := CommentIds(ViewOf(pkg, CommentsName).root, LiteralKeys);
    assert LiteralKeys.get(comments[0], "w:id") == None;
    assert None in ids;
    CommentsReports(pkg, LiteralKeys);
  }

  /** With the namespaced key, a reference whose id no comment carries is
      reported. */
  lemma ClarkKeysReportDangling(pkg: Package, j: nat)
    requires ViewOf(pkg, CommentsName).Present? && ViewOf(pkg, DocumentName).Present?
    requires var refs := IterKids(ViewOf(pkg, DocumentName).root.kids, "w:commentReference");
      j < |refs| && Attr(refs[j], "w:id").Some?
      && forall c :: c in IterKids(ViewOf(pkg, CommentsName).root.kids, "w:comment") ==> Attr(c, "w:id") != Attr(refs[j], "w:id")
    ensures DanglingReference(Attr(IterKids(ViewOf(pkg, DocumentName).root.kids, "w:commentReference")[j], "w:id"))
              in CommentsCheck(pkg, ClarkKeys).found
  {
    var refs := RefIds(ViewOf(pkg, DocumentName).root, ClarkKeys);
    var ids := CommentIds(ViewOf(pkg, CommentsName).root, ClarkKeys);
    var id := refs[j];
    assert id !in ids;
    DanglingIff(refs, ids, id);
  }

  /** An entry is reported iff its name ends in ".xml" and it does not
      parse; relationship parts (".rels") are never reported. */
  lemma {:induction false} UnparsableIff(pkg: Package, names: seq<string>, n: string)
    ensures BrokenPart(n) in Unparsable(pkg, names) <==> n in names && EndsWith(n, ".xml") && ViewOf(pkg, n).Broken?
    ensures EndsWith(n, ".rels") ==> BrokenPart(n) !in Unparsable(pkg, names)
    decreases names
  {
    if EndsWith(n, ".rels") {
      assert n[|n| - 1] == 's';
    }
    if names != [] {
      var init := names[..|names| - 1];
      UnparsableIff(pkg, init, n);
      assert names == init + [names[|names| - 1]];
    }
  }

  /** `validate` raises iff one of the parts it parses is malformed (the
      relationships, styles or settings part, the comments part, or the
      document part when there are comments) or the relationships part has
      a relationship without a target while a required target is unlinked. */
  lemma ValidateRaises(pkg: Package, names: seq<string>, read: Reader)
    ensures ValidateSpec(pkg, names, read).raised <==>
      ViewOf(pkg, RelsName).Broken? ||
      (ViewOf(pkg, RelsName).Present? && TargetTypeError(Targets(ViewOf(pkg, RelsName).root, read))) ||
      ViewOf(pkg, StylesName).Broken? || ViewOf(pkg, SettingsName).Broken? ||
      ViewOf(pkg, CommentsName).Broken? || (ViewOf(pkg, CommentsName).Present? && ViewOf(pkg, DocumentName).Broken?)
  {
  }

  /** The validator object: the package, its zip entry names in archive
      order, the attribute reader and the accumulated error list. */
  class Validator {
    const pkg: Package
    const names: seq<string>
    const read: Reader
    var errors: seq<Problem>

    constructor(pkg: Package, names: seq<string>, read: Reader)
      ensures this.pkg == pkg && this.names == names && this.read == read && errors == []
    {
      this.pkg := pkg;
      this.names := names;
      this.read := read;
      errors := [];
    }

    method ValidateRelationships() returns (raised: bool)
      modifies this
      ensures errors == old(errors) + RelsCheck(pkg, read).found && raised == RelsCheck(pkg, read).raised
    {
      match ViewOf(pkg, RelsName)
      case Absent =>
        errors := errors + [MissingRels];
        return false;
      case Broken =>
        return true;
      case Present(root) =>
        var targets := Targets(root, read);
        for i := 0 to |RequiredTargets|
          invariant errors == old(errors) + Unlinked(RequiredTargets[..i], targets)
          invariant None in targets ==> AllLinked(RequiredTargets[..i], targets)
        {
          var t := RequiredTargets[i];
          RelsStep(targets, i);
          if !(exists u :: u in targets && u.Some? && Contains(u.value, t)) {
            if None in targets {
              RaiseAt(targets, i);
              return true;
            }
            errors := errors + [MissingRelationship(t)];
          }
        }
        assert RequiredTargets[..|RequiredTargets|] == RequiredTargets;
        return false;
    }

    method ValidateStyles() returns (raised: bool)
      modifies this
      ensures errors == old(errors) + StylesCheck(pkg, read).found && raised == StylesCheck(pkg, read).raised
    {
      match ViewOf(pkg, StylesName)
      case Absent =>
        errors := errors + [MissingStyles];
        return false;
      case Broken =>
        return true;
      case Present(root) =>
        var ids := StyleIds(root, read);
        for i := 0 to |RequiredStyles|
          invariant errors == old(errors) + Undefined(RequiredStyles[..i], ids)
        {
          assert RequiredStyles[..i + 1][..i] == RequiredStyles[..i];
          if Some(RequiredStyles[i]) !in ids {
            errors := errors + [MissingStyle(RequiredStyles[i])];
          }
        }
        assert RequiredStyles[..|RequiredStyles|] == RequiredStyles;
        return false;
    }

    method ValidateSettings() returns (raised: bool)
      modifies this
      ensures errors == old(errors) + SettingsCheck(pkg).found && raised == SettingsCheck(pkg).raised
    {
      match ViewOf(pkg, SettingsName)
      case Absent =>
        errors := errors + [MissingSettings];
        return false;
      case Broken =>
        return true;
      case Present(root) =>
        if !HasChild(root, "w:trackRevisions") {
          errors := errors + [NoTrackRevisions];
        }
        return false;
    }

    method ValidateComments() returns (raised: bool)
      modifies this
      ensures errors == old(errors) + CommentsCheck(pkg, read).found && raised == CommentsCheck(pkg, read).raised
    {
      var cv := ViewOf(pkg, CommentsName);
      if cv.Absent? {
        return false;
      } else if cv.Broken? {
        return true;
      }
      var ids := CommentIds(cv.root, read);
      var dv := ViewOf(pkg, DocumentName);
      if dv.Absent? {
        errors := errors + [MissingDocument];
        return false;
      } else if dv.Broken? {
        return true;
      }
      var refs := RefIds(dv.root, read);
      for i := 0 to |refs|
        invariant errors == old(errors) + Dangling(refs[..i], ids)
      {
        assert refs[..i + 1][..i] == refs[..i];
        if refs[i] !in ids {
          errors := errors + [DanglingReference(refs[i])];
        }
      }
      assert refs[..|refs|] == refs;
      return false;
    }

    method CheckWellformedParts()
      modifies this
      ensures errors == old(errors) + Unparsable(pkg, names)
    {
      for i := 0 to |names|
        invariant errors == old(errors) + Unparsable(pkg, names[..i])
      {
        assert names[..i + 1][..i] == names[..i];
        if EndsWith(names[i], ".xml") && ViewOf(pkg, names[i]).Broken? {
          errors := errors + [BrokenPart(names[i])];
        }
      }
      assert names[..|names|] == names;
    }

    /** `validate`: the checks in order, appended to what earlier calls
        found; a check that raises ends the call, as a `Failure`. */
    method Validate() returns (r: Result<seq<Problem>, ()>)
      modifies this
      ensures errors == old(errors) + ValidateSpec(pkg, names, read).found
      ensures r.Failure? <==> ValidateSpec(pkg, names, read).raised
      ensures r.Success? ==> r.value == errors
    {
      ghost var o1, o2, o3, o4 := RelsCheck(pkg, read), StylesCheck(pkg, read), SettingsCheck(pkg), CommentsCheck(pkg, read);
      ghost var o5 := Outcome(Unparsable(pkg, names), false);
      assert ValidateSpec(pkg, names, read) == Then(o1, Then(o2, Then(o3, Then(o4, o5))));
      ghost var e0 := errors;
      var raised := ValidateRelationships();
      if raised {
        return Failure(());
      }
      raised := ValidateStyles();
      Assoc(e0, o1.found, o2.found);
      if raised {
        return Failure(());
      }
      raised := ValidateSettings();
      Assoc(e0, o1.found + o2.found, o3.found);
      if raised {
        return Failure(());
      }
      raised := ValidateComments();
      Assoc(e0, o1.found + o2.found + o3.found, o4.found);
      if raised {
        Regroup(o1.found, o2.found, o3.found, o4.found, []);
        return Failure(());
      }
      CheckWellformedParts();
      Assoc(e0, o1.found + o2.found + o3.found + o4.found, o5.found);
      Regroup(o1.found, o2.found, o3.found, o4.found, o5.found);
      return Success(errors);
    }
  }

  lemma Assoc<T>(x: seq<T>, y: seq<T>, z: seq<T>)
    ensures x + y + z == x + (y + z)
  {
  }

  lemma Regroup<T>(a: seq<T>, b: seq<T>, c: seq<T>, d: seq<T>, e: seq<T>)
    ensures a + b + c + d + e == a + (b + (c + (d + e)))
    ensures a + b + c + d == a + (b + (c + d))
  {
  }
}
