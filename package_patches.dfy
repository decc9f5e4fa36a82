/** The package-infrastructure passes of the native revision converter
    (app/src/JBGSuperDocumentEditor.py): the styles patch, the settings fix,
    the paragraph-style pass over document.xml, the session-id (rsid) pool
    and its injection into settings.xml, the theme relationship and the
    recovery of parts from the original package. Every pass is an in-place
    rewrite of one parsed part; here it takes the part as the reader finds it
    and gives back the new tree. */
module PackagePatches {
  import opened Wrappers
  import opened Text
  import opened Xml

  const StylesPart := "word/styles.xml"
  const SettingsPart := "word/settings.xml"
  const DocumentPart := "word/document.xml"
  const RelsPart := "word/_rels/document.xml.rels"

  /** Why a pass raises: a part it parses without a guard does not parse
      (lxml's `XMLSyntaxError`); there are no session ids to take the first
      of (`IndexError`); the run to be replaced by a tracked change is the
      document root itself, which has no parent to take the replacement; or
      a part the pass reads is not in the package (`KeyError`). */
  datatype PatchError = Unparsable(part: string) | EmptyPool | DetachedRoot | Missing(part: string)

  /** An element with one attribute `w:val` and nothing else. */
  function Val(tag: string, v: string): Node {
    Node(tag, map["w:val" := v], None, [])
  }

  // ---------------------------------------------------------------------------
  // `_patch_or_inject_styles`

  /** One required style: id, type, display name, and whether it is the default. */
  datatype StyleDef = StyleDef(id: string, kind: string, name: string, isDefault: bool)

  const RequiredStyles: seq<StyleDef> := [
    StyleDef("Normal", "paragraph", "Normal", true),
    StyleDef("DefaultParagraphFont", "character", "Default Paragraph Font", false),
    StyleDef("TableNormal", "table", "Table Normal", false),
    StyleDef("CommentText", "character", "Comment Text", false),
    StyleDef("InsertedText", "character", "Inserted Text", false),
    StyleDef("DeletedText", "character", "Deleted Text", false)
  ]

  /** `REQUIRED_STYLES`, the ids the incompleteness test looks for. */
  const RequiredIds: set<string> :=
    {"Normal", "DefaultParagraphFont", "TableNormal", "CommentText", "InsertedText", "DeletedText"}

  /** The `w:style` element made for a missing style: type and id, `w:default`
      "1" for the default style, a `w:name`, `w:qFormat` for Normal and the
      band sizes 1 in a `w:tblPr` for TableNormal. */
  function StyleElement(d: StyleDef): Node {
    var attrs := map["w:type" := d.kind, "w:styleId" := d.id];
    Node("w:style", if d.isDefault then attrs["w:default" := "1"] else attrs, None,
      [Val("w:name", d.name)]
      + (if d.id == "Normal" then [Elem("w:qFormat", [])] else [])
      + (if d.id == "TableNormal"
         then [Elem("w:tblPr", [Val("w:tblStyleRowBandSize", "1"), Val("w:tblStyleColBandSize", "1")])]
         else []))
  }

  /** The `w:styleId` values of the given style elements; one without the
      attribute contributes nothing a required id could equal. */
  function IdsOf(styles: seq<Node>): set<string> {
    set s | s in styles && "w:styleId" in s.attrs :: s.attrs["w:styleId"]
  }

  lemma IdsOfAppend(a: seq<Node>, b: seq<Node>)
    ensures IdsOf(a + b) == IdsOf(a) + IdsOf(b)
  {
    forall x | x in IdsOf(a + b) ensures x in IdsOf(a) + IdsOf(b) {
      var s :| s in a + b && "w:styleId" in s.attrs && s.attrs["w:styleId"] == x;
      if s in a {
        assert x in IdsOf(a);
      } else {
        assert x in IdsOf(b);
      }
    }
  }

  function DefIds(defs: seq<StyleDef>): set<string> {
    set d | d in defs :: d.id
  }

  lemma DefIdsSnoc(defs: seq<StyleDef>, d: StyleDef)
    ensures DefIds(defs + [d]) == DefIds(defs) + {d.id}
  {
    assert d in defs + [d];
    forall x | x in DefIds(defs + [d]) ensures x in DefIds(defs) + {d.id} {
      var e :| e in defs + [d] && e.id == x;
      if e in defs {
        assert x in DefIds(defs);
      }
    }
  }

  /** `{s.get(styleId) for s in root.findall(".//w:style")}`: the styles
      strictly below the root. */
  function StyleIdsBelow(root: Node): set<string> {
    IdsOf(IterKids(root.kids, "w:style"))
  }

  /** The elements appended for the definitions whose id is not in `ids`, in
      the order of the definitions. */
  function MissingStyles(defs: seq<StyleDef>, ids: set<string>): seq<Node> {
    if defs == [] then []
    else
      var d := defs[|defs| - 1];
      MissingStyles(defs[..|defs| - 1], ids) + (if d.id in ids then [] else [StyleElement(d)])
  }

  /** The tree the styles patch starts from: the part when it parses, and a
      bare `w:styles` root when it is missing or corrupt. */
  function StylesBase(v: View): Node {
    if v.Present? then v.root else Elem("w:styles", [])
  }

  /** `root` with the required styles it lacks appended. */
  function PatchOf(root: Node): Node {
    root.(kids := root.kids + MissingStyles(RequiredStyles, StyleIdsBelow(root)))
  }

  /** The styles part after the patch. */
  function PatchedStyles(v: View): Node {
    PatchOf(StylesBase(v))
  }

  /** `_patch_or_inject_styles`: start from the part, or from a bare root
      when it is missing or corrupt, append the missing required styles, and
      write the part back when something was added or it was missing. */
  method PatchStyles(v: View) returns (root: Node, added: nat, written: bool)
    ensures root == PatchedStyles(v)
    ensures root.kids[..|StylesBase(v).kids|] == StylesBase(v).kids
    ensures added == |root.kids| - |StylesBase(v).kids|
    ensures written <==> added > 0 || v.Absent?
  {
    root, added := AppendMissingStyles(StylesBase(v));
    written := added > 0 || v.Absent?;
  }

  /** The loop of `_patch_or_inject_styles`: append, in order, each required
      style whose id was not present when the loop began, and count them. */
  method AppendMissingStyles(base: Node) returns (root: Node, added: nat)
    ensures root == PatchOf(base)
    ensures root.kids[..|base.kids|] == base.kids
    ensures added == |root.kids| - |base.kids|
  {
    var existing := StyleIdsBelow(base);
    var kids := base.kids;
    added := 0;
    var i := 0;
    while i < |RequiredStyles|
      invariant 0 <= i <= |RequiredStyles|
      invariant kids == base.kids + MissingStyles(RequiredStyles[..i], existing)
      invariant added == |kids| - |base.kids|
    {
      var d := RequiredStyles[i];
      MissingStylesStep(RequiredStyles, i, existing);
      if d.id !in existing {
        kids := kids + [StyleElement(d)];
        added := added + 1;
      }
      i := i + 1;
    }
    assert RequiredStyles[..i] == RequiredStyles;
    root := base.(kids := kids);
  }

  lemma MissingStylesStep(defs: seq<StyleDef>, i: nat, ids: set<string>)
    requires i < |defs|
    ensures MissingStyles(defs[..i + 1], ids)
            == MissingStyles(defs[..i], ids) + (if defs[i].id in ids then [] else [StyleElement(defs[i])])
  {
    assert defs[..i + 1][..i] == defs[..i];
  }

  /** The package after `_patch_or_inject_styles` on the part `name`. */
  function PatchStylesAt(pkg: Package, name: string): (r: Package)
    ensures name in pkg ==> name in r
    ensures forall n :: n != name ==> (n in r <==> n in pkg) && (n in pkg ==> r[n] == pkg[n])
  {
    var v := ViewOf(pkg, name);
    var root := PatchedStyles(v);
    if |root.kids| > |StylesBase(v).kids| || v.Absent? then pkg[name := Xml(root)] else pkg
  }

  lemma MissingStylesShape(defs: seq<StyleDef>, ids: set<string>)
    ensures IterKids(MissingStyles(defs, ids), "w:style") == MissingStyles(defs, ids)
    ensures IdsOf(MissingStyles(defs, ids)) == DefIds(defs) - ids
  {
    MissingStylesIter(defs, ids);
    MissingStylesIds(defs, ids);
  }

  lemma {:induction false} MissingStylesIter(defs: seq<StyleDef>, ids: set<string>)
    ensures IterKids(MissingStyles(defs, ids), "w:style") == MissingStyles(defs, ids)
    decreases |defs|
  {
    if defs != [] {
      var d := defs[|defs| - 1];
      MissingStylesIter(defs[..|defs| - 1], ids);
      var extra: seq<Node> := if d.id in ids then [] else [StyleElement(d)];
      IterKidsAppend(MissingStyles(defs[..|defs| - 1], ids), extra, "w:style");
      if d.id !in ids {
        StyleElementShape(d);
        assert extra[..0] == [];
      }
    }
  }

  lemma {:induction false} MissingStylesIds(defs: seq<StyleDef>, ids: set<string>)
    ensures IdsOf(MissingStyles(defs, ids)) == DefIds(defs) - ids
    decreases |defs|
  {
    if defs != [] {
      var init := defs[..|defs| - 1];
      var d := defs[|defs| - 1];
      MissingStylesIds(init, ids);
      var prev := MissingStyles(init, ids);
      var extra: seq<Node> := if d.id in ids then [] else [StyleElement(d)];
      assert MissingStyles(defs, ids) == prev + extra;
      IdsOfAppend(prev, extra);
      ExtraIds(d, ids);
      assert defs == init + [d];
      DefIdsSnoc(init, d);
      AddOneMissing(IdsOf(prev + extra), IdsOf(prev), IdsOf(extra), DefIds(init), ids, d.id);
    }
  }

  lemma ExtraIds(d: StyleDef, ids: set<string>)
    ensures IdsOf(if d.id in ids then [] else [StyleElement(d)]) == if d.id in ids then {} else {d.id}
  {
    if d.id !in ids {
      assert StyleElement(d) in [StyleElement(d)];
    }
  }

  lemma AddOneMissing<T>(whole: set<T>, prev: set<T>, extra: set<T>, known: set<T>, ids: set<T>, x: T)
    requires whole == prev + extra && prev == known - ids
    requires extra == if x in ids then {} else {x}
    ensures whole == (known + {x}) - ids
  {
  }

  /** A new style element is one style with no style below it. */
  lemma StyleElementShape(d: StyleDef)
    ensures Iter(StyleElement(d), "w:style") == [StyleElement(d)]
  {
    var kids := StyleElement(d).kids;
    assert FreeKids(kids, "w:style") by {
      forall i | 0 <= i < |kids| ensures Free(kids[i], "w:style") {
        var k := kids[i];
        assert FreeKids(k.kids, "w:style") by {
          forall j | 0 <= j < |k.kids| ensures Free(k.kids[j], "w:style") {
            assert k.kids[j].kids == [];
          }
        }
      }
    }
    FreeKidsIterEmpty(kids, "w:style");
  }

  lemma RequiredIdsAreListed()
    ensures DefIds(RequiredStyles) == RequiredIds
  {
    assert RequiredStyles[0].id == "Normal";
    assert RequiredStyles[1].id == "DefaultParagraphFont";
    assert RequiredStyles[2].id == "TableNormal";
    assert RequiredStyles[3].id == "CommentText";
    assert RequiredStyles[4].id == "InsertedText";
    assert RequiredStyles[5].id == "DeletedText";
  }

  /** The patch adds exactly the required ids that were missing: afterwards
      the ids present are the ones before plus every required one, the
      elements that were there are untouched, and one element is appended
      per missing id. */
  lemma PatchIdsBelow(root: Node, ids: set<string>)
    ensures StyleIdsBelow(root.(kids := root.kids + MissingStyles(RequiredStyles, ids)))
            == StyleIdsBelow(root) + (DefIds(RequiredStyles) - ids)
  {
    var extra := MissingStyles(RequiredStyles, ids);
    MissingStylesShape(RequiredStyles, ids);
    IterKidsAppend(root.kids, extra, "w:style");
    IdsOfAppend(IterKids(root.kids, "w:style"), extra);
  }

  lemma {:induction false} PatchAddsExactlyMissing(root: Node)
    ensures var patched := PatchOf(root);
            && StyleIdsBelow(patched) == StyleIdsBelow(root) + RequiredIds
            && patched.kids[..|root.kids|] == root.kids
            && IdsOf(patched.kids[|root.kids|..]) == RequiredIds - StyleIdsBelow(root)
  {
    var ids := StyleIdsBelow(root);
    var extra := MissingStyles(RequiredStyles, ids);
    assert (root.kids + extra)[|root.kids|..] == extra;
    MissingStylesShape(RequiredStyles, ids);
    PatchIdsBelow(root, ids);
    RequiredIdsAreListed();
  }

  /** A second patch adds nothing. */
  lemma PatchIsIdempotent(v: View)
    ensures PatchedStyles(Present(PatchedStyles(v))) == PatchedStyles(v)
  {
    PatchOfIdempotent(StylesBase(v));
  }

  lemma PatchOfIdempotent(root: Node)
    ensures PatchOf(PatchOf(root)) == PatchOf(root)
  {
    var patched := PatchOf(root);
    PatchAddsExactlyMissing(root);
    RequiredIdsAreListed();
    NothingMissing(RequiredStyles, StyleIdsBelow(patched));
    assert patched.kids + [] == patched.kids;
  }

  lemma {:induction false} NothingMissing(defs: seq<StyleDef>, ids: set<string>)
    requires forall d :: d in defs ==> d.id in ids
    ensures MissingStyles(defs, ids) == []
    decreases |defs|
  {
    if defs != [] {
      NothingMissing(defs[..|defs| - 1], ids);
      assert defs[|defs| - 1] in defs;
    }
  }

  // ---------------------------------------------------------------------------
  // `_is_incomplete_styles_file`

  /** A styles part is incomplete when it is missing, empty or corrupt, or
      when some required id is not the id of any `w:style` (the root
      included, as `//w:style` is an absolute path). */
  predicate IsIncomplete(v: View) {
    match v
    case Absent => true
    case Broken => true
    case Present(root) => !(RequiredIds <= IdsOf(Iter(root, "w:style")))
  }

  /** An incomplete styles part is always rewritten by the patch, and after
      the patch the part is complete. */
  lemma IncompleteMeansPatched(v: View)
    ensures IsIncomplete(v) ==> |PatchedStyles(v).kids| > |StylesBase(v).kids| || !v.Present?
    ensures !IsIncomplete(Present(PatchedStyles(v)))
  {
    IncompleteRootPatched(StylesBase(v));
  }

  lemma IncompleteRootPatched(root: Node)
    ensures !(RequiredIds <= IdsOf(Iter(root, "w:style"))) ==> |PatchOf(root).kids| > |root.kids|
    ensures RequiredIds <= IdsOf(Iter(PatchOf(root), "w:style"))
  {
    PatchAddsExactlyMissing(root);
    var patched := PatchOf(root);
    var self := if root.tag == "w:style" then [root] else [];
    IdsOfAppend(self, IterKids(root.kids, "w:style"));
    var pself := if patched.tag == "w:style" then [patched] else [];
    IdsOfAppend(pself, IterKids(patched.kids, "w:style"));
    if |patched.kids| <= |root.kids| {
      assert patched.kids[|root.kids|..] == [];
      assert IdsOf([]) == {};
      SubsetFromEmptyDifference(RequiredIds, StyleIdsBelow(root), IdsOf(Iter(root, "w:style")));
    }
  }

  /** A styles root without children always gains the required styles. */
  lemma BareStylesGrow(root: Node)
    requires root.kids == []
    ensures |PatchOf(root).kids| > 0
  {
    PatchAddsExactlyMissing(root);
    assert IterKids(root.kids, "w:style") == [];
    assert StyleIdsBelow(root) == {};
    assert "Normal" in RequiredIds;
  }

  lemma SubsetFromEmptyDifference<T>(r: set<T>, s: set<T>, t: set<T>)
    requires r - s == {} && s <= t
    ensures r <= t
  {
    forall x | x in r ensures x in t {
      assert x !in r - s;
    }
  }

  // ---------------------------------------------------------------------------
  // `_fix_or_inject_settings_xml`

  /** The settings children the fix guarantees, in the order it appends them. */
  const SettingsChildren: seq<Node> := [
    Elem("w:trackRevisions", []),
    Elem("w:rsids", []),
    Elem("w:compat", []),
    Val("w:updateFields", "true")
  ]

  /** The settings tree the fix and the rsid injection start from: a bare
      `w:settings` root when the part is missing; a part that does not parse
      raises. */
  function SettingsBase(v: View, name: string): Result<Node, PatchError> {
    match v
    case Absent => Success(Elem("w:settings", []))
    case Broken => Failure(Unparsable(name))
    case Present(root) => Success(root)
  }

  /** `root` after appending, in order, each of `adds` whose tag is not yet
      the tag of a direct child. */
  function Ensured(root: Node, adds: seq<Node>): Node {
    if adds == [] then root
    else
      var r := Ensured(root, adds[..|adds| - 1]);
      var a := adds[|adds| - 1];
      if HasChild(r, a.tag) then r else r.(kids := r.kids + [a])
  }

  /** `_fix_or_inject_settings_xml`: each of trackRevisions, rsids, compat and
      updateFields (val "true") is appended only when the root has no direct
      child with that tag. The part is always written back. */
  method FixSettings(v: View) returns (r: Result<Node, PatchError>)
    ensures r == (match SettingsBase(v, SettingsPart)
                  case Failure(e) => Failure(e)
                  case Success(root) => Success(Ensured(root, SettingsChildren)))
  {
    var base := SettingsBase(v, SettingsPart);
    if base.Failure? {
      return Failure(base.error);
    }
    var root := base.value;
    var i := 0;
    while i < |SettingsChildren|
      invariant 0 <= i <= |SettingsChildren|
      invariant root == Ensured(base.value, SettingsChildren[..i])
    {
      var a := SettingsChildren[i];
      assert SettingsChildren[..i + 1][..i] == SettingsChildren[..i];
      if FindChild(root, a.tag).None? {
        root := root.(kids := root.kids + [a]);
      }
      i := i + 1;
    }
    assert SettingsChildren[..i] == SettingsChildren;
    return Success(root);
  }

  /** The fix only appends: the children that were there stay, in order, and
      each appended child is one of `adds` whose tag the root lacked. */
  lemma {:induction false} EnsuredOnlyAppends(root: Node, adds: seq<Node>)
    ensures var r := Ensured(root, adds);
            && r.tag == root.tag && r.attrs == root.attrs && r.text == root.text
            && |root.kids| <= |r.kids| && r.kids[..|root.kids|] == root.kids
            && forall i :: |root.kids| <= i < |r.kids| ==> r.kids[i] in adds && !HasChild(root, r.kids[i].tag)
    decreases |adds|
  {
    if adds != [] {
      var init := adds[..|adds| - 1];
      EnsuredOnlyAppends(root, init);
      var r := Ensured(root, init);
      var a := adds[|adds| - 1];
    }
  }

  /** After the fix every tag of `adds` is the tag of a direct child. */
  lemma {:induction false} EnsuredHasAll(root: Node, adds: seq<Node>)
    ensures forall a :: a in adds ==> HasChild(Ensured(root, adds), a.tag)
    decreases |adds|
  {
    if adds != [] {
      var init := adds[..|adds| - 1];
      EnsuredHasAll(root, init);
      var r := Ensured(root, init);
      var last := adds[|adds| - 1];
      var r2 := Ensured(root, adds);
      assert r2.kids[..|r.kids|] == r.kids;
      forall a | a in adds ensures HasChild(r2, a.tag) {
        if a in init {
          var j :| 0 <= j < |r.kids| && r.kids[j].tag == a.tag;
          assert r2.kids[j] == r.kids[j];
        } else {
          assert a == last;
          if !HasChild(r, last.tag) {
            assert r2.kids[|r.kids|] == last;
          }
        }
      }
    }
  }

  /** When every tag is already present the fix changes nothing. */
  lemma {:induction false} EnsuredNoop(root: Node, adds: seq<Node>)
    requires forall a :: a in adds ==> HasChild(root, a.tag)
    ensures Ensured(root, adds) == root
    decreases |adds|
  {
    if adds != [] {
      EnsuredNoop(root, adds[..|adds| - 1]);
      assert adds[|adds| - 1] in adds;
    }
  }

  /** The settings fix is idempotent: a second run appends nothing. */
  lemma SettingsFixIdempotent(root: Node)
    ensures Ensured(Ensured(root, SettingsChildren), SettingsChildren) == Ensured(root, SettingsChildren)
  {
    EnsuredHasAll(root, SettingsChildren);
    EnsuredNoop(Ensured(root, SettingsChildren), SettingsChildren);
  }

  /** After the fix settings.xml has trackRevisions, rsids, compat and
      updateFields among the root's direct children. */
  lemma SettingsFixComplete(root: Node)
    ensures var r := Ensured(root, SettingsChildren);
            HasChild(r, "w:trackRevisions") && HasChild(r, "w:rsids")
            && HasChild(r, "w:compat") && HasChild(r, "w:updateFields")
  {
    EnsuredHasAll(root, SettingsChildren);
    assert SettingsChildren[0] in SettingsChildren && SettingsChildren[0].tag == "w:trackRevisions";
    assert SettingsChildren[1] in SettingsChildren && SettingsChildren[1].tag == "w:rsids";
    assert SettingsChildren[2] in SettingsChildren && SettingsChildren[2].tag == "w:compat";
    assert SettingsChildren[3] in SettingsChildren && SettingsChildren[3].tag == "w:updateFields";
  }

  /** The package after `_fix_or_inject_settings_xml`, which always writes
      the part. */
  function FixSettingsAt(pkg: Package, name: string): (r: Result<Package, PatchError>)
    ensures r.Failure? <==> ViewOf(pkg, name).Broken?
    ensures r.Success? ==> name in r.value
    ensures r.Success? ==> forall n :: n != name ==> (n in r.value <==> n in pkg) && (n in pkg ==> r.value[n] == pkg[n])
  {
    match SettingsBase(ViewOf(pkg, name), name)
    case Failure(e) => Failure(e)
    case Success(root) => Success(pkg[name := Xml(Ensured(root, SettingsChildren))])
  }

  // ---------------------------------------------------------------------------
  // `_ensure_required_styles_in_document_xml`

  /** The paragraph's first `w:pPr` has a `w:pStyle` child. */
  predicate HasPStyle(p: Node) {
    match FirstIndex(p.kids, "w:pPr")
    case None => false
    case Some(i) => HasChild(p.kids[i], "w:pStyle")
  }

  /** One body paragraph after the pass: a `w:pPr` is inserted first when
      there is none, and a `w:pStyle` with val "Normal" is inserted first in
      the (first) `w:pPr` when it has none. A paragraph that has a style
      already is left as it is. */
  function WithPStyle(p: Node): (r: Node)
    ensures HasPStyle(r)
    ensures HasPStyle(p) ==> r == p
    ensures r.tag == p.tag && r.attrs == p.attrs && r.text == p.text
    ensures !HasPStyle(p) ==> r.kids[FirstIndex(r.kids, "w:pPr").value].kids[0] == Val("w:pStyle", "Normal")
  {
    var p1 := if HasChild(p, "w:pPr") then p else p.(kids := [Elem("w:pPr", [])] + p.kids);
    assert p1.kids[0].tag == "w:pPr" || HasChild(p, "w:pPr");
    var i := FirstIndex(p1.kids, "w:pPr").value;
    var ppr := p1.kids[i];
    if HasChild(ppr, "w:pStyle") then p1
    else
      var styled := ppr.(kids := [Val("w:pStyle", "Normal")] + ppr.kids);
      var r := p1.(kids := p1.kids[i := styled]);
      assert FirstIndex(r.kids, "w:pPr") == Some(i) by {
        FirstIndexAfterUpdate(p1.kids, i, styled, "w:pPr");
      }
      assert styled.kids[0].tag == "w:pStyle";
      r
  }

  lemma {:induction false} FirstIndexAfterUpdate(kids: seq<Node>, i: nat, n: Node, tag: string)
    requires FirstIndex(kids, tag) == Some(i) && n.tag == tag
    ensures FirstIndex(kids[i := n], tag) == Some(i)
    decreases |kids|
  {
    if kids[0].tag != tag {
      FirstIndexAfterUpdate(kids[1..], i - 1, n, tag);
      assert kids[i := n][1..] == kids[1..][i - 1 := n];
    }
  }

  /** `//w:body/w:p`: every paragraph that is a direct child of a `w:body`,
      wherever the body is, gets its style. */
  function StyleBodies(n: Node): Node
    decreases n
  {
    n.(kids := StyleBodiesKids(n.kids, n.tag == "w:body"))
  }

  function StyleBodiesKids(kids: seq<Node>, inBody: bool): (r: seq<Node>)
    ensures |r| == |kids|
    decreases kids
  {
    if kids == [] then []
    else
      var k := StyleBodies(kids[|kids| - 1]);
      StyleBodiesKids(kids[..|kids| - 1], inBody) + [if inBody && k.tag == "w:p" then WithPStyle(k) else k]
  }

  /** Every body paragraph of the tree has a paragraph style. */
  predicate BodiesStyled(n: Node)
    decreases n
  {
    BodiesStyledKids(n.kids, n.tag == "w:body")
  }

  predicate BodiesStyledKids(kids: seq<Node>, inBody: bool)
    decreases kids
  {
    forall i :: 0 <= i < |kids| ==>
      (inBody && kids[i].tag == "w:p" ==> HasPStyle(kids[i])) && BodiesStyled(kids[i])
  }

  /** After the pass every body paragraph has a paragraph style. */
  lemma {:induction false} StyleBodiesStyles(n: Node)
    ensures StyleBodies(n).tag == n.tag && BodiesStyled(StyleBodies(n))
    decreases n
  {
    StyleBodiesKidsStyles(n.kids, n.tag == "w:body");
  }

  lemma {:induction false} StyleBodiesKidsStyles(kids: seq<Node>, inBody: bool)
    ensures BodiesStyledKids(StyleBodiesKids(kids, inBody), inBody)
    ensures forall i :: 0 <= i < |kids| ==> StyleBodiesKids(kids, inBody)[i].tag == kids[i].tag
    decreases kids
  {
    StyleBodiesKidsTags(kids, inBody);
    if kids != [] {
      var init := kids[..|kids| - 1];
      var last := kids[|kids| - 1];
      StyleBodiesKidsStyles(init, inBody);
      StyleBodiesStyles(last);
      var k := StyleBodies(last);
      var k2 := if inBody && k.tag == "w:p" then WithPStyle(k) else k;
      if inBody && k.tag == "w:p" {
        WithPStyleKeepsStyled(k);
      }
      assert StyleBodiesKids(kids, inBody) == StyleBodiesKids(init, inBody) + [k2];
      StyledKidsSnoc(StyleBodiesKids(init, inBody), k2, inBody);
    }
  }

  /** The pass keeps every child's tag. */
  lemma {:induction false} StyleBodiesKidsTags(kids: seq<Node>, inBody: bool)
    ensures forall i :: 0 <= i < |kids| ==> StyleBodiesKids(kids, inBody)[i].tag == kids[i].tag
    decreases |kids|
  {
    if kids != [] {
      var init := kids[..|kids| - 1];
      StyleBodiesKidsTags(init, inBody);
      var r := StyleBodiesKids(kids, inBody);
      var k := StyleBodies(kids[|kids| - 1]);
      assert r == StyleBodiesKids(init, inBody) + [if inBody && k.tag == "w:p" then WithPStyle(k) else k];
      forall i | 0 <= i < |kids| ensures r[i].tag == kids[i].tag {
        if i < |init| {
          assert r[i] == StyleBodiesKids(init, inBody)[i] && kids[i] == init[i];
        }
      }
    }
  }

  lemma StyledKidsSnoc(kids: seq<Node>, x: Node, inBody: bool)
    requires BodiesStyledKids(kids, inBody) && BodiesStyled(x)
    requires inBody && x.tag == "w:p" ==> HasPStyle(x)
    ensures BodiesStyledKids(kids + [x], inBody)
  {
    forall i | 0 <= i < |kids + [x]|
      ensures (inBody && (kids + [x])[i].tag == "w:p" ==> HasPStyle((kids + [x])[i])) && BodiesStyled((kids + [x])[i])
    {
      if i < |kids| {
        assert (kids + [x])[i] == kids[i];
      }
    }
  }

  /** Styling one paragraph touches only its own paragraph properties, so
      the body paragraphs inside it stay styled. */
  lemma WithPStyleKeepsStyled(p: Node)
    requires BodiesStyled(p) && p.tag == "w:p"
    ensures BodiesStyled(WithPStyle(p))
  {
    var r := WithPStyle(p);
    var p1 := if HasChild(p, "w:pPr") then p else p.(kids := [Elem("w:pPr", [])] + p.kids);
    if !HasChild(p, "w:pPr") {
      LeafStyled(Elem("w:pPr", []));
      PrependStyled(Elem("w:pPr", []), p.kids);
    }
    assert BodiesStyledKids(p1.kids, false);
    if r != p1 {
      var i := FirstIndex(p1.kids, "w:pPr").value;
      var ppr := p1.kids[i];
      var styled := ppr.(kids := [Val("w:pStyle", "Normal")] + ppr.kids);
      assert r.kids == p1.kids[i := styled];
      assert BodiesStyled(ppr);
      LeafStyled(Val("w:pStyle", "Normal"));
      PrependStyled(Val("w:pStyle", "Normal"), ppr.kids);
      assert BodiesStyled(styled);
      ReplaceStyled(p1.kids, i, styled);
    }
  }

  lemma LeafStyled(n: Node)
    requires n.kids == []
    ensures BodiesStyled(n)
  {
  }

  lemma PrependStyled(x: Node, kids: seq<Node>)
    requires BodiesStyled(x) && BodiesStyledKids(kids, false)
    ensures BodiesStyledKids([x] + kids, false)
  {
    var all := [x] + kids;
    forall j | 0 <= j < |all| ensures BodiesStyled(all[j]) {
      if j > 0 {
        assert all[j] == kids[j - 1];
      }
    }
  }

  lemma ReplaceStyled(kids: seq<Node>, i: nat, x: Node)
    requires i < |kids| && BodiesStyled(x) && BodiesStyledKids(kids, false)
    ensures BodiesStyledKids(kids[i := x], false)
  {
    var all := kids[i := x];
    forall j | 0 <= j < |all| ensures BodiesStyled(all[j]) {
      if j != i {
        assert all[j] == kids[j];
      }
    }
  }

  /** A tree whose body paragraphs all have a style is left as it is. */
  lemma {:induction false} StyledIsFixed(n: Node)
    requires BodiesStyled(n)
    ensures StyleBodies(n) == n
    decreases n
  {
    StyledKidsFixed(n.kids, n.tag == "w:body");
  }

  lemma {:induction false} StyledKidsFixed(kids: seq<Node>, inBody: bool)
    requires BodiesStyledKids(kids, inBody)
    ensures StyleBodiesKids(kids, inBody) == kids
    decreases kids
  {
    if kids != [] {
      var init := kids[..|kids| - 1];
      var last := kids[|kids| - 1];
      assert BodiesStyledKids(init, inBody) by {
        forall i | 0 <= i < |init|
          ensures (inBody && init[i].tag == "w:p" ==> HasPStyle(init[i])) && BodiesStyled(init[i])
        {
          assert init[i] == kids[i];
        }
      }
      StyledKidsFixed(init, inBody);
      StyledIsFixed(last);
      assert init + [last] == kids;
    }
  }

  /** The paragraph-style pass is idempotent. */
  lemma StyleBodiesIdempotent(n: Node)
    ensures StyleBodies(StyleBodies(n)) == StyleBodies(n)
  {
    StyleBodiesStyles(n);
    StyledIsFixed(StyleBodies(n));
  }

  /** `_ensure_required_styles_in_document_xml` on the package: a missing
      document part is left alone, one that does not parse raises. */
  function StyleDocumentPart(pkg: Package): Result<Package, PatchError> {
    match ViewOf(pkg, DocumentPart)
    case Absent => Success(pkg)
    case Broken => Failure(Unparsable(DocumentPart))
    case Present(root) => Success(pkg[DocumentPart := Xml(StyleBodies(root))])
  }

  // ---------------------------------------------------------------------------
  // `_estimate_rsid_count_from_document`

  /** The pool size for a document with `paras` paragraphs. */
  function Bucket(paras: nat): nat {
    if paras < 20 then 50 else if paras < 100 then 100 else 200
  }

  /** The estimated pool size: 50 when the document part is missing or does
      not parse (the exception is caught), otherwise by the number of `w:p`
      elements anywhere in the tree. */
  function EstimateRsidCount(doc: View): (n: nat)
    ensures n == 50 || n == 100 || n == 200
    ensures doc.Present? ==> (n == 50 <==> Count(doc.root, "w:p") < 20)
    ensures doc.Present? ==> (n == 200 <==> Count(doc.root, "w:p") >= 100)
    ensures !doc.Present? ==> n == 50
  {
    match doc
    case Present(root) => Bucket(Count(root, "w:p"))
    case _ => 50
  }

  /** More paragraphs never give a smaller pool. */
  lemma BucketMonotone(a: nat, b: nat)
    requires a <= b
    ensures 1 <= Bucket(a) <= Bucket(b)
  {
  }

  // ---------------------------------------------------------------------------
  // `_inject_multiple_rsid_entries`

  /** `root` without its direct children that have the tag, the others in order. */
  function Without(kids: seq<Node>, tag: string): (r: seq<Node>)
    ensures forall k :: k in r ==> k in kids && k.tag != tag
    ensures forall k :: k in kids && k.tag != tag ==> k in r
  {
    if kids == [] then []
    else
      var last := kids[|kids| - 1];
      Without(kids[..|kids| - 1], tag) + (if last.tag == tag then [] else [last])
  }

  /** The loop removing every `w:rsids` child of the settings root. */
  method DropRsids(kids: seq<Node>) returns (kept: seq<Node>)
    ensures kept == Without(kids, "w:rsids")
  {
    kept := [];
    var i := 0;
    while i < |kids|
      invariant 0 <= i <= |kids|
      invariant kept == Without(kids[..i], "w:rsids")
    {
      assert kids[..i + 1][..i] == kids[..i];
      if kids[i].tag != "w:rsids" {
        kept := kept + [kids[i]];
      }
      i := i + 1;
    }
    assert kids[..i] == kids;
  }

  /** The new `w:rsids` block: a `w:rsidRoot` with the first pool value, then
      one `w:rsid` per pool value, in pool order. */
  method RsidBlock(pool: seq<string>) returns (block: Node)
    requires |pool| > 0
    ensures block.tag == "w:rsids" && block.attrs == map[] && block.text == None
    ensures |block.kids| == |pool| + 1
    ensures block.kids[0] == Val("w:rsidRoot", pool[0])
    ensures forall i :: 0 <= i < |pool| ==> block.kids[i + 1] == Val("w:rsid", pool[i])
  {
    var kids := [Val("w:rsidRoot", pool[0])];
    var i := 0;
    while i < |pool|
      invariant 0 <= i <= |pool|
      invariant |kids| == i + 1 && kids[0] == Val("w:rsidRoot", pool[0])
      invariant forall j :: 0 <= j < i ==> kids[j + 1] == Val("w:rsid", pool[j])
    {
      kids := kids + [Val("w:rsid", pool[i])];
      i := i + 1;
    }
    block := Elem("w:rsids", kids);
  }

  /** `_inject_multiple_rsid_entries` with the random values given: every
      `w:rsids` child is removed and exactly one new block is inserted as the
      first child; the other children keep their order. An empty pool makes
      `rsid_list[0]` raise. */
  method InjectRsids(v: View, pool: seq<string>) returns (r: Result<Node, PatchError>)
    ensures r.Failure? <==> v.Broken? || |pool| == 0
    ensures r.Success? ==>
      var base := SettingsBase(v, SettingsPart).value;
      var root := r.value;
      && root.tag == base.tag && root.attrs == base.attrs && root.text == base.text
      && |root.kids| >= 1 && root.kids[1..] == Without(base.kids, "w:rsids")
      && root.kids[0].tag == "w:rsids" && |root.kids[0].kids| == |pool| + 1
      && root.kids[0].kids[0] == Val("w:rsidRoot", pool[0])
      && (forall i :: 0 <= i < |pool| ==> root.kids[0].kids[i + 1] == Val("w:rsid", pool[i]))
      && (forall i :: 1 <= i < |root.kids| ==> root.kids[i].tag != "w:rsids")
  {
    var base := SettingsBase(v, SettingsPart);
    if base.Failure? {
      return Failure(base.error);
    }
    var kept := DropRsids(base.value.kids);
    if |pool| == 0 {
      return Failure(EmptyPool);
    }
    var block := RsidBlock(pool);
    var root := base.value.(kids := [block] + kept);
    assert root.kids[1..] == kept;
    forall i | 1 <= i < |root.kids| ensures root.kids[i].tag != "w:rsids" {
      assert root.kids[i] in kept;
    }
    return Success(root);
  }

  /** The pool the converter injects is never empty, so injection fails only
      on a settings part that does not parse. */
  lemma EstimatedPoolNeverEmpty(doc: View, pool: seq<string>)
    requires |pool| == EstimateRsidCount(doc)
    ensures |pool| >= 1
  {
  }

  // ---------------------------------------------------------------------------
  // `_ensure_theme_relationship`

  const ThemeType := "http://schemas.openxmlformats.org/officeDocument/2006/relationships/theme"

  /** The relationship appended when there is no theme relationship. It is
      created without a namespace, so its tag is the bare local name. */
  const ThemeRelationship :=
    Node("Relationship", map["Id" := "rIdTheme", "Type" := ThemeType, "Target" := "theme/theme1.xml"], None, [])

  /** Some `rel:Relationship` child has the theme type. */
  predicate HasThemeRelationship(root: Node) {
    exists i :: 0 <= i < |root.kids| && root.kids[i].tag == "rel:Relationship"
                && Attr(root.kids[i], "Type") == Some(ThemeType)
  }

  /** `_ensure_theme_relationship`: nothing to do without a relationships
      part; a part that does not parse raises; otherwise the theme
      relationship is appended when no namespaced relationship has its type. */
  function EnsureTheme(pkg: Package): (r: Result<Package, PatchError>)
    ensures r.Failure? <==> ViewOf(pkg, RelsPart).Broken?
    ensures r.Success? ==>
      forall n :: n != RelsPart ==> (n in r.value <==> n in pkg) && (n in pkg ==> r.value[n] == pkg[n])
    ensures r.Success? && ViewOf(pkg, RelsPart).Present? ==>
      var root := ViewOf(pkg, RelsPart).root;
      if HasThemeRelationship(root) then r.value == pkg
      else RelsPart in r.value && r.value[RelsPart] == Xml(root.(kids := root.kids + [ThemeRelationship]))
  {
    match ViewOf(pkg, RelsPart)
    case Absent => Success(pkg)
    case Broken => Failure(Unparsable(RelsPart))
    case Present(root) =>
      if HasThemeRelationship(root) then Success(pkg)
      else Success(pkg[RelsPart := Xml(root.(kids := root.kids + [ThemeRelationship]))])
  }

  /** The check looks only at namespaced relationships, so the one it
      appends is not seen by a later check, which would append it again. */
  lemma ThemeCheckIgnoresItsOwnAddition(root: Node)
    requires !HasThemeRelationship(root)
    ensures !HasThemeRelationship(root.(kids := root.kids + [ThemeRelationship]))
  {
  }

  // ---------------------------------------------------------------------------
  // `_merge_missing_parts`, as map logic over part names

  /** The parts recovered from the original package, in the order handled. */
  const RecoveredParts: seq<string> := [
    "word/styles.xml",
    "word/settings.xml",
    "word/fontTable.xml",
    "word/webSettings.xml",
    "word/_rels/document.xml.rels",
    "word/theme/theme1.xml"
  ]

  /** One part of `_merge_missing_parts`, dispatched on a substring of its
      name like the source. A styles part is copied from the original when
      missing and patched when present. A settings part is handled when it is
      missing or the original has one: it is copied when missing, then fixed.
      Any other part is copied from the original when missing. */
  function MergeOne(original: Package, pkg: Package, name: string): Result<Package, PatchError> {
    if Contains(name, "styles.xml") then
      if name !in pkg && name in original then Success(pkg[name := original[name]])
      else if name in pkg then Success(PatchStylesAt(pkg, name))
      else Success(pkg)
    else if Contains(name, "settings.xml") then
      if name !in pkg || name in original then
        FixSettingsAt(if name in original && name !in pkg then pkg[name := original[name]] else pkg, name)
      else Success(pkg)
    else if name !in pkg && name in original then Success(pkg[name := original[name]])
    else Success(pkg)
  }

  /** The parts `names` handled in order; the first raise ends the merge. */
  function Merged(original: Package, pkg: Package, names: seq<string>): Result<Package, PatchError> {
    if names == [] then Success(pkg)
    else match Merged(original, pkg, names[..|names| - 1])
      case Failure(e) => Failure(e)
      case Success(p) => MergeOne(original, p, names[|names| - 1])
  }

  /** The `customXml/` folder of the original, copied over whatever is there. */
  function CustomXml(original: Package): Package {
    map n | n in original && StartsWith(n, "customXml/") :: original[n]
  }

  /** `_merge_missing_parts` on the package. */
  function MergeSpec(original: Package, pkg: Package): Result<Package, PatchError> {
    match Merged(original, pkg, RecoveredParts)
    case Failure(e) => Failure(e)
    case Success(p) => Success(p + CustomXml(original))
  }

  lemma MergedStopsAtError(original: Package, pkg: Package, names: seq<string>, rest: seq<string>)
    requires Merged(original, pkg, names).Failure?
    ensures Merged(original, pkg, names + rest) == Merged(original, pkg, names)
    decreases |rest|
  {
    if rest != [] {
      MergedStopsAtError(original, pkg, names, rest[..|rest| - 1]);
      assert (names + rest)[..|names + rest| - 1] == names + rest[..|rest| - 1];
    } else {
      assert names + rest == names;
    }
  }

  /** The loop of `_merge_missing_parts` over the recovered parts, then the
      copy of `customXml/`. */
  method MergeMissingParts(original: Package, pkg: Package) returns (r: Result<Package, PatchError>)
    ensures r == MergeSpec(original, pkg)
  {
    var cur := pkg;
    var i := 0;
    while i < |RecoveredParts|
      invariant 0 <= i <= |RecoveredParts|
      invariant Merged(original, pkg, RecoveredParts[..i]) == Success(cur)
    {
      var name := RecoveredParts[i];
      assert RecoveredParts[..i + 1][..i] == RecoveredParts[..i];
      var step := MergeOne(original, cur, name);
      if step.Failure? {
        MergedStopsAtError(original, pkg, RecoveredParts[..i + 1], RecoveredParts[i + 1..]);
        assert RecoveredParts[..i + 1] + RecoveredParts[i + 1..] == RecoveredParts;
        return Failure(step.error);
      }
      cur := step.value;
      i := i + 1;
    }
    assert RecoveredParts[..i] == RecoveredParts;
    return Success(cur + CustomXml(original));
  }

  /** One merge step keeps every part, gains the part when the original has
      it, and touches no other name. */
  lemma MergeOneFrame(original: Package, pkg: Package, name: string)
    ensures var r := MergeOne(original, pkg, name);
            r.Success? ==>
              && (name in pkg || name in original ==> name in r.value)
              && forall n :: n != name ==> (n in r.value <==> n in pkg) && (n in pkg ==> r.value[n] == pkg[n])
  {
  }

  /** After the merge every recovered part that the original or the package
      had is present, and every part outside the recovered list and outside
      `customXml/` is as it was. */
  lemma {:induction false} MergedFrame(original: Package, pkg: Package, names: seq<string>)
    ensures var r := Merged(original, pkg, names);
            r.Success? ==>
              && (forall n :: n in names && (n in pkg || n in original) ==> n in r.value)
              && forall n :: n !in names ==> (n in r.value <==> n in pkg) && (n in pkg ==> r.value[n] == pkg[n])
    decreases |names|
  {
    if names != [] {
      var init := names[..|names| - 1];
      var last := names[|names| - 1];
      MergedFrame(original, pkg, init);
      var m := Merged(original, pkg, init);
      if m.Success? {
        MergeOneFrame(original, m.value, last);
        var r := Merged(original, pkg, names);
        if r.Success? {
          forall n | n in names && (n in pkg || n in original) ensures n in r.value {
            if n != last {
              assert n in init;
            }
          }
          forall n | n !in names ensures (n in r.value <==> n in pkg) && (n in pkg ==> r.value[n] == pkg[n]) {
            assert n !in init;
          }
        }
      }
    }
  }

  /** `_merge_missing_parts` recovers each required part the package lacks
      from the original, overwrites `customXml/` with the original's, and
      leaves every other part as it was. */
  lemma MergeRecovers(original: Package, pkg: Package)
    ensures var r := MergeSpec(original, pkg);
            r.Success? ==>
              && (forall n :: n in RecoveredParts && (n in pkg || n in original) ==> n in r.value)
              && (forall n :: n in original && StartsWith(n, "customXml/") ==> n in r.value && r.value[n] == original[n])
              && forall n :: n !in RecoveredParts && !StartsWith(n, "customXml/") ==>
                   (n in r.value <==> n in pkg) && (n in pkg ==> r.value[n] == pkg[n])
  {
    MergedFrame(original, pkg, RecoveredParts);
    var m := Merged(original, pkg, RecoveredParts);
    if m.Success? {
      var custom := CustomXml(original);
      var r := m.value + custom;
      forall n | n in original && StartsWith(n, "customXml/") ensures n in r && r[n] == original[n] {
        assert n in custom;
      }
      forall n | n !in RecoveredParts && !StartsWith(n, "customXml/")
        ensures (n in r <==> n in pkg) && (n in pkg ==> r[n] == pkg[n])
      {
        assert n !in custom;
      }
    }
  }
}
