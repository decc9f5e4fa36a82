/** `JBGDocxQualityChecker` (app/src/JBGDocxQualityChecker.py): a report on
    a finished package — which critical styles are missing, whether the
    settings turn on revision tracking, and how many distinct session ids
    (rsids) the settings declare, with a warning when there are fewer than
    ten. Unzipping and logging are left out; the report is a value. */
module QualityChecker {
  import opened Wrappers
  import opened Xml
  import PackagePatches

  const Critical: set<string> := {"Normal", "DefaultParagraphFont", "TableNormal", "CommentText", "InsertedText", "DeletedText"}

  /** The non-empty ids of the `w:style` elements below the root. */
  function PresentIds(root: Node): set<string> {
    set s | s in IterKids(root.kids, "w:style") && "w:styleId" in s.attrs && s.attrs["w:styleId"] != "" :: s.attrs["w:styleId"]
  }

  /** `_check_critical_styles`, with an absent styles part reported as
      nothing missing. A part that does not parse is caught and logged, and
      every critical style is then missing. */
  function MissingCritical(v: View): (r: set<string>)
    ensures r <= Critical
    ensures v.Absent? ==> r == {}
    ensures v.Broken? ==> r == Critical
  {
    match v
    case Absent => {}
    case Broken => Critical
    case Present(root) => Critical - PresentIds(root)
  }

  /** The non-empty `w:val`s of the `w:rsid` children of the `w:rsids`
      children of the settings root (`findall('w:rsids/w:rsid')`). */
  function RsidVals(root: Node): set<string> {
    set i, j | 0 <= i < |root.kids| && root.kids[i].tag == "w:rsids" && 0 <= j < |root.kids[i].kids|
                && root.kids[i].kids[j].tag == "w:rsid" && "w:val" in root.kids[i].kids[j].attrs
                && root.kids[i].kids[j].attrs["w:val"] != ""
      :: root.kids[i].kids[j].attrs["w:val"]
  }

  /** `_check_settings`, with an absent part giving `(False, set())`; a part
      that does not parse is caught and gives the same. */
  function SettingsFacts(v: View): (bool, set<string>) {
    match v
    case Present(root) => (HasChild(root, "w:trackRevisions"), RsidVals(root))
    case _ => (false, {})
  }

  datatype Report = Report(missing: set<string>, tracking: bool, rsidCount: nat, sparse: bool)

  /** The figures `quality_control_docx` logs. */
  function QualityReport(pkg: Package): (r: Report)
    ensures r.sparse <==> r.rsidCount < 10
    ensures !ViewOf(pkg, PackagePatches.SettingsPart).Present? ==> !r.tracking && r.rsidCount == 0 && r.sparse
  {
    var (track, rsids) := SettingsFacts(ViewOf(pkg, PackagePatches.SettingsPart));
    Report(MissingCritical(ViewOf(pkg, PackagePatches.StylesPart)), track, |rsids|, |rsids| < 10)
  }

  // ---------------------------------------------------------------------------
  // properties

  /** A critical style is missing iff no style below the root has it as id;
      styles without an id do not count. */
  lemma MissingCriticalIff(root: Node, s: string)
    ensures s in MissingCritical(Present(root)) <==>
      s in Critical && forall x :: x in IterKids(root.kids, "w:style") ==> Attr(x, "w:styleId") != Some(s)
  {
    if s in Critical && s !in MissingCritical(Present(root)) {
      assert s in PresentIds(root);
      var x :| x in IterKids(root.kids, "w:style") && "w:styleId" in x.attrs && x.attrs["w:styleId"] != "" && x.attrs["w:styleId"] == s;
      assert Attr(x, "w:styleId") == Some(s);
    }
    if s in Critical && exists x :: x in IterKids(root.kids, "w:style") && Attr(x, "w:styleId") == Some(s) {
      var x :| x in IterKids(root.kids, "w:style") && Attr(x, "w:styleId") == Some(s);
      assert s != "";
      assert s in PresentIds(root);
    }
  }

  /** Tracking is reported iff `trackRevisions` is a direct child of the
      settings root. */
  lemma TrackingIff(pkg: Package)
    ensures QualityReport(pkg).tracking <==>
      ViewOf(pkg, PackagePatches.SettingsPart).Present? && HasChild(ViewOf(pkg, PackagePatches.SettingsPart).root, "w:trackRevisions")
  {
  }

  /** The rsid count is the number of distinct non-empty declared values;
      an `rsidRoot` is not one of them. */
  lemma CountedRsidsAreDeclared(root: Node, val: string)
    ensures val in RsidVals(root) <==>
      val != "" &&
      exists i, j ::
        && 0 <= i < |root.kids| && root.kids[i].tag == "w:rsids" && 0 <= j < |root.kids[i].kids|
        && root.kids[i].kids[j].tag == "w:rsid" && Attr(root.kids[i].kids[j], "w:val") == Some(val)
  {
    if val in RsidVals(root) {
      var i, j :| 0 <= i < |root.kids| && root.kids[i].tag == "w:rsids" && 0 <= j < |root.kids[i].kids|
                && root.kids[i].kids[j].tag == "w:rsid" && "w:val" in root.kids[i].kids[j].attrs
                && root.kids[i].kids[j].attrs["w:val"] != "" && root.kids[i].kids[j].attrs["w:val"] == val;
      assert Attr(root.kids[i].kids[j], "w:val") == Some(val);
    }
  }

  /** The styles patch leaves no critical style missing. */
  lemma PatchedStylesPassCheck(v: View)
    ensures MissingCritical(Present(PackagePatches.PatchedStyles(v))) == {}
  {
    var patched := PackagePatches.PatchedStyles(v);
    PackagePatches.PatchAddsExactlyMissing(PackagePatches.StylesBase(v));
    assert PackagePatches.RequiredIds == Critical;
    forall s | s in Critical ensures s in PresentIds(patched) {
      assert s in PackagePatches.StyleIdsBelow(patched);
      var x :| x in IterKids(patched.kids, "w:style") && "w:styleId" in x.attrs && x.attrs["w:styleId"] == s;
      assert s != "";
    }
  }

  /** After the rsid injection the settings declare exactly the non-empty
      values of the pool, so a pool of ten or more distinct non-empty ids
      is not reported as sparse. */
  lemma InjectedRsidsCounted(root: Node, pool: seq<string>)
    requires |root.kids| >= 1 && root.kids[0].tag == "w:rsids" && |root.kids[0].kids| == |pool| + 1
    requires |pool| >= 1 && root.kids[0].kids[0] == PackagePatches.Val("w:rsidRoot", pool[0])
    requires forall k :: 0 <= k < |pool| ==> root.kids[0].kids[k + 1] == PackagePatches.Val("w:rsid", pool[k])
    requires forall i :: 1 <= i < |root.kids| ==> root.kids[i].tag != "w:rsids"
    ensures RsidVals(root) == set k | 0 <= k < |pool| && pool[k] != "" :: pool[k]
  {
    var block := root.kids[0].kids;
    var declared := set k | 0 <= k < |pool| && pool[k] != "" :: pool[k];
    forall val | val in RsidVals(root) ensures val in declared {
      var i, j :| 0 <= i < |root.kids| && root.kids[i].tag == "w:rsids" && 0 <= j < |root.kids[i].kids|
                && root.kids[i].kids[j].tag == "w:rsid" && "w:val" in root.kids[i].kids[j].attrs
                && root.kids[i].kids[j].attrs["w:val"] != "" && root.kids[i].kids[j].attrs["w:val"] == val;
      assert i == 0;
      assert j != 0;
      assert block[(j - 1) + 1] == PackagePatches.Val("w:rsid", pool[j - 1]);
    }
    forall k | 0 <= k < |pool| && pool[k] != "" ensures pool[k] in RsidVals(root) {
      assert block[k + 1] == PackagePatches.Val("w:rsid", pool[k]);
      assert root.kids[0].kids[k + 1].attrs["w:val"] == pool[k];
    }
  }
}
