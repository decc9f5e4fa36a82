/** `_convert_markup_to_tracked` (app/src/JBGSuperDocumentEditor.py): the
    native revision converter. On the unpacked package of the marked-up
    document it restores the parts the round trip through python-docx lost,
    repairs the theme relationship, the styles, the paragraph styles and the
    settings, declares a pool of session ids, turns the red struck and the
    green runs into tracked deletions and insertions, stamps every paragraph
    with a session id from the pool, and cleans the tree. */
module TrackedConversion {
  import opened Wrappers
  import opened Text
  import opened Xml
  import opened PackagePatches
  import opened RunConversion
  import opened ParagraphStamps
  import opened TreeClean

  // ---------------------------------------------------------------------------
  // the document part

  /** The draw number of the first session choice: every converted run drew
      two ids from the pool before it. */
  function SessionBase(next: nat): nat {
    if next == 0 then 0 else 2 * (next - 1)
  }

  /** The stamps of the paragraphs of `root`, in document order. */
  function StampsFor(root: Node, pool: seq<string>, c: Chance, base: nat): (r: seq<Stamp>)
    requires |pool| > 0
    ensures |r| == Count(root, "w:p")
    ensures forall j :: 0 <= j < |r| ==> r[j].rsid in pool
  {
    seq(Count(root, "w:p"), (j: int) requires 0 <= j => StampOf(c, SessionOf(pool, c, base, j), j))
  }

  /** The document part after the run loop, the paragraph loop and the clean
      up. */
  function DocumentSpec(root: Node, pool: seq<string>, c: Chance, motivations: bool): Result<Node, PatchError>
    requires |pool| > 0
  {
    match ConvertRuns(root, pool, c, motivations)
    case Failure(e) => Failure(e)
    case Success((converted, next)) =>
      Success(Clean(StampNode(converted, 0, StampsFor(converted, pool, c, SessionBase(next)))))
  }

  /** The three loops over the document tree. The result is stamped
      throughout with session ids from the pool and holds no proofing marks
      below the root. */
  method ConvertDocument(root: Node, pool: seq<string>, c: Chance, motivations: bool) returns (r: Result<Node, PatchError>)
    requires |pool| > 0
    ensures r == DocumentSpec(root, pool, c, motivations)
    ensures r.Failure? <==> root.tag == "w:r" && Painted(root).Some?
    ensures r.Success? ==>
      AllStamped(r.value, pool) && Spared(r.value, Tagged("w:proofErr")) && Spared(r.value, Tagged("w:noProof"))
  {
    var runs := ConvertRuns(root, pool, c, motivations);
    if runs.Failure? {
      return Failure(runs.error);
    }
    var (converted, next) := runs.value;
    var count := Count(converted, "w:p");
    var rsids := ScheduleSessions(count, pool, c, SessionBase(next));
    var stamps := seq(count, (j: int) requires 0 <= j < count => StampOf(c, rsids[j], j));
    assert stamps == StampsFor(converted, pool, c, SessionBase(next));
    var stamped := StampNode(converted, 0, stamps);
    StampNodeStampsAll(converted, 0, stamps, pool);
    CleanSettles(stamped);
    CleanKeepsStamped(stamped, pool);
    return Success(Clean(stamped));
  }

  /** Cleaning only removes nodes, so the paragraphs left keep their stamps. */
  lemma CleanKeepsStamped(n: Node, pool: seq<string>)
    requires AllStamped(n, pool)
    ensures AllStamped(Clean(n), pool)
  {
    PruneKeepsStamped(n, Tagged("w:proofErr"), pool);
    var a := Prune(n, Tagged("w:proofErr"));
    PruneKeepsStamped(a, Tagged("w:noProof"), pool);
    PruneKeepsStamped(Prune(a, Tagged("w:noProof")), EmptyRunProps, pool);
  }

  lemma {:induction false} PruneKeepsStamped(n: Node, rule: Rule, pool: seq<string>)
    requires AllStamped(n, pool)
    ensures AllStamped(Prune(n, rule), pool)
    decreases n
  {
    PruneKidsKeepStamped(n.kids, rule, pool);
  }

  lemma {:induction false} PruneKidsKeepStamped(kids: seq<Node>, rule: Rule, pool: seq<string>)
    requires forall i :: 0 <= i < |kids| ==> AllStamped(kids[i], pool)
    ensures forall i :: 0 <= i < |PruneKids(kids, rule)| ==> AllStamped(PruneKids(kids, rule)[i], pool)
    decreases kids
  {
    if kids != [] {
      var init := kids[..|kids| - 1];
      var last := kids[|kids| - 1];
      var done := PruneKids(init, rule);
      assert forall i :: 0 <= i < |init| ==> init[i] == kids[i];
      PruneKidsKeepStamped(init, rule, pool);
      if !Drops(rule, last) {
        PruneKeepsStamped(last, rule, pool);
        var r := done + [Prune(last, rule)];
        assert forall i :: 0 <= i < |done| ==> r[i] == done[i];
      }
    }
  }

  // ---------------------------------------------------------------------------
  // the settings part

  /** The session ids the settings declare: the values of the `w:rsid`
      entries of the block that is its first child, after the `w:rsidRoot`. */
  function DeclaredSessions(settings: Node): seq<string> {
    if settings.kids == [] || settings.kids[0].kids == [] then []
    else
      var block := settings.kids[0].kids;
      seq(|block| - 1, (i: int) requires 0 <= i < |block| - 1 => Attr(block[i + 1], "w:val").GetOr(""))
  }

  /** The settings Word needs to show the tracked changes. */
  predicate TracksRevisions(settings: Node) {
    HasChild(settings, "w:trackRevisions") && HasChild(settings, "w:compat") && HasChild(settings, "w:updateFields")
  }

  /** The injected block declares exactly the pool. */
  lemma BlockDeclaresPool(injected: Node, pool: seq<string>)
    requires |injected.kids| >= 1 && |injected.kids[0].kids| == |pool| + 1
    requires forall i :: 0 <= i < |pool| ==> injected.kids[0].kids[i + 1] == Val("w:rsid", pool[i])
    ensures DeclaredSessions(injected) == pool
  {
    var block := injected.kids[0].kids;
    forall i | 0 <= i < |pool| ensures Attr(block[i + 1], "w:val").GetOr("") == pool[i] {
      assert block[i + 1] == Val("w:rsid", pool[i]);
    }
  }

  /** The injection keeps what the settings fix added. */
  lemma InjectionKeepsTracking(fixed: Node, injected: Node)
    requires TracksRevisions(fixed)
    requires |injected.kids| >= 1 && injected.kids[1..] == Without(fixed.kids, "w:rsids")
    ensures TracksRevisions(injected)
  {
    KeptChild(fixed, injected, "w:trackRevisions");
    KeptChild(fixed, injected, "w:compat");
    KeptChild(fixed, injected, "w:updateFields");
  }

  lemma KeptChild(fixed: Node, injected: Node, tag: string)
    requires HasChild(fixed, tag) && tag != "w:rsids"
    requires |injected.kids| >= 1 && injected.kids[1..] == Without(fixed.kids, "w:rsids")
    ensures HasChild(injected, tag)
  {
    var j :| 0 <= j < |fixed.kids| && fixed.kids[j].tag == tag;
    assert fixed.kids[j] in injected.kids[1..];
    var k :| 0 <= k < |injected.kids[1..]| && injected.kids[1..][k] == fixed.kids[j];
    assert injected.kids[k + 1].tag == tag;
  }

  // ---------------------------------------------------------------------------
  // the whole conversion

  /** Packages `p` and `q` agree on every part not named in `touched`. */
  ghost predicate Agree(p: Package, q: Package, touched: set<string>) {
    forall n :: n !in touched ==> (n in p <==> n in q) && (n in q ==> p[n] == q[n])
  }

  lemma AgreeChain(a: Package, b: Package, c: Package, s: set<string>, t: set<string>)
    requires Agree(a, b, s) && Agree(b, c, t)
    ensures Agree(a, c, s + t)
  {
  }

  lemma AgreeView(p: Package, q: Package, touched: set<string>, name: string)
    requires Agree(p, q, touched) && name !in touched
    ensures ViewOf(p, name) == ViewOf(q, name)
  {
  }

  /** Parts `p` and `q` agree on every name outside `touched` and
      `customXml/`. */
  ghost predicate SameOutside(p: Package, q: Package, touched: set<string>) {
    forall n :: n !in touched && !StartsWith(n, "customXml/") ==>
      (n in p <==> n in q) && (n in q ==> p[n] == q[n])
  }

  /** `_merge_missing_parts` followed by `_ensure_theme_relationship`. */
  method RestoreParts(input: Package, original: Package) returns (r: Result<Package, PatchError>)
    ensures r.Success? ==> SameOutside(r.value, input, set n | n in RecoveredParts)
  {
    var merged := MergeMissingParts(original, input);
    if merged.Failure? {
      return Failure(merged.error);
    }
    MergeRecovers(original, input);
    var themed := EnsureTheme(merged.value);
    if themed.Failure? {
      return Failure(themed.error);
    }
    assert RelsPart == RecoveredParts[4];
    return Success(themed.value);
  }

  /** `_patch_or_inject_styles` on the styles part: afterwards the part is
      there and holds every required style; no other part changes. */
  method RepairStyles(pkg: Package) returns (r: Package)
    ensures ViewOf(r, StylesPart).Present? && !IsIncomplete(ViewOf(r, StylesPart))
    ensures Agree(r, pkg, {StylesPart})
  {
    var sv := ViewOf(pkg, StylesPart);
    var styles, added, written := PatchStyles(sv);
    IncompleteMeansPatched(sv);
    if written {
      r := pkg[StylesPart := Xml(styles)];
    } else {
      StylesUnwritten(sv, styles, added);
      r := pkg;
    }
  }

  /** `_fix_or_inject_settings_xml` on the settings part: afterwards the
      part is there and tracks revisions; no other part changes. */
  method RepairSettings(pkg: Package) returns (r: Result<Package, PatchError>)
    ensures r.Failure? <==> ViewOf(pkg, SettingsPart).Broken?
    ensures r.Success? ==> ViewOf(r.value, SettingsPart).Present? && TracksRevisions(ViewOf(r.value, SettingsPart).root)
    ensures r.Success? ==> Agree(r.value, pkg, {SettingsPart})
  {
    var fixed := FixSettings(ViewOf(pkg, SettingsPart));
    if fixed.Failure? {
      return Failure(fixed.error);
    }
    SettingsFixComplete(SettingsBase(ViewOf(pkg, SettingsPart), SettingsPart).value);
    return Success(pkg[SettingsPart := Xml(fixed.value)]);
  }

  /** `_inject_multiple_rsid_entries` with the count estimated from the
      document part: the pool has 50, 100 or 200 ids, the settings declare
      exactly the pool and keep tracking revisions; no other part changes. */
  method DeclareSessions(pkg: Package, hex: nat -> string) returns (r: Result<(Package, seq<string>), PatchError>)
    ensures r.Failure? <==> ViewOf(pkg, SettingsPart).Broken?
    ensures r.Success? ==>
      var (out, pool) := r.value;
      && |pool| == EstimateRsidCount(ViewOf(pkg, DocumentPart))
      && ViewOf(out, SettingsPart).Present? && DeclaredSessions(ViewOf(out, SettingsPart).root) == pool
      && (ViewOf(pkg, SettingsPart).Present? && TracksRevisions(ViewOf(pkg, SettingsPart).root) ==>
            TracksRevisions(ViewOf(out, SettingsPart).root))
      && Agree(out, pkg, {SettingsPart})
  {
    var count := EstimateRsidCount(ViewOf(pkg, DocumentPart));
    var pool := seq(count, (i: int) requires 0 <= i => hex(i));
    var injected := InjectRsids(ViewOf(pkg, SettingsPart), pool);
    if injected.Failure? {
      return Failure(injected.error);
    }
    BlockDeclaresPool(injected.value, pool);
    if ViewOf(pkg, SettingsPart).Present? && TracksRevisions(ViewOf(pkg, SettingsPart).root) {
      InjectionKeepsTracking(ViewOf(pkg, SettingsPart).root, injected.value);
    }
    return Success((pkg[SettingsPart := Xml(injected.value)], pool));
  }

  /** `_convert_markup_to_tracked` on the unpacked package `input`, with
      `original` the package of the document before editing, `hex` the k-th
      random session id and `c` the other random draws and the clock. The
      result, when the conversion goes through, has a complete styles part,
      settings that track revisions and declare the session pool, and a
      document whose every paragraph carries a declared session id and which
      has no proofing marks; parts outside the recovered set, the document
      and `customXml/` are as in the input. */
  method ConvertMarkupToTracked(input: Package, original: Package, hex: nat -> string, c: Chance, motivations: bool)
    returns (r: Result<Package, PatchError>)
    ensures r.Success? ==>
      var styles := ViewOf(r.value, StylesPart);
      var settings := ViewOf(r.value, SettingsPart);
      var doc := ViewOf(r.value, DocumentPart);
      && styles.Present? && !IsIncomplete(styles)
      && settings.Present? && TracksRevisions(settings.root)
      && |DeclaredSessions(settings.root)| >= 50
      && doc.Present? && AllStamped(doc.root, DeclaredSessions(settings.root))
      && Spared(doc.root, Tagged("w:proofErr")) && Spared(doc.root, Tagged("w:noProof"))
    ensures r.Success? ==>
      && ViewOf(input, DocumentPart).Present?
      && ViewOf(r.value, SettingsPart).Present? && ViewOf(r.value, DocumentPart).Present?
      && var styled := StyleBodies(ViewOf(input, DocumentPart).root);
         var pool := DeclaredSessions(ViewOf(r.value, SettingsPart).root);
         && |pool| == EstimateRsidCount(Present(styled)) && |pool| > 0
         && DocumentSpec(styled, pool, c, motivations) == Success(ViewOf(r.value, DocumentPart).root)
    ensures r.Success? ==> SameOutside(r.value, input, (set n | n in RecoveredParts) + {DocumentPart})
  {
    var restored := RestoreParts(input, original);
    if restored.Failure? {
      return Failure(restored.error);
    }
    var pkg := RepairStyles(restored.value);
    var bodies := StyleDocumentPart(pkg);
    if bodies.Failure? {
      return Failure(bodies.error);
    }
    BodiesAgree(pkg);
    var settings := RepairSettings(bodies.value);
    if settings.Failure? {
      return Failure(settings.error);
    }
    var declared := DeclareSessions(settings.value, hex);
    assert declared.Success?;  // the settings part is present by now
    var (ready, pool) := declared.value;
    var dv := ViewOf(ready, DocumentPart);
    if dv.Absent? {
      return Failure(Missing(DocumentPart));
    } else if dv.Broken? {
      return Failure(Unparsable(DocumentPart));
    }
    var doc := ConvertDocument(dv.root, pool, c, motivations);
    if doc.Failure? {
      return Failure(doc.error);
    }
    var out := ready[DocumentPart := Xml(doc.value)];
    DocumentThrough(input, restored.value, pkg, bodies.value, settings.value, ready);
    ConvertFrame(input, restored.value, pkg, bodies.value, settings.value, ready, out, doc.value);
    r := Success(out);
  }

  /** The parts each step of the conversion leaves alone: the result keeps
      the repaired styles and the declared settings, and differs from the
      input only in the recovered parts and the document. */
  lemma ConvertFrame(input: Package, restored: Package, pkg: Package, bodies: Package, settings: Package,
                     ready: Package, out: Package, doc: Node)
    requires SameOutside(restored, input, set n | n in RecoveredParts)
    requires Agree(pkg, restored, {StylesPart})
    requires Agree(bodies, pkg, {DocumentPart})
    requires Agree(settings, bodies, {SettingsPart})
    requires Agree(ready, settings, {SettingsPart})
    requires out == ready[DocumentPart := Xml(doc)]
    ensures ViewOf(out, DocumentPart) == Present(doc)
    ensures ViewOf(out, SettingsPart) == ViewOf(ready, SettingsPart)
    ensures ViewOf(out, StylesPart) == ViewOf(pkg, StylesPart)
    ensures SameOutside(out, input, (set n | n in RecoveredParts) + {DocumentPart})
  {
    PartsDiffer();
    assert Agree(out, ready, {DocumentPart});
    ConvertKeepsParts(pkg, bodies, settings, ready, out);
    AgreeChain(bodies, pkg, restored, {DocumentPart}, {StylesPart});
    AgreeChain(settings, bodies, restored, {SettingsPart}, {DocumentPart, StylesPart});
    AgreeChain(ready, settings, restored, {SettingsPart}, {SettingsPart, DocumentPart, StylesPart});
    AgreeChain(out, ready, restored, {DocumentPart}, {SettingsPart, SettingsPart, DocumentPart, StylesPart});
    RestoredFrame(input, restored, out);
  }

  /** The document part the run loop reads is the input's document with
      its body paragraphs styled: restoring, repairing the styles and the
      settings and declaring the sessions leave it alone. */
  lemma DocumentThrough(input: Package, restored: Package, pkg: Package, bodies: Package, settings: Package,
                        ready: Package)
    requires SameOutside(restored, input, set n | n in RecoveredParts)
    requires Agree(pkg, restored, {StylesPart})
    requires StyleDocumentPart(pkg) == Success(bodies)
    requires Agree(settings, bodies, {SettingsPart})
    requires Agree(ready, settings, {SettingsPart})
    requires ViewOf(ready, DocumentPart).Present?
    ensures ViewOf(input, DocumentPart).Present?
    ensures ViewOf(ready, DocumentPart) == ViewOf(settings, DocumentPart) == ViewOf(bodies, DocumentPart)
    ensures ViewOf(ready, DocumentPart).root == StyleBodies(ViewOf(input, DocumentPart).root)
  {
    DocumentNotRecovered();
    assert ViewOf(restored, DocumentPart) == ViewOf(input, DocumentPart);
    AgreeView(pkg, restored, {StylesPart}, DocumentPart);
    AgreeView(ready, settings, {SettingsPart}, DocumentPart);
    AgreeView(settings, bodies, {SettingsPart}, DocumentPart);
  }

  /** The document part is neither a recovered part nor custom XML. */
  lemma DocumentNotRecovered()
    ensures DocumentPart !in RecoveredParts && !StartsWith(DocumentPart, "customXml/")
    ensures DocumentPart != StylesPart && DocumentPart != SettingsPart
  {
    assert DocumentPart[5] == 'd' && DocumentPart[0] == 'w';
    assert RecoveredParts[0][5] == 's' && RecoveredParts[1][5] == 's';
    assert RecoveredParts[2][5] == 'f' && RecoveredParts[3][5] == 'w';
    assert RecoveredParts[4][5] == '_' && RecoveredParts[5][5] == 't';
  }

  lemma ConvertKeepsParts(pkg: Package, bodies: Package, settings: Package, ready: Package, out: Package)
    requires StylesPart != SettingsPart && StylesPart != DocumentPart && SettingsPart != DocumentPart
    requires Agree(bodies, pkg, {DocumentPart})
    requires Agree(settings, bodies, {SettingsPart})
    requires Agree(ready, settings, {SettingsPart})
    requires Agree(out, ready, {DocumentPart})
    ensures ViewOf(out, SettingsPart) == ViewOf(ready, SettingsPart)
    ensures ViewOf(out, StylesPart) == ViewOf(pkg, StylesPart)
  {
    AgreeView(out, ready, {DocumentPart}, SettingsPart);
    AgreeChain(settings, bodies, pkg, {SettingsPart}, {DocumentPart});
    AgreeView(settings, pkg, {SettingsPart, DocumentPart}, StylesPart);
    AgreeChain(out, ready, settings, {DocumentPart}, {SettingsPart});
    AgreeView(out, settings, {DocumentPart, SettingsPart}, StylesPart);
  }

  /** Styling the document bodies rewrites only the document part. */
  lemma BodiesAgree(pkg: Package)
    requires StyleDocumentPart(pkg).Success?
    ensures Agree(StyleDocumentPart(pkg).value, pkg, {DocumentPart})
  {
  }

  lemma RestoredFrame(input: Package, restored: Package, out: Package)
    requires SameOutside(restored, input, set n | n in RecoveredParts)
    requires Agree(out, restored, {DocumentPart, SettingsPart, SettingsPart, DocumentPart, StylesPart})
    requires StylesPart in RecoveredParts && SettingsPart in RecoveredParts
    ensures SameOutside(out, input, (set n | n in RecoveredParts) + {DocumentPart})
  {
  }

  lemma PartsDiffer()
    ensures StylesPart != SettingsPart && StylesPart != DocumentPart && SettingsPart != DocumentPart
    ensures StylesPart in RecoveredParts && SettingsPart in RecoveredParts
  {
    assert StylesPart[5] == 's' && SettingsPart[5] == 's' && DocumentPart[5] == 'd';
    assert StylesPart[6] == 't' && SettingsPart[6] == 'e';
    assert |StylesPart| != |DocumentPart|;
    assert RecoveredParts[0] == StylesPart && RecoveredParts[1] == SettingsPart;
  }

  /** A styles part the patch does not write back was already complete. */
  lemma StylesUnwritten(v: View, styles: Node, added: nat)
    requires styles == PatchedStyles(v) && styles.kids[..|StylesBase(v).kids|] == StylesBase(v).kids
    requires added == |styles.kids| - |StylesBase(v).kids| && !(added > 0 || v.Absent?)
    ensures v.Present? && v.root == styles
  {
    assert styles.kids == StylesBase(v).kids;
    if v.Broken? {
      BareStylesGrow(StylesBase(v));
    }
  }
}
