/** `JBGTrackedChangesInserter` (app/src/JBGTrackedChangesInserter.py): an
    object over one Word package that turns on revision tracking in the
    settings and replaces a phrase in every paragraph of the document by a
    tracked deletion and insertion. The object keeps the document tree and
    the other entries of the package as they were when it was made; `save`
    writes those back with the new document.

    The zip file at the object's path is the field `disk`; the clock reading
    taken at construction and the author are constructor parameters. The
    paragraphs are rewritten on values: the whole document tree is replaced
    by its rewritten copy. */
module TrackedInserter {
  import opened Wrappers
  import opened Text
  import opened Xml

  const DocumentName := "word/document.xml"
  const SettingsName := "word/settings.xml"

  /** Why an operation raises. */
  datatype InsertError =
    | MissingEntry(name: string)   // the zip has no such entry
    | Unparsable(name: string)     // the entry is not well-formed XML
    | EmptyPhrase                  // `str.partition` on an empty separator
    | NotAChild                    // `para.remove` of a run that is not a child
    | NoText                       // `in` on the text of an empty `w:t`

  // ---------------------------------------------------------------------------
  // the nodes a replacement adds

  /** `_make_run`: a run holding one `w:t` with preserved spacing. */
  function MakeRun(text: string): Node {
    Elem("w:r", [Node("w:t", map["xml:space" := "preserve"], Some(text), [])])
  }

  /** `_make_deleted_run`: a run holding one `w:delText`. */
  function MakeDeletedRun(text: string): Node {
    Elem("w:r", [Node("w:delText", map["xml:space" := "preserve"], Some(text), [])])
  }

  /** A `w:del` or `w:ins` wrapper with the author and the timestamp. */
  function Revision(tag: string, author: string, stamp: string, run: Node): Node {
    Node(tag, map["w:author" := author, "w:date" := stamp], None, [run])
  }

  /** What a replacement appends to the paragraph: a plain run with the text
      before the phrase unless that text is blank, the deletion of the
      phrase, the insertion of the replacement, and a plain run with the text
      after the phrase unless that text is blank. */
  function Replacement(before: string, after: string, phrase: string, repl: string, author: string, stamp: string): (r: seq<Node>)
    ensures 2 <= |r| <= 4
  {
    (if AllSpace(before) then [] else [MakeRun(before)])
    + [Revision("w:del", author, stamp, MakeDeletedRun(phrase)), Revision("w:ins", author, stamp, MakeRun(repl))]
    + (if AllSpace(after) then [] else [MakeRun(after)])
  }

  /** The text of the leaf inside a wrapper or run built by a replacement;
      "" for a node of another shape. */
  function Inner(n: Node): string {
    if |n.kids| == 1 && |n.kids[0].kids| == 1 then n.kids[0].kids[0].text.GetOr("")
    else if |n.kids| == 1 then n.kids[0].text.GetOr("")
    else ""
  }

  /** The text a reader of the original sees in the appended nodes: plain
      runs and deletions, not insertions. */
  function DeletedView(nodes: seq<Node>): string {
    if nodes == [] then ""
    else
      var n := nodes[|nodes| - 1];
      DeletedView(nodes[..|nodes| - 1]) + (if n.tag == "w:r" || n.tag == "w:del" then Inner(n) else "")
  }

  /** The text after accepting the change: plain runs and insertions. */
  function InsertedView(nodes: seq<Node>): string {
    if nodes == [] then ""
    else
      var n := nodes[|nodes| - 1];
      InsertedView(nodes[..|nodes| - 1]) + (if n.tag == "w:r" || n.tag == "w:ins" then Inner(n) else "")
  }

  /** The non-blank part of a piece: the piece itself, or nothing when it is
      all whitespace. */
  function Shown(s: string): string {
    if AllSpace(s) then "" else s
  }

  // ---------------------------------------------------------------------------
  // `enable_track_changes`

  /** The settings with `trackRevisions` as first child unless one is there. */
  function WithTracking(settings: Node): (r: Node)
    ensures HasChild(r, "w:trackRevisions")
    ensures r.tag == settings.tag && r.attrs == settings.attrs
  {
    if HasChild(settings, "w:trackRevisions") then settings
    else
      var r := settings.(kids := [Elem("w:trackRevisions", [])] + settings.kids);
      assert r.kids[0].tag == "w:trackRevisions";
      r
  }

  /** The package file after `enable_track_changes`: the settings entry is
      rewritten and every other entry copied. */
  function EnableSpec(disk: Package): Result<Package, InsertError> {
    match ViewOf(disk, SettingsName)
    case Absent => Failure(MissingEntry(SettingsName))
    case Broken => Failure(Unparsable(SettingsName))
    case Present(root) => Success(disk[SettingsName := Xml(WithTracking(root))])
  }

  // ---------------------------------------------------------------------------
  // `save`

  /** The entries captured at load: every one but the document. */
  function Captured(disk: Package): (r: Package)
    ensures DocumentName !in r
    ensures forall n :: n != DocumentName ==> (n in r <==> n in disk) && (n in r ==> r[n] == disk[n])
  {
    map n | n in disk && n != DocumentName :: disk[n]
  }

  /** What `save` writes: the captured entries and the document tree. */
  function Saved(other: Package, doc: Node): Package {
    other[DocumentName := Xml(doc)]
  }

  /** `_load_document_xml`: the document tree and every other entry, or
      what reading the document entry (KeyError) or parsing it raises. */
  function Load(disk: Package): Result<(Node, Package), InsertError> {
    match ViewOf(disk, DocumentName)
    case Absent => Failure(MissingEntry(DocumentName))
    case Broken => Failure(Unparsable(DocumentName))
    case Present(root) => Success((root, Captured(disk)))
  }

  /** Loading fails exactly when the document entry is missing or does not
      parse; saving what was loaded writes the package back unchanged. */
  lemma LoadSaveRoundTrip(disk: Package)
    ensures Load(disk).Failure? <==> !ViewOf(disk, DocumentName).Present?
    ensures Load(disk).Failure? ==> Load(disk).error == (if DocumentName in disk then Unparsable(DocumentName) else MissingEntry(DocumentName))
    ensures Load(disk).Success? ==> Saved(Load(disk).value.1, Load(disk).value.0) == disk
  {
    if Load(disk).Success? {
      var (doc, other) := Load(disk).value;
      assert Saved(other, doc).Keys == disk.Keys;
    }
  }

  // ---------------------------------------------------------------------------
  // `apply_to_paragraph`

  /** The concatenated texts of the given `w:t` elements, skipping empty ones. */
  function Texts(ts: seq<Node>): string {
    if ts == [] then "" else Texts(ts[..|ts| - 1]) + ts[|ts| - 1].text.GetOr("")
  }

  /** For each run in order, the texts of the `w:t` elements below it. */
  function RunsText(runs: seq<Node>): string {
    if runs == [] then ""
    else RunsText(runs[..|runs| - 1]) + Texts(IterKids(runs[|runs| - 1].kids, "w:t"))
  }

  /** The paragraph's text as the inserter reads it: all `w:t` texts of all
      runs below the paragraph, in document order. A `w:delText` is not a
      `w:t` and does not count. */
  function FullText(para: Node): string {
    RunsText(IterKids(para.kids, "w:r"))
  }

  /** A run that already carries a tracked change: a child whose tag ends in
      "delText" or in "ins". */
  predicate Protected(run: Node) {
    exists i :: 0 <= i < |run.kids| && (EndsWith(run.kids[i].tag, "delText") || EndsWith(run.kids[i].tag, "ins"))
  }

  predicate Removable(k: Node) {
    k.tag == "w:r" && !Protected(k)
  }

  /** The children that stay: every child but the unprotected runs, in order. */
  function Cleared(kids: seq<Node>): (r: seq<Node>)
    ensures forall x :: x in r <==> x in kids && !Removable(x)
  {
    if kids == [] then []
    else
      var last := kids[|kids| - 1];
      var init := kids[..|kids| - 1];
      var r := Cleared(init) + (if Removable(last) then [] else [last]);
      assert forall x :: x in kids <==> x in init || x == last;
      r
  }

  /** The paragraph matches when the normalised phrase occurs in its
      normalised text. */
  predicate Matches(para: Node, phrase: string) {
    Contains(Normalize(FullText(para)), Normalize(phrase))
  }

  /** What `apply_to_paragraph` does to one paragraph. */
  datatype Step = Unmatched | Replaced(para: Node)

  function ApplyToParagraph(para: Node, phrase: string, repl: string, author: string, stamp: string): Result<Step, InsertError> {
    if !Matches(para, phrase) then Success(Unmatched)
    else if phrase == "" then Failure(EmptyPhrase)
    else
      var (before, after) := Partition(FullText(para), phrase);
      Success(Replaced(para.(kids := Cleared(para.kids) + Replacement(before, after, phrase, repl, author, stamp))))
  }

  /** On a match the unprotected runs go, everything else stays in order,
      and the appended nodes show the paragraph's text with the phrase
      deleted and the replacement inserted: when the phrase occurs
      literally, the text before it, the phrase and the text after it (blank
      pieces dropped) read back as the paragraph's text; when only the
      normalised phrase occurs, the whole text stands before the deletion. */
  lemma ApplyToParagraphMeaning(para: Node, phrase: string, repl: string, author: string, stamp: string)
    ensures var r := ApplyToParagraph(para, phrase, repl, author, stamp);
      && (r.Failure? <==> phrase == "")
      && (r.Success? ==> (r.value.Unmatched? <==> !Matches(para, phrase)))
  {
    if phrase == "" {
      EmptyIsEverywhere(Normalize(FullText(para)));
    }
  }

  lemma ReplacedShowsChange(para: Node, phrase: string, repl: string, author: string, stamp: string)
    requires ApplyToParagraph(para, phrase, repl, author, stamp).Success?
    requires ApplyToParagraph(para, phrase, repl, author, stamp).value.Replaced?
    ensures var p := ApplyToParagraph(para, phrase, repl, author, stamp).value.para;
      var kept := Cleared(para.kids);
      var full := FullText(para);
      && p.tag == para.tag && p.attrs == para.attrs
      && |p.kids| >= |kept| && p.kids[..|kept|] == kept
      && (Contains(full, phrase) ==>
            exists before, after :: full == before + phrase + after && !Contains(before, phrase)
              && DeletedView(p.kids[|kept|..]) == Shown(before) + phrase + Shown(after)
              && InsertedView(p.kids[|kept|..]) == Shown(before) + repl + Shown(after))
      && (!Contains(full, phrase) ==>
            DeletedView(p.kids[|kept|..]) == Shown(full) + phrase
              && InsertedView(p.kids[|kept|..]) == Shown(full) + repl)
  {
    var full := FullText(para);
    var (before, after) := Partition(full, phrase);
    PartitionSpec(full, phrase);
    var kept := Cleared(para.kids);
    var tail := Replacement(before, after, phrase, repl, author, stamp);
    var p := para.(kids := kept + tail);
    assert p.kids[|kept|..] == tail;
    assert p.kids[..|kept|] == kept;
    ReplacementViews(before, after, phrase, repl, author, stamp);
  }

  lemma ReplacementViews(before: string, after: string, phrase: string, repl: string, author: string, stamp: string)
    ensures DeletedView(Replacement(before, after, phrase, repl, author, stamp)) == Shown(before) + phrase + Shown(after)
    ensures InsertedView(Replacement(before, after, phrase, repl, author, stamp)) == Shown(before) + repl + Shown(after)
  {
    var pre := if AllSpace(before) then [] else [MakeRun(before)];
    var del := Revision("w:del", author, stamp, MakeDeletedRun(phrase));
    var ins := Revision("w:ins", author, stamp, MakeRun(repl));
    var post := if AllSpace(after) then [] else [MakeRun(after)];
    assert Replacement(before, after, phrase, repl, author, stamp) == pre + [del, ins] + post;
    PieceViews(before);
    PieceViews(after);
    RevisionViews(phrase, repl, author, stamp);
    ViewsAppend(pre, [del, ins]);
    ViewsAppend(pre + [del, ins], post);
  }

  /** A plain run for a piece unless it is blank reads as the piece's
      non-blank part in both views. */
  lemma PieceViews(text: string)
    ensures var nodes := if AllSpace(text) then [] else [MakeRun(text)];
      DeletedView(nodes) == Shown(text) && InsertedView(nodes) == Shown(text)
  {
    if !AllSpace(text) {
      assert [MakeRun(text)][..0] == [];
    }
  }

  /** The deletion and the insertion read as the phrase before the change
      and as the replacement after it. */
  lemma RevisionViews(phrase: string, repl: string, author: string, stamp: string)
    ensures var pair := [Revision("w:del", author, stamp, MakeDeletedRun(phrase)), Revision("w:ins", author, stamp, MakeRun(repl))];
      DeletedView(pair) == phrase && InsertedView(pair) == repl
  {
    var del := Revision("w:del", author, stamp, MakeDeletedRun(phrase));
    var ins := Revision("w:ins", author, stamp, MakeRun(repl));
    assert Inner(del) == phrase && Inner(ins) == repl;
    assert [del, ins][..1] == [del] && [del][..0] == [];
    assert DeletedView([del]) == phrase && InsertedView([del]) == "";
  }

  lemma {:induction false} ViewsAppend(a: seq<Node>, b: seq<Node>)
    ensures DeletedView(a + b) == DeletedView(a) + DeletedView(b)
    ensures InsertedView(a + b) == InsertedView(a) + InsertedView(b)
    decreases |b|
  {
    if b == [] {
      assert a + b == a;
    } else {
      assert (a + b)[..|a + b| - 1] == a + b[..|b| - 1];
      ViewsAppend(a, b[..|b| - 1]);
    }
  }

  // ---------------------------------------------------------------------------
  // `apply_tracked_replacement`

  /** The document after `apply_tracked_replacement`. Each paragraph's fate
      depends only on its own content before the pass: a paragraph is
      visited before the paragraphs nested in it, and visiting one only
      changes its own child list. */
  function Rewrite(n: Node, phrase: string, repl: string, author: string, stamp: string): Node
    decreases n
  {
    if n.tag == "w:p" && phrase != "" && Matches(n, phrase) then
      var (before, after) := Partition(FullText(n), phrase);
      var kept := Cleared(n.kids);
      n.(kids := seq(|kept|, i requires 0 <= i < |kept| => (assert kept[i] in n.kids; Rewrite(kept[i], phrase, repl, author, stamp)))
                 + Replacement(before, after, phrase, repl, author, stamp))
    else
      n.(kids := seq(|n.kids|, i requires 0 <= i < |n.kids| => Rewrite(n.kids[i], phrase, repl, author, stamp)))
  }

  lemma {:induction false} RewriteFree(n: Node, phrase: string, repl: string, author: string, stamp: string)
    requires Free(n, "w:p")
    ensures Rewrite(n, phrase, repl, author, stamp) == n
    decreases n
  {
    forall i | 0 <= i < |n.kids| ensures Rewrite(n.kids[i], phrase, repl, author, stamp) == n.kids[i] {
      RewriteFree(n.kids[i], phrase, repl, author, stamp);
    }
  }

  /** On a paragraph with no paragraphs nested in it, the rewrite is what
      `apply_to_paragraph` makes of it, whenever that does not raise. */
  lemma RewriteIsApply(para: Node, phrase: string, repl: string, author: string, stamp: string)
    requires para.tag == "w:p" && FreeKids(para.kids, "w:p")
    requires ApplyToParagraph(para, phrase, repl, author, stamp).Success?
    ensures var step := ApplyToParagraph(para, phrase, repl, author, stamp).value;
      Rewrite(para, phrase, repl, author, stamp) == if step.Unmatched? then para else step.para
  {
    var kept := if Matches(para, phrase) then Cleared(para.kids) else para.kids;
    var kids := seq(|kept|, i requires 0 <= i < |kept| => Rewrite(kept[i], phrase, repl, author, stamp));
    forall i | 0 <= i < |kept| ensures kids[i] == kept[i] {
      assert kept[i] in para.kids;
      RewriteFree(kept[i], phrase, repl, author, stamp);
    }
    assert kids == kept;
  }

  /** The paragraph test as a value, so that counting can be stated for
      any test. */
  function Matcher(phrase: string): Node -> bool {
    p => Matches(p, phrase)
  }

  /** How many of the paragraphs match. */
  function Matched(paras: seq<Node>, hit: Node -> bool): (r: nat)
    ensures r <= |paras|
  {
    if paras == [] then 0
    else Matched(paras[..|paras| - 1], hit) + (if hit(paras[|paras| - 1]) then 1 else 0)
  }

  /** No paragraph of the subtree matches. */
  predicate Quiet(n: Node, hit: Node -> bool)
    decreases n
  {
    (n.tag == "w:p" ==> !hit(n)) && forall i :: 0 <= i < |n.kids| ==> Quiet(n.kids[i], hit)
  }

  /** A pass in which no paragraph matches changes nothing. */
  lemma {:induction false} QuietRewriteIdentity(n: Node, phrase: string, repl: string, author: string, stamp: string)
    requires Quiet(n, Matcher(phrase))
    ensures Rewrite(n, phrase, repl, author, stamp) == n
    decreases n
  {
    forall i | 0 <= i < |n.kids| ensures Rewrite(n.kids[i], phrase, repl, author, stamp) == n.kids[i] {
      QuietRewriteIdentity(n.kids[i], phrase, repl, author, stamp);
    }
    assert n.tag == "w:p" ==> !Matches(n, phrase);
    assert Rewrite(n, phrase, repl, author, stamp).kids == n.kids;
  }

  /** The count is zero exactly when no paragraph matches. */
  lemma {:induction false} QuietIffUncounted(n: Node, hit: Node -> bool)
    ensures Quiet(n, hit) <==> Matched(Iter(n, "w:p"), hit) == 0
    decreases n
  {
    QuietKidsIffUncounted(n.kids, hit);
    MatchedAppend(if n.tag == "w:p" then [n] else [], IterKids(n.kids, "w:p"), hit);
    if n.tag == "w:p" {
      assert [n][..0] == [];
    }
  }

  lemma {:induction false} QuietKidsIffUncounted(kids: seq<Node>, hit: Node -> bool)
    ensures (forall i :: 0 <= i < |kids| ==> Quiet(kids[i], hit)) <==> Matched(IterKids(kids, "w:p"), hit) == 0
    decreases kids
  {
    if kids != [] {
      var init := kids[..|kids| - 1];
      var last := kids[|kids| - 1];
      QuietKidsIffUncounted(init, hit);
      QuietIffUncounted(last, hit);
      MatchedAppend(IterKids(init, "w:p"), Iter(last, "w:p"), hit);
      assert forall i :: 0 <= i < |init| ==> init[i] == kids[i];
    }
  }

  lemma {:induction false} MatchedAppend(a: seq<Node>, b: seq<Node>, hit: Node -> bool)
    ensures Matched(a + b, hit) == Matched(a, hit) + Matched(b, hit)
    decreases |b|
  {
    if b == [] {
      assert a + b == a;
    } else {
      assert (a + b)[..|a + b| - 1] == a + b[..|b| - 1];
      MatchedAppend(a, b[..|b| - 1], hit);
    }
  }

  // ---------------------------------------------------------------------------
  // the inserter object

  /** The loop of `apply_tracked_replacement` over the paragraphs in
      document order: each one is handed to `apply_to_paragraph` and the
      replaced ones are counted. What a paragraph becomes depends only on
      its own children, so the rewritten tree is `Rewrite` of the original. */
  method ApplyToParagraphs(paras: seq<Node>, phrase: string, repl: string, author: string, stamp: string)
    returns (r: Result<nat, InsertError>)
    ensures r.Failure? <==> phrase == "" && |paras| > 0
    ensures r.Failure? ==> r.error == EmptyPhrase
    ensures r.Success? ==> r.value == Matched(paras, Matcher(phrase))
  {
    var count := 0;
    for i := 0 to |paras|
      invariant count == Matched(paras[..i], Matcher(phrase))
      invariant phrase == "" ==> i == 0
    {
      assert paras[..i + 1][..i] == paras[..i];
      var step := ApplyToParagraph(paras[i], phrase, repl, author, stamp);
      ApplyToParagraphMeaning(paras[i], phrase, repl, author, stamp);
      if step.Failure? {
        return Failure(EmptyPhrase);
      }
      if step.value.Replaced? {
        count := count + 1;
      }
    }
    assert paras[..|paras|] == paras;
    return Success(count);
  }

  class TrackedChangesInserter {
    /** The package file at the object's path. */
    var disk: Package
    const author: string
    /** The clock reading taken at construction. */
    const timestamp: string
    var docTree: Node
    /** The other entries as they were at construction. */
    var otherFiles: Package

    /** The object over a package whose document entry loads; `Open` is
        `__init__` with its raising cases. */
    constructor(disk: Package, author: string, timestamp: string)
      requires Load(disk).Success?
      ensures this.disk == disk && this.author == author && this.timestamp == timestamp
      ensures (docTree, otherFiles) == Load(disk).value
    {
      this.disk := disk;
      this.author := author;
      this.timestamp := timestamp;
      docTree := ViewOf(disk, DocumentName).root;
      otherFiles := Captured(disk);
    }

    method EnableTrackChanges() returns (r: Result<(), InsertError>)
      modifies this
      ensures r.Failure? <==> EnableSpec(old(disk)).Failure?
      ensures disk == (if r.Success? then EnableSpec(old(disk)).value else old(disk))
      ensures docTree == old(docTree) && otherFiles == old(otherFiles)
    {
      var spec := EnableSpec(disk);
      if spec.Failure? {
        return Failure(spec.error);
      }
      disk := spec.value;
      return Success(());
    }

    /** Rewrites every paragraph; the result is how many matched. A phrase
        that is empty raises at the first paragraph, before anything
        changes. */
    method ApplyTrackedReplacement(phrase: string, repl: string) returns (r: Result<nat, InsertError>)
      modifies this
      ensures r.Failure? <==> phrase == "" && |Iter(old(docTree), "w:p")| > 0
      ensures r.Failure? ==> docTree == old(docTree)
      ensures r.Success? ==> r.value == Matched(Iter(old(docTree), "w:p"), Matcher(phrase))
      ensures r.Success? ==> docTree == Rewrite(old(docTree), phrase, repl, author, timestamp)
      ensures disk == old(disk) && otherFiles == old(otherFiles)
    {
      r := ApplyToParagraphs(Iter(docTree, "w:p"), phrase, repl, author, timestamp);
      if r.Success? {
        docTree := Rewrite(docTree, phrase, repl, author, timestamp);
      }
    }

    /** `save`: writes the entries captured at construction and the current
        document; with no output path the package file is overwritten. */
    method Save(toOwnPath: bool) returns (written: Package)
      modifies this
      ensures written == Saved(otherFiles, docTree)
      ensures disk == (if toOwnPath then written else old(disk))
      ensures docTree == old(docTree) && otherFiles == old(otherFiles)
    {
      written := Saved(otherFiles, docTree);
      if toOwnPath {
        disk := written;
      }
    }

    /** `save` as evidently intended: the other entries are read from the
        package file when saving, so a settings change made after
        construction is kept. */
    method SaveCurrent(toOwnPath: bool) returns (written: Package)
      modifies this
      ensures written == Saved(Captured(old(disk)), docTree)
      ensures disk == (if toOwnPath then written else old(disk))
      ensures docTree == old(docTree) && otherFiles == old(otherFiles)
    {
      written := Saved(Captured(disk), docTree);
      if toOwnPath {
        disk := written;
      }
    }
  }

  // ---------------------------------------------------------------------------
  // tracking survives a save only when the save reads the current file

  /** `__init__`: the object, or the error loading the document raises. */
  method Open(disk: Package, author: string, timestamp: string) returns (r: Result<TrackedChangesInserter, InsertError>)
    ensures r.Failure? ==> Load(disk) == Failure(r.error)
    ensures r.Success? ==> Load(disk).Success? && fresh(r.value)
                           && r.value.disk == disk && r.value.author == author && r.value.timestamp == timestamp
                           && (r.value.docTree, r.value.otherFiles) == Load(disk).value
  {
    var loaded := Load(disk);
    if loaded.Failure? {
      return Failure(loaded.error);
    }
    var ins := new TrackedChangesInserter(disk, author, timestamp);
    return Success(ins);
  }

  /** Turning tracking on twice is turning it on once. */
  lemma EnableIdempotent(disk: Package)
    requires EnableSpec(disk).Success?
    ensures EnableSpec(EnableSpec(disk).value) == EnableSpec(disk)
  {
    var root := ViewOf(disk, SettingsName).root;
    var once := EnableSpec(disk).value;
    assert ViewOf(once, SettingsName) == Present(WithTracking(root));
    assert once[SettingsName := Xml(WithTracking(WithTracking(root)))] == once;
  }

  /** As written: the package is loaded from a file whose settings lack
      `trackRevisions`, tracking is turned on, and `save` then writes the
      settings captured at load over it. */
  lemma StaleSaveLosesTracking(disk: Package, doc: Node)
    requires ViewOf(disk, SettingsName).Present? && !HasChild(ViewOf(disk, SettingsName).root, "w:trackRevisions")
    ensures EnableSpec(disk).Success?
    ensures HasChild(ViewOf(EnableSpec(disk).value, SettingsName).root, "w:trackRevisions")
    ensures var saved := Saved(Captured(disk), doc);
      ViewOf(saved, SettingsName).Present? && !HasChild(ViewOf(saved, SettingsName).root, "w:trackRevisions")
  {
    var saved := Saved(Captured(disk), doc);
    assert SettingsName != DocumentName;
    assert saved[SettingsName] == disk[SettingsName];
  }

  /** Corrected: saving what the file holds now keeps tracking. */
  lemma CurrentSaveKeepsTracking(disk: Package, doc: Node)
    requires EnableSpec(disk).Success?
    ensures var saved := Saved(Captured(EnableSpec(disk).value), doc);
      ViewOf(saved, SettingsName).Present? && HasChild(ViewOf(saved, SettingsName).root, "w:trackRevisions")
  {
    var enabled := EnableSpec(disk).value;
    var saved := Saved(Captured(enabled), doc);
    assert SettingsName != DocumentName;
    assert saved[SettingsName] == enabled[SettingsName];
  }
}
