/** The colour-markup editor of app/src/JBGDocumentEditor.py: every
    paragraph named by a change is rebuilt as a list of segments, each plain,
    struck out (the old phrase) or inserted (the new phrase), and written back
    as one run per segment, struck-out text red with strike-through and
    inserted text green. */
module MarkupEditor {
  import opened Wrappers
  import opened Text
  import opened WordDoc

  /** The three kinds of segment of `_edit_docx`: "text", "strike", "insert". */
  datatype Kind = Unstyled | Struck | Inserted

  datatype Segment = Segment(kind: Kind, text: string)

  // ---------------------------------------------------------------------------
  // what a reader sees

  /** The texts of the segments, in order, leaving out those of kind `hidden`. */
  function View(segs: seq<Segment>, hidden: Kind): string {
    if segs == [] then []
    else View(segs[..|segs| - 1], hidden)
         + (if segs[|segs| - 1].kind == hidden then [] else segs[|segs| - 1].text)
  }

  /** The paragraph before the edits: plain and struck-out text. */
  function OriginalView(segs: seq<Segment>): string {
    View(segs, Inserted)
  }

  /** The paragraph after the edits: plain and inserted text. */
  function UpdatedView(segs: seq<Segment>): string {
    View(segs, Struck)
  }

  lemma {:induction false} ViewAppend(a: seq<Segment>, b: seq<Segment>, hidden: Kind)
    ensures View(a + b, hidden) == View(a, hidden) + View(b, hidden)
    decreases |b|
  {
    if b == [] {
      assert a + b == a;
    } else {
      var init := b[..|b| - 1];
      assert (a + b)[..|a + b| - 1] == a + init;
      ViewAppend(a, init, hidden);
    }
  }

  lemma ViewSingle(s: Segment, hidden: Kind)
    ensures View([s], hidden) == if s.kind == hidden then [] else s.text
  {
    assert [s][..0] == [];
  }

  // ---------------------------------------------------------------------------
  // one change applied to one segment list

  /** The guard at line 82: the normalised old phrase occurs in the
      normalised text of the segment. */
  predicate Hits(t: string, phrase: string) {
    Contains(Normalize(t), Normalize(phrase))
  }

  /** What the split loop emits for pieces `0 .. i - 1` of `parts`. */
  function Emitted(parts: seq<string>, phrase: string, repl: string, i: nat): seq<Segment>
    requires i <= |parts|
  {
    if i == 0 then [] else Emitted(parts, phrase, repl, i - 1) + Piece(parts, phrase, repl, i - 1)
  }

  /** Piece `j` of the split, dropped when empty, followed by the struck old
      phrase and the inserted new phrase unless it is the last piece. */
  function Piece(parts: seq<string>, phrase: string, repl: string, j: nat): seq<Segment>
    requires j < |parts|
  {
    (if parts[j] != [] then [Segment(Unstyled, parts[j])] else [])
    + (if j < |parts| - 1 then [Segment(Struck, phrase), Segment(Inserted, repl)] else [])
  }

  /** The inner loop body: a plain segment hit by the change is replaced by
      the pieces of `re.split(re.escape(old), text)` with a struck/inserted
      pair between neighbours; any other segment is kept. */
  function StepSegment(seg: Segment, phrase: string, repl: string): seq<Segment> {
    if seg.kind != Unstyled || !Hits(seg.text, phrase) then [seg]
    else
      var parts := SplitOn(seg.text, phrase);
      Emitted(parts, phrase, repl, |parts|)
  }

  /** `rebuilt` after one change: each segment replaced by its step. Struck
      and inserted segments of earlier changes are kept. */
  function ApplyChange(segs: seq<Segment>, phrase: string, repl: string): (r: seq<Segment>)
    ensures forall s :: s in segs && s.kind != Unstyled ==> s in r
  {
    if segs == [] then []
    else ApplyChange(segs[..|segs| - 1], phrase, repl) + StepSegment(segs[|segs| - 1], phrase, repl)
  }

  /** The updated text one change should give, segment by segment: a plain
      segment hit by the change gets every literal occurrence of the old
      phrase replaced, other plain and inserted text stays, struck text is
      not shown. */
  function Replaced(segs: seq<Segment>, phrase: string, repl: string): string {
    if segs == [] then []
    else
      var s := segs[|segs| - 1];
      Replaced(segs[..|segs| - 1], phrase, repl)
      + match s.kind
        case Unstyled => if Hits(s.text, phrase) then ReplaceAll(s.text, phrase, repl) else s.text
        case Inserted => s.text
        case Struck => []
  }

  /** The loop of lines 88-93 over the pieces of one split segment. */
  method EmitPieces(parts: seq<string>, phrase: string, repl: string) returns (out: seq<Segment>)
    ensures out == Emitted(parts, phrase, repl, |parts|)
  {
    out := [];
    var i := 0;
    while i < |parts|
      invariant 0 <= i <= |parts|
      invariant out == Emitted(parts, phrase, repl, i)
    {
      if parts[i] != [] {
        out := out + [Segment(Unstyled, parts[i])];
      }
      if i < |parts| - 1 {
        out := out + [Segment(Struck, phrase), Segment(Inserted, repl)];
      }
      i := i + 1;
    }
  }

  /** `rebuilt` after one change, built by the loop of lines 74-93. */
  method RebuildSegments(rebuilt: seq<Segment>, phrase: string, repl: string) returns (out: seq<Segment>)
    ensures out == ApplyChange(rebuilt, phrase, repl)
  {
    var normOld := Normalize(phrase);
    out := [];
    var k := 0;
    while k < |rebuilt|
      invariant 0 <= k <= |rebuilt|
      invariant out == ApplyChange(rebuilt[..k], phrase, repl)
    {
      var seg := rebuilt[k];
      assert ApplyChange(rebuilt[..k + 1], phrase, repl)
             == ApplyChange(rebuilt[..k], phrase, repl) + StepSegment(seg, phrase, repl) by {
        assert rebuilt[..k + 1][..k] == rebuilt[..k];
      }
      if seg.kind != Unstyled || !Contains(Normalize(seg.text), normOld) {
        out := out + [seg];
      } else {
        var pieces := EmitPieces(SplitOn(seg.text, phrase), phrase, repl);
        out := out + pieces;
      }
      k := k + 1;
    }
    assert rebuilt[..k] == rebuilt;
  }

  // ---------------------------------------------------------------------------
  // the round trip

  lemma {:induction false} JoinSnoc(ps: seq<string>, p: string, sep: string)
    requires ps != []
    ensures Join(ps + [p], sep) == Join(ps, sep) + sep + p
    decreases |ps|
  {
    if |ps| == 1 {
      assert (ps + [p])[1..] == [p];
    } else {
      assert (ps + [p])[1..] == ps[1..] + [p];
      JoinSnoc(ps[1..], p, sep);
    }
  }

  lemma PieceView(parts: seq<string>, phrase: string, repl: string, j: nat, hidden: Kind)
    requires j < |parts| && hidden != Unstyled
    ensures View(Piece(parts, phrase, repl, j), hidden)
            == parts[j] + (if j < |parts| - 1 then (if hidden == Inserted then phrase else repl) else [])
  {
    var head: seq<Segment> := if parts[j] != [] then [Segment(Unstyled, parts[j])] else [];
    var pair := [Segment(Struck, phrase), Segment(Inserted, repl)];
    assert View(head, hidden) == parts[j] by {
      if parts[j] != [] {
        ViewSingle(Segment(Unstyled, parts[j]), hidden);
      }
    }
    assert View(pair, hidden) == (if hidden == Inserted then phrase else repl) by {
      assert pair == [Segment(Struck, phrase)] + [Segment(Inserted, repl)];
      ViewAppend([Segment(Struck, phrase)], [Segment(Inserted, repl)], hidden);
      ViewSingle(Segment(Struck, phrase), hidden);
      ViewSingle(Segment(Inserted, repl), hidden);
    }
    if j < |parts| - 1 {
      ViewAppend(head, pair, hidden);
    } else {
      assert Piece(parts, phrase, repl, j) == head + [];
    }
  }

  /** Plain and struck text of the emitted segments spell the pieces joined
      by the old phrase; plain and inserted text, joined by the new one. */
  lemma {:induction false} EmittedView(parts: seq<string>, phrase: string, repl: string, i: nat, hidden: Kind)
    requires 1 <= i <= |parts| && hidden != Unstyled
    ensures var sep := if hidden == Inserted then phrase else repl;
            View(Emitted(parts, phrase, repl, i), hidden)
            == Join(parts[..i], sep) + (if i < |parts| then sep else [])
    decreases i
  {
    var sep := if hidden == Inserted then phrase else repl;
    var prev := Emitted(parts, phrase, repl, i - 1);
    var piece := Piece(parts, phrase, repl, i - 1);
    var tail: string := if i < |parts| then sep else [];
    assert Emitted(parts, phrase, repl, i) == prev + piece;
    ViewAppend(prev, piece, hidden);
    PieceView(parts, phrase, repl, i - 1, hidden);
    assert View(piece, hidden) == parts[i - 1] + tail;
    if i == 1 {
      assert View(prev, hidden) == [];
      assert parts[..1] == [parts[0]];
      assert Join(parts[..1], sep) == parts[0];
    } else {
      EmittedView(parts, phrase, repl, i - 1, hidden);
      assert View(prev, hidden) == Join(parts[..i - 1], sep) + sep;
      assert parts[..i] == parts[..i - 1] + [parts[i - 1]];
      JoinSnoc(parts[..i - 1], parts[i - 1], sep);
      ConcatRegroup(Join(parts[..i - 1], sep), sep, parts[i - 1], tail, Join(parts[..i], sep));
    }
  }

  lemma ConcatRegroup(front: string, sep: string, p: string, tail: string, joined: string)
    requires joined == front + sep + p
    ensures (front + sep) + (p + tail) == joined + tail
  {
  }

  lemma StepView(seg: Segment, phrase: string, repl: string)
    ensures OriginalView(StepSegment(seg, phrase, repl)) == OriginalView([seg])
    ensures UpdatedView(StepSegment(seg, phrase, repl))
            == if seg.kind == Unstyled && Hits(seg.text, phrase) then ReplaceAll(seg.text, phrase, repl)
               else UpdatedView([seg])
  {
    if seg.kind == Unstyled && Hits(seg.text, phrase) {
      var parts := SplitOn(seg.text, phrase);
      assert parts[..|parts|] == parts;
      EmittedView(parts, phrase, repl, |parts|, Inserted);
      EmittedView(parts, phrase, repl, |parts|, Struck);
      SplitJoinRoundTrip(seg.text, phrase);
      SplitJoinIsReplace(seg.text, phrase, repl);
      ViewSingle(seg, Inserted);
    }
  }

  /** Whatever the change, plain and struck text still spell the paragraph
      before it, and plain and inserted text spell the literal replacement
      in every plain segment the change hit. */
  lemma {:induction false} ApplyChangeViews(segs: seq<Segment>, phrase: string, repl: string)
    ensures OriginalView(ApplyChange(segs, phrase, repl)) == OriginalView(segs)
    ensures UpdatedView(ApplyChange(segs, phrase, repl)) == Replaced(segs, phrase, repl)
    decreases |segs|
  {
    if segs != [] {
      var init := segs[..|segs| - 1];
      var s := segs[|segs| - 1];
      ApplyChangeViews(init, phrase, repl);
      StepView(s, phrase, repl);
      ViewSingle(s, Inserted);
      ViewSingle(s, Struck);
      ViewAppend(ApplyChange(init, phrase, repl), StepSegment(s, phrase, repl), Inserted);
      ViewAppend(ApplyChange(init, phrase, repl), StepSegment(s, phrase, repl), Struck);
    }
  }

  /** A whole paragraph hit by one change reads, after it, as its text with
      every literal occurrence of the old phrase replaced. */
  lemma SingleChangeIsReplace(t: string, phrase: string, repl: string)
    ensures var segs := ApplyChange([Segment(Unstyled, t)], phrase, repl);
            OriginalView(segs) == t
            && UpdatedView(segs) == if Hits(t, phrase) then ReplaceAll(t, phrase, repl) else t
  {
    var one := [Segment(Unstyled, t)];
    ApplyChangeViews(one, phrase, repl);
    ViewSingle(Segment(Unstyled, t), Inserted);
    assert one[..0] == [];
  }

  // ---------------------------------------------------------------------------
  // one paragraph

  /** `rebuilt` after the applicable changes, in list order, starting from
      the paragraph text as one plain segment; `change["old"]` and then
      `change["new"]` raise when the key is missing. */
  function Rebuild(text: string, apps: seq<Change>): Result<seq<Segment>, EditError> {
    if apps == [] then Success([Segment(Unstyled, text)])
    else
      match Rebuild(text, apps[..|apps| - 1])
      case Failure(e) => Failure(e)
      case Success(segs) =>
        var c := apps[|apps| - 1];
        if !c.Change? || c.oldText.None? then Failure(MissingKey("old"))
        else if c.newText.None? then Failure(MissingKey("new"))
        else Success(ApplyChange(segs, c.oldText.value, c.newText.value))
  }

  /** The loop of lines 70-98 over the applicable changes of one paragraph. */
  method RebuildParagraph(text: string, apps: seq<Change>, idx: int, applied: set<(int, string)>)
    returns (r: Result<seq<Segment>, EditError>, keys: set<(int, string)>)
    ensures r == Rebuild(text, apps)
    ensures r.Success? ==> keys == applied + KeysOf(apps, idx)
  {
    var rebuilt := [Segment(Unstyled, text)];
    keys := applied;
    var i := 0;
    while i < |apps|
      invariant 0 <= i <= |apps|
      invariant Rebuild(text, apps[..i]) == Success(rebuilt)
      invariant keys == applied + KeysOf(apps[..i], idx)
    {
      var c := apps[i];
      RebuildStep(text, apps, i, rebuilt, idx);
      if !c.Change? || c.oldText.None? {
        RebuildStopsAtError(text, apps[..i + 1], apps[i + 1..]);
        assert apps[..i + 1] + apps[i + 1..] == apps;
        return Failure(MissingKey("old")), keys;
      }
      if c.newText.None? {
        RebuildStopsAtError(text, apps[..i + 1], apps[i + 1..]);
        assert apps[..i + 1] + apps[i + 1..] == apps;
        return Failure(MissingKey("new")), keys;
      }
      rebuilt := RebuildSegments(rebuilt, c.oldText.value, c.newText.value);
      keys := keys + {(idx, c.oldText.value)};
      i := i + 1;
    }
    assert apps[..i] == apps;
    return Success(rebuilt), keys;
  }

  /** One more change of the loop of lines 70-98. */
  lemma RebuildStep(text: string, apps: seq<Change>, i: nat, rebuilt: seq<Segment>, idx: int)
    requires i < |apps| && Rebuild(text, apps[..i]) == Success(rebuilt)
    ensures (!apps[i].Change? || apps[i].oldText.None?) ==> Rebuild(text, apps[..i + 1]) == Failure(MissingKey("old"))
    ensures (apps[i].Change? && apps[i].oldText.Some? && apps[i].newText.None?) ==>
              Rebuild(text, apps[..i + 1]) == Failure(MissingKey("new"))
    ensures (apps[i].Change? && apps[i].oldText.Some? && apps[i].newText.Some?) ==>
              Rebuild(text, apps[..i + 1]) == Success(ApplyChange(rebuilt, apps[i].oldText.value, apps[i].newText.value))
              && KeysOf(apps[..i + 1], idx) == KeysOf(apps[..i], idx) + {(idx, apps[i].oldText.value)}
  {
    assert apps[..i + 1][..i] == apps[..i];
  }

  lemma {:induction false} RebuildStopsAtError(text: string, apps: seq<Change>, rest: seq<Change>)
    ensures Rebuild(text, apps).Failure? ==> Rebuild(text, apps + rest) == Rebuild(text, apps)
    decreases |rest|
  {
    if rest == [] {
      assert apps + rest == apps;
    } else {
      RebuildStopsAtError(text, apps, rest[..|rest| - 1]);
      assert (apps + rest)[..|apps + rest| - 1] == apps + rest[..|rest| - 1];
    }
  }

  /** Whatever the changes, plain and struck text of the rebuilt paragraph
      spell its text before the edits. */
  lemma {:induction false} RebuildKeepsOriginal(text: string, apps: seq<Change>)
    ensures var r := Rebuild(text, apps);
            r.Success? ==> OriginalView(r.value) == text
    decreases |apps|
  {
    if apps == [] {
      ViewSingle(Segment(Unstyled, text), Inserted);
    } else {
      var c := apps[|apps| - 1];
      RebuildKeepsOriginal(text, apps[..|apps| - 1]);
      var prev := Rebuild(text, apps[..|apps| - 1]);
      if prev.Success? && c.Change? && c.oldText.Some? && c.newText.Some? {
        ApplyChangeViews(prev.value, c.oldText.value, c.newText.value);
      }
    }
  }

  /** The run formatting of each segment kind (lines 105-111). */
  function StyleOf(k: Kind): Format {
    match k
    case Unstyled => Plain
    case Struck => StrikeFormat
    case Inserted => InsertFormat
  }

  /** One run per segment, in order, formatted by kind. */
  function Styled(segs: seq<Segment>): (runs: seq<Run>)
    ensures |runs| == |segs|
    ensures forall i :: 0 <= i < |segs| ==> runs[i] == Run(segs[i].text, StyleOf(segs[i].kind))
  {
    if segs == [] then []
    else Styled(segs[..|segs| - 1]) + [Run(segs[|segs| - 1].text, StyleOf(segs[|segs| - 1].kind))]
  }

  /** Lines 100-111: the paragraph's runs all removed, then one run added
      per segment. */
  method StyleRuns(para: Paragraph, segs: seq<Segment>) returns (p: Paragraph)
    ensures p == Paragraph(Styled(segs))
  {
    p := para;
    var n := |p.runs|;
    while n > 0
      invariant 0 <= n <= |p.runs|
      invariant p.runs == para.runs[|para.runs| - n..]
    {
      p := Paragraph(p.runs[1..]);
      n := n - 1;
    }
    var i := 0;
    while i < |segs|
      invariant 0 <= i <= |segs|
      invariant p == Paragraph(Styled(segs[..i]))
    {
      assert segs[..i + 1][..i] == segs[..i];
      p := Paragraph(p.runs + [Run(segs[i].text, StyleOf(segs[i].kind))]);
      i := i + 1;
    }
    assert segs[..i] == segs;
  }

  /** The text of the runs not coloured `c`, in order. */
  function TextWithout(runs: seq<Run>, c: Rgb): string {
    if runs == [] then []
    else TextWithout(runs[..|runs| - 1], c)
         + (if runs[|runs| - 1].format.color == Some(c) then [] else runs[|runs| - 1].text)
  }

  /** Reading the styled runs without the green ones gives the original
      view; without the red ones, the updated view. */
  lemma {:induction false} StyledShowsViews(segs: seq<Segment>)
    ensures TextWithout(Styled(segs), Green) == OriginalView(segs)
    ensures TextWithout(Styled(segs), Red) == UpdatedView(segs)
    decreases |segs|
  {
    if segs != [] {
      var init := segs[..|segs| - 1];
      StyledShowsViews(init);
      assert Styled(segs)[..|segs| - 1] == Styled(init);
    }
  }

  // ---------------------------------------------------------------------------
  // `_apply_to_empty_paragraphs`

  /** A change that fills paragraph `idx`: an object naming it, with an
      empty or missing "old" and a non-empty "new". */
  predicate Fills(c: Change, idx: int) {
    About(c, idx) && c.oldText.GetOr("") == ""
    && c.newText.Some? && c.newText.value != ""
  }

  /** The "new" text of the last change filling paragraph `idx`. */
  function FillValue(changes: seq<Change>, idx: int): Option<string> {
    if changes == [] then None
    else if Fills(changes[|changes| - 1], idx) then Some(changes[|changes| - 1].newText.value)
    else FillValue(changes[..|changes| - 1], idx)
  }

  /** The last filling change wins: the fill value is the "new" text of a
      filling change with no filling change after it, and there is none
      exactly when no change fills the paragraph. */
  lemma {:induction false} FillLastWins(changes: seq<Change>, idx: int)
    ensures FillValue(changes, idx).None? <==> forall j :: 0 <= j < |changes| ==> !Fills(changes[j], idx)
    ensures FillValue(changes, idx).Some? ==>
              exists j :: 0 <= j < |changes| && Fills(changes[j], idx)
                          && FillValue(changes, idx).value == changes[j].newText.value
                          && forall k :: j < k < |changes| ==> !Fills(changes[k], idx)
    decreases |changes|
  {
    if changes != [] {
      var init := changes[..|changes| - 1];
      FillLastWins(init, idx);
      if !Fills(changes[|changes| - 1], idx) {
        if FillValue(init, idx).Some? {
          var j :| 0 <= j < |init| && Fills(init[j], idx)
                   && FillValue(init, idx).value == init[j].newText.value
                   && forall k :: j < k < |init| ==> !Fills(init[k], idx);
          assert changes[j] == init[j];
        }
      }
    }
  }

  /** One paragraph after `_apply_to_empty_paragraphs`: a whitespace-only
      paragraph takes the last fill value. */
  function FillPara(para: Paragraph, idx: int, changes: seq<Change>): Paragraph {
    if !Blank(para) then para
    else match FillValue(changes, idx)
      case None => para
      case Some(t) => SetText(t)
  }

  /** The document after `_apply_to_empty_paragraphs`, paragraph `i`
      numbered `i + 1`. */
  function Filled(paras: seq<Paragraph>, changes: seq<Change>): seq<Paragraph> {
    seq(|paras|, i requires 0 <= i < |paras| => FillPara(paras[i], i + 1, changes))
  }

  /** Lines 139-155: every whitespace-only paragraph is set to the "new"
      text of each change filling it, in list order; entries that are not
      objects are skipped. */
  method FillEmpty(paras: seq<Paragraph>, changes: seq<Change>) returns (out: seq<Paragraph>)
    ensures out == Filled(paras, changes)
  {
    out := paras;
    var idx := 0;
    while idx < |paras|
      invariant 0 <= idx <= |paras| && |out| == |paras|
      invariant forall i :: 0 <= i < idx ==> out[i] == FillPara(paras[i], i + 1, changes)
      invariant forall i :: idx <= i < |paras| ==> out[i] == paras[i]
    {
      var para := paras[idx];
      if Blank(para) {
        para := FillOne(para, idx + 1, changes);
      }
      out := out[idx := para];
      idx := idx + 1;
    }
  }

  /** The inner loop of lines 145-155 for one whitespace-only paragraph. */
  method FillOne(para: Paragraph, idx: int, changes: seq<Change>) returns (p: Paragraph)
    requires Blank(para)
    ensures p == FillPara(para, idx, changes)
  {
    p := para;
    var j := 0;
    while j < |changes|
      invariant 0 <= j <= |changes|
      invariant p == match FillValue(changes[..j], idx) case None => para case Some(t) => SetText(t)
    {
      assert changes[..j + 1][..j] == changes[..j];
      var c := changes[j];
      if !c.Change? {
        // skipped: not a dict
      } else if About(c, idx) && c.oldText.GetOr("") == "" && c.newText.Some? && c.newText.value != "" {
        p := SetText(c.newText.value);
      }
      j := j + 1;
    }
    assert changes[..j] == changes;
  }

  // ---------------------------------------------------------------------------
  // `_edit_docx`

  /** Line 63: the changes naming paragraph `idx`, in list order. `c.get`
      raises on an entry that is not an object. */
  function Applicable(changes: seq<Change>, idx: int): Result<seq<Change>, EditError> {
    if changes == [] then Success([])
    else
      match Applicable(changes[..|changes| - 1], idx)
      case Failure(e) => Failure(e)
      case Success(apps) =>
        var c := changes[|changes| - 1];
        if !c.Change? then Failure(NotAnObjectError)
        else if About(c, idx) then Success(apps + [c])
        else Success(apps)
  }

  lemma {:induction false} ApplicableSpec(changes: seq<Change>, idx: int)
    ensures Applicable(changes, idx).Failure? <==> exists j :: 0 <= j < |changes| && !changes[j].Change?
    ensures var r := Applicable(changes, idx);
            r.Success? ==> forall c :: c in r.value <==> c in changes && About(c, idx)
    decreases |changes|
  {
    if changes != [] {
      var init := changes[..|changes| - 1];
      ApplicableSpec(init, idx);
      assert changes == init + [changes[|changes| - 1]];
      if Applicable(changes, idx).Failure? && Applicable(init, idx).Failure? {
        var j :| 0 <= j < |init| && !init[j].Change?;
        assert changes[j] == init[j];
      }
    }
  }

  method ApplicableChanges(changes: seq<Change>, idx: int) returns (r: Result<seq<Change>, EditError>)
    ensures r == Applicable(changes, idx)
  {
    var apps: seq<Change> := [];
    var i := 0;
    while i < |changes|
      invariant 0 <= i <= |changes|
      invariant Applicable(changes[..i], idx) == Success(apps)
    {
      assert changes[..i + 1][..i] == changes[..i];
      var c := changes[i];
      if !c.Change? {
        ApplicableStopsAtError(changes[..i + 1], changes[i + 1..], idx);
        assert changes[..i + 1] + changes[i + 1..] == changes;
        return Failure(NotAnObjectError);
      }
      if About(c, idx) {
        apps := apps + [c];
      }
      i := i + 1;
    }
    assert changes[..i] == changes;
    return Success(apps);
  }

  lemma {:induction false} ApplicableStopsAtError(changes: seq<Change>, rest: seq<Change>, idx: int)
    ensures Applicable(changes, idx).Failure? ==> Applicable(changes + rest, idx) == Applicable(changes, idx)
    decreases |rest|
  {
    if rest == [] {
      assert changes + rest == changes;
    } else {
      ApplicableStopsAtError(changes, rest[..|rest| - 1], idx);
      assert (changes + rest)[..|changes + rest| - 1] == changes + rest[..|rest| - 1];
    }
  }

  /** Line 98: the keys `(idx, old)` recorded for the applicable changes. */
  function KeysOf(apps: seq<Change>, idx: int): set<(int, string)> {
    if apps == [] then {}
    else
      var c := apps[|apps| - 1];
      KeysOf(apps[..|apps| - 1], idx)
      + (if c.Change? && c.oldText.Some? then {(idx, c.oldText.value)} else {})
  }

  lemma {:induction false} KeysOfHas(apps: seq<Change>, idx: int)
    ensures forall c :: c in apps && c.Change? && c.oldText.Some? ==> (idx, c.oldText.value) in KeysOf(apps, idx)
    decreases |apps|
  {
    if apps != [] {
      KeysOfHas(apps[..|apps| - 1], idx);
      assert apps == apps[..|apps| - 1] + [apps[|apps| - 1]];
    }
  }

  /** One paragraph of the main loop: untouched without applicable
      changes, otherwise rebuilt and restyled; with the keys it records. */
  function EditOne(para: Paragraph, idx: int, changes: seq<Change>): Result<(Paragraph, set<(int, string)>), EditError> {
    match Applicable(changes, idx)
    case Failure(e) => Failure(e)
    case Success(apps) =>
      if apps == [] then Success((para, {}))
      else
        match Rebuild(ParaText(para), apps)
        case Failure(e) => Failure(e)
        case Success(segs) => Success((Paragraph(Styled(segs)), KeysOf(apps, idx)))
  }

  /** The main loop over the first `k` paragraphs. */
  function EditParas(paras: seq<Paragraph>, changes: seq<Change>, k: nat): Result<(seq<Paragraph>, set<(int, string)>), EditError>
    requires k <= |paras|
  {
    if k == 0 then Success(([], {}))
    else
      match EditParas(paras, changes, k - 1)
      case Failure(e) => Failure(e)
      case Success((done, applied)) =>
        match EditOne(paras[k - 1], k, changes)
        case Failure(e) => Failure(e)
        case Success((p, keys)) => Success((done + [p], applied + keys))
  }

  /** Line 117: the key `(paragraph, old)` of a change object is among the
      recorded ones; only a number can equal a recorded paragraph. */
  predicate Settled(c: Change, applied: set<(int, string)>)
    requires c.Change?
  {
    c.paragraph.Some? && c.paragraph.value.Number? && c.oldText.Some?
    && (c.paragraph.value.n, c.oldText.value) in applied
  }

  /** Lines 115-118, for the first `changes`: a change whose key was not
      recorded gets the "No match" notice; reading `change['old']` and then
      `change['paragraph']` for it raises when the key is missing. */
  function NoMatchSpec(changes: seq<Change>, applied: set<(int, string)>): Result<seq<Notice>, EditError> {
    if changes == [] then Success([])
    else
      match NoMatchSpec(changes[..|changes| - 1], applied)
      case Failure(e) => Failure(e)
      case Success(ns) =>
        var c := changes[|changes| - 1];
        if !c.Change? then Failure(NotAnObjectError)
        else if Settled(c, applied) then Success(ns)
        else if c.oldText.None? then Failure(MissingKey("old"))
        else if c.paragraph.None? then Failure(MissingKey("paragraph"))
        else Success(ns + [NoMatch(c.oldText.value, c.paragraph.value)])
  }

  /** `_edit_docx` as a whole: the edited paragraphs and the notices it
      prints, or the exception it raises. */
  function EditSpec(paras: seq<Paragraph>, changes: seq<Change>): Result<(seq<Paragraph>, seq<Notice>), EditError> {
    var filled := Filled(paras, changes);
    match EditParas(filled, changes, |filled|)
    case Failure(e) => Failure(e)
    case Success((edited, applied)) =>
      match SuggestSpec(Texts(edited), changes)
      case Failure(e) => Failure(e)
      case Success(near) =>
        match NoMatchSpec(changes, applied)
        case Failure(e) => Failure(e)
        case Success(missed) => Success((edited, near + missed))
  }

  method ReportUnmatched(changes: seq<Change>, applied: set<(int, string)>) returns (r: Result<seq<Notice>, EditError>)
    ensures r == NoMatchSpec(changes, applied)
  {
    var notices: seq<Notice> := [];
    var i := 0;
    while i < |changes|
      invariant 0 <= i <= |changes|
      invariant NoMatchSpec(changes[..i], applied) == Success(notices)
    {
      assert changes[..i + 1][..i] == changes[..i];
      var c := changes[i];
      var e: EditError := NotAnObjectError;
      if !c.Change? {
        e := NotAnObjectError;
      } else if Settled(c, applied) {
        i := i + 1;
        continue;
      } else if c.oldText.None? {
        e := MissingKey("old");
      } else if c.paragraph.None? {
        e := MissingKey("paragraph");
      } else {
        notices := notices + [NoMatch(c.oldText.value, c.paragraph.value)];
        i := i + 1;
        continue;
      }
      NoMatchStopsAtError(changes[..i + 1], changes[i + 1..], applied);
      assert changes[..i + 1] + changes[i + 1..] == changes;
      return Failure(e);
    }
    assert changes[..i] == changes;
    return Success(notices);
  }

  lemma {:induction false} NoMatchStopsAtError(changes: seq<Change>, rest: seq<Change>, applied: set<(int, string)>)
    ensures NoMatchSpec(changes, applied).Failure? ==> NoMatchSpec(changes + rest, applied) == NoMatchSpec(changes, applied)
    decreases |rest|
  {
    if rest == [] {
      assert changes + rest == changes;
    } else {
      NoMatchStopsAtError(changes, rest[..|rest| - 1], applied);
      assert (changes + rest)[..|changes + rest| - 1] == changes + rest[..|rest| - 1];
    }
  }

  /** One iteration of the loop of lines 58-111: the paragraph as it is
      left and the keys the iteration adds to `applied_changes`. */
  method EditParagraph(para: Paragraph, idx: int, changes: seq<Change>)
    returns (r: Result<(Paragraph, set<(int, string)>), EditError>)
    ensures r == EditOne(para, idx, changes)
  {
    var apps := ApplicableChanges(changes, idx);
    if apps.Failure? {
      return Failure(apps.error);
    }
    if apps.value == [] {
      return Success((para, {}));
    }
    var rebuilt, keys := RebuildParagraph(ParaText(para), apps.value, idx, {});
    if rebuilt.Failure? {
      return Failure(rebuilt.error);
    }
    var styled := StyleRuns(para, rebuilt.value);
    assert keys == KeysOf(apps.value, idx);
    return Success((styled, keys));
  }

  /** The loop of lines 58-111 over all paragraphs. */
  method EditParagraphs(paras: seq<Paragraph>, changes: seq<Change>)
    returns (r: Result<(seq<Paragraph>, set<(int, string)>), EditError>)
    ensures r == EditParas(paras, changes, |paras|)
  {
    var applied: set<(int, string)> := {};
    var edited: seq<Paragraph> := [];
    var k := 0;
    while k < |paras|
      invariant 0 <= k <= |paras|
      invariant EditParas(paras, changes, k) == Success((edited, applied))
    {
      var p := EditParagraph(paras[k], k + 1, changes);
      if p.Failure? {
        EditParasStopsAtError(paras, changes, k + 1, |paras|);
        return Failure(p.error);
      }
      EditParasStep(paras, changes, k, edited, applied, p.value);
      edited := edited + [p.value.0];
      applied := applied + p.value.1;
      k := k + 1;
    }
    return Success((edited, applied));
  }

  lemma EditParasStep(paras: seq<Paragraph>, changes: seq<Change>, k: nat,
                      edited: seq<Paragraph>, applied: set<(int, string)>, one: (Paragraph, set<(int, string)>))
    requires k < |paras| && EditParas(paras, changes, k) == Success((edited, applied))
    requires EditOne(paras[k], k + 1, changes) == Success(one)
    ensures EditParas(paras, changes, k + 1) == Success((edited + [one.0], applied + one.1))
  {
  }

  /** `_edit_docx` (lines 51-120) on the paragraphs of a document. */
  method EditDocx(paras: seq<Paragraph>, changes: seq<Change>) returns (r: Result<(seq<Paragraph>, seq<Notice>), EditError>)
    ensures r == EditSpec(paras, changes)
  {
    var filled := FillEmpty(paras, changes);
    var done := EditParagraphs(filled, changes);
    if done.Failure? {
      return Failure(done.error);
    }
    var (edited, applied) := done.value;
    var near := SuggestNearby(Texts(edited), changes);
    if near.Failure? {
      return Failure(near.error);
    }
    var missed := ReportUnmatched(changes, applied);
    if missed.Failure? {
      return Failure(missed.error);
    }
    return Success((edited, near.value + missed.value));
  }

  lemma {:induction false} EditParasStopsAtError(paras: seq<Paragraph>, changes: seq<Change>, k: nat, m: nat)
    requires k <= m <= |paras|
    ensures EditParas(paras, changes, k).Failure? ==> EditParas(paras, changes, m) == EditParas(paras, changes, k)
    decreases m - k
  {
    if k < m {
      EditParasStopsAtError(paras, changes, k, m - 1);
    }
  }

  // ---------------------------------------------------------------------------
  // properties of `_edit_docx`

  /** Every object change naming one of paragraphs `1 .. k` has its key
      in `applied`. */
  predicate Recorded(changes: seq<Change>, applied: set<(int, string)>, k: int) {
    forall c :: c in changes && c.Change? && c.paragraph.Some? && c.paragraph.value.Number?
                && 1 <= c.paragraph.value.n <= k && c.oldText.Some?
                ==> (c.paragraph.value.n, c.oldText.value) in applied
  }

  lemma EditOneRecords(para: Paragraph, idx: int, changes: seq<Change>)
    ensures var r := EditOne(para, idx, changes);
            r.Success? ==>
              forall c :: c in changes && About(c, idx) && c.oldText.Some?
                          ==> (idx, c.oldText.value) in r.value.1
  {
    ApplicableSpec(changes, idx);
    var apps := Applicable(changes, idx);
    if apps.Success? {
      KeysOfHas(apps.value, idx);
    }
  }

  /** Every object change naming a visited paragraph has its key recorded,
      whether or not its old phrase was found. */
  lemma {:induction false} EditParasRecords(paras: seq<Paragraph>, changes: seq<Change>, k: nat)
    requires k <= |paras|
    ensures var r := EditParas(paras, changes, k);
            r.Success? ==> |r.value.0| == k && Recorded(changes, r.value.1, k)
    decreases k
  {
    if k > 0 {
      EditParasRecords(paras, changes, k - 1);
      EditOneRecords(paras[k - 1], k, changes);
    }
  }

  lemma {:induction false} NoMatchNames(changes: seq<Change>, applied: set<(int, string)>)
    ensures var r := NoMatchSpec(changes, applied);
            r.Success? ==>
              forall x :: x in r.value ==>
                x.NoMatch? && !(x.named.Number? && (x.named.n, x.oldText) in applied)
                && exists c :: c in changes && c.Change? && c.paragraph == Some(x.named) && c.oldText == Some(x.oldText)
    decreases |changes|
  {
    if changes != [] {
      var init := changes[..|changes| - 1];
      NoMatchNames(init, applied);
      assert changes == init + [changes[|changes| - 1]];
    }
  }

  lemma {:induction false} SuggestOnlyNearby(texts: seq<string>, changes: seq<Change>)
    ensures var r := SuggestSpec(texts, changes);
            r.Success? ==> forall x :: x in r.value ==> !x.NoMatch?
    decreases |changes|
  {
    if changes != [] {
      SuggestOnlyNearby(texts, changes[..|changes| - 1]);
    }
  }

  /** Every change naming a paragraph of the document is recorded as
      applied, so a "No match" notice only ever names a paragraph number
      outside the document. */
  lemma NoMatchOnlyUnvisited(paras: seq<Paragraph>, changes: seq<Change>)
    ensures var r := EditSpec(paras, changes);
            r.Success? ==> forall x :: x in r.value.1 && x.NoMatch? ==> x.named.Number? && !(1 <= x.named.n <= |paras|)
  {
    var filled := Filled(paras, changes);
    EditParasRecords(filled, changes, |filled|);
    var done := EditParas(filled, changes, |filled|);
    var r := EditSpec(paras, changes);
    if r.Success? {
      assert |filled| == |paras|;
      var texts := Texts(done.value.0);
      var near := SuggestSpec(texts, changes);
      var missed := NoMatchSpec(changes, done.value.1);
      assert r.value.1 == near.value + missed.value;
      SuggestOnlyNearby(texts, changes);
      NoMatchOutside(texts, changes, done.value.1, |filled|);
    }
  }

  /** An entry that clashes in type makes the edit raise on every document:
      at the latest the suggestion pass raises on it. */
  lemma TypeClashRaises(paras: seq<Paragraph>, changes: seq<Change>, j: nat)
    requires j < |changes| && TypeClash(changes[j])
    ensures EditSpec(paras, changes).Failure?
  {
    var filled := Filled(paras, changes);
    var done := EditParas(filled, changes, |filled|);
    if done.Success? {
      SuggestSpecTyped(Texts(done.value.0), changes);
      assert changes[j] in changes;
    }
  }

  /** When the suggestion pass did not raise, every "No match" notice names
      a number, and one outside the paragraphs whose keys were all recorded. */
  lemma NoMatchOutside(texts: seq<string>, changes: seq<Change>, applied: set<(int, string)>, k: int)
    requires SuggestSpec(texts, changes).Success? && Recorded(changes, applied, k)
    ensures var r := NoMatchSpec(changes, applied);
            r.Success? ==> forall x :: x in r.value && x.NoMatch? ==> x.named.Number? && !(1 <= x.named.n <= k)
  {
    SuggestSpecTyped(texts, changes);
    NoMatchNames(changes, applied);
  }

  /** A change object without a "paragraph" key is never recorded, so the
      final loop raises. */
  lemma {:induction false} NoMatchRaisesWithoutParagraph(changes: seq<Change>, applied: set<(int, string)>, j: nat)
    requires j < |changes| && changes[j].Change? && changes[j].paragraph.None?
    ensures NoMatchSpec(changes, applied).Failure?
    decreases |changes|
  {
    if j < |changes| - 1 {
      NoMatchRaisesWithoutParagraph(changes[..|changes| - 1], applied, j);
    }
  }

  /** A paragraph the main loop rebuilt reads, without its green runs, as
      it did before; one it did not rebuild is left as it was. */
  lemma EditedParagraphKeepsOriginal(para: Paragraph, idx: int, changes: seq<Change>)
    ensures var r := EditOne(para, idx, changes);
            r.Success? ==> r.value.0 == para || TextWithout(r.value.0.runs, Green) == ParaText(para)
  {
    var apps := Applicable(changes, idx);
    if apps.Success? && apps.value != [] {
      RebuildKeepsOriginal(ParaText(para), apps.value);
      var segs := Rebuild(ParaText(para), apps.value);
      if segs.Success? {
        StyledShowsViews(segs.value);
      }
    }
  }

  // ---------------------------------------------------------------------------
  // a paragraph filled by a change with an empty old phrase

  lemma FillsEmptyParagraph(c: Change)
    requires c == Change(Some(Number(1)), Some(""), Some("Hi"))
    ensures Filled([Paragraph([])], [c]) == [SetText("Hi")]
  {
    assert ParaText(Paragraph([])) == [];
    assert Strip([]) == [];
    assert FillValue([c], 1) == Some("Hi");
  }

  /** The empty old phrase passes the guard of every segment. */
  lemma EmptyPhraseHits(t: string)
    ensures Hits(t, "")
  {
    EmptyIsEverywhere(Normalize(t));
    assert Collapse("") == [];
    assert Strip([]) == [];
  }

  lemma ReplaceEmptyInHi()
    ensures ReplaceAll("Hi", "", "Hi") == "HiHHiiHi"
  {
    assert ReplaceAll("", "", "Hi") == "Hi";
    assert "i"[1..] == [];
    assert ReplaceAll("i", "", "Hi") == "Hi" + "i" + "Hi";
    assert "Hi"[1..] == "i";
  }

  lemma EmptyOldSplitsFill(c: Change)
    requires c == Change(Some(Number(1)), Some(""), Some("Hi"))
    ensures var r := Rebuild("Hi", [c]);
            r.Success? && OriginalView(r.value) == "Hi" && UpdatedView(r.value) == "HiHHiiHi"
  {
    var one := [Segment(Unstyled, "Hi")];
    assert Rebuild("Hi", [c]) == Success(ApplyChange(one, "", "Hi")) by {
      assert [c][..0] == [];
    }
    EmptyPhraseHits("Hi");
    SingleChangeIsReplace("Hi", "", "Hi");
    ReplaceEmptyInHi();
  }

  lemma FillEditedOnce(c: Change, filled: seq<Paragraph>)
    requires c == Change(Some(Number(1)), Some(""), Some("Hi")) && filled == [SetText("Hi")]
    ensures Rebuild("Hi", [c]).Success?
    ensures EditParas(filled, [c], 1) == Success(([Paragraph(Styled(Rebuild("Hi", [c]).value))], {(1, "")}))
  {
    EmptyOldSplitsFill(c);
    assert ParaText(filled[0]) == "Hi";
    assert Applicable([c], 1) == Success([c]) by {
      assert [c][..0] == [];
      assert [] + [c] == [c];
    }
    assert KeysOf([c], 1) == {(1, "")} by {
      assert [c][..0] == [];
    }
    var p := Paragraph(Styled(Rebuild("Hi", [c]).value));
    assert EditOne(filled[0], 1, [c]) == Success((p, {(1, "")}));
    assert EditParas(filled, [c], 1) == Success(([] + [p], {} + {(1, "")}));
    assert [] + [p] == [p];
    assert {} + {(1, "")} == {(1, "")};
  }

  /** As written, the fill change itself is applicable to the paragraph it
      filled: its empty old phrase passes the guard and `re.split('')`
      cuts the fill text at every character, so the green text repeats the
      fill between and around its characters. */
  lemma EmptyOldRepeatsFill()
    ensures var c := Change(Some(Number(1)), Some(""), Some("Hi"));
            var r := EditSpec([Paragraph([])], [c]);
            r.Success? && |r.value.0| == 1
            && TextWithout(r.value.0[0].runs, Green) == "Hi"
            && TextWithout(r.value.0[0].runs, Red) == "HiHHiiHi"
  {
    var c := Change(Some(Number(1)), Some(""), Some("Hi"));
    FillsEmptyParagraph(c);
    var filled := [SetText("Hi")];
    FillEditedOnce(c, filled);
    EmptyOldSplitsFill(c);
    var segs := Rebuild("Hi", [c]).value;
    StyledShowsViews(segs);
    var edited := [Paragraph(Styled(segs))];
    FillNoticesNothing(c, Texts(edited));
    assert EditSpec([Paragraph([])], [c]) == Success((edited, [] + []));
  }

  lemma FillNoticesNothing(c: Change, texts: seq<string>)
    requires c == Change(Some(Number(1)), Some(""), Some("Hi")) && |texts| == 1
    ensures SuggestSpec(texts, [c]) == Success([])
    ensures NoMatchSpec([c], {(1, "")}) == Success([])
  {
    assert [c][..0] == [];
    EmptyIsEverywhere(texts[0]);
    assert NearbyNotice(texts, 1, "") == [];
    assert SuggestSpec(texts, [c][..0]) == Success([]);
    var none: seq<Notice> := [];
    assert none + NearbyNotice(texts, 1, "") == [];
  }

  /** `rebuilt` as evidently intended: a change with an empty old phrase,
      which only ever fills an empty paragraph, marks nothing up. */
  function RebuildSkippingEmpty(text: string, apps: seq<Change>): Result<seq<Segment>, EditError> {
    if apps == [] then Success([Segment(Unstyled, text)])
    else
      match RebuildSkippingEmpty(text, apps[..|apps| - 1])
      case Failure(e) => Failure(e)
      case Success(segs) =>
        var c := apps[|apps| - 1];
        if !c.Change? || c.oldText.None? then Failure(MissingKey("old"))
        else if c.newText.None? then Failure(MissingKey("new"))
        else if c.oldText.value == "" then Success(segs)
        else Success(ApplyChange(segs, c.oldText.value, c.newText.value))
  }

  /** With the skip, the round trip still holds, and a paragraph whose only
      changes are fills reads as its fill text in both views. */
  lemma {:induction false} SkippingEmptyKeepsFill(text: string, apps: seq<Change>)
    ensures var r := RebuildSkippingEmpty(text, apps);
            r.Success? ==>
              OriginalView(r.value) == text
              && ((forall c :: c in apps ==> c.Change? && c.oldText == Some("")) ==> UpdatedView(r.value) == text)
    decreases |apps|
  {
    if apps == [] {
      ViewSingle(Segment(Unstyled, text), Inserted);
      ViewSingle(Segment(Unstyled, text), Struck);
    } else {
      var init := apps[..|apps| - 1];
      var c := apps[|apps| - 1];
      SkippingEmptyKeepsFill(text, init);
      assert forall x :: x in init ==> x in apps;
      var prev := RebuildSkippingEmpty(text, init);
      if prev.Success? && c.Change? && c.oldText.Some? && c.newText.Some? && c.oldText.value != "" {
        ApplyChangeViews(prev.value, c.oldText.value, c.newText.value);
      }
    }
  }
}
