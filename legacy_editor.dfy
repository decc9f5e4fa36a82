/** The older colour-markup editor, JBGDocumentEditor.py at the top of the
    repository: it works run by run. In each run the first change naming the
    paragraph whose old phrase occurs literally in the run's text splits the
    run into plain pieces with a red struck-out old phrase and a green new
    phrase between them; other runs are kept as they are. */
module LegacyEditor {
  import opened Wrappers
  import opened Text
  import opened WordDoc
  import opened MarkupEditor

  // ---------------------------------------------------------------------------
  // `_apply_to_empty_paragraphs`, without the `isinstance` check

  predicate HasBlank(paras: seq<Paragraph>) {
    exists i :: 0 <= i < |paras| && Blank(paras[i])
  }

  predicate HasNonObject(changes: seq<Change>) {
    exists j :: 0 <= j < |changes| && !changes[j].Change?
  }

  /** Lines 106-119: as in the newer editor, except that `change.get` on an
      entry that is not an object raises as soon as a whitespace-only
      paragraph is visited. */
  function LegacyFilled(paras: seq<Paragraph>, changes: seq<Change>): Result<seq<Paragraph>, EditError> {
    if HasBlank(paras) && HasNonObject(changes) then Failure(NotAnObjectError)
    else Success(Filled(paras, changes))
  }

  /** The inner loop of lines 112-119 for one whitespace-only paragraph. */
  method LegacyFillOne(para: Paragraph, idx: int, changes: seq<Change>) returns (r: Result<Paragraph, EditError>)
    requires Blank(para)
    ensures r == if HasNonObject(changes) then Failure(NotAnObjectError) else Success(FillPara(para, idx, changes))
  {
    var p := para;
    var j := 0;
    while j < |changes|
      invariant 0 <= j <= |changes|
      invariant forall i :: 0 <= i < j ==> changes[i].Change?
      invariant p == match FillValue(changes[..j], idx) case None => para case Some(t) => SetText(t)
    {
      assert changes[..j + 1][..j] == changes[..j];
      var c := changes[j];
      if !c.Change? {
        assert HasNonObject(changes);
        return Failure(NotAnObjectError);
      }
      if About(c, idx) && c.oldText.GetOr("") == "" && c.newText.Some? && c.newText.value != "" {
        p := SetText(c.newText.value);
      }
      j := j + 1;
    }
    assert changes[..j] == changes;
    assert !HasNonObject(changes);
    return Success(p);
  }

  method LegacyFillEmpty(paras: seq<Paragraph>, changes: seq<Change>) returns (r: Result<seq<Paragraph>, EditError>)
    ensures r == LegacyFilled(paras, changes)
  {
    var out := paras;
    var idx := 0;
    while idx < |paras|
      invariant 0 <= idx <= |paras| && |out| == |paras|
      invariant forall i :: 0 <= i < idx ==> out[i] == FillPara(paras[i], i + 1, changes)
      invariant forall i :: idx <= i < |paras| ==> out[i] == paras[i]
      invariant HasNonObject(changes) ==> forall i :: 0 <= i < idx ==> !Blank(paras[i])
    {
      var para := paras[idx];
      if Blank(para) {
        var filled := LegacyFillOne(para, idx + 1, changes);
        if filled.Failure? {
          assert HasBlank(paras) by {
            assert Blank(paras[idx]);
          }
          return Failure(NotAnObjectError);
        }
        para := filled.value;
      }
      out := out[idx := para];
      idx := idx + 1;
    }
    assert out == Filled(paras, changes);
    assert !(HasBlank(paras) && HasNonObject(changes));
    return Success(out);
  }

  // ---------------------------------------------------------------------------
  // one run

  /** Lines 57-76: the (old, new) pair of the first change naming paragraph
      `idx` whose old phrase occurs in `text`. The test of line 58 raises on
      an entry that clashes in type; an entry without "paragraph", or naming
      another paragraph or a value that is not a number, is passed over.
      Reading "old" and "new" of a change naming the paragraph raises when a
      key is missing, and `split('')` raises for an empty old phrase, which
      always occurs. */
  function MatchRun(text: string, idx: int, changes: seq<Change>): Result<Option<(string, string)>, EditError> {
    if changes == [] then Success(None)
    else
      var c := changes[0];
      if TypeClash(c) then Failure(WrongType)
      else if !About(c, idx) then MatchRun(text, idx, changes[1..])
      else if c.oldText.None? then Failure(MissingKey("old"))
      else if c.newText.None? then Failure(MissingKey("new"))
      else if Contains(text, c.oldText.value) then
        (if c.oldText.value == [] then Failure(EmptySeparator) else Success(Some((c.oldText.value, c.newText.value))))
      else MatchRun(text, idx, changes[1..])
  }

  /** A change names paragraph `idx` and has both keys. */
  predicate Names(c: Change, idx: int) {
    About(c, idx) && c.oldText.Some? && c.newText.Some?
  }

  /** The change applied to a run is the first, in list order, naming the
      paragraph whose old phrase occurs in the run's text; no run is matched
      when no change naming the paragraph has its phrase in the text. */
  lemma {:induction false} MatchRunIsFirst(text: string, idx: int, changes: seq<Change>)
    ensures var r := MatchRun(text, idx, changes);
            r.Success? && r.value.Some? ==>
              exists j :: 0 <= j < |changes| && Names(changes[j], idx)
                          && r.value.value == (changes[j].oldText.value, changes[j].newText.value)
                          && r.value.value.0 != [] && Contains(text, r.value.value.0)
                          && forall i :: 0 <= i < j && Names(changes[i], idx) ==> !Contains(text, changes[i].oldText.value)
    ensures var r := MatchRun(text, idx, changes);
            r.Success? && r.value.None? <==>
              forall i :: 0 <= i < |changes| ==>
                !TypeClash(changes[i]) && (About(changes[i], idx) ==> Names(changes[i], idx) && !Contains(text, changes[i].oldText.value))
    decreases |changes|
  {
    if changes != [] {
      var c := changes[0];
      var rest := changes[1..];
      MatchRunIsFirst(text, idx, rest);
      var r := MatchRun(text, idx, changes);
      var skipped := !TypeClash(c) && (!About(c, idx) || (Names(c, idx) && !Contains(text, c.oldText.value)));
      if skipped {
        assert r == MatchRun(text, idx, rest);
        if r.Success? && r.value.Some? {
          var j :| 0 <= j < |rest| && Names(rest[j], idx)
                   && r.value.value == (rest[j].oldText.value, rest[j].newText.value)
                   && r.value.value.0 != [] && Contains(text, r.value.value.0)
                   && forall i :: 0 <= i < j && Names(rest[i], idx) ==> !Contains(text, rest[i].oldText.value);
          assert changes[j + 1] == rest[j];
          forall i | 0 <= i < j + 1 && Names(changes[i], idx) ensures !Contains(text, changes[i].oldText.value) {
            if i > 0 {
              assert changes[i] == rest[i - 1];
            }
          }
        }
        if r.Success? && r.value.None? {
          forall i | 0 <= i < |changes|
            ensures !TypeClash(changes[i]) && (About(changes[i], idx) ==> Names(changes[i], idx) && !Contains(text, changes[i].oldText.value))
          {
            if i > 0 {
              assert changes[i] == rest[i - 1];
            }
          }
        } else {
          if !(forall i :: 0 <= i < |rest| ==>
                  !TypeClash(rest[i]) && (About(rest[i], idx) ==> Names(rest[i], idx) && !Contains(text, rest[i].oldText.value))) {
            var i :| 0 <= i < |rest|
                     && !(!TypeClash(rest[i]) && (About(rest[i], idx) ==> Names(rest[i], idx) && !Contains(text, rest[i].oldText.value)));
            assert changes[i + 1] == rest[i];
          }
        }
      } else {
        assert TypeClash(c) || About(c, idx);
      }
    }
  }

  /** Line 58 raises on an entry that clashes in type unless a change naming
      the paragraph comes before it, and raises that way only because of
      such an entry. */
  lemma {:induction false} MatchRunTypeError(text: string, idx: int, changes: seq<Change>)
    ensures (exists j :: 0 <= j < |changes| && TypeClash(changes[j]) && forall i :: 0 <= i < j ==> !About(changes[i], idx))
            ==> MatchRun(text, idx, changes) == Failure(WrongType)
    ensures MatchRun(text, idx, changes) == Failure(WrongType) ==> exists j :: 0 <= j < |changes| && TypeClash(changes[j])
    decreases |changes|
  {
    if changes != [] {
      var rest := changes[1..];
      MatchRunTypeError(text, idx, rest);
      if exists j :: 0 <= j < |changes| && TypeClash(changes[j]) && forall i :: 0 <= i < j ==> !About(changes[i], idx) {
        var j :| 0 <= j < |changes| && TypeClash(changes[j]) && forall i :: 0 <= i < j ==> !About(changes[i], idx);
        if j > 0 {
          assert !About(changes[0], idx);
          assert rest[j - 1] == changes[j];
          assert forall i :: 0 <= i < j - 1 ==> rest[i] == changes[i + 1];
        }
      }
      if MatchRun(text, idx, changes) == Failure(WrongType) && !TypeClash(changes[0]) {
        var j :| 0 <= j < |rest| && TypeClash(rest[j]);
        assert changes[j + 1] == rest[j];
      }
    }
  }

  /** The inner loop over the changes for one run, stopping at the first
      match (the `break` of line 76). */
  method FindChange(text: string, idx: int, changes: seq<Change>) returns (r: Result<Option<(string, string)>, EditError>)
    ensures r == MatchRun(text, idx, changes)
  {
    var i := 0;
    while i < |changes|
      invariant 0 <= i <= |changes|
      invariant MatchRun(text, idx, changes) == MatchRun(text, idx, changes[i..])
    {
      var c := changes[i];
      assert changes[i..][0] == c && changes[i..][1..] == changes[i + 1..];
      if TypeClash(c) {
        return Failure(WrongType);
      }
      if !About(c, idx) {
        i := i + 1;
        continue;
      }
      if c.oldText.None? {
        return Failure(MissingKey("old"));
      }
      if c.newText.None? {
        return Failure(MissingKey("new"));
      }
      if Contains(text, c.oldText.value) {
        if c.oldText.value == [] {
          return Failure(EmptySeparator);
        }
        return Success(Some((c.oldText.value, c.newText.value)));
      }
      i := i + 1;
    }
    assert changes[i..] == [];
    return Success(None);
  }

  /** Lines 63-75: the runs `text.split(old)` gives, plain pieces that are
      not empty with a struck old run and a green new run between
      neighbours. */
  function SplitRun(text: string, phrase: string, repl: string): seq<Run> {
    var parts := SplitOn(text, phrase);
    Styled(Emitted(parts, phrase, repl, |parts|))
  }

  /** Reading a split run without its green runs gives the run's text back;
      without its red runs, the text with every occurrence of the old phrase
      replaced. */
  lemma SplitRunViews(text: string, phrase: string, repl: string)
    ensures TextWithout(SplitRun(text, phrase, repl), Green) == text
    ensures TextWithout(SplitRun(text, phrase, repl), Red) == ReplaceAll(text, phrase, repl)
  {
    var parts := SplitOn(text, phrase);
    var segs := Emitted(parts, phrase, repl, |parts|);
    StyledShowsViews(segs);
    assert parts[..|parts|] == parts;
    EmittedView(parts, phrase, repl, |parts|, Inserted);
    EmittedView(parts, phrase, repl, |parts|, Struck);
    SplitJoinRoundTrip(text, phrase);
    SplitJoinIsReplace(text, phrase, repl);
  }

  /** What one run of the paragraph becomes: itself when no change matches,
      otherwise its split. */
  function ExpandRun(run: Run, idx: int, changes: seq<Change>): Result<seq<Run>, EditError> {
    match MatchRun(run.text, idx, changes)
    case Failure(e) => Failure(e)
    case Success(None) => Success([run])
    case Success(Some((phrase, repl))) => Success(SplitRun(run.text, phrase, repl))
  }

  method SplitRunPieces(text: string, phrase: string, repl: string) returns (runs: seq<Run>)
    ensures runs == SplitRun(text, phrase, repl)
  {
    var segs := EmitPieces(SplitOn(text, phrase), phrase, repl);
    runs := [];
    var i := 0;
    while i < |segs|
      invariant 0 <= i <= |segs|
      invariant runs == Styled(segs[..i])
    {
      assert segs[..i + 1][..i] == segs[..i];
      runs := runs + [Run(segs[i].text, StyleOf(segs[i].kind))];
      i := i + 1;
    }
    assert segs[..i] == segs;
  }

  // ---------------------------------------------------------------------------
  // one paragraph

  /** `new_runs` for the first `k` runs of a paragraph. */
  function Expanded(runs: seq<Run>, idx: int, changes: seq<Change>): Result<seq<Run>, EditError> {
    if runs == [] then Success([])
    else
      match Expanded(runs[..|runs| - 1], idx, changes)
      case Failure(e) => Failure(e)
      case Success(done) =>
        match ExpandRun(runs[|runs| - 1], idx, changes)
        case Failure(e) => Failure(e)
        case Success(more) => Success(done + more)
  }

  lemma {:induction false} ExpandedStopsAtError(runs: seq<Run>, rest: seq<Run>, idx: int, changes: seq<Change>)
    ensures Expanded(runs, idx, changes).Failure? ==> Expanded(runs + rest, idx, changes) == Expanded(runs, idx, changes)
    decreases |rest|
  {
    if rest == [] {
      assert runs + rest == runs;
    } else {
      ExpandedStopsAtError(runs, rest[..|rest| - 1], idx, changes);
      assert (runs + rest)[..|runs + rest| - 1] == runs + rest[..|rest| - 1];
    }
  }

  /** Lines 53-84 for one paragraph: its runs replaced by `new_runs`, which
      is the original run order with each matched run expanded in place; a
      paragraph whose `new_runs` is empty is left alone. */
  function EditedParagraph(para: Paragraph, idx: int, changes: seq<Change>): Result<Paragraph, EditError> {
    match Expanded(para.runs, idx, changes)
    case Failure(e) => Failure(e)
    case Success(runs) => Success(if runs == [] then para else Paragraph(runs))
  }

  method EditRuns(para: Paragraph, idx: int, changes: seq<Change>) returns (r: Result<Paragraph, EditError>)
    ensures r == EditedParagraph(para, idx, changes)
  {
    var runs := para.runs;
    var newRuns: seq<Run> := [];
    var k := 0;
    while k < |runs|
      invariant 0 <= k <= |runs|
      invariant Expanded(runs[..k], idx, changes) == Success(newRuns)
    {
      var run := runs[k];
      assert runs[..k + 1][..k] == runs[..k];
      var m := FindChange(run.text, idx, changes);
      if m.Failure? {
        ExpandedStopsAtError(runs[..k + 1], runs[k + 1..], idx, changes);
        assert runs[..k + 1] + runs[k + 1..] == runs;
        return Failure(m.error);
      }
      if m.value.None? {
        newRuns := newRuns + [run];
      } else {
        var pieces := SplitRunPieces(run.text, m.value.value.0, m.value.value.1);
        newRuns := newRuns + pieces;
      }
      k := k + 1;
    }
    assert runs[..k] == runs;
    if newRuns != [] {
      return Success(Paragraph(newRuns));
    }
    return Success(para);
  }

  /** An old phrase that spans two runs is never matched: when no run's
      text contains the phrase of a change naming the paragraph (and no
      entry clashes in type), the paragraph is left as it was, whatever its
      whole text contains. */
  lemma {:induction false} SpanningPhraseNeverMatched(runs: seq<Run>, idx: int, changes: seq<Change>)
    requires forall c :: c in changes ==> !TypeClash(c) && (About(c, idx) ==> Names(c, idx))
    requires forall r, c :: r in runs && c in changes && Names(c, idx) ==> !Contains(r.text, c.oldText.value)
    ensures Expanded(runs, idx, changes) == Success(runs)
    decreases |runs|
  {
    if runs != [] {
      var last := runs[|runs| - 1];
      SpanningPhraseNeverMatched(runs[..|runs| - 1], idx, changes);
      MatchRunIsFirst(last.text, idx, changes);
      assert runs == runs[..|runs| - 1] + [last];
    }
  }

  /** Changes that name another paragraph, or no paragraph, never touch a
      run, as long as no entry clashes in type. */
  lemma OtherParagraphsUntouched(run: Run, idx: int, changes: seq<Change>)
    requires forall c :: c in changes ==> !TypeClash(c) && !About(c, idx)
    ensures ExpandRun(run, idx, changes) == Success([run])
  {
    MatchRunIsFirst(run.text, idx, changes);
  }

  /** A matched run reads, without its green runs, as before, and without
      its red runs, as its text with the phrase replaced. */
  lemma ExpandRunViews(run: Run, idx: int, changes: seq<Change>)
    ensures var r := ExpandRun(run, idx, changes);
            var m := MatchRun(run.text, idx, changes);
            r.Success? && m.value.Some? ==>
              TextWithout(r.value, Green) == run.text
              && TextWithout(r.value, Red) == ReplaceAll(run.text, m.value.value.0, m.value.value.1)
  {
    var m := MatchRun(run.text, idx, changes);
    if m.Success? && m.value.Some? {
      SplitRunViews(run.text, m.value.value.0, m.value.value.1);
    }
  }

  // ---------------------------------------------------------------------------
  // the document

  function LegacyEditParas(paras: seq<Paragraph>, changes: seq<Change>, k: nat): Result<seq<Paragraph>, EditError>
    requires k <= |paras|
  {
    if k == 0 then Success([])
    else
      match LegacyEditParas(paras, changes, k - 1)
      case Failure(e) => Failure(e)
      case Success(done) =>
        match EditedParagraph(paras[k - 1], k, changes)
        case Failure(e) => Failure(e)
        case Success(p) => Success(done + [p])
  }

  lemma {:induction false} LegacyEditParasStopsAtError(paras: seq<Paragraph>, changes: seq<Change>, k: nat, m: nat)
    requires k <= m <= |paras|
    ensures LegacyEditParas(paras, changes, k).Failure? ==> LegacyEditParas(paras, changes, m) == LegacyEditParas(paras, changes, k)
    decreases m - k
  {
    if k < m {
      LegacyEditParasStopsAtError(paras, changes, k, m - 1);
    }
  }

  /** `_edit_docx` of the older editor as a whole. */
  function LegacyEditSpec(paras: seq<Paragraph>, changes: seq<Change>): Result<(seq<Paragraph>, seq<Notice>), EditError> {
    match LegacyFilled(paras, changes)
    case Failure(e) => Failure(e)
    case Success(filled) =>
      match LegacyEditParas(filled, changes, |filled|)
      case Failure(e) => Failure(e)
      case Success(edited) =>
        match SuggestSpec(Texts(edited), changes)
        case Failure(e) => Failure(e)
        case Success(near) => Success((edited, near))
  }

  /** An entry that clashes in type makes the older editor raise on every
      document: at the latest the closing suggestion pass raises on it. */
  lemma LegacyTypeClashRaises(paras: seq<Paragraph>, changes: seq<Change>, j: nat)
    requires j < |changes| && TypeClash(changes[j])
    ensures LegacyEditSpec(paras, changes).Failure?
  {
    var filled := LegacyFilled(paras, changes);
    if filled.Success? {
      var edited := LegacyEditParas(filled.value, changes, |filled.value|);
      if edited.Success? {
        SuggestSpecTyped(Texts(edited.value), changes);
        assert changes[j] in changes;
      }
    }
  }

  lemma LegacyEditParasStep(paras: seq<Paragraph>, changes: seq<Change>, k: nat, edited: seq<Paragraph>)
    requires k < |paras| && LegacyEditParas(paras, changes, k) == Success(edited)
    ensures var p := EditedParagraph(paras[k], k + 1, changes);
      LegacyEditParas(paras, changes, k + 1) == if p.Failure? then Failure(p.error) else Success(edited + [p.value])
  {
  }

  /** The loop of lines 51-84 over all paragraphs. */
  method LegacyEditParagraphs(paras: seq<Paragraph>, changes: seq<Change>) returns (r: Result<seq<Paragraph>, EditError>)
    ensures r == LegacyEditParas(paras, changes, |paras|)
  {
    var edited: seq<Paragraph> := [];
    var k := 0;
    while k < |paras|
      invariant 0 <= k <= |paras|
      invariant LegacyEditParas(paras, changes, k) == Success(edited)
    {
      var p := EditRuns(paras[k], k + 1, changes);
      LegacyEditParasStep(paras, changes, k, edited);
      if p.Failure? {
        LegacyEditParasStopsAtError(paras, changes, k + 1, |paras|);
        return Failure(p.error);
      }
      edited := edited + [p.value];
      k := k + 1;
    }
    return Success(edited);
  }

  /** Lines 45-87. */
  method LegacyEditDocx(paras: seq<Paragraph>, changes: seq<Change>) returns (r: Result<(seq<Paragraph>, seq<Notice>), EditError>)
    ensures r == LegacyEditSpec(paras, changes)
  {
    var filled := LegacyFillEmpty(paras, changes);
    if filled.Failure? {
      return Failure(filled.error);
    }
    var edited := LegacyEditParagraphs(filled.value, changes);
    if edited.Failure? {
      return Failure(edited.error);
    }
    var near := SuggestNearby(Texts(edited.value), changes);
    if near.Failure? {
      return Failure(near.error);
    }
    return Success((edited.value, near.value));
  }
}
