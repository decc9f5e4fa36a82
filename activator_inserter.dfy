/** `JBGTrackChangesActivatorInserter` (app/src/JBGTrackChangesActivatorInserter.py):
    the older tracked-change inserter. It looks for the phrase literally in
    the first `w:t` of each run, one run at a time in document order; the
    first run that contains it is removed from the paragraph and the text of
    that `w:t`, split at the phrase, comes back at the end of the paragraph
    as a plain run, a deletion, an insertion and a plain run. The object,
    the settings update and `save` are as in the newer inserter: the zip
    file is the field `disk`, the clock reading and the author are
    constructor parameters, and the tree is rewritten on values. */
module ActivatorInserter {
  import opened Wrappers
  import opened Text
  import opened Xml
  import TI = TrackedInserter

  // ---------------------------------------------------------------------------
  // the test on one run

  /** What the test `old_text in text_el.text` does on one run: a run with
      no `w:t` child is passed over, a first `w:t` without text makes `in`
      raise, and otherwise the run is a hit when the phrase occurs literally
      in that text. */
  datatype Check = Pass | Crash | Hit(text: string)

  function RunCheck(run: Node, phrase: string): Check {
    match FindChild(run, "w:t")
    case None => Pass
    case Some(t) =>
      match t.text
      case None => Crash
      case Some(s) => if Contains(s, phrase) then Hit(s) else Pass
  }

  /** The checks of the runs, in order. */
  function Checks(runs: seq<Node>, phrase: string): (r: seq<Check>)
    ensures |r| == |runs|
    ensures forall k :: 0 <= k < |runs| ==> r[k] == RunCheck(runs[k], phrase)
  {
    seq(|runs|, k requires 0 <= k < |runs| => RunCheck(runs[k], phrase))
  }

  /** The position of the first check that stops the loop. */
  function FirstStop(cs: seq<Check>): (r: Option<nat>)
    ensures r.Some? ==> r.value < |cs| && cs[r.value] != Pass
    ensures r.Some? ==> forall k :: 0 <= k < r.value ==> cs[k] == Pass
    ensures r.None? ==> forall k :: 0 <= k < |cs| ==> cs[k] == Pass
  {
    if cs == [] then None
    else
      var p := FirstStop(cs[..|cs| - 1]);
      if p.Some? then p
      else if cs[|cs| - 1] != Pass then Some(|cs| - 1)
      else None
  }

  /** How the loop stops: `Pass` when it runs to the end. */
  function Stop(cs: seq<Check>): Check {
    match FirstStop(cs)
    case None => Pass
    case Some(k) => cs[k]
  }

  // ---------------------------------------------------------------------------
  // the same scan, child by child

  /** The first stop among the runs of the subtree, the node itself first. */
  function ScanNode(n: Node, phrase: string): Check
    decreases n
  {
    if n.tag == "w:r" && RunCheck(n, phrase) != Pass then RunCheck(n, phrase)
    else ScanKids(n.kids, phrase)
  }

  function ScanKids(kids: seq<Node>, phrase: string): Check
    decreases kids
  {
    if kids == [] then Pass
    else
      var c := ScanKids(kids[..|kids| - 1], phrase);
      if c != Pass then c else ScanNode(kids[|kids| - 1], phrase)
  }

  /** The scans of the children, in order. */
  function Scans(kids: seq<Node>, phrase: string): (r: seq<Check>)
    ensures |r| == |kids|
    ensures forall k :: 0 <= k < |kids| ==> r[k] == ScanNode(kids[k], phrase)
  {
    seq(|kids|, k requires 0 <= k < |kids| => ScanNode(kids[k], phrase))
  }

  /** The first child whose subtree stops the loop. */
  function FoundAt(kids: seq<Node>, phrase: string): (r: Option<nat>)
    ensures r.Some? ==> r.value < |kids| && ScanNode(kids[r.value], phrase) != Pass
    ensures r.Some? ==> forall k :: 0 <= k < r.value ==> ScanNode(kids[k], phrase) == Pass
    ensures r.None? ==> forall k :: 0 <= k < |kids| ==> ScanNode(kids[k], phrase) == Pass
  {
    var cs := Scans(kids, phrase);
    var r := FirstStop(cs);
    assert r.Some? ==> cs[r.value] == ScanNode(kids[r.value], phrase);
    r
  }

  /** The child is itself the run that stops the loop with a hit, so
      `para.remove(run)` finds it. */
  predicate Direct(kid: Node, phrase: string) {
    kid.tag == "w:r" && RunCheck(kid, phrase).Hit?
  }

  /** The children without the one at `j`. */
  function Without(kids: seq<Node>, j: nat): (r: seq<Node>)
    requires j < |kids|
    ensures |r| == |kids| - 1
    ensures forall k :: 0 <= k < j ==> r[k] == kids[k]
    ensures forall k :: j <= k < |r| ==> r[k] == kids[k + 1]
  {
    kids[..j] + kids[j + 1..]
  }

  /** The nodes appended for a hit: the run's text split at the first
      occurrence of the phrase. */
  function Appended(text: string, phrase: string, repl: string, author: string, stamp: string): seq<Node>
    requires phrase != ""
  {
    var (before, after) := Partition(text, phrase);
    TI.Replacement(before, after, phrase, repl, author, stamp)
  }

  // ---------------------------------------------------------------------------
  // `apply_to_paragraph`

  /** What `apply_to_paragraph` does to one paragraph: nothing when no run
      stops the loop; `in` raises on a `w:t` without text; `partition`
      raises on an empty phrase; `remove` raises when the run is not a child
      of the paragraph; otherwise the run goes and the appended nodes follow
      the other children. */
  function Outcome(para: Node, phrase: string, repl: string, author: string, stamp: string): Result<TI.Step, TI.InsertError> {
    match FoundAt(para.kids, phrase)
    case None => Success(TI.Unmatched)
    case Some(j) =>
      if ScanNode(para.kids[j], phrase).Crash? then Failure(TI.NoText)
      else if phrase == "" then Failure(TI.EmptyPhrase)
      else if !Direct(para.kids[j], phrase) then Failure(TI.NotAChild)
      else Success(TI.Replaced(para.(kids := Without(para.kids, j) + Appended(RunCheck(para.kids[j], phrase).text, phrase, repl, author, stamp))))
  }

  /** The first stop of a concatenation is the first stop of its first
      part, if there is one. */
  lemma {:induction false} StopAppend(a: seq<Check>, b: seq<Check>)
    ensures Stop(a + b) == if Stop(a) != Pass then Stop(a) else Stop(b)
  {
    var ab := a + b;
    forall k | 0 <= k < |a| ensures ab[k] == a[k] {}
    forall k | 0 <= k < |b| ensures ab[|a| + k] == b[k] {}
    var p := FirstStop(ab);
    if FirstStop(a).None? && p.Some? {
      assert ab[|a| + (p.value - |a|)] == b[p.value - |a|];
    }
  }

  lemma ChecksAppend(a: seq<Node>, b: seq<Node>, phrase: string)
    ensures Checks(a + b, phrase) == Checks(a, phrase) + Checks(b, phrase)
  {
    assert forall k :: 0 <= k < |a + b| ==> (a + b)[k] == if k < |a| then a[k] else b[k - |a|];
  }

  /** The child-by-child scan stops where the run loop over `.//w:r` stops. */
  lemma {:induction false} ScanNodeIsStop(n: Node, phrase: string)
    ensures ScanNode(n, phrase) == Stop(Checks(Iter(n, "w:r"), phrase))
    decreases n
  {
    ScanKidsIsStop(n.kids, phrase);
    var own: seq<Node> := if n.tag == "w:r" then [n] else [];
    ChecksAppend(own, IterKids(n.kids, "w:r"), phrase);
    StopAppend(Checks(own, phrase), Checks(IterKids(n.kids, "w:r"), phrase));
    if n.tag == "w:r" {
      assert Checks(own, phrase) == [RunCheck(n, phrase)];
      assert FirstStop([RunCheck(n, phrase)]) == (if RunCheck(n, phrase) != Pass then Some(0) else None);
    } else {
      assert Checks(own, phrase) == [];
    }
  }

  lemma {:induction false} ScanKidsIsStop(kids: seq<Node>, phrase: string)
    ensures ScanKids(kids, phrase) == Stop(Checks(IterKids(kids, "w:r"), phrase))
    decreases kids
  {
    if kids != [] {
      var init := kids[..|kids| - 1];
      var last := kids[|kids| - 1];
      ScanKidsIsStop(init, phrase);
      ScanNodeIsStop(last, phrase);
      ChecksAppend(IterKids(init, "w:r"), Iter(last, "w:r"), phrase);
      StopAppend(Checks(IterKids(init, "w:r"), phrase), Checks(Iter(last, "w:r"), phrase));
    }
  }

  /** The child found is the one whose subtree holds the first stop. */
  lemma {:induction false} FoundAtIsScan(kids: seq<Node>, phrase: string)
    ensures FoundAt(kids, phrase).None? <==> ScanKids(kids, phrase) == Pass
    ensures FoundAt(kids, phrase).Some? ==> ScanKids(kids, phrase) == ScanNode(kids[FoundAt(kids, phrase).value], phrase)
    decreases kids
  {
    if kids != [] {
      var init := kids[..|kids| - 1];
      FoundAtIsScan(init, phrase);
      var p := FoundAt(init, phrase);
      if p.Some? {
        assert kids[p.value] == init[p.value];
      }
      forall k | 0 <= k < |init| ensures init[k] == kids[k] {}
    }
  }

  /** The outcome in the source's terms, over the runs `.//w:r` in document
      order: the paragraph is left alone iff no run stops the loop, the
      result is the `in` failure iff the first run that stops it has a
      `w:t` without text, and a hit on an empty phrase raises at
      `partition`. */
  lemma OutcomeMeaning(para: Node, phrase: string, repl: string, author: string, stamp: string)
    ensures var r := Outcome(para, phrase, repl, author, stamp);
      var stop := Stop(Checks(IterKids(para.kids, "w:r"), phrase));
      && (r == Success(TI.Unmatched) <==> stop == Pass)
      && (r == Failure(TI.NoText) <==> stop == Crash)
      && (stop.Hit? && phrase == "" ==> r == Failure(TI.EmptyPhrase))
      && (r.Success? && r.value.Replaced? ==> stop.Hit? && phrase != "")
  {
    ScanKidsIsStop(para.kids, phrase);
    FoundAtIsScan(para.kids, phrase);
  }

  /** A replacement removes exactly the run that stops the loop, which is a
      direct child; the other children keep their order and the appended
      nodes come after all of them, not where the run was. The text before
      and after the first occurrence of the phrase rebuild the run's text
      (`TrackedInserter.ReplacementViews` says what the appended nodes
      show). */
  lemma ReplacedRemovesStopRun(para: Node, phrase: string, repl: string, author: string, stamp: string)
    requires Outcome(para, phrase, repl, author, stamp).Success?
    requires Outcome(para, phrase, repl, author, stamp).value.Replaced?
    ensures Stop(Checks(IterKids(para.kids, "w:r"), phrase)).Hit? && phrase != "" && FoundAt(para.kids, phrase).Some?
    ensures var p := Outcome(para, phrase, repl, author, stamp).value.para;
      var stop := Stop(Checks(IterKids(para.kids, "w:r"), phrase));
      var j := FoundAt(para.kids, phrase).value;
      var (before, after) := Partition(stop.text, phrase);
      && j < |para.kids| && para.kids[j].tag == "w:r" && RunCheck(para.kids[j], phrase) == stop
      && p.tag == para.tag && p.attrs == para.attrs && p.text == para.text
      && p.kids == para.kids[..j] + para.kids[j + 1..] + TI.Replacement(before, after, phrase, repl, author, stamp)
      && before + phrase + after == stop.text && !Contains(before, phrase)
  {
    OutcomeMeaning(para, phrase, repl, author, stamp);
    ScanKidsIsStop(para.kids, phrase);
    FoundAtIsScan(para.kids, phrase);
    var stop := Stop(Checks(IterKids(para.kids, "w:r"), phrase));
    var (before, after) := Partition(stop.text, phrase);
    PartitionSpec(stop.text, phrase);
  }

  // ---------------------------------------------------------------------------
  // `apply_tracked_replacement`

  /** What `apply_to_paragraph` does to each paragraph of the list. */
  function Outcomes(paras: seq<Node>, phrase: string, repl: string, author: string, stamp: string): (r: seq<Result<TI.Step, TI.InsertError>>)
    ensures |r| == |paras|
    ensures forall k :: 0 <= k < |paras| ==> r[k] == Outcome(paras[k], phrase, repl, author, stamp)
  {
    seq(|paras|, k requires 0 <= k < |paras| => Outcome(paras[k], phrase, repl, author, stamp))
  }

  /** The loop over the paragraphs in document order, given what each
      paragraph does: the first paragraph that raises ends it with that
      error; otherwise the result counts the replaced paragraphs. */
  function Tally(outs: seq<Result<TI.Step, TI.InsertError>>): (r: Result<nat, TI.InsertError>)
    ensures r.Success? ==> r.value <= |outs|
  {
    if outs == [] then Success(0)
    else
      var t := Tally(outs[..|outs| - 1]);
      if t.Failure? then t
      else match outs[|outs| - 1]
        case Failure(e) => Failure(e)
        case Success(step) => if step.Unmatched? then t else Success(t.value + 1)
  }

  /** The loop fails iff some paragraph raises, and then with the error of
      the first one that does. */
  lemma {:induction false} TallyFailsAtFirst(outs: seq<Result<TI.Step, TI.InsertError>>)
    ensures Tally(outs).Failure? <==> exists k :: 0 <= k < |outs| && outs[k].Failure?
    ensures forall k ::
        (&& 0 <= k < |outs| && outs[k].Failure?
         && forall m :: 0 <= m < k ==> outs[m].Success?)
        ==> Tally(outs) == Failure(outs[k].error)
    decreases |outs|
  {
    if outs != [] {
      var init := outs[..|outs| - 1];
      TallyFailsAtFirst(init);
      forall k | 0 <= k < |init| ensures init[k] == outs[k] {}
    }
  }

  /** The count is zero and nothing raises exactly when every paragraph is
      left alone. */
  lemma {:induction false} TallyZeroIff(outs: seq<Result<TI.Step, TI.InsertError>>)
    ensures Tally(outs) == Success(0) <==> forall k :: 0 <= k < |outs| ==> outs[k] == Success(TI.Unmatched)
    decreases |outs|
  {
    if outs != [] {
      var init := outs[..|outs| - 1];
      TallyZeroIff(init);
      forall k | 0 <= k < |init| ensures init[k] == outs[k] {}
    }
  }

  /** One more paragraph: its error ends the loop, otherwise the count
      grows by one exactly when the paragraph is replaced. */
  lemma TallyNext(outs: seq<Result<TI.Step, TI.InsertError>>, i: nat, count: nat)
    requires i < |outs| && Tally(outs[..i]) == Success(count)
    ensures outs[i].Failure? ==> Tally(outs[..i + 1]) == Failure(outs[i].error)
    ensures outs[i].Success? ==>
      Tally(outs[..i + 1]) == Success(if outs[i].value.Replaced? then count + 1 else count)
  {
    assert outs[..i + 1][..i] == outs[..i];
  }

  /** Failure persists: once a prefix fails, the whole loop fails the same
      way. */
  lemma {:induction false} TallyFailureSticks(outs: seq<Result<TI.Step, TI.InsertError>>, i: nat)
    requires i <= |outs|
    requires Tally(outs[..i]).Failure?
    ensures Tally(outs) == Tally(outs[..i])
    decreases |outs| - i
  {
    if i < |outs| {
      assert outs[..i + 1][..i] == outs[..i];
      TallyFailureSticks(outs, i + 1);
    } else {
      assert outs[..i] == outs;
    }
  }

  /** The document after the loop: every paragraph that is replaced is
      rebuilt from its own children, which are rewritten in turn. What a
      paragraph becomes depends only on its own content before the pass: a
      paragraph is visited before the paragraphs nested in it, and visiting
      one only changes its own child list. */
  function Rewrite(n: Node, phrase: string, repl: string, author: string, stamp: string): Node
    decreases n
  {
    var kids := seq(|n.kids|, i requires 0 <= i < |n.kids| => Rewrite(n.kids[i], phrase, repl, author, stamp));
    var o := FoundAt(n.kids, phrase);
    if n.tag == "w:p" && phrase != "" && o.Some? && Direct(n.kids[o.value], phrase) then
      n.(kids := Without(kids, o.value) + Appended(RunCheck(n.kids[o.value], phrase).text, phrase, repl, author, stamp))
    else
      n.(kids := kids)
  }

  /** A subtree without paragraphs is left as it is. */
  lemma {:induction false} RewriteFree(n: Node, phrase: string, repl: string, author: string, stamp: string)
    requires Free(n, "w:p")
    ensures Rewrite(n, phrase, repl, author, stamp) == n
    decreases n
  {
    forall i | 0 <= i < |n.kids| ensures Rewrite(n.kids[i], phrase, repl, author, stamp) == n.kids[i] {
      RewriteFree(n.kids[i], phrase, repl, author, stamp);
    }
  }

  /** On a paragraph with no paragraphs nested in it, the rewrite is the
      paragraph's own outcome. */
  lemma RewriteIsOutcome(para: Node, phrase: string, repl: string, author: string, stamp: string)
    requires para.tag == "w:p" && FreeKids(para.kids, "w:p")
    requires Outcome(para, phrase, repl, author, stamp).Success?
    ensures var step := Outcome(para, phrase, repl, author, stamp).value;
      Rewrite(para, phrase, repl, author, stamp) == if step.Unmatched? then para else step.para
  {
    var kids := seq(|para.kids|, i requires 0 <= i < |para.kids| => Rewrite(para.kids[i], phrase, repl, author, stamp));
    forall i | 0 <= i < |para.kids| ensures kids[i] == para.kids[i] {
      RewriteFree(para.kids[i], phrase, repl, author, stamp);
    }
    assert kids == para.kids;
  }

  /** The run loop stops at run `m` of child `i` when every earlier child
      and every earlier run of child `i` pass: child `i` is the one found,
      its scan is that run's check, and the run is a child of the paragraph
      iff it is child `i` itself. */
  lemma StopsAt(para: Node, phrase: string, i: nat, m: nat)
    requires i < |para.kids| && m < |Iter(para.kids[i], "w:r")|
    requires forall k :: 0 <= k < i ==> ScanNode(para.kids[k], phrase) == Pass
    requires forall k :: 0 <= k < m ==> RunCheck(Iter(para.kids[i], "w:r")[k], phrase) == Pass
    requires RunCheck(Iter(para.kids[i], "w:r")[m], phrase) != Pass
    ensures FoundAt(para.kids, phrase) == Some(i)
    ensures ScanNode(para.kids[i], phrase) == RunCheck(Iter(para.kids[i], "w:r")[m], phrase)
    ensures m == 0 && para.kids[i].tag == "w:r" ==> Iter(para.kids[i], "w:r")[m] == para.kids[i]
    ensures m != 0 && para.kids[i].tag == "w:r" ==> RunCheck(para.kids[i], phrase) == Pass
  {
    var runs := Iter(para.kids[i], "w:r");
    ScanNodeIsStop(para.kids[i], phrase);
    assert FirstStop(Checks(runs, phrase)) == Some(m);
    if para.kids[i].tag == "w:r" {
      assert runs[0] == para.kids[i];
    }
  }

  /** A child none of whose runs stops the loop is passed over. */
  lemma PassesThrough(kid: Node, phrase: string)
    requires forall k :: 0 <= k < |Iter(kid, "w:r")| ==> RunCheck(Iter(kid, "w:r")[k], phrase) == Pass
    ensures ScanNode(kid, phrase) == Pass
  {
    ScanNodeIsStop(kid, phrase);
    assert FirstStop(Checks(Iter(kid, "w:r"), phrase)).None?;
  }

  // ---------------------------------------------------------------------------
  // the object

  class ActivatorChangesInserter {
    /** The package file at the object's path. */
    var disk: Package
    const author: string
    /** The clock reading taken at construction. */
    const timestamp: string
    var docTree: Node
    /** The other entries as they were at construction. */
    var otherFiles: Package

    /** The object over a package whose document entry loads; `Open` is
        `__init__` with its raising cases. */
    constructor(disk: Package, author: string, timestamp: string)
      requires TI.Load(disk).Success?
      ensures this.disk == disk && this.author == author && this.timestamp == timestamp
      ensures (docTree, otherFiles) == TI.Load(disk).value
    {
      this.disk := disk;
      this.author := author;
      this.timestamp := timestamp;
      docTree := ViewOf(disk, TI.DocumentName).root;
      otherFiles := TI.Captured(disk);
    }

    method EnableTrackChanges() returns (r: Result<(), TI.InsertError>)
      modifies this
      ensures r.Failure? <==> TI.EnableSpec(old(disk)).Failure?
      ensures disk == (if r.Success? then TI.EnableSpec(old(disk)).value else old(disk))
      ensures docTree == old(docTree) && otherFiles == old(otherFiles)
    {
      var spec := TI.EnableSpec(disk);
      if spec.Failure? {
        return Failure(spec.error);
      }
      disk := spec.value;
      return Success(());
    }

    /** `apply_to_paragraph`: the runs `.//w:r` are visited in document
        order, child by child: the runs of a child's subtree, the child
        itself first when it is a run. The first run whose first `w:t`
        contains the phrase is split and removed; the result is the new
        paragraph. */
    method ApplyToParagraph(para: Node, phrase: string, repl: string) returns (r: Result<TI.Step, TI.InsertError>)
      ensures r == Outcome(para, phrase, repl, author, timestamp)
    {
      for i := 0 to |para.kids|
        invariant forall k :: 0 <= k < i ==> ScanNode(para.kids[k], phrase) == Pass
      {
        var runs := Iter(para.kids[i], "w:r");
        for m := 0 to |runs|
          invariant forall k :: 0 <= k < m ==> RunCheck(runs[k], phrase) == Pass
        {
          var t := FindChild(runs[m], "w:t");
          if t.Some? && (t.value.text.None? || Contains(t.value.text.value, phrase)) {
            StopsAt(para, phrase, i, m);
            if t.value.text.None? {
              return Failure(TI.NoText);
            }
            if phrase == "" {
              return Failure(TI.EmptyPhrase);
            }
            var (before, after) := Partition(t.value.text.value, phrase);
            if m != 0 || para.kids[i].tag != "w:r" {
              return Failure(TI.NotAChild);
            }
            return Success(TI.Replaced(para.(kids := para.kids[..i] + para.kids[i + 1..] + TI.Replacement(before, after, phrase, repl, author, timestamp))));
          }
        }
        PassesThrough(para.kids[i], phrase);
      }
      return Success(TI.Unmatched);
    }

    /** The loop of `apply_tracked_replacement` over the paragraphs, in
        document order; the result is how many were replaced. */
    method ApplyToParagraphs(paras: seq<Node>, phrase: string, repl: string) returns (r: Result<nat, TI.InsertError>)
      ensures r == Tally(Outcomes(paras, phrase, repl, author, timestamp))
    {
      ghost var outs := Outcomes(paras, phrase, repl, author, timestamp);
      var count := 0;
      for i := 0 to |paras|
        invariant Tally(outs[..i]) == Success(count)
      {
        TallyNext(outs, i, count);
        var step := ApplyToParagraph(paras[i], phrase, repl);
        assert step == outs[i];
        if step.Failure? {
          TallyFailureSticks(outs, i + 1);
          return Failure(step.error);
        }
        if step.value.Replaced? {
          count := count + 1;
        }
      }
      assert outs[..|paras|] == outs;
      return Success(count);
    }

    /** `apply_tracked_replacement`: every paragraph of the document, in
        document order; the result is how many were replaced. */
    method ApplyTrackedReplacement(phrase: string, repl: string) returns (r: Result<nat, TI.InsertError>)
      modifies this
      ensures r == Tally(Outcomes(Iter(old(docTree), "w:p"), phrase, repl, author, timestamp))
      ensures r.Failure? ==> docTree == old(docTree)
      ensures r.Success? ==> docTree == Rewrite(old(docTree), phrase, repl, author, timestamp)
      ensures disk == old(disk) && otherFiles == old(otherFiles)
    {
      r := ApplyToParagraphs(Iter(docTree, "w:p"), phrase, repl);
      if r.Success? {
        docTree := Rewrite(docTree, phrase, repl, author, timestamp);
      }
    }

    /** `save`: writes the entries captured at construction and the current
        document; with no output path the package file is overwritten. */
    method Save(toOwnPath: bool) returns (written: Package)
      modifies this
      ensures written == TI.Saved(otherFiles, docTree)
      ensures disk == (if toOwnPath then written else old(disk))
      ensures docTree == old(docTree) && otherFiles == old(otherFiles)
    {
      written := TI.Saved(otherFiles, docTree);
      if toOwnPath {
        disk := written;
      }
    }

    /** `save` as evidently intended: the other entries are read from the
        package file when saving. */
    method SaveCurrent(toOwnPath: bool) returns (written: Package)
      modifies this
      ensures written == TI.Saved(TI.Captured(old(disk)), docTree)
      ensures disk == (if toOwnPath then written else old(disk))
      ensures docTree == old(docTree) && otherFiles == old(otherFiles)
    {
      written := TI.Saved(TI.Captured(disk), docTree);
      if toOwnPath {
        disk := written;
      }
    }
  }

  /** `__init__`: the object, or the error loading the document raises. */
  method Open(disk: Package, author: string, timestamp: string) returns (r: Result<ActivatorChangesInserter, TI.InsertError>)
    ensures r.Failure? ==> TI.Load(disk) == Failure(r.error)
    ensures r.Success? ==> TI.Load(disk).Success? && fresh(r.value)
                           && r.value.disk == disk && r.value.author == author && r.value.timestamp == timestamp
                           && (r.value.docTree, r.value.otherFiles) == TI.Load(disk).value
  {
    var loaded := TI.Load(disk);
    if loaded.Failure? {
      return Failure(loaded.error);
    }
    var ins := new ActivatorChangesInserter(disk, author, timestamp);
    return Success(ins);
  }

  /** Lines 131-146 of `main` around the edit: the object is made, tracking
      is turned on and `save` writes over the package file. As written, the
      settings written are the ones read at construction, so a file that did
      not track revisions still does not. */
  method EnableAndSave(disk: Package, author: string, timestamp: string) returns (r: Result<Package, TI.InsertError>)
    ensures r.Failure? <==> TI.Load(disk).Failure? || TI.EnableSpec(disk).Failure?
    ensures r.Success? ==> r.value == TI.Saved(TI.Captured(disk), TI.Load(disk).value.0)
    ensures r.Success? && !HasChild(ViewOf(disk, TI.SettingsName).root, "w:trackRevisions") ==>
              !HasChild(ViewOf(r.value, TI.SettingsName).root, "w:trackRevisions")
  {
    var made := Open(disk, author, timestamp);
    if made.Failure? {
      return Failure(made.error);
    }
    var ins := made.value;
    var enabled := ins.EnableTrackChanges();
    if enabled.Failure? {
      return Failure(enabled.error);
    }
    var written := ins.Save(true);
    if !HasChild(ViewOf(disk, TI.SettingsName).root, "w:trackRevisions") {
      TI.StaleSaveLosesTracking(disk, ins.docTree);
    }
    return Success(written);
  }

  /** The same with `save` reading the other entries from the file when
      saving: the written settings track revisions. */
  method EnableAndSaveCurrent(disk: Package, author: string, timestamp: string) returns (r: Result<Package, TI.InsertError>)
    ensures r.Failure? <==> TI.Load(disk).Failure? || TI.EnableSpec(disk).Failure?
    ensures r.Success? ==> r.value == TI.Saved(TI.Captured(TI.EnableSpec(disk).value), TI.Load(disk).value.0)
    ensures r.Success? ==> HasChild(ViewOf(r.value, TI.SettingsName).root, "w:trackRevisions")
  {
    var made := Open(disk, author, timestamp);
    if made.Failure? {
      return Failure(made.error);
    }
    var ins := made.value;
    var enabled := ins.EnableTrackChanges();
    if enabled.Failure? {
      return Failure(enabled.error);
    }
    var written := ins.SaveCurrent(true);
    TI.CurrentSaveKeepsTracking(disk, ins.docTree);
    return Success(written);
  }
}
