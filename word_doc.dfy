/** The python-docx view of a document body that both markup editors work on:
    body paragraphs made of runs, a run's text and the two pieces of
    character formatting the editors set (strike-through and colour), and the
    suggested changes as they are read from JSON. */
module WordDoc {
  import opened Wrappers
  import opened Text

  datatype Rgb = Rgb(red: int, green: int, blue: int)

  /** `RGBColor(255, 0, 0)`, the colour of struck-out text. */
  const Red := Rgb(255, 0, 0)
  /** `RGBColor(0, 128, 0)`, the colour of inserted text. */
  const Green := Rgb(0, 128, 0)

  /** Character formatting of a run: the strike flag and the colour, plus
      every other run property kept opaque so that a run moved as it is can
      be told from a fresh one. */
  datatype Format = Format(strike: bool, color: Option<Rgb>, other: map<string, string>)

  /** The formatting of a run made by `add_run`. */
  const Plain := Format(false, None, map[])

  /** A run made by `add_run` and then struck out in red. */
  const StrikeFormat := Format(true, Some(Red), map[])
  /** A run made by `add_run` and then coloured green. */
  const InsertFormat := Format(false, Some(Green), map[])

  datatype Run = Run(text: string, format: Format)

  datatype Paragraph = Paragraph(runs: seq<Run>)

  function RunTexts(runs: seq<Run>): string {
    if runs == [] then [] else RunTexts(runs[..|runs| - 1]) + runs[|runs| - 1].text
  }

  /** `paragraph.text`: the texts of its runs, in order. */
  function ParaText(p: Paragraph): string {
    RunTexts(p.runs)
  }

  /** `paragraph.text.strip() == ""`: the paragraph has only whitespace. */
  predicate Blank(p: Paragraph) {
    Strip(ParaText(p)) == []
  }

  /** `paragraph.text = s`: all runs replaced by one unformatted run. */
  function SetText(s: string): (p: Paragraph)
    ensures ParaText(p) == s
  {
    var runs := [Run(s, Plain)];
    assert runs[..0] == [];
    assert RunTexts(runs) == RunTexts([]) + s;
    Paragraph(runs)
  }

  lemma {:induction false} RunTextsAppend(a: seq<Run>, b: seq<Run>)
    ensures RunTexts(a + b) == RunTexts(a) + RunTexts(b)
    decreases |b|
  {
    if b == [] {
      assert a + b == a;
    } else {
      var init := b[..|b| - 1];
      assert (a + b)[..|a + b| - 1] == a + init;
      RunTextsAppend(a, init);
    }
  }

  /** The value under a change's "paragraph" key: a JSON integer (Python
      compares `true` and `false` as 1 and 0, so they count as integers too),
      or any other JSON value, which equals no paragraph index and cannot be
      compared with one. */
  datatype ParaValue = Number(n: int) | NotANumber

  /** One suggested change as read from the JSON list: an object with the
      values under the keys "paragraph", "old" and "new", each possibly
      absent; an array or a string, on which `"paragraph" in change` tests
      membership (`holdsParagraph`) and `change["paragraph"]` raises; or a
      number, boolean or null, on which `in` itself raises. */
  datatype Change =
    | Change(paragraph: Option<ParaValue>, oldText: Option<string>, newText: Option<string>)
    | Sequence(holdsParagraph: bool)
    | Scalar

  /** `change.get("paragraph") == idx`: an object whose "paragraph" is the
      integer `idx`. */
  predicate About(c: Change, idx: int) {
    c.Change? && c.paragraph == Some(Number(idx))
  }

  /** An entry on which `"paragraph" in change` raises (a number, boolean or
      null) or on which `change["paragraph"]` then raises (a string or array
      that holds "paragraph"). */
  predicate TypeClash(c: Change) {
    c.Scalar? || (c.Sequence? && c.holdsParagraph)
  }

  /** The messages the editors print about changes they could not place. */
  datatype Notice =
    | OutOfRange(paragraph: int)
    | DidYouMean(oldText: string, paragraph: int, alternative: int)
    | NoMatch(oldText: string, named: ParaValue)

  /** Why an edit raises: `get` on an entry that is not an object
      (AttributeError), a missing key (KeyError), `split` with an empty
      separator (ValueError), or `in`, indexing or `<=` on a value of the
      wrong type (TypeError). */
  datatype EditError = NotAnObjectError | MissingKey(key: string) | EmptySeparator | WrongType

  function Texts(paras: seq<Paragraph>): (r: seq<string>)
    ensures |r| == |paras| && forall i :: 0 <= i < |paras| ==> r[i] == ParaText(paras[i])
  {
    if paras == [] then [] else Texts(paras[..|paras| - 1]) + [ParaText(paras[|paras| - 1])]
  }

  // ---------------------------------------------------------------------------
  // `_suggest_nearby_paragraphs`, the same code in both editors

  /** The offsets tried, in order, when the phrase is not in its paragraph. */
  const Offsets: seq<int> := [-2, -1, 1, 2]

  /** The neighbour at `Offsets[j]` from paragraph `p` exists and contains
      the phrase. */
  predicate Hit(texts: seq<string>, p: int, phrase: string, j: nat)
    requires j < |Offsets|
  {
    1 <= p + Offsets[j] <= |texts| && Contains(texts[p + Offsets[j] - 1], phrase)
  }

  /** The first neighbour (as a 1-based paragraph number) among
      `Offsets[k..]` that is within the document and contains the phrase. */
  function NearbyFrom(texts: seq<string>, p: int, phrase: string, k: nat): (r: Option<int>)
    requires k <= |Offsets|
    ensures r.Some? ==> 1 <= r.value <= |texts| && Contains(texts[r.value - 1], phrase)
                        && exists j :: k <= j < |Offsets| && r.value == p + Offsets[j]
    decreases |Offsets| - k
  {
    if k == |Offsets| then None
    else if Hit(texts, p, phrase, k) then Some(p + Offsets[k])
    else NearbyFrom(texts, p, phrase, k + 1)
  }

  /** The notice for one change about paragraph `p`, or none. */
  function NearbyNotice(texts: seq<string>, p: int, phrase: string): seq<Notice> {
    if !(1 <= p <= |texts|) then [OutOfRange(p)]
    else if Contains(texts[p - 1], phrase) then []
    else match NearbyFrom(texts, p, phrase, 0)
      case None => []
      case Some(alt) => [DidYouMean(phrase, p, alt)]
  }

  /** The inner loop of `_suggest_nearby_paragraphs`: try the offsets in
      order and stop at the first neighbour containing the phrase. */
  method FindNearby(texts: seq<string>, p: int, phrase: string) returns (r: Option<int>)
    ensures r == NearbyFrom(texts, p, phrase, 0)
  {
    var k := 0;
    while k < |Offsets|
      invariant 0 <= k <= |Offsets|
      invariant NearbyFrom(texts, p, phrase, 0) == NearbyFrom(texts, p, phrase, k)
    {
      var alt := p - 1 + Offsets[k];
      if 0 <= alt < |texts| && Contains(texts[alt], phrase) {
        assert Hit(texts, p, phrase, k);
        return Some(alt + 1);
      }
      k := k + 1;
    }
    return None;
  }

  /** One iteration of `_suggest_nearby_paragraphs` for a change naming
      paragraph `p` with the phrase `phrase`. */
  method NoticeFor(texts: seq<string>, p: int, phrase: string) returns (ns: seq<Notice>)
    ensures ns == NearbyNotice(texts, p, phrase)
  {
    if !(1 <= p <= |texts|) {
      return [OutOfRange(p)];
    }
    if Contains(texts[p - 1], phrase) {
      return [];
    }
    var alt := FindNearby(texts, p, phrase);
    if alt.Some? {
      return [DidYouMean(phrase, p, alt.value)];
    }
    return [];
  }

  /** One iteration of `_suggest_nearby_paragraphs`'s outer loop. The
      membership test `"paragraph" in change` raises on a number, boolean or
      null and skips an array or string without that element; indexing an
      array or string that holds it raises; an object without the key is
      skipped; a "paragraph" that is not a number fails the range test. A
      number out of range gives a warning; one in range needs the "old" key. */
  function SuggestOne(texts: seq<string>, c: Change): Result<seq<Notice>, EditError> {
    match c
    case Scalar => Failure(WrongType)
    case Sequence(holds) => if holds then Failure(WrongType) else Success([])
    case Change(para, oldText, _) =>
      match para
      case None => Success([])
      case Some(NotANumber) => Failure(WrongType)
      case Some(Number(p)) =>
        if 1 <= p <= |texts| && oldText.None? then Failure(MissingKey("old"))
        else Success(NearbyNotice(texts, p, oldText.GetOr("")))
  }

  /** The pass raises on exactly the entries that are not objects and hold
      or cannot be searched for "paragraph", on a "paragraph" that is not a
      number, and on a change naming a paragraph in range without "old". */
  lemma SuggestOneMeaning(texts: seq<string>, c: Change)
    ensures SuggestOne(texts, c) == Failure(WrongType) <==>
              TypeClash(c) || (c.Change? && c.paragraph == Some(NotANumber))
    ensures SuggestOne(texts, c) == Failure(MissingKey("old")) <==>
              c.Change? && c.paragraph.Some? && c.paragraph.value.Number?
              && 1 <= c.paragraph.value.n <= |texts| && c.oldText.None?
    ensures SuggestOne(texts, c).Success? && SuggestOne(texts, c).value != [] ==>
              c.Change? && c.paragraph.Some? && c.paragraph.value.Number?
    ensures c.Change? && c.paragraph.None? ==> SuggestOne(texts, c) == Success([])
  {
  }

  /** `_suggest_nearby_paragraphs`: for every change that names a paragraph,
      warn when the number is out of range, and otherwise point at the first
      neighbour at offsets -2, -1, +1, +2 containing the "old" phrase when its
      own paragraph does not; raise where `SuggestOne` does. */
  method SuggestNearby(texts: seq<string>, changes: seq<Change>) returns (r: Result<seq<Notice>, EditError>)
    ensures r == SuggestSpec(texts, changes)
  {
    var notices: seq<Notice> := [];
    var i := 0;
    while i < |changes|
      invariant 0 <= i <= |changes|
      invariant SuggestSpec(texts, changes[..i]) == Success(notices)
    {
      var c := changes[i];
      assert changes[..i + 1] == changes[..i] + [c];
      SuggestSpecAppend(texts, changes[..i], c);
      ghost var before := notices;
      var e: EditError := WrongType;
      var raises := false;
      if TypeClash(c) {
        raises := true;
      } else if c.Change? && c.paragraph.Some? {
        match c.paragraph.value
        case NotANumber =>
          raises := true;
        case Number(p) =>
          if 1 <= p <= |texts| && c.oldText.None? {
            e, raises := MissingKey("old"), true;
          } else {
            var ns := NoticeFor(texts, p, c.oldText.GetOr(""));
            notices := notices + ns;
          }
      }
      if raises {
        SuggestSpecStopsAtError(texts, changes[..i + 1], changes[i + 1..], e);
        assert changes[..i + 1] + changes[i + 1..] == changes;
        return Failure(e);
      }
      assert SuggestOne(texts, c).Success? && notices == before + SuggestOne(texts, c).value;
      i := i + 1;
    }
    assert changes[..i] == changes;
    return Success(notices);
  }

  /** What `_suggest_nearby_paragraphs` reports for `changes`, in order. */
  function SuggestSpec(texts: seq<string>, changes: seq<Change>): Result<seq<Notice>, EditError> {
    if changes == [] then Success([])
    else
      match SuggestSpec(texts, changes[..|changes| - 1])
      case Failure(e) => Failure(e)
      case Success(ns) =>
        match SuggestOne(texts, changes[|changes| - 1])
        case Failure(e) => Failure(e)
        case Success(more) => Success(ns + more)
  }

  lemma SuggestSpecAppend(texts: seq<string>, cs: seq<Change>, c: Change)
    ensures SuggestSpec(texts, cs + [c]) ==
      match SuggestSpec(texts, cs)
      case Failure(e) => Failure(e)
      case Success(ns) =>
        match SuggestOne(texts, c)
        case Failure(e) => Failure(e)
        case Success(more) => Success(ns + more)
  {
    assert (cs + [c])[..|cs + [c]| - 1] == cs;
  }

  lemma {:induction false} SuggestSpecStopsAtError(texts: seq<string>, cs: seq<Change>, rest: seq<Change>, e: EditError)
    requires SuggestSpec(texts, cs) == Failure(e)
    ensures SuggestSpec(texts, cs + rest) == Failure(e)
    decreases |rest|
  {
    if rest != [] {
      var init := rest[..|rest| - 1];
      SuggestSpecStopsAtError(texts, cs, init, e);
      assert cs + rest == (cs + init) + [rest[|rest| - 1]];
      SuggestSpecAppend(texts, cs + init, rest[|rest| - 1]);
    } else {
      assert cs + rest == cs;
    }
  }

  /** A pass that does not raise has met no entry that clashes in type and
      no "paragraph" that is not a number. */
  lemma {:induction false} SuggestSpecTyped(texts: seq<string>, changes: seq<Change>)
    ensures SuggestSpec(texts, changes).Success? ==>
              forall c :: c in changes ==> !TypeClash(c) && !(c.Change? && c.paragraph == Some(NotANumber))
    decreases |changes|
  {
    if changes != [] {
      var init := changes[..|changes| - 1];
      SuggestSpecTyped(texts, init);
      SuggestOneMeaning(texts, changes[|changes| - 1]);
      assert changes == init + [changes[|changes| - 1]];
    }
  }

  /** The suggested neighbour is the first offset, in the order -2, -1, +1,
      +2, that lies in the document and contains the phrase; without one, no
      offset qualifies. */
  lemma {:induction false} NearbyIsFirstInOrder(texts: seq<string>, p: int, phrase: string, k: nat)
    requires k <= |Offsets|
    ensures NearbyFrom(texts, p, phrase, k) == None <==>
      forall j :: k <= j < |Offsets| ==> !Hit(texts, p, phrase, j)
    ensures forall m ::
      (k <= m < |Offsets| && Hit(texts, p, phrase, m) && forall j :: k <= j < m ==> !Hit(texts, p, phrase, j))
      ==> NearbyFrom(texts, p, phrase, k) == Some(p + Offsets[m])
    decreases |Offsets| - k
  {
    if k < |Offsets| {
      NearbyIsFirstInOrder(texts, p, phrase, k + 1);
    }
  }
}
