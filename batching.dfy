// Token-aware batching of a structured document into requests for the
// language-improvement service: the element list, the greedy chunker, and
// the gathering of the per-chunk suggestion lists.

module Batching {
  import opened Wrappers
  import SI = StructureIndex
  import LS = LegacyStructure

  // ---------------------------------------------------------------------------
  // the elements sent for review
  // ---------------------------------------------------------------------------

  /** The structure file as the suggestor reads it: its "type" tag, its
    * "paragraphs" list and its "pages" list. */
  datatype Document = Document(kind: string, paragraphs: seq<LS.Entry>, pages: seq<SI.Page>)

  /** One element sent for review: a paragraph record as found in the
    * structure, or a PDF line flattened to carry its page number. */
  datatype Element = Paragraph(entry: LS.Entry) | PdfLine(page: nat, line: nat, text: string)

  /** The lines of one page, each tagged with the page number. */
  function PageElements(p: SI.Page): seq<Element>
  {
    seq(|p.lines|, i requires 0 <= i < |p.lines| => PdfLine(p.page, p.lines[i].line, p.lines[i].text))
  }

  /** All PDF lines, page by page and within a page in line order. */
  function PdfElements(pages: seq<SI.Page>): seq<Element>
  {
    if pages == [] then [] else PdfElements(pages[..|pages| - 1]) + PageElements(pages[|pages| - 1])
  }

  /** Flattening is page-major: the pages' element lists concatenated. */
  lemma {:induction false} PdfElementsAppend(a: seq<SI.Page>, b: seq<SI.Page>)
    ensures PdfElements(a + b) == PdfElements(a) + PdfElements(b)
    decreases |b|
  {
    if b == [] {
      assert a + b == a;
    } else {
      var b' := b[..|b| - 1];
      var last := PageElements(b[|b| - 1]);
      assert (a + b)[..|a + b| - 1] == a + b';
      assert (a + b)[|a + b| - 1] == b[|b| - 1];
      assert PdfElements(a + b) == PdfElements(a + b') + last;
      PdfElementsAppend(a, b');
      assert PdfElements(b) == PdfElements(b') + last;
      assert (PdfElements(a) + PdfElements(b')) + last == PdfElements(a) + (PdfElements(b') + last);
    }
  }

  /** An element is produced exactly when some page holds that line. */
  lemma {:induction false} PdfElementsMembership(pages: seq<SI.Page>, e: Element)
    ensures e in PdfElements(pages) <==>
      exists k, j :: 0 <= k < |pages| && 0 <= j < |pages[k].lines| &&
        e == PdfLine(pages[k].page, pages[k].lines[j].line, pages[k].lines[j].text)
  {
    if pages != [] {
      var init := pages[..|pages| - 1];
      var last := pages[|pages| - 1];
      PdfElementsMembership(init, e);
      if e in PageElements(last) {
        var j :| 0 <= j < |last.lines| && PageElements(last)[j] == e;
        assert pages[|pages| - 1] == last;
      }
      if exists k, j :: 0 <= k < |pages| && 0 <= j < |pages[k].lines| &&
          e == PdfLine(pages[k].page, pages[k].lines[j].line, pages[k].lines[j].text) {
        var k, j :| 0 <= k < |pages| && 0 <= j < |pages[k].lines| &&
          e == PdfLine(pages[k].page, pages[k].lines[j].line, pages[k].lines[j].text);
        if k < |init| {
          assert init[k] == pages[k];
        } else {
          assert PageElements(last)[j] == e;
        }
      }
    }
  }

  /** The elements to batch: the paragraphs of a "docx" structure, the
    * flattened lines of a "pdf" structure, and an error for any other type. */
  function Elements(doc: Document): (r: Result<seq<Element>, string>)
    ensures r.Failure? <==> doc.kind != "docx" && doc.kind != "pdf"
    ensures doc.kind == "docx" ==> r == Success(seq(|doc.paragraphs|, i requires 0 <= i < |doc.paragraphs| => Paragraph(doc.paragraphs[i])))
    ensures r.Failure? ==> r.error == "Unsupported document type."
  {
    if doc.kind == "docx" then
      Success(seq(|doc.paragraphs|, i requires 0 <= i < |doc.paragraphs| => Paragraph(doc.paragraphs[i])))
    else if doc.kind == "pdf" then
      Success(PdfElements(doc.pages))
    else
      Failure("Unsupported document type.")
  }

  // ---------------------------------------------------------------------------
  // the greedy chunker
  // ---------------------------------------------------------------------------

  /** Total serialised length of a list of elements. */
  function Sum<T>(size: T -> nat, xs: seq<T>): nat
  {
    if xs == [] then 0 else Sum(size, xs[..|xs| - 1]) + size(xs[|xs| - 1])
  }

  /** The chunks laid end to end. */
  function Flatten<T>(cs: seq<seq<T>>): seq<T>
  {
    if cs == [] then [] else Flatten(cs[..|cs| - 1]) + cs[|cs| - 1]
  }

  /** The chunker's running state: the closed chunks, the open chunk and the
    * character count charged to the open chunk. */
  datatype State<T> = State(chunks: seq<seq<T>>, current: seq<T>, count: int)

  /** One element: it closes the open chunk and starts a new one exactly when
    * it would push the count past the budget; a new chunk is charged the
    * prompt again. */
  function Step<T>(prompt: nat, budget: int, size: T -> nat, s: State<T>, e: T): State<T>
  {
    if s.count + size(e) > budget then State(s.chunks + [s.current], [e], prompt + size(e))
    else State(s.chunks, s.current + [e], s.count + size(e))
  }

  /** The state after the given elements, starting with one empty open chunk
    * charged the prompt length. */
  function Run<T>(prompt: nat, budget: int, size: T -> nat, elems: seq<T>): State<T>
  {
    if elems == [] then State([], [], prompt)
    else Step(prompt, budget, size, Run(prompt, budget, size, elems[..|elems| - 1]), elems[|elems| - 1])
  }

  /** The chunks sent: the closed ones, and the open one when it is non-empty. */
  function Chunks<T>(prompt: nat, budget: int, size: T -> nat, elems: seq<T>): seq<seq<T>>
  {
    var s := Run(prompt, budget, size, elems);
    if s.current != [] then s.chunks + [s.current] else s.chunks
  }

  /** What a greedy split promises, stated on the chunks alone: they give the
    * elements back in order; no chunk but the first is empty; every chunk
    * after the first starts because its first element did not fit beside the
    * previous chunk; and a non-empty first chunk, or any chunk of two or more
    * elements, keeps the prompt plus its elements within the budget (only a
    * single element alone may exceed it). */
  ghost predicate Greedy<T>(prompt: nat, budget: int, size: T -> nat, elems: seq<T>, cs: seq<seq<T>>)
  {
    && Flatten(cs) == elems
    && (forall k :: 1 <= k < |cs| ==> cs[k] != [] && prompt + Sum(size, cs[k - 1]) + size(cs[k][0]) > budget)
    && (forall k :: 0 <= k < |cs| && (k == 0 || |cs[k]| >= 2) ==> prompt + Sum(size, cs[k]) <= budget || cs[k] == [])
  }

  lemma SumSnoc<T>(size: T -> nat, xs: seq<T>, e: T)
    ensures Sum(size, xs + [e]) == Sum(size, xs) + size(e)
  {
    assert (xs + [e])[..|xs|] == xs;
  }

  lemma FlattenSnoc<T>(cs: seq<seq<T>>, c: seq<T>)
    ensures Flatten(cs + [c]) == Flatten(cs) + c
  {
    assert (cs + [c])[..|cs|] == cs;
  }

  /** The closed chunks followed by the open one. */
  function Open<T>(s: State<T>): seq<seq<T>>
  {
    s.chunks + [s.current]
  }

  /** The state the loop keeps: the open chunk list is greedy over the
    * elements so far, and the count is the prompt plus the open chunk. */
  ghost predicate Inv<T>(prompt: nat, budget: int, size: T -> nat, elems: seq<T>, s: State<T>)
  {
    Greedy(prompt, budget, size, elems, Open(s)) && s.count == prompt + Sum(size, s.current)
  }

  lemma {:induction false} StepKeepsInv<T>(prompt: nat, budget: int, size: T -> nat, elems: seq<T>, s: State<T>, e: T)
    requires Inv(prompt, budget, size, elems, s)
    ensures Inv(prompt, budget, size, elems + [e], Step(prompt, budget, size, s, e))
    ensures Step(prompt, budget, size, s, e).current != []
  {
    var o := Open(s);
    var t := Step(prompt, budget, size, s, e);
    var o' := Open(t);
    if s.count + size(e) > budget {
      assert o' == o + [[e]];
      FlattenSnoc(o, [e]);
      SumSnoc(size, [], e);
      assert [] + [e] == [e];
      forall k | 1 <= k < |o'|
        ensures o'[k] != [] && prompt + Sum(size, o'[k - 1]) + size(o'[k][0]) > budget
      {
        if k == |o| {
          assert o'[k - 1] == s.current;
        } else {
          assert o'[k - 1] == o[k - 1] && o'[k] == o[k];
        }
      }
      forall k | 0 <= k < |o'| && (k == 0 || |o'[k]| >= 2)
        ensures prompt + Sum(size, o'[k]) <= budget || o'[k] == []
      {
        assert k < |o|;
        assert o'[k] == o[k];
      }
    } else {
      var n := |o| - 1;
      assert o' == o[..n] + [s.current + [e]];
      assert o == o[..n] + [s.current];
      FlattenSnoc(o[..n], s.current);
      FlattenSnoc(o[..n], s.current + [e]);
      SumSnoc(size, s.current, e);
      forall k | 1 <= k < |o'|
        ensures o'[k] != [] && prompt + Sum(size, o'[k - 1]) + size(o'[k][0]) > budget
      {
        assert o'[k - 1] == o[k - 1];
        if k == n {
          assert s.current != [];
          assert o'[k][0] == o[k][0];
        } else {
          assert o'[k] == o[k];
        }
      }
      forall k | 0 <= k < |o'| && (k == 0 || |o'[k]| >= 2)
        ensures prompt + Sum(size, o'[k]) <= budget || o'[k] == []
      {
        if k < n {
          assert o'[k] == o[k];
        }
      }
    }
  }

  lemma {:induction false} RunInv<T>(prompt: nat, budget: int, size: T -> nat, elems: seq<T>)
    ensures Inv(prompt, budget, size, elems, Run(prompt, budget, size, elems))
    ensures elems != [] ==> Run(prompt, budget, size, elems).current != []
    decreases |elems|
  {
    if elems == [] {
      var s0: State<T> := State([], [], prompt);
      assert Open(s0) == [[]];
      assert Flatten<T>([[]]) == Flatten<T>([]) + [];
    } else {
      var init := elems[..|elems| - 1];
      RunInv(prompt, budget, size, init);
      assert init + [elems[|elems| - 1]] == elems;
      StepKeepsInv(prompt, budget, size, init, Run(prompt, budget, size, init), elems[|elems| - 1]);
    }
  }

  /** The chunks the loop sends are a greedy split of the elements. */
  lemma ChunksGreedy<T>(prompt: nat, budget: int, size: T -> nat, elems: seq<T>)
    ensures Greedy(prompt, budget, size, elems, Chunks(prompt, budget, size, elems))
  {
    RunInv(prompt, budget, size, elems);
    var s := Run(prompt, budget, size, elems);
    if s.current == [] {
      assert elems == [];
      assert s == State([], [], prompt);
    }
  }

  /** No chunks are sent exactly when there are no elements. */
  lemma ChunksEmptyIff<T>(prompt: nat, budget: int, size: T -> nat, elems: seq<T>)
    ensures Chunks(prompt, budget, size, elems) == [] <==> elems == []
  {
    RunInv(prompt, budget, size, elems);
  }

  /** The first chunk is empty exactly when the first element alone, charged
    * with the prompt, exceeds the budget. */
  lemma {:induction false} FirstChunkEmptyIff<T>(prompt: nat, budget: int, size: T -> nat, elems: seq<T>)
    requires elems != []
    ensures var cs := Chunks(prompt, budget, size, elems);
      cs != [] && (cs[0] == [] <==> prompt + size(elems[0]) > budget)
  {
    var cs := Chunks(prompt, budget, size, elems);
    ChunksEmptyIff(prompt, budget, size, elems);
    ChunksGreedy(prompt, budget, size, elems);
    assert cs == [cs[0]] + cs[1..];
    FlattenCons(cs[0], cs[1..]);
    if cs[0] == [] {
      assert cs[1..] != [];
      assert cs[1..] == [cs[1]] + cs[2..];
      FlattenCons(cs[1], cs[2..]);
      assert cs[1][0] == elems[0];
      assert Sum(size, cs[0]) == 0;
    } else {
      assert cs[0][0] == elems[0];
      SumPrefix(size, cs[0], 1);
      assert cs[0][..1] == [] + [cs[0][0]];
      SumSnoc(size, [], cs[0][0]);
    }
  }

  /** As written: a first element that does not fit beside the prompt closes
    * the still empty open chunk, so an empty chunk goes out as a request of
    * its own. */
  lemma EmptyFirstRequest()
    ensures Chunks(0, 1, (x: int) => 2, [7]) == [[], [7]]
  {
    var size := (x: int) => 2;
    assert [7][..0] == [];
    var s0: State<int> := State([], [], 0);
    assert Run(0, 1, size, [7]) == Step(0, 1, size, s0, 7);
  }

  /** Corrected: the chunks sent when the open chunk is closed only while it
    * holds something, as the final send already does; an oversize first
    * element then opens the first chunk itself. */
  function SentChunks<T>(prompt: nat, budget: int, size: T -> nat, elems: seq<T>): seq<seq<T>>
  {
    var cs := Chunks(prompt, budget, size, elems);
    if cs != [] && cs[0] == [] then cs[1..] else cs
  }

  /** What the corrected split promises: the chunks give the elements back
    * in order, none of them is empty, and each chunk after the first starts
    * because its first element did not fit beside the previous chunk. */
  ghost predicate Sent<T>(prompt: nat, budget: int, size: T -> nat, elems: seq<T>, cs: seq<seq<T>>)
  {
    && Flatten(cs) == elems
    && (forall k :: 0 <= k < |cs| ==> cs[k] != [])
    && (forall k :: 1 <= k < |cs| ==> prompt + Sum(size, cs[k - 1]) + size(cs[k][0]) > budget)
  }

  lemma SentChunksNonEmpty<T>(prompt: nat, budget: int, size: T -> nat, elems: seq<T>)
    ensures Sent(prompt, budget, size, elems, SentChunks(prompt, budget, size, elems))
  {
    var all := Chunks(prompt, budget, size, elems);
    ChunksGreedy(prompt, budget, size, elems);
    if all != [] && all[0] == [] {
      GreedyTailSent(prompt, budget, size, elems, all);
    }
  }

  /** A greedy split whose first chunk is empty is sent without it. */
  lemma GreedyTailSent<T>(prompt: nat, budget: int, size: T -> nat, elems: seq<T>, cs: seq<seq<T>>)
    requires Greedy(prompt, budget, size, elems, cs)
    requires cs != [] && cs[0] == []
    ensures Sent(prompt, budget, size, elems, cs[1..])
  {
    var tail := cs[1..];
    assert cs == [cs[0]] + tail;
    FlattenCons(cs[0], tail);
    forall k | 0 <= k < |tail| ensures tail[k] != [] {
      assert tail[k] == cs[k + 1];
    }
    forall k | 1 <= k < |tail|
      ensures prompt + Sum(size, tail[k - 1]) + size(tail[k][0]) > budget
    {
      assert tail[k - 1] == cs[k] && tail[k] == cs[k + 1];
    }
  }

  lemma {:induction false} FlattenCons<T>(c: seq<T>, rest: seq<seq<T>>)
    ensures Flatten([c] + rest) == c + Flatten(rest)
    decreases |rest|
  {
    if rest == [] {
      assert [c] + rest == [] + [c];
      FlattenSnoc([], c);
    } else {
      var init := rest[..|rest| - 1];
      var last := rest[|rest| - 1];
      FlattenCons(c, init);
      assert [c] + rest == ([c] + init) + [last];
      assert rest == init + [last];
      FlattenSnoc([c] + init, last);
      FlattenSnoc(init, last);
    }
  }

  lemma {:induction false} SumPrefix<T>(size: T -> nat, xs: seq<T>, j: nat)
    requires j <= |xs|
    ensures Sum(size, xs[..j]) <= Sum(size, xs)
    decreases |xs|
  {
    if j < |xs| {
      var init := xs[..|xs| - 1];
      assert xs[..j] == init[..j];
      SumPrefix(size, init, j);
    } else {
      assert xs[..j] == xs;
    }
  }

  /** The chunking loop: one pass over the elements with the budget set at
    * four characters per token, sending the open chunk at the end when it is
    * non-empty. */
  method ChunkElements<T>(prompt: nat, maxTokens: int, size: T -> nat, elements: seq<T>) returns (chunks: seq<seq<T>>)
    ensures chunks == Chunks(prompt, maxTokens * 4, size, elements)
    ensures Greedy(prompt, maxTokens * 4, size, elements, chunks)
  {
    chunks := [];
    var current: seq<T> := [];
    var count: int := prompt;
    for i := 0 to |elements|
      invariant Run(prompt, maxTokens * 4, size, elements[..i]) == State(chunks, current, count)
    {
      var e := elements[i];
      if count + size(e) > maxTokens * 4 {
        chunks := chunks + [current];
        current := [e];
        count := prompt + size(e);
      } else {
        current := current + [e];
        count := count + size(e);
      }
      assert elements[..i + 1][..i] == elements[..i];
    }
    assert elements[..|elements|] == elements;
    if current != [] {
      chunks := chunks + [current];
    }
    ChunksGreedy(prompt, maxTokens * 4, size, elements);
  }

  // ---------------------------------------------------------------------------
  // gathering the suggestions
  // ---------------------------------------------------------------------------

  /** What one request contributes: its parsed list, or nothing when the call
    * or its parsing failed. */
  function Contribution<S>(reply: Option<seq<S>>): seq<S>
  {
    match reply
    case Some(xs) => xs
    case None => []
  }

  /** The suggestion lists of the requests in order, failed ones skipped. */
  function Gathered<S>(replies: seq<Option<seq<S>>>): seq<S>
  {
    if replies == [] then [] else Gathered(replies[..|replies| - 1]) + Contribution(replies[|replies| - 1])
  }

  /** Gathering respects request order. */
  lemma {:induction false} GatheredAppend<S>(a: seq<Option<seq<S>>>, b: seq<Option<seq<S>>>)
    ensures Gathered(a + b) == Gathered(a) + Gathered(b)
    decreases |b|
  {
    if b == [] {
      assert a + b == a;
    } else {
      var b' := b[..|b| - 1];
      var last := Contribution(b[|b| - 1]);
      assert (a + b)[..|a + b| - 1] == a + b';
      assert (a + b)[|a + b| - 1] == b[|b| - 1];
      assert Gathered(a + b) == Gathered(a + b') + last;
      GatheredAppend(a, b');
      assert Gathered(b) == Gathered(b') + last;
      assert (Gathered(a) + Gathered(b')) + last == Gathered(a) + (Gathered(b') + last);
    }
  }

  /** A failed request contributes nothing, wherever it stands. */
  lemma FailureContributesNothing<S>(a: seq<Option<seq<S>>>, b: seq<Option<seq<S>>>)
    ensures Gathered(a + [None] + b) == Gathered(a + b)
  {
    GatheredAppend(a + [None], b);
    GatheredAppend(a, b);
    assert (a + [None])[..|a|] == a;
  }

  /** A suggestion is gathered exactly when some successful request returned it. */
  lemma {:induction false} GatheredMembership<S>(replies: seq<Option<seq<S>>>, x: S)
    ensures x in Gathered(replies) <==>
      exists k :: 0 <= k < |replies| && replies[k].Some? && x in replies[k].value
  {
    if replies != [] {
      var init := replies[..|replies| - 1];
      GatheredMembership(init, x);
      if exists k :: 0 <= k < |replies| && replies[k].Some? && x in replies[k].value {
        var k :| 0 <= k < |replies| && replies[k].Some? && x in replies[k].value;
        if k < |init| {
          assert init[k] == replies[k];
        }
      }
    }
  }

  /** The replies to the requests, one per chunk, in chunk order. */
  function Replies<S>(reply: nat -> Option<seq<S>>, n: nat): seq<Option<seq<S>>>
  {
    seq(n, i requires 0 <= i < n => reply(i))
  }

  /** The suggestor's state: its policy prompt and the suggestions it holds. */
  class Suggestor<S> {
    const policyPrompt: string
    var jsonSuggestions: Option<seq<S>>

    constructor (policyPrompt: string)
      ensures this.policyPrompt == policyPrompt && jsonSuggestions == None
    {
      this.policyPrompt := policyPrompt;
      jsonSuggestions := None;
    }

    /** Token-aware batching: split the document's elements into chunks that
      * fit the budget, send one request per chunk (reply i is the service's
      * parsed answer to request i, None when it failed), and keep the
      * concatenation of the answers; an unsupported document type raises
      * before anything is sent and leaves the held suggestions as they were. */
    method SuggestBatched(doc: Document, maxTokens: int, size: Element -> nat, reply: nat -> Option<seq<S>>)
      returns (r: Result<seq<seq<Element>>, string>)
      modifies this
      ensures r.Failure? <==> Elements(doc).Failure?
      ensures r.Failure? ==> r.error == Elements(doc).error && jsonSuggestions == old(jsonSuggestions)
      ensures r.Success? ==>
        && r.value == Chunks(|policyPrompt|, maxTokens * 4, size, Elements(doc).value)
        && jsonSuggestions == Some(Gathered(Replies(reply, |r.value|)))
    {
      var elements := Elements(doc);
      if elements.Failure? {
        return Failure(elements.error);
      }
      var chunks := ChunkElements(|policyPrompt|, maxTokens, size, elements.value);
      var all: seq<S> := [];
      for i := 0 to |chunks|
        invariant all == Gathered(Replies(reply, i))
      {
        assert Replies(reply, i + 1)[..i] == Replies(reply, i);
        all := all + Contribution(reply(i));
      }
      jsonSuggestions := Some(all);
      r := Success(chunks);
    }
  }
}
