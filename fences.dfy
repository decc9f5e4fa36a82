// Cleaning of the language service's reply before it is parsed as JSON: a
// reply wrapped in a Markdown code fence has the fence taken off.

module Fences {
  import opened Text

  const Fence: string := "```"

  /** The reply cleaner. A reply whose stripped form does not open with a
    * fence is returned as it is, not even stripped. Otherwise the opening
    * fence goes, with a lowercase `json` tag right after it, then one fence
    * at the end of the stripped remainder, and what is left is stripped. */
  function StripFences(raw: string): (r: string)
    ensures !StartsWith(Strip(raw), Fence) ==> r == raw
    ensures |r| <= |raw|
  {
    var t := Strip(raw);
    if !StartsWith(t, Fence) then raw
    else
      var afterOpen := t[|Fence|..];
      var untagged := if StartsWith(afterOpen, "json") then afterOpen[4..] else afterOpen;
      var body := Strip(untagged);
      var closed := if EndsWith(body, Fence) then body[..|body| - |Fence|] else body;
      Strip(closed)
  }

  /** A cleaned fenced reply has no whitespace left at either end. */
  lemma FencedResultStripped(raw: string)
    requires StartsWith(Strip(raw), Fence)
    ensures Strip(StripFences(raw)) == StripFences(raw)
  {
    var t := Strip(raw);
    var afterOpen := t[|Fence|..];
    var untagged := if StartsWith(afterOpen, "json") then afterOpen[4..] else afterOpen;
    var body := Strip(untagged);
    var closed := if EndsWith(body, Fence) then body[..|body| - |Fence|] else body;
    StripIdempotent(closed);
  }

  // ---------------------------------------------------------------------------
  // stripping facts used by the round trip
  // ---------------------------------------------------------------------------

  lemma {:induction false} LStripConcat(x: string, y: string)
    ensures LStrip(x + y) == if AllSpace(x) then LStrip(y) else LStrip(x) + y
    decreases |x|
  {
    if x != [] {
      assert (x + y)[0] == x[0];
      assert (x + y)[1..] == x[1..] + y;
      LStripConcat(x[1..], y);
      if IsSpace(x[0]) {
        assert AllSpace(x) <==> AllSpace(x[1..]) by {
          if AllSpace(x[1..]) {
            forall i | 0 <= i < |x| ensures IsSpace(x[i]) {
              if i > 0 {
                assert x[i] == x[1..][i - 1];
              }
            }
          }
          if AllSpace(x) {
            forall i | 0 <= i < |x[1..]| ensures IsSpace(x[1..][i]) {
              assert x[1..][i] == x[i + 1];
            }
          }
        }
      }
    } else {
      assert x + y == y;
    }
  }

  lemma LStripNonSpace(s: string)
    requires s != [] && !IsSpace(s[0])
    ensures LStrip(s) == s
  {
  }

  lemma RStripNonSpace(s: string)
    requires s != [] && !IsSpace(s[|s| - 1])
    ensures RStrip(s) == s
  {
  }

  lemma LStripIdempotent(s: string)
    ensures LStrip(LStrip(s)) == LStrip(s)
  {
    LStripSpec(s);
  }

  /** Whitespace added around a text does not change its stripped form. */
  lemma NewlinesAroundStrip(s: string)
    ensures Strip("\n" + s + "\n") == Strip(s)
  {
    assert "\n" + s + "\n" == "\n" + (s + "\n");
    LStripConcat("\n", s + "\n");
    LStripConcat(s, "\n");
    if AllSpace(s) {
      LStripConcat("\n", []);
      assert "\n" + [] == "\n";
      LStripConcat(s, []);
      assert s + [] == s;
    } else {
      var l := LStrip(s);
      assert l + "\n" != [] && IsSpace((l + "\n")[|l + "\n"| - 1]);
      assert (l + "\n")[..|l + "\n"| - 1] == l;
    }
  }

  /** A reply the service wraps as a fenced block, tagged `json` or untagged. */
  function Wrap(tag: string, body: string): string {
    Fence + tag + "\n" + body + "\n" + Fence
  }

  /** The wrapped reply is already stripped and opens with a fence; what
    * follows the fence and its tag is the body between newlines, then the
    * closing fence. */
  lemma {:induction false} OpenWrapped(tag: string, body: string)
    requires tag == "json" || tag == ""
    ensures var w := Wrap(tag, body);
      && Strip(w) == w
      && StartsWith(w, Fence)
      && var afterOpen := w[|Fence|..];
         (if StartsWith(afterOpen, "json") then afterOpen[4..] else afterOpen) == "\n" + body + "\n" + Fence
  {
    var w := Wrap(tag, body);
    LStripNonSpace(w);
    RStripNonSpace(w);
    assert w[..3] == Fence;
    var afterOpen := w[3..];
    var inner := "\n" + body + "\n";
    assert afterOpen == tag + inner + Fence;
    if tag == "json" {
      assert afterOpen[..4] == "json";
      assert afterOpen[4..] == inner + Fence;
    } else {
      assert afterOpen == inner + Fence;
      assert afterOpen[0] == '\n';
    }
  }

  /** Stripping a text followed by a fence strips only its front. */
  lemma StripBeforeFence(inner: string)
    ensures Strip(inner + Fence) == LStrip(inner) + Fence
  {
    LStripConcat(inner, Fence);
    var l := LStrip(inner);
    if AllSpace(inner) {
      LStripNonSpace(Fence);
      LStripAllSpace(inner);
      assert l + Fence == Fence;
    }
    RStripNonSpace(l + Fence);
  }

  /** The cleaner undoes the fence: the body comes back, stripped. */
  lemma UnwrapRoundTrip(tag: string, body: string)
    requires tag == "json" || tag == ""
    ensures StripFences(Wrap(tag, body)) == Strip(body)
  {
    var inner := "\n" + body + "\n";
    OpenWrapped(tag, body);
    StripBeforeFence(inner);
    var l := LStrip(inner);
    var b := l + Fence;
    assert EndsWith(b, Fence);
    assert b[..|b| - 3] == l;
    LStripIdempotent(inner);
    NewlinesAroundStrip(body);
  }

  // ---------------------------------------------------------------------------
  // particular replies
  // ---------------------------------------------------------------------------

  /** Only a lowercase tag is removed: `JSON` stays in the text. */
  lemma UpperTagKept()
    ensures StripFences("```JSON\n[]\n```") == "JSON\n[]"
  {
    var w := "```JSON\n[]\n```";
    assert Strip(w) == w;
    assert StartsWith(w, Fence);
    var afterOpen := w[3..];
    assert afterOpen == "JSON\n[]\n```";
    assert !StartsWith(afterOpen, "json") by {
      assert afterOpen[0] == 'J';
    }
    assert Strip(afterOpen) == afterOpen;
    assert EndsWith(afterOpen, Fence);
    var closed := afterOpen[..|afterOpen| - 3];
    assert closed == "JSON\n[]" + "\n";
    assert RStrip(closed) == RStrip("JSON\n[]");
    assert Strip(closed) == "JSON\n[]";
  }

  /** Only one closing fence is removed. */
  lemma OneClosingFence()
    ensures StripFences("```[]``````") == "[]```"
  {
    var w := "```[]``````";
    assert Strip(w) == w;
    assert StartsWith(w, Fence);
    var afterOpen := w[3..];
    assert afterOpen == "[]``````";
    assert !StartsWith(afterOpen, "json") by {
      assert afterOpen[0] == '[';
    }
    assert Strip(afterOpen) == afterOpen;
    assert EndsWith(afterOpen, Fence);
    var closed := afterOpen[..|afterOpen| - 3];
    assert closed == "[]```";
    assert Strip(closed) == closed;
  }

  /** An unfenced reply keeps its surrounding whitespace. */
  lemma UnfencedUntouched()
    ensures StripFences("  [1]\n") == "  [1]\n"
  {
    var w := "  [1]\n";
    LStripConcat("  ", "[1]\n");
    assert w == "  " + "[1]\n";
    assert AllSpace("  ") by {
      assert "  "[0] == ' ' && "  "[1] == ' ';
    }
    assert LStrip(w) == "[1]\n";
    assert RStrip("[1]\n") == RStrip("[1]");
    assert Strip(w) == "[1]";
    assert !StartsWith("[1]", Fence);
  }
}
