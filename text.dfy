/** String operations the source takes from Python: `str.strip`, the whitespace
    normalisation `re.sub(r'\s+', ' ', text).strip()`, substring search (`in`),
    `str.split`/`re.split` on a literal separator, `str.replace`, `str.partition`
    and `str.endswith` with a tuple of suffixes. */
module Text {
  import opened Wrappers

  /** The characters for which Python's `str.isspace` holds; the regex class `\s`
      on `str` patterns matches exactly these, and `str.strip()` removes them. */
  predicate IsSpace(c: char) {
    c == ' ' || ('\t' <= c <= '\r') || ('\U{1C}' <= c <= '\U{1F}')
    || c == '\U{85}' || c == '\U{A0}' || c == '\U{1680}'
    || ('\U{2000}' <= c <= '\U{200A}')
    || c == '\U{2028}' || c == '\U{2029}' || c == '\U{202F}' || c == '\U{205F}'
    || c == '\U{3000}'
  }

  predicate AllSpace(s: string) {
    forall i :: 0 <= i < |s| ==> IsSpace(s[i])
  }

  // ---------------------------------------------------------------------------
  // strip

  /** `s.lstrip()`: drops the leading whitespace and nothing else. */
  function LStrip(s: string): (r: string)
    ensures |r| <= |s|
  {
    if s != [] && IsSpace(s[0]) then LStrip(s[1..]) else s
  }

  /** `s.lstrip()` is a suffix of `s`, only whitespace goes, and what is
      left does not start with whitespace. */
  lemma {:induction false} LStripSpec(s: string)
    ensures var r := LStrip(s);
      && r == s[|s| - |r|..]
      && AllSpace(s[..|s| - |r|])
      && (r == [] || !IsSpace(r[0]))
    decreases |s|
  {
    if s != [] && IsSpace(s[0]) {
      LStripSpec(s[1..]);
      var r := LStrip(s);
      assert s[1..][|s[1..]| - |r|..] == s[|s| - |r|..];
      assert s[..|s| - |r|] == [s[0]] + s[1..][..|s[1..]| - |r|];
    }
  }

  /** `s.rstrip()`: drops the trailing whitespace and nothing else. */
  function RStrip(s: string): (r: string)
    ensures |r| <= |s|
  {
    if s != [] && IsSpace(s[|s| - 1]) then RStrip(s[..|s| - 1]) else s
  }

  /** `s.rstrip()` is a prefix of `s`, only whitespace goes, and what is
      left does not end with whitespace. */
  lemma {:induction false} RStripSpec(s: string)
    ensures var r := RStrip(s);
      && r == s[..|r|]
      && AllSpace(s[|r|..])
      && (r == [] || !IsSpace(r[|r| - 1]))
    decreases |s|
  {
    if s != [] && IsSpace(s[|s| - 1]) {
      var t := s[..|s| - 1];
      RStripSpec(t);
      var r := RStrip(s);
      assert t[..|r|] == s[..|r|];
      assert s[|r|..] == t[|r|..] + [s[|s| - 1]];
    }
  }

  /** `s.strip()`. */
  function Strip(s: string): string {
    RStrip(LStrip(s))
  }

  lemma {:induction false} LStripAllSpace(s: string)
    requires AllSpace(s)
    ensures LStrip(s) == []
    decreases |s|
  {
    if s != [] {
      LStripAllSpace(s[1..]);
    }
  }

  /** `s.strip()` is the slice of `s` that starts and ends with a non-space
      character and has only whitespace around it. */
  lemma StripSlice(s: string) returns (a: nat, b: nat)
    ensures a <= b <= |s| && Strip(s) == s[a..b]
    ensures AllSpace(s[..a]) && AllSpace(s[b..])
    ensures a < b ==> !IsSpace(s[a]) && !IsSpace(s[b - 1])
  {
    var l := LStrip(s);
    LStripSpec(s);
    a := |s| - |l|;
    var r := RStrip(l);
    RStripSpec(l);
    b := a + |r|;
    assert r == s[a..b];
    assert s[b..] == l[|r|..];
  }

  /** `s.strip()` is empty exactly when `s` is all whitespace. */
  lemma StripEmptyIff(s: string)
    ensures Strip(s) == [] <==> AllSpace(s)
  {
    if AllSpace(s) {
      LStripAllSpace(s);
    } else {
      var i :| 0 <= i < |s| && !IsSpace(s[i]);
      var a, b := StripSlice(s);
    }
  }

  /** Stripping twice is the same as stripping once. */
  lemma StripIdempotent(s: string)
    ensures Strip(Strip(s)) == Strip(s)
  {
    var a, b := StripSlice(s);
    var t := Strip(s);
    if t != [] {
      assert t[0] == s[a] && t[|t| - 1] == s[b - 1];
      assert LStrip(t) == t;
      assert RStrip(t) == t;
    }
  }

  // ---------------------------------------------------------------------------
  // whitespace normalisation: re.sub(r'\s+', ' ', text).strip()

  /** `re.sub(r'\s+', ' ', s)`: every maximal run of whitespace becomes one space. */
  function Collapse(s: string): string
    decreases |s|
  {
    if s == [] then []
    else if IsSpace(s[0]) then [' '] + Collapse(LStrip(s))
    else [s[0]] + Collapse(s[1..])
  }

  /** `re.sub(r'\s+', ' ', s).strip()`, the normalisation of both editors and
      of the direct tracked-change inserter. */
  function Normalize(s: string): string {
    Strip(Collapse(s))
  }

  /** No whitespace but the plain space, and never two spaces in a row. */
  predicate Collapsed(t: string) {
    forall i :: 0 <= i < |t| && IsSpace(t[i]) ==> t[i] == ' ' && (i + 1 < |t| ==> !IsSpace(t[i + 1]))
  }

  /** The normal form: whitespace only as single plain spaces between two
      non-space characters (so none at either end). */
  predicate NormalForm(t: string) {
    forall i :: 0 <= i < |t| && IsSpace(t[i]) ==> t[i] == ' ' && 0 < i < |t| - 1 && !IsSpace(t[i + 1])
  }

  lemma {:induction false} CollapseIsCollapsed(s: string)
    ensures Collapsed(Collapse(s))
    ensures s != [] && !IsSpace(s[0]) ==> Collapse(s) != [] && Collapse(s)[0] == s[0]
    decreases |s|
  {
    if s == [] {
    } else if IsSpace(s[0]) {
      var rest := LStrip(s);
      LStripSpec(s);
      CollapseIsCollapsed(rest);
      var c := Collapse(rest);
      assert Collapse(s) == [' '] + c;
      forall i | 0 <= i < |[' '] + c| && IsSpace(([' '] + c)[i])
        ensures ([' '] + c)[i] == ' ' && (i + 1 < |[' '] + c| ==> !IsSpace(([' '] + c)[i + 1]))
      {
        if i > 0 {
          assert ([' '] + c)[i] == c[i - 1];
        } else if 1 < |[' '] + c| {
          assert rest != [];
          assert ([' '] + c)[1] == c[0] == rest[0];
        }
      }
    } else {
      CollapseIsCollapsed(s[1..]);
      var c := Collapse(s[1..]);
      assert Collapse(s) == [s[0]] + c;
      forall i | 0 <= i < |[s[0]] + c| && IsSpace(([s[0]] + c)[i])
        ensures ([s[0]] + c)[i] == ' ' && (i + 1 < |[s[0]] + c| ==> !IsSpace(([s[0]] + c)[i + 1]))
      {
        assert i > 0;
        assert ([s[0]] + c)[i] == c[i - 1];
        if i + 1 < |[s[0]] + c| {
          assert ([s[0]] + c)[i + 1] == c[i];
        }
      }
    }
  }

  lemma {:induction false} CollapsedIsFixed(t: string)
    requires Collapsed(t)
    ensures Collapse(t) == t
    decreases |t|
  {
    if t == [] {
    } else {
      assert Collapsed(t[1..]) by {
        forall i | 0 <= i < |t[1..]| && IsSpace(t[1..][i])
          ensures t[1..][i] == ' ' && (i + 1 < |t[1..]| ==> !IsSpace(t[1..][i + 1]))
        {
          assert t[1..][i] == t[i + 1];
          if i + 1 < |t[1..]| { assert t[1..][i + 1] == t[i + 2]; }
        }
      }
      CollapsedIsFixed(t[1..]);
      if IsSpace(t[0]) {
        assert LStrip(t) == LStrip(t[1..]);
        if |t| > 1 {
          assert !IsSpace(t[1..][0]);
        }
        assert LStrip(t[1..]) == t[1..];
        assert t == [' '] + t[1..];
      } else {
        assert t == [t[0]] + t[1..];
      }
    }
  }

  lemma StripKeepsCollapsedNormal(c: string)
    requires Collapsed(c)
    ensures NormalForm(Strip(c))
  {
    var a, b := StripSlice(c);
    var t := Strip(c);
    forall i | 0 <= i < |t| && IsSpace(t[i])
      ensures t[i] == ' ' && 0 < i < |t| - 1 && !IsSpace(t[i + 1])
    {
      assert t[i] == c[a + i];
      assert i != 0 && i != |t| - 1;
      assert t[i + 1] == c[a + i + 1];
    }
  }

  /** A normalised string is in normal form. */
  lemma NormalizeIsNormal(s: string)
    ensures NormalForm(Normalize(s))
  {
    CollapseIsCollapsed(s);
    StripKeepsCollapsedNormal(Collapse(s));
  }

  /** A string in normal form is left unchanged by normalisation. */
  lemma NormalFormIsFixed(t: string)
    requires NormalForm(t)
    ensures Normalize(t) == t
  {
    assert Collapsed(t);
    CollapsedIsFixed(t);
    if t != [] {
      assert !IsSpace(t[0]);
      assert !IsSpace(t[|t| - 1]);
      assert LStrip(t) == t;
      assert RStrip(t) == t;
    }
  }

  /** Normalisation is idempotent, and its results are exactly the strings in
      normal form. */
  lemma NormalizeIdempotent(s: string)
    ensures Normalize(Normalize(s)) == Normalize(s)
    ensures Normalize(s) == s <==> NormalForm(s)
  {
    NormalizeIsNormal(s);
    NormalFormIsFixed(Normalize(s));
    if Normalize(s) == s {
      assert NormalForm(s);
    } else if NormalForm(s) {
      NormalFormIsFixed(s);
    }
  }

  // ---------------------------------------------------------------------------
  // substring search: `sub in s`

  predicate IsAt(s: string, sub: string, j: nat) {
    j + |sub| <= |s| && s[j..j + |sub|] == sub
  }

  /** Python's `sub in s`. */
  predicate Contains(s: string, sub: string) {
    exists j :: 0 <= j <= |s| && IsAt(s, sub, j)
  }

  /** The first position at or after `k` where `sub` occurs. */
  function IndexFrom(s: string, sub: string, k: nat): (r: Option<nat>)
    requires k <= |s|
    ensures r.Some? ==> k <= r.value && r.value + |sub| <= |s|
    decreases |s| - k
  {
    if IsAt(s, sub, k) then Some(k)
    else if k + |sub| >= |s| then None
    else IndexFrom(s, sub, k + 1)
  }

  /** `s.find(sub)` as an option: the first position where `sub` occurs. */
  function IndexOf(s: string, sub: string): (r: Option<nat>)
    ensures r.Some? ==> r.value + |sub| <= |s|
  {
    IndexFrom(s, sub, 0)
  }

  lemma {:induction false} IndexFromSpec(s: string, sub: string, k: nat)
    requires k <= |s|
    ensures var r := IndexFrom(s, sub, k);
      && (r.Some? ==> k <= r.value && IsAt(s, sub, r.value)
                      && forall j :: k <= j < r.value ==> !IsAt(s, sub, j))
      && (r.None? ==> forall j :: k <= j <= |s| ==> !IsAt(s, sub, j))
    decreases |s| - k
  {
    if IsAt(s, sub, k) {
    } else if k + |sub| >= |s| {
      assert forall j :: k < j <= |s| ==> !IsAt(s, sub, j);
    } else {
      IndexFromSpec(s, sub, k + 1);
    }
  }

  /** `s.find(sub)` finds `sub` exactly when `sub in s`, and it finds the
      leftmost occurrence. */
  lemma IndexOfSpec(s: string, sub: string)
    ensures IndexOf(s, sub).Some? <==> Contains(s, sub)
    ensures IndexOf(s, sub).Some? ==>
      var i := IndexOf(s, sub).value;
      i + |sub| <= |s| && IsAt(s, sub, i) && forall j :: 0 <= j < i ==> !IsAt(s, sub, j)
  {
    IndexFromSpec(s, sub, 0);
  }

  lemma EmptyIsEverywhere(s: string)
    ensures Contains(s, "") && IndexOf(s, "") == Some(0)
  {
    assert IsAt(s, "", 0);
  }

  // ---------------------------------------------------------------------------
  // split / join / replace


  /** The pieces of `s` around each literal occurrence of `sep`, leftmost and
      non-overlapping: `re.split(re.escape(sep), s)`, which for a non-empty
      `sep` is also `s.split(sep)`. An empty `sep` matches at every position,
      so `s` falls apart into its characters with an empty piece at each end. */
  function SplitOn(s: string, sep: string): (parts: seq<string>)
    ensures |parts| >= 1
    decreases |s|
  {
    if sep == [] then [""] + SplitChars(s) + [""]
    else
      var r := IndexOf(s, sep);
      if r.None? then [s]
      else [s[..r.value]] + SplitOn(s[r.value + |sep|..], sep)
  }

  function SplitChars(s: string): (r: seq<string>)
    ensures |r| == |s| && forall i :: 0 <= i < |s| ==> r[i] == [s[i]]
  {
    if s == [] then [] else [[s[0]]] + SplitChars(s[1..])
  }

  /** `sep.join(parts)`. */
  function Join(parts: seq<string>, sep: string): string {
    if parts == [] then []
    else if |parts| == 1 then parts[0]
    else parts[0] + sep + Join(parts[1..], sep)
  }

  /** `s.replace(pat, rep)`: every leftmost non-overlapping occurrence of `pat`
      replaced; an empty `pat` puts `rep` before every character and at the end. */
  function ReplaceAll(s: string, pat: string, rep: string): string
    decreases |s|
  {
    if pat == [] then
      (if s == [] then rep else rep + [s[0]] + ReplaceAll(s[1..], pat, rep))
    else if |s| < |pat| then s
    else if s[..|pat|] == pat then rep + ReplaceAll(s[|pat|..], pat, rep)
    else [s[0]] + ReplaceAll(s[1..], pat, rep)
  }

  lemma JoinLeadingPiece(p: string, rest: seq<string>, sep: string)
    requires rest != []
    ensures Join([p] + rest, sep) == p + sep + Join(rest, sep)
  {
    assert ([p] + rest)[1..] == rest;
  }

  /** One step of `ReplaceAll` when `pat` is not at the front. */
  lemma ReplaceStep(s: string, pat: string, rep: string)
    requires pat != [] && s != [] && !IsAt(s, pat, 0)
    ensures ReplaceAll(s, pat, rep) == [s[0]] + ReplaceAll(s[1..], pat, rep)
  {
    if |s| >= |pat| {
      assert s[..|pat|] == s[0..0 + |pat|];
    }
  }

  lemma ReplaceAtFront(s: string, pat: string, rep: string)
    requires pat != [] && IsAt(s, pat, 0)
    ensures ReplaceAll(s, pat, rep) == rep + ReplaceAll(s[|pat|..], pat, rep)
  {
    assert s[..|pat|] == s[0..0 + |pat|];
  }

  /** No occurrence before `i` in `s` means none before `i - 1` in `s[1..]`. */
  lemma NoneBeforeInTail(s: string, pat: string, i: nat)
    requires 0 < i <= |s|
    requires forall j :: 0 <= j < i ==> !IsAt(s, pat, j)
    ensures forall j :: 0 <= j < i - 1 ==> !IsAt(s[1..], pat, j)
  {
    forall j | 0 <= j < i - 1 ensures !IsAt(s[1..], pat, j) {
      assert !IsAt(s, pat, j + 1);
      if j + |pat| <= |s[1..]| {
        assert s[1..][j..j + |pat|] == s[j + 1..j + 1 + |pat|];
      }
    }
  }

  /** Characters before the first occurrence of `pat` are copied unchanged. */
  lemma {:induction false} ReplaceSkip(s: string, pat: string, rep: string, i: nat)
    requires pat != [] && i <= |s|
    requires forall j :: 0 <= j < i ==> !IsAt(s, pat, j)
    ensures ReplaceAll(s, pat, rep) == s[..i] + ReplaceAll(s[i..], pat, rep)
    decreases i
  {
    if i == 0 {
      assert s[..i] == [] && s[i..] == s;
    } else {
      var t := s[1..];
      assert !IsAt(s, pat, 0);
      NoneBeforeInTail(s, pat, i);
      ReplaceSkip(t, pat, rep, i - 1);
      assert t[i - 1..] == s[i..];
      ReplaceStep(s, pat, rep);
      SkipOneChar(s, i, ReplaceAll(s, pat, rep), ReplaceAll(t, pat, rep), ReplaceAll(s[i..], pat, rep));
    }
  }

  lemma SkipOneChar(s: string, i: nat, whole: string, tailPart: string, rest: string)
    requires 0 < i <= |s|
    requires whole == [s[0]] + tailPart && tailPart == s[1..][..i - 1] + rest
    ensures whole == s[..i] + rest
  {
    assert s[..i] == [s[0]] + s[1..][..i - 1];
  }

  lemma ReplaceBeforeFirst(s: string, pat: string, rep: string, i: nat)
    requires pat != [] && IsAt(s, pat, i)
    requires forall j :: 0 <= j < i ==> !IsAt(s, pat, j)
    ensures ReplaceAll(s, pat, rep) == s[..i] + rep + ReplaceAll(s[i + |pat|..], pat, rep)
  {
    var rest := s[i..];
    ReplaceSkip(s, pat, rep, i);
    assert IsAt(rest, pat, 0) by {
      assert rest[0..|pat|] == s[i..i + |pat|];
    }
    ReplaceAtFront(rest, pat, rep);
    assert rest[|pat|..] == s[i + |pat|..];
    SpliceFront(ReplaceAll(s, pat, rep), s[..i], ReplaceAll(rest, pat, rep), rep, ReplaceAll(s[i + |pat|..], pat, rep));
  }

  lemma SpliceFront<T>(whole: seq<T>, front: seq<T>, back: seq<T>, mid: seq<T>, rest: seq<T>)
    requires whole == front + back && back == mid + rest
    ensures whole == front + mid + rest
  {
  }

  lemma {:induction false} ReplaceNoOccurrence(s: string, pat: string, rep: string)
    requires pat != [] && !Contains(s, pat)
    ensures ReplaceAll(s, pat, rep) == s
    decreases |s|
  {
    if |s| < |pat| {
    } else {
      assert !IsAt(s, pat, 0);
      assert s[..|pat|] != pat;
      forall j | 0 <= j <= |s[1..]| ensures !IsAt(s[1..], pat, j) {
        if j + |pat| <= |s[1..]| {
          assert s[1..][j..j + |pat|] == s[j + 1..j + 1 + |pat|];
          assert !IsAt(s, pat, j + 1);
        }
      }
      ReplaceNoOccurrence(s[1..], pat, rep);
    }
  }

  /** One step of `SplitOn` at the first occurrence of a non-empty `sep`. */
  lemma SplitStep(s: string, sep: string)
    requires sep != []
    ensures var r := IndexOf(s, sep);
      r.Some? ==> SplitOn(s, sep) == [s[..r.value]] + SplitOn(s[r.value + |sep|..], sep)
  {
  }

  lemma {:induction false} ReplaceEmptyWithEmpty(s: string)
    ensures ReplaceAll(s, "", "") == s
    decreases |s|
  {
    if s != [] {
      ReplaceEmptyWithEmpty(s[1..]);
      assert s == [s[0]] + s[1..];
    }
  }

  /** Joining the split pieces with `rep` is `str.replace(pat, rep)`. */
  lemma {:induction false} SplitJoinIsReplace(s: string, pat: string, rep: string)
    ensures Join(SplitOn(s, pat), rep) == ReplaceAll(s, pat, rep)
    decreases |s|
  {
    if pat == [] {
      JoinCharsDirect(s, rep);
    } else {
      var r := IndexOf(s, pat);
      IndexOfSpec(s, pat);
      if r.None? {
        assert SplitOn(s, pat) == [s];
        ReplaceNoOccurrence(s, pat, rep);
      } else {
        var i := r.value;
        var tail := s[i + |pat|..];
        SplitStep(s, pat);
        assert Join(SplitOn(tail, pat), rep) == ReplaceAll(tail, pat, rep) by {
          SplitJoinIsReplace(tail, pat, rep);
        }
        assert Join(SplitOn(s, pat), rep) == s[..i] + rep + Join(SplitOn(tail, pat), rep) by {
          JoinLeadingPiece(s[..i], SplitOn(tail, pat), rep);
        }
        ReplaceBeforeFirst(s, pat, rep, i);
      }
    }
  }

  /** Joining the split pieces with the separator gives the input back. */
  lemma SplitJoinRoundTrip(s: string, sep: string)
    ensures Join(SplitOn(s, sep), sep) == s
  {
    SplitJoinIsReplace(s, sep, sep);
    ReplaceWithItself(s, sep);
  }

  lemma {:induction false} ReplaceWithItself(s: string, pat: string)
    ensures ReplaceAll(s, pat, pat) == s
    decreases |s|
  {
    if s == [] {
    } else if pat == [] {
      ReplaceWithItself(s[1..], pat);
      assert s == [s[0]] + s[1..];
    } else if |s| < |pat| {
    } else if s[..|pat|] == pat {
      ReplaceWithItself(s[|pat|..], pat);
      assert s == s[..|pat|] + s[|pat|..];
    } else {
      ReplaceWithItself(s[1..], pat);
      assert s == [s[0]] + s[1..];
    }
  }

  lemma {:induction false} JoinCharsDirect(s: string, rep: string)
    ensures Join([""] + SplitChars(s) + [""], rep) == ReplaceAll(s, "", rep)
    decreases |s|
  {
    if s == [] {
      assert [""] + SplitChars(s) + [""] == ["", ""];
      assert Join(["", ""], rep) == "" + rep + Join([""], rep);
    } else {
      var tail := SplitChars(s[1..]);
      JoinCharsDirect(s[1..], rep);
      assert SplitChars(s) == [[s[0]]] + tail;
      assert [""] + SplitChars(s) + [""] == [""] + ([[s[0]]] + (tail + [""]));
      JoinLeadingPiece("", [[s[0]]] + (tail + [""]), rep);
      JoinLeadingPiece([s[0]], tail + [""], rep);
      // Join(tail + [""]) relates to the recursive call by dropping its leading ""
      assert [""] + tail + [""] == [""] + (tail + [""]);
      JoinLeadingPiece("", tail + [""], rep);
    }
  }

  // ---------------------------------------------------------------------------
  // partition / endswith / startswith

  /** `s.partition(sep)` for a non-empty `sep` (Python raises on an empty one):
      the text before the first occurrence and the text after it, or the whole
      string and nothing when `sep` does not occur. */
  function Partition(s: string, sep: string): (r: (string, string))
    requires sep != []
  {
    match IndexOf(s, sep)
    case None => (s, "")
    case Some(i) => (s[..i], s[i + |sep|..])
  }

  /** When `sep` occurs, the two parts and `sep` between them give back `s`
      and the first part does not contain `sep`; otherwise the whole string
      comes first and nothing after it. */
  lemma PartitionSpec(s: string, sep: string)
    requires sep != []
    ensures var r := Partition(s, sep);
      && (Contains(s, sep) ==> s == r.0 + sep + r.1 && !Contains(r.0, sep))
      && (!Contains(s, sep) ==> r == (s, ""))
  {
    IndexOfSpec(s, sep);
    match IndexOf(s, sep)
    case None =>
    case Some(i) =>
      assert s == s[..i] + sep + s[i + |sep|..];
      forall j | 0 <= j <= |s[..i]| ensures !IsAt(s[..i], sep, j) {
        if j + |sep| <= i {
          assert s[..i][j..j + |sep|] == s[j..j + |sep|];
          assert j < i && !IsAt(s, sep, j);
        }
      }
  }

  predicate StartsWith(s: string, p: string) {
    |p| <= |s| && s[..|p|] == p
  }

  predicate EndsWith(s: string, p: string) {
    |p| <= |s| && s[|s| - |p|..] == p
  }

  /** `sub` cannot occur in `s` when it has a character `s` lacks. */
  lemma MissingChar(s: string, sub: string, c: char)
    requires c in sub && c !in s
    ensures !Contains(s, sub)
  {
    var k :| 0 <= k < |sub| && sub[k] == c;
    forall j | 0 <= j <= |s| ensures !IsAt(s, sub, j) {
      if j + |sub| <= |s| {
        assert s[j..j + |sub|][k] == s[j + k];
      }
    }
  }

  /** `sub` cannot occur where no character of `s` could start it. */
  lemma NoStart(s: string, sub: string)
    requires |sub| > 0 && forall j :: 0 <= j < |s| && j + |sub| <= |s| ==> s[j] != sub[0]
    ensures !Contains(s, sub)
  {
    forall j | 0 <= j <= |s| ensures !IsAt(s, sub, j) {
      if j + |sub| <= |s| {
        assert s[j..j + |sub|][0] == s[j];
      }
    }
  }

  // ---------------------------------------------------------------------------
  // decimal numerals, as an f-string prints a non-negative int

  predicate IsDigit(c: char) {
    '0' <= c <= '9'
  }

  predicate AllDigits(s: string) {
    forall i :: 0 <= i < |s| ==> IsDigit(s[i])
  }

  function Digit(d: nat): (c: char)
    requires d < 10
    ensures IsDigit(c) && c as int == '0' as int + d
  {
    ('0' as int + d) as char
  }

  /** `str(n)`: at least one digit, exactly one for a number below ten. */
  function Decimal(n: nat): (s: string)
    ensures s != [] && AllDigits(s)
    ensures n < 10 <==> |s| == 1
  {
    if n < 10 then [Digit(n)] else Decimal(n / 10) + [Digit(n % 10)]
  }

  /** Different numbers print differently. */
  lemma {:induction false} DecimalInjective(a: nat, b: nat)
    requires Decimal(a) == Decimal(b)
    ensures a == b
    decreases a
  {
    var s := Decimal(a);
    if a < 10 {
      assert Digit(a) == s[0] == Digit(b);
    } else {
      assert s[|s| - 1] == Digit(a % 10) && s[|s| - 1] == Digit(b % 10);
      assert Decimal(a / 10) == s[..|s| - 1] == Decimal(b / 10);
      DecimalInjective(a / 10, b / 10);
    }
  }
}
