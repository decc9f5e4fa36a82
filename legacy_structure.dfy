/** The older structure extractor (JBGDocumentStructureExtractor.py): one
    entry per body paragraph, PDF pages numbered as in the current extractor,
    and the choice between the two made from the file name's extension.
    Reading the file (python-docx, PyMuPDF) is not part of this model: what
    either reader would see is passed in. */
module LegacyStructure {
  import opened Wrappers
  import opened Text
  import SI = StructureIndex

  // ---------------------------------------------------------------------------
  // `os.path.splitext(path)[1].lower()`

  /** `s.rfind(c)`: the last position of `c`, or -1. */
  function LastIndexOf(s: string, c: char): (r: int)
    ensures -1 <= r < |s|
    ensures r >= 0 ==> s[r] == c
    ensures forall k :: r < k < |s| ==> s[k] != c
  {
    if s == [] then -1
    else if s[|s| - 1] == c then |s| - 1
    else LastIndexOf(s[..|s| - 1], c)
  }

  lemma LastIndexAt(s: string, c: char, i: nat)
    requires i < |s| && s[i] == c && forall k :: i < k < |s| ==> s[k] != c
    ensures LastIndexOf(s, c) == i
  {
  }

  predicate AllDots(s: string) {
    forall i :: 0 <= i < |s| ==> s[i] == '.'
  }

  /** `os.path.splitext(path)[1]` under POSIX rules: from the last dot of the
      last path component, unless only dots precede it in that component. */
  function Extension(path: string): string {
    var sep := LastIndexOf(path, '/');
    var dot := LastIndexOf(path, '.');
    if dot > sep && !AllDots(path[sep + 1..dot]) then path[dot..] else ""
  }

  /** An extension is empty or a final piece of the path that starts with
      its only dot and crosses no separator. */
  lemma ExtensionSpec(path: string)
    ensures var e := Extension(path);
      e == "" || (e[0] == '.' && e == path[|path| - |e|..]
                  && forall k :: 1 <= k < |e| ==> e[k] != '.' && e[k] != '/')
  {
    var sep := LastIndexOf(path, '/');
    var dot := LastIndexOf(path, '.');
    if dot > sep && !AllDots(path[sep + 1..dot]) {
      var e := path[dot..];
      forall k | 1 <= k < |e| ensures e[k] != '.' && e[k] != '/' {
        assert e[k] == path[dot + k];
        assert sep < dot + k;
      }
      assert e == path[|path| - |e|..];
    }
  }

  /** Text without `c` appended to `s` leaves the last `c` where it was. */
  lemma LastIndexOfAppend(s: string, t: string, c: char)
    requires forall k :: 0 <= k < |t| ==> t[k] != c
    ensures LastIndexOf(s + t, c) == LastIndexOf(s, c)
  {
    var r := LastIndexOf(s, c);
    forall k | r < k < |s + t| ensures (s + t)[k] != c {
      if k >= |s| {
        assert (s + t)[k] == t[k - |s|];
      }
    }
    if r >= 0 {
      LastIndexAt(s + t, c, r);
    }
  }

  /** A file name part: neither a dot nor a separator. */
  predicate Plain(s: string) {
    forall k :: 0 <= k < |s| ==> s[k] != '.' && s[k] != '/'
  }

  /** The last component of `stem` has something other than dots in it. */
  predicate Named(stem: string) {
    !AllDots(stem[LastIndexOf(stem, '/') + 1..])
  }

  /** A plain suffix after a dot is the extension, when the last component
      of what comes before has something other than dots. */
  lemma ExtensionOfSuffix(stem: string, suffix: string)
    requires Named(stem) && Plain(suffix)
    ensures Extension(stem + "." + suffix) == "." + suffix
  {
    var path := stem + "." + suffix;
    assert path == stem + ("." + suffix);
    LastIndexOfAppend(stem, "." + suffix, '/');
    var sep := LastIndexOf(stem, '/');
    forall k | |stem| < k < |path| ensures path[k] != '.' {
      assert path[k] == suffix[k - |stem| - 1];
    }
    LastIndexAt(path, '.', |stem|);
    assert path[sep + 1..|stem|] == stem[sep + 1..];
  }

  /** A name made only of dots before its last dot has no extension. */
  lemma DotFileHasNoExtension(dots: string, suffix: string)
    requires AllDots(dots) && Plain(suffix)
    ensures Extension(dots + "." + suffix) == ""
  {
    var path := dots + "." + suffix;
    forall k | 0 <= k < |path| ensures path[k] != '/' {
      if k > |dots| {
        assert path[k] == suffix[k - |dots| - 1];
      }
    }
    forall k | |dots| < k < |path| ensures path[k] != '.' {
      assert path[k] == suffix[k - |dots| - 1];
    }
    LastIndexAt(path, '.', |dots|);
    assert path[0..|dots|] == dots;
  }

  /** A dot before the last separator does not start an extension. */
  lemma LastSuffixOnly(dir: string, name: string)
    requires Plain(name)
    ensures Extension(dir + "/" + name) == ""
  {
    var path := dir + "/" + name;
    assert path == dir + ("/" + name);
    forall k | |dir| < k < |path| ensures path[k] != '/' {
      assert path[k] == name[k - |dir| - 1];
    }
    LastIndexAt(path, '/', |dir|);
    LastIndexOfAppend(dir, "/" + name, '.');
  }

  function LowerChar(c: char): char {
    if 'A' <= c <= 'Z' then (c as int + 32) as char else c
  }

  /** `s.lower()` on ASCII letters. */
  function Lower(s: string): string {
    seq(|s|, i requires 0 <= i < |s| => LowerChar(s[i]))
  }

  lemma LowerDocx()
    ensures Lower(".DOCX") == ".docx"
  {
    var l := Lower(".DOCX");
    assert l[1] == 'd' && l[2] == 'o' && l[3] == 'c' && l[4] == 'x';
  }

  lemma LowerPdf()
    ensures Lower(".Pdf") == ".pdf"
  {
    var l := Lower(".Pdf");
    assert l[1] == 'p' && l[2] == 'd' && l[3] == 'f';
  }

  /** The extension is compared after lower-casing, so upper-case and
      mixed-case suffixes are accepted. */
  lemma UpperCaseAccepted(stem: string)
    requires Named(stem)
    ensures Lower(Extension(stem + ".DOCX")) == ".docx"
    ensures Lower(Extension(stem + ".Pdf")) == ".pdf"
  {
    assert stem + ".DOCX" == stem + "." + "DOCX";
    ExtensionOfSuffix(stem, "DOCX");
    LowerDocx();
    assert stem + ".Pdf" == stem + "." + "Pdf";
    ExtensionOfSuffix(stem, "Pdf");
    LowerPdf();
  }

  // ---------------------------------------------------------------------------
  // the extractor

  /** One entry of `structure["paragraphs"]`. */
  datatype Entry = Entry(paragraph: nat, text: string, empty: bool)

  datatype Structure = Docx(paragraphs: seq<Entry>) | Pdf(pages: seq<SI.Page>)

  /** What the two readers would see in the file: python-docx's `.text` of
      each body paragraph, and each PDF page's block texts in sorted order. */
  datatype Source = Source(paragraphs: seq<string>, pages: seq<seq<string>>)

  class DocumentStructureExtractor {
    const filepath: string
    const ext: string
    var structure: Option<Structure>

    constructor(filepath: string)
      ensures this.filepath == filepath && ext == Lower(Extension(filepath)) && structure == None
    {
      this.filepath := filepath;
      ext := Lower(Extension(filepath));
      structure := None;
    }

    /** `_extract_docx`: one entry per paragraph, empty ones included,
        numbered from 1, its text stripped and `empty` exactly when
        nothing but whitespace was there. */
    method ExtractDocx(paragraphs: seq<string>) returns (s: Structure)
      ensures s.Docx? && |s.paragraphs| == |paragraphs|
      ensures forall i :: 0 <= i < |paragraphs| ==>
        && s.paragraphs[i].paragraph == i + 1
        && s.paragraphs[i].text == Strip(paragraphs[i])
        && Strip(s.paragraphs[i].text) == s.paragraphs[i].text
        && (s.paragraphs[i].empty <==> AllSpace(paragraphs[i]))
    {
      var entries: seq<Entry> := [];
      var i := 0;
      while i < |paragraphs|
        invariant 0 <= i <= |paragraphs|
        invariant |entries| == i
        invariant forall j :: 0 <= j < i ==>
          && entries[j].paragraph == j + 1
          && entries[j].text == Strip(paragraphs[j])
          && Strip(entries[j].text) == entries[j].text
          && (entries[j].empty <==> AllSpace(paragraphs[j]))
      {
        var text := Strip(paragraphs[i]);
        StripIdempotent(paragraphs[i]);
        StripEmptyIff(paragraphs[i]);
        entries := entries + [Entry(i + 1, text, text == "")];
        i := i + 1;
      }
      s := Docx(entries);
    }

    /** `extract`: the `.docx` reader or the `.pdf` reader by the lower-cased
        extension, anything else refused; a result is kept in `structure`. */
    method Extract(src: Source) returns (r: Result<Structure, string>)
      modifies this
      ensures ext == ".docx" ==> r.Success? && r.value.Docx? && |r.value.paragraphs| == |src.paragraphs|
      ensures ext == ".docx" ==> forall i :: 0 <= i < |src.paragraphs| ==>
        && r.value.paragraphs[i].paragraph == i + 1
        && r.value.paragraphs[i].text == Strip(src.paragraphs[i])
        && (r.value.paragraphs[i].empty <==> AllSpace(src.paragraphs[i]))
      ensures ext == ".pdf" ==> r.Success? && r.value.Pdf? && |r.value.pages| == |src.pages|
      ensures ext == ".pdf" ==> forall k :: 0 <= k < |src.pages| ==> r.value.pages[k] == SI.Page(k + 1, SI.Lines(src.pages[k]))
      ensures ext != ".docx" && ext != ".pdf" ==> r == Failure("Unsupported file type. Use .docx or .pdf")
      ensures r.Success? ==> structure == Some(r.value)
      ensures r.Failure? ==> structure == old(structure)
    {
      if ext == ".docx" {
        var s := ExtractDocx(src.paragraphs);
        structure := Some(s);
        r := Success(s);
      } else if ext == ".pdf" {
        var pages := SI.ExtractPdf(src.pages);
        structure := Some(Pdf(pages));
        r := Success(Pdf(pages));
      } else {
        r := Failure("Unsupported file type. Use .docx or .pdf");
      }
    }
  }
}
