/** How the converter names its output after the uploaded file. */
module Naming {

  import opened PosixPath

  const DocxExtension: string := ".docx"

  /** `base_name = os.path.splitext(os.path.basename(orig_name))[0]` */
  function BaseName(origName: string): string {
    SplitExt(Basename(origName)).0
  }

  /** `f"{base_name}.docx"`, the name of the file the converter returns. */
  function DocxName(origName: string): string {
    BaseName(origName) + DocxExtension
  }

  /** The base name is a `/`-free prefix of the original file's basename. */
  lemma BaseNameShape(origName: string)
    ensures BaseName(origName) <= Basename(origName)
    ensures '/' !in BaseName(origName)
  {
    BasenameShape(origName);
    SplitExtConcat(Basename(origName));
    var b := Basename(origName);
    var root := BaseName(origName);
    assert root == b[..|root|];
    forall i | 0 <= i < |root| ensures root[i] != '/' {
      assert root[i] == b[i];
    }
  }

  /** The output name holds no `/`, is never empty, and ends in `.docx`. */
  lemma DocxNameShape(origName: string)
    ensures '/' !in DocxName(origName)
    ensures DocxName(origName) != []
    ensures |DocxName(origName)| >= |DocxExtension|
    ensures DocxName(origName)[|DocxName(origName)| - |DocxExtension|..] == DocxExtension
  {
    BaseNameShape(origName);
    var d := DocxName(origName);
    assert d[|d| - |DocxExtension|..] == DocxExtension;
  }

  /**
   * Splitting the output name gives back the base name and `.docx`, as long
   * as the base name holds some character other than `.`; a base name of dots
   * only, or an empty one, turns `.docx` into part of a leading-dot name.
   */
  lemma DocxNameSplitsBack(origName: string)
    ensures (exists i :: 0 <= i < |BaseName(origName)| && BaseName(origName)[i] != '.')
      <==> SplitExt(DocxName(origName)) == (BaseName(origName), DocxExtension)
  {
    if exists i :: 0 <= i < |BaseName(origName)| && BaseName(origName)[i] != '.' {
      SplitsBackWhenNotAllDots(origName);
    }
    if SplitExt(DocxName(origName)) == (BaseName(origName), DocxExtension) {
      NotAllDotsWhenSplitsBack(origName);
    }
  }

  lemma SplitsBackWhenNotAllDots(origName: string)
    requires exists i :: 0 <= i < |BaseName(origName)| && BaseName(origName)[i] != '.'
    ensures SplitExt(DocxName(origName)) == (BaseName(origName), DocxExtension)
  {
    var base := BaseName(origName);
    var d := DocxName(origName);
    BaseNameShape(origName);
    DocxNameShape(origName);
    assert DocxExtension[1..] == "docx";
    BaseNameOfStemAndExtension(base, DocxExtension);
    BasenameOfName(d);
    SplitExtConcat(d);
    assert SplitExt(d).0 == base;
    assert SplitExt(d).1 == d[|base|..];
  }

  lemma NotAllDotsWhenSplitsBack(origName: string)
    requires SplitExt(DocxName(origName)) == (BaseName(origName), DocxExtension)
    ensures exists i :: 0 <= i < |BaseName(origName)| && BaseName(origName)[i] != '.'
  {
    var base := BaseName(origName);
    var d := DocxName(origName);
    DocxNameShape(origName);
    SplitExtOfName(d);
    var i, j :| 0 <= i < j < |d| && d[i] != '.' && d[j] == '.';
    assert d == base + DocxExtension;
    assert i < |base|;
    assert base[i] == d[i];
  }

  /**
   * A `/`-free file name made of a stem holding some character other than `.`
   * and an extension `.xyz` (one dot, first) has that stem as its base name,
   * so its output name is the stem followed by `.docx`.
   */
  lemma BaseNameOfStemAndExtension(stem: string, ext: string)
    requires '/' !in stem && '/' !in ext
    requires exists i :: 0 <= i < |stem| && stem[i] != '.'
    requires ext != [] && ext[0] == '.' && '.' !in ext[1..]
    ensures BaseName(stem + ext) == stem
    ensures DocxName(stem + ext) == stem + DocxExtension
  {
    var n := stem + ext;
    assert '/' !in n by {
      forall k | 0 <= k < |n| ensures n[k] != '/' {
        if k < |stem| { assert n[k] == stem[k]; } else { assert n[k] == ext[k - |stem|]; }
      }
    }
    BasenameOfName(n);
    assert RFind(n, '/') == -1;
    var dot := RFind(n, '.');
    assert n[|stem|] == '.';
    forall k | |stem| < k < |n| ensures n[k] != '.' {
      assert n[k] == ext[k - |stem|] == ext[1..][k - |stem| - 1];
    }
    assert dot == |stem|;
    var i :| 0 <= i < |stem| && stem[i] != '.';
    assert 0 <= i < dot && n[i] != '.';
    assert n[..dot] == stem;
  }

  /** A `.pdf` upload whose stem holds no `/` and no `.` becomes `<stem>.docx`. */
  lemma PdfOutputName(stem: string)
    requires stem != [] && '/' !in stem && '.' !in stem
    ensures BaseName(stem + ".pdf") == stem
    ensures DocxName(stem + ".pdf") == stem + DocxExtension
  {
    var ext := ".pdf";
    assert '/' !in ext && ext[0] == '.' && '.' !in ext[1..];
    assert stem[0] != '.';
    BaseNameOfStemAndExtension(stem, ext);
  }

  /** `report.pdf` becomes `report.docx`; `a.pdf` and `b.pdf` become `a.docx` and `b.docx`. */
  lemma SampleNames()
    ensures DocxName("report.pdf") == "report.docx"
    ensures DocxName("a.pdf") == "a.docx" && DocxName("b.pdf") == "b.docx"
  {
    assert "report" + ".pdf" == "report.pdf" && "report" + DocxExtension == "report.docx";
    assert "a" + ".pdf" == "a.pdf" && "a" + DocxExtension == "a.docx";
    assert "b" + ".pdf" == "b.pdf" && "b" + DocxExtension == "b.docx";
    PdfOutputName("report");
    PdfOutputName("a");
    PdfOutputName("b");
  }

  /** The name a nameless upload defaults to becomes `output.docx`. */
  lemma OutputPdfName()
    ensures BaseName("output.pdf") == "output"
    ensures DocxName("output.pdf") == "output.docx"
  {
    assert "output" + ".pdf" == "output.pdf" && "output" + DocxExtension == "output.docx";
    PdfOutputName("output");
  }
}
