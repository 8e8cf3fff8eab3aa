/**
 * The upload checks of app.py: `allowed_file`, the extension to mimetype
 * rule of the image endpoints, and the gate in front of a merge. A
 * filename's extension is what follows its last ".", compared in lower
 * case.
 */
module Uploads {
  import opened Wrappers
  import opened Text

  /** The extensions an upload may have. */
  const AllowedExtensions: set<string> := {"pdf", "png", "jpg", "jpeg", "gif", "webp", "docx", "doc"}

  /**
   * `filename.rsplit(".", 1)[1]`: the text after the last "."; `None`
   * where Python raises `IndexError` because there is no ".".
   */
  function Extension(filename: string): Option<string> {
    if filename == [] then None
    else if filename[|filename| - 1] == '.' then Some([])
    else
      match Extension(filename[..|filename| - 1])
      case None => None
      case Some(e) => Some(e + [filename[|filename| - 1]])
  }

  /**
   * There is an extension exactly when the name holds a "."; it is then the
   * dot-free tail of the name, right after a ".".
   */
  lemma {:induction false} ExtensionShape(filename: string)
    ensures Extension(filename).None? <==> '.' !in filename
    ensures Extension(filename).Some? ==>
      var e := Extension(filename).value;
      && '.' !in e
      && |e| < |filename|
      && filename == filename[..|filename| - |e| - 1] + ['.'] + e
  {
    if filename != [] {
      var init := filename[..|filename| - 1];
      var last := filename[|filename| - 1];
      ExtensionShape(init);
      assert filename == init + [last];
      if last != '.' && Extension(init).Some? {
        var e := Extension(init).value;
        assert init == init[..|init| - |e| - 1] + ['.'] + e;
        assert filename[..|filename| - |e + [last]| - 1] == init[..|init| - |e| - 1];
      }
    }
  }

  /** Whatever comes before the last "." does not matter: only the last extension counts. */
  lemma {:induction false} ExtensionAfterDot(stem: string, e: string)
    requires '.' !in e
    ensures Extension(stem + ['.'] + e) == Some(e)
  {
    if e != [] {
      var init := e[..|e| - 1];
      ExtensionAfterDot(stem, init);
      assert (stem + ['.'] + e)[..|stem + ['.'] + e| - 1] == stem + ['.'] + init;
      assert init + [e[|e| - 1]] == e;
    } else {
      assert stem + ['.'] + e == stem + ['.'];
    }
  }

  /** Lowering the whole name lowers its extension and moves no ".". */
  lemma {:induction false} ExtensionLower(filename: string)
    ensures Extension(Lower(filename)) ==
      match Extension(filename)
      case None => None
      case Some(e) => Some(Lower(e))
  {
    if filename != [] {
      var init := filename[..|filename| - 1];
      ExtensionLower(init);
      assert Lower(filename)[..|filename| - 1] == Lower(init);
      if Extension(filename).Some? && filename[|filename| - 1] != '.' {
        var e := Extension(init).value;
        assert Lower(e + [filename[|filename| - 1]]) == Lower(e) + [LowerChar(filename[|filename| - 1])];
      }
    }
  }

  /** `allowed_file(filename)`. */
  predicate AllowedFile(filename: string) {
    '.' in filename && Extension(filename).Some? && Lower(Extension(filename).value) in AllowedExtensions
  }

  /**
   * A name is accepted exactly when it is some stem, a ".", and a dot-free
   * extension whose lower case form is one of the eight listed.
   */
  lemma AllowedFileIff(filename: string)
    ensures AllowedFile(filename) <==>
      exists stem, e :: '.' !in e && filename == stem + ['.'] + e && Lower(e) in AllowedExtensions
  {
    ExtensionShape(filename);
    if AllowedFile(filename) {
      var e := Extension(filename).value;
      var stem := filename[..|filename| - |e| - 1];
      assert '.' !in e && filename == stem + ['.'] + e && Lower(e) in AllowedExtensions;
    }
    if exists stem, e :: '.' !in e && filename == stem + ['.'] + e && Lower(e) in AllowedExtensions {
      var stem, e :| '.' !in e && filename == stem + ['.'] + e && Lower(e) in AllowedExtensions;
      ExtensionAfterDot(stem, e);
      assert filename[|stem|] == '.';
    }
  }

  /** A name without a "." is rejected. */
  lemma NoDotRejected(filename: string)
    requires '.' !in filename
    ensures !AllowedFile(filename)
  {
  }

  /** Acceptance ignores letter case. */
  lemma AllowedFileCaseInsensitive(filename: string)
    ensures AllowedFile(Lower(filename)) == AllowedFile(filename)
  {
    ExtensionLower(filename);
    ExtensionShape(filename);
    ExtensionShape(Lower(filename));
    if Extension(filename).Some? {
      var e := Extension(filename).value;
      assert Lower(Lower(e)) == Lower(e);
    }
  }

  /** Upper case extensions pass, and only the last extension counts. */
  lemma AllowedFileExamples()
    ensures AllowedFile("A.PDF")
    ensures AllowedFile("x.exe.pdf")
    ensures AllowedFile(".pdf")
  {
    ExtensionAfterDot("A", "PDF");
    assert "A.PDF" == "A" + ['.'] + "PDF";
    assert Lower("PDF") == "pdf";
    ExtensionAfterDot("x.exe", "pdf");
    assert "x.exe.pdf" == "x.exe" + ['.'] + "pdf";
    assert Lower("pdf") == "pdf";
    ExtensionAfterDot("", "pdf");
    assert ".pdf" == "" + ['.'] + "pdf";
  }

  /** A listed extension followed by another one, and a name without a ".", are rejected. */
  lemma RejectedFileExamples()
    ensures !AllowedFile("x.pdf.exe")
    ensures !AllowedFile("report")
  {
    ExtensionAfterDot("x.pdf", "exe");
    assert "x.pdf.exe" == "x.pdf" + ['.'] + "exe";
    assert Lower("exe") == "exe";
    assert "report"[0] != '.' && "report"[1] != '.' && "report"[2] != '.';
    assert "report"[3] != '.' && "report"[4] != '.' && "report"[5] != '.';
  }

  /**
   * `f"image/{ext}" if ext != "jpg" else "image/jpeg"` with
   * `ext = filename.rsplit(".", 1)[1].lower()`; `None` where the name has
   * no "." and the endpoint fails.
   */
  function Mimetype(filename: string): Option<string> {
    match Extension(filename)
    case None => None
    case Some(e) =>
      var ext := Lower(e);
      if ext != "jpg" then Some("image/" + ext) else Some("image/jpeg")
  }

  /**
   * The mimetype is "image/" and the lower case extension, except that
   * "jpg" becomes "jpeg"; it is missing exactly when the name has no ".".
   */
  lemma MimetypeOf(stem: string, e: string)
    requires '.' !in e
    ensures Mimetype(stem + ['.'] + e) == Some("image/" + (if Lower(e) == "jpg" then "jpeg" else Lower(e)))
  {
    ExtensionAfterDot(stem, e);
    assert "image/" + "jpeg" == "image/jpeg";
  }

  lemma MimetypeMissing(filename: string)
    ensures Mimetype(filename).None? <==> '.' !in filename
  {
    ExtensionShape(filename);
  }

  /** "scan.JPG" and "scan.jpeg" are both served as "image/jpeg": the extension is lowered and "jpg" is renamed. */
  lemma JpegMimetypeExamples()
    ensures Mimetype("scan.JPG") == Some("image/jpeg")
    ensures Mimetype("scan.jpeg") == Some("image/jpeg")
  {
    assert "image/" + "jpeg" == "image/jpeg";
    MimetypeOf("scan", "JPG");
    assert "scan.JPG" == "scan" + ['.'] + "JPG";
    assert Lower("JPG") == "jpg";
    MimetypeOf("scan", "jpeg");
    assert "scan.jpeg" == "scan" + ['.'] + "jpeg";
    assert Lower("jpeg") == "jpeg";
  }

  /** "logo.png" is served as "image/png". */
  lemma PngMimetypeExample()
    ensures Mimetype("logo.png") == Some("image/png")
  {
    MimetypeOf("logo", "png");
    assert "logo.png" == "logo" + ['.'] + "png";
    assert Lower("png") == "png";
    assert "image/" + "png" == "image/png";
  }

  // ---------------------------------------------------------------------
  // The merge gate

  /** The answer of the merge endpoint before any PDF is read. */
  datatype MergeGate =
    | NoFiles           // "No files provided"
    | TooFewFiles       // "Need at least 2 PDFs to merge"
    | TooFewValid       // "Need at least 2 valid PDFs"
    | Merge(accepted: seq<string>)

  /** The uploads kept by the loop: those whose name passes `allowed_file`, in order. */
  function Accepted(names: seq<string>): (r: seq<string>)
    ensures |r| <= |names|
  {
    if names == [] then []
    else Accepted(names[..|names| - 1]) + (if AllowedFile(names[|names| - 1]) then [names[|names| - 1]] else [])
  }

  lemma {:induction false} AcceptedMembers(names: seq<string>)
    ensures forall n :: n in Accepted(names) <==> n in names && AllowedFile(n)
  {
    if names != [] {
      var init := names[..|names| - 1];
      AcceptedMembers(init);
      assert names == init + [names[|names| - 1]];
    }
  }

  /**
   * The checks of `api_merge` on the uploaded file names (an absent
   * "files" field is an empty list). An upload with an empty name is
   * falsy and skipped, which `allowed_file` would reject anyway.
   */
  method MergeUploads(names: seq<string>) returns (gate: MergeGate)
    ensures names == [] ==> gate == NoFiles
    ensures |names| == 1 ==> gate == TooFewFiles
    ensures |names| >= 2 && |Accepted(names)| < 2 ==> gate == TooFewValid
    ensures |names| >= 2 && |Accepted(names)| >= 2 ==> gate == Merge(Accepted(names))
  {
    if |names| == 0 {
      return NoFiles;
    }
    if |names| < 2 {
      return TooFewFiles;
    }
    var paths: seq<string> := [];
    var i := 0;
    while i < |names|
      invariant 0 <= i <= |names|
      invariant paths == Accepted(names[..i])
    {
      var f := names[i];
      assert names[..i + 1][..i] == names[..i];
      if f != [] && AllowedFile(f) {
        paths := paths + [f];
      }
      i := i + 1;
    }
    assert names[..i] == names;
    if |paths| < 2 {
      return TooFewValid;
    }
    return Merge(paths);
  }

  /** The kept uploads are a subsequence of the uploads: each comes from its own, later, position. */
  lemma {:induction false} AcceptedPositions(names: seq<string>) returns (pos: seq<int>)
    ensures |pos| == |Accepted(names)|
    ensures forall k :: 0 <= k < |pos| ==> 0 <= pos[k] < |names| && names[pos[k]] == Accepted(names)[k]
    ensures forall k, l :: 0 <= k < l < |pos| ==> pos[k] < pos[l]
  {
    if names == [] {
      pos := [];
    } else {
      var init := names[..|names| - 1];
      pos := AcceptedPositions(init);
      if AllowedFile(names[|names| - 1]) {
        pos := pos + [|names| - 1];
      }
    }
  }

  /** A merge goes ahead only with two different uploads that pass `allowed_file`. */
  lemma MergeNeedsTwoValid(names: seq<string>)
    requires |Accepted(names)| >= 2
    ensures exists i, j :: 0 <= i < j < |names| && AllowedFile(names[i]) && AllowedFile(names[j])
  {
    AcceptedMembers(names);
    var pos := AcceptedPositions(names);
    assert Accepted(names)[0] in Accepted(names) && Accepted(names)[1] in Accepted(names);
    assert AllowedFile(names[pos[0]]) && AllowedFile(names[pos[1]]);
  }

  /** Filtering a concatenation filters each half. */
  lemma {:induction false} AcceptedAppend(a: seq<string>, b: seq<string>)
    ensures Accepted(a + b) == Accepted(a) + Accepted(b)
  {
    if b != [] {
      var init := b[..|b| - 1];
      AcceptedAppend(a, init);
      assert (a + b)[..|a + b| - 1] == a + init;
    } else {
      assert a + b == a;
    }
  }

  /** The positions whose name passes `allowed_file`. */
  function AllowedPositions(names: seq<string>): set<int> {
    set i | 0 <= i < |names| && AllowedFile(names[i])
  }

  /** The last position joins the earlier ones exactly when its name passes `allowed_file`. */
  lemma AllowedPositionsSnoc(names: seq<string>)
    requires names != []
    ensures AllowedPositions(names) ==
      AllowedPositions(names[..|names| - 1]) + (if AllowedFile(names[|names| - 1]) then {|names| - 1} else {})
  {
    var init := names[..|names| - 1];
    assert forall i | 0 <= i < |init| :: init[i] == names[i];
  }

  /** One kept upload per upload that passes `allowed_file`, duplicates included. */
  lemma {:induction false} AcceptedCount(names: seq<string>)
    ensures |Accepted(names)| == |AllowedPositions(names)|
  {
    if names != [] {
      var init := names[..|names| - 1];
      AcceptedCount(init);
      AllowedPositionsSnoc(names);
      assert |names| - 1 !in AllowedPositions(init);
    }
  }

  /** Two uploads that pass `allowed_file` are enough for the merge to go ahead. */
  lemma TwoValidMerge(names: seq<string>, i: int, j: int)
    requires 0 <= i < j < |names| && AllowedFile(names[i]) && AllowedFile(names[j])
    ensures |Accepted(names)| >= 2
  {
    AcceptedAppend(names[..j], names[j..]);
    assert names[..j] + names[j..] == names;
    AcceptedAppend([names[j]], names[j + 1..]);
    assert [names[j]] + names[j + 1..] == names[j..];
    assert Accepted([names[j]]) == [names[j]] by {
      assert [names[j]][..0] == [];
    }
    AcceptedMembers(names[..j]);
    assert names[i] in names[..j];
  }
}
