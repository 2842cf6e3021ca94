/** The upload filename check, `allowed_file`, and the selection of accepted uploads. */
module Uploads {
  import opened Wrappers
  import opened Text

  /** The image extensions an upload may carry. */
  const ALLOWED_EXTENSIONS: set<string> := {"png", "jpg", "jpeg", "gif"}

  /**
   * The text after the last '.' of `filename` (Python's `rsplit('.', 1)[1]`),
   * or None when the name has no '.' at all.
   */
  function Extension(filename: string): Option<string>
    decreases |filename|
  {
    if filename == [] then None
    else if filename[|filename| - 1] == '.' then Some([])
    else match Extension(filename[..|filename| - 1])
      case None => None
      case Some(e) => Some(e + [filename[|filename| - 1]])
  }

  /**
   * Extension finds a suffix exactly when the name has a dot, and that suffix
   * is what follows the last dot: a dot stands just before it and none inside it.
   */
  lemma {:induction false} ExtensionIsAfterLastDot(filename: string)
    ensures Extension(filename).Some? <==> '.' in filename
    ensures Extension(filename).Some? ==>
              var e := Extension(filename).value;
              |e| < |filename| && filename[|filename| - |e| - 1] == '.' &&
              e == filename[|filename| - |e|..] && '.' !in e
    decreases |filename|
  {
    if filename != [] && filename[|filename| - 1] != '.' {
      var init := filename[..|filename| - 1];
      ExtensionIsAfterLastDot(init);
      assert filename == init + [filename[|filename| - 1]];
      assert '.' in filename <==> '.' in init;
    }
  }

  /** `allowed_file`: the name has a dot and its lower-cased extension is an allowed one. */
  predicate AllowedFile(filename: string)
  {
    match Extension(filename)
    case None => false
    case Some(e) => Lower(e) in ALLOWED_EXTENSIONS
  }

  /**
   * A name is accepted exactly when some dot in it has no dot after it and the
   * lower-cased text after that dot is an allowed extension.
   */
  lemma AllowedFileIff(filename: string)
    ensures AllowedFile(filename) <==>
              exists i :: 0 <= i < |filename| && filename[i] == '.' && '.' !in filename[i + 1..] &&
                          Lower(filename[i + 1..]) in ALLOWED_EXTENSIONS
  {
    ExtensionIsAfterLastDot(filename);
    if AllowedFile(filename) {
      var e := Extension(filename).value;
      var i := |filename| - |e| - 1;
      assert filename[i + 1..] == e;
    } else {
      forall i | 0 <= i < |filename| && filename[i] == '.' && '.' !in filename[i + 1..]
        ensures Lower(filename[i + 1..]) !in ALLOWED_EXTENSIONS
      {
        assert '.' in filename;
      }
    }
  }

  /** Whatever precedes it, a final dot followed by dot-free text yields that text. */
  lemma {:induction false} ExtensionAfterDot(prefix: string, e: string)
    requires '.' !in e
    ensures Extension(prefix + "." + e) == Some(e)
    decreases |e|
  {
    if e != [] {
      var init := e[..|e| - 1];
      assert '.' !in init by { assert forall c :: c in init ==> c in e; }
      ExtensionAfterDot(prefix, init);
      assert (prefix + "." + e)[..|prefix + "." + e| - 1] == prefix + "." + init;
      assert init + [e[|e| - 1]] == e;
    }
  }

  /** A name without a dot, an upper-case extension, and a name whose last extension is not an image. */
  lemma AllowedFileExamples()
    ensures !AllowedFile("photo")
    ensures AllowedFile("x.PNG")
    ensures !AllowedFile("x.png.exe")
    ensures AllowedFile(".gif")
  {
    ExtensionIsAfterLastDot("photo");
    ExtensionAfterDot("x", "PNG");
    assert "x" + "." + "PNG" == "x.PNG";
    assert Lower("PNG") == "png";
    ExtensionAfterDot("x.png", "exe");
    assert "x.png" + "." + "exe" == "x.png.exe";
    assert Lower("exe") == "exe";
    ExtensionAfterDot("", "gif");
    assert "" + "." + "gif" == ".gif";
    assert Lower("gif") == "gif";
  }

  /** The uploads that pass `allowed_file`, in upload order. */
  function Accepted(uploads: seq<string>): (acc: seq<string>)
  {
    if uploads == [] then []
    else if AllowedFile(uploads[0]) then [uploads[0]] + Accepted(uploads[1..])
    else Accepted(uploads[1..])
  }

  /**
   * Accepted keeps exactly the allowed names, each as many times as it was
   * uploaded, and never more names than were uploaded.
   */
  lemma {:induction false} AcceptedIsFilter(uploads: seq<string>)
    ensures |Accepted(uploads)| <= |uploads|
    ensures forall f :: f in Accepted(uploads) <==> f in uploads && AllowedFile(f)
    ensures forall f :: multiset(Accepted(uploads))[f] == if AllowedFile(f) then multiset(uploads)[f] else 0
  {
    if uploads != [] {
      AcceptedIsFilter(uploads[1..]);
      assert uploads == [uploads[0]] + uploads[1..];
    }
  }
}
