/** The checks `upload_document` makes on an uploaded file before reading
    it: a file name must be given, and its extension, lower-cased, must be
    one of the supported formats. */
module Upload {
  import opened Wrappers
  import opened PyStr

  /** `SUPPORTED_FORMATS`. */
  const SupportedFormats: seq<string> := [".pdf", ".docx", ".txt", ".jpg", ".jpeg", ".png"]

  /** An HTTP error raised by the endpoint: status code and detail. */
  datatype HttpError = HttpError(status: nat, detail: string)

  const BadRequest: nat := 400
  const NoFileDetail: string := "No file provided"

  /** Python's `repr` of a list of quote-free strings: `['a', 'b']`. */
  function ListRepr(items: seq<string>): string {
    "[" + Join(", ", seq(|items|, i requires 0 <= i < |items| => "'" + items[i] + "'")) + "]"
  }

  /** The detail of the unsupported-format error, naming every format. */
  function UnsupportedDetail(): string {
    "Unsupported file format. Supported: " + ListRepr(SupportedFormats)
  }

  /** The last position below `n` holding `c`, if any. */
  function RFindBelow(s: string, c: char, n: nat): (r: Option<nat>)
    requires n <= |s|
    ensures r.Some? ==> r.value < n && s[r.value] == c && forall j :: r.value < j < n ==> s[j] != c
    ensures r.None? ==> forall j :: 0 <= j < n ==> s[j] != c
  {
    if n == 0 then None
    else if s[n - 1] == c then Some(n - 1)
    else RFindBelow(s, c, n - 1)
  }

  /** `s.rfind(c)`: the last position holding `c`, if any. */
  function RFind(s: string, c: char): (r: Option<nat>)
    ensures r.Some? ==> r.value < |s| && s[r.value] == c && forall j :: r.value < j < |s| ==> s[j] != c
    ensures r.None? ==> forall j :: 0 <= j < |s| ==> s[j] != c
  {
    RFindBelow(s, c, |s|)
  }

  /** Where the last path component of `p` starts. */
  function BaseStart(p: string): (b: nat)
    ensures b <= |p|
    ensures forall j :: b <= j < |p| ==> p[j] != '/'
    ensures b > 0 ==> p[b - 1] == '/'
  {
    match RFind(p, '/')
    case None => 0
    case Some(k) => k + 1
  }

  /** `os.path.splitext(p)[1]` on a POSIX path: from the last `'.'` of the
      last path component on, unless everything before that dot in the
      component is dots too (`.bashrc` and `..pdf` have no extension). */
  function Extension(p: string): (ext: string)
    ensures ext == [] || (ext[0] == '.' && |ext| <= |p| && ext == p[|p| - |ext|..])
  {
    match RFind(p, '.')
    case None => []
    case Some(d) =>
      var b := BaseStart(p);
      if b <= d && exists j :: b <= j < d && p[j] != '.' then p[d..] else []
  }

  /** The checks on `file.filename`: a missing or empty name is a 400, an
      extension outside `SupportedFormats` (after lower-casing) is a 400
      naming the formats; otherwise the lower-cased extension. */
  function ValidateUpload(filename: Option<string>): (r: Result<string, HttpError>)
    ensures r.Success? ==> r.value in SupportedFormats
    ensures r.Failure? ==> r.error.status == BadRequest
    ensures filename.None? || filename.value == [] ==> r == Failure(HttpError(BadRequest, NoFileDetail))
  {
    if filename.None? || filename.value == [] then Failure(HttpError(BadRequest, NoFileDetail))
    else
      var ext := Lower(Extension(filename.value));
      if ext in SupportedFormats then Success(ext)
      else Failure(HttpError(BadRequest, UnsupportedDetail()))
  }

  /** A non-empty extension starts with its only dot and holds no `'/'`. */
  lemma ExtensionShape(p: string)
    ensures Extension(p) != [] ==>
      && Extension(p)[0] == '.'
      && (forall j :: 0 < j < |Extension(p)| ==> Extension(p)[j] != '.')
      && (forall j :: 0 <= j < |Extension(p)| ==> Extension(p)[j] != '/')
  {
    if Extension(p) != [] {
      var d := RFind(p, '.').value;
      var b := BaseStart(p);
      assert Extension(p) == p[d..];
      forall j | 0 <= j < |Extension(p)|
        ensures Extension(p)[j] != '/'
        ensures j > 0 ==> Extension(p)[j] != '.'
      {
        assert Extension(p)[j] == p[d + j];
      }
    }
  }

  /** The position of `c` with no `c` after it is the one `rfind` finds. */
  lemma {:induction false} RFindLast(s: string, c: char, k: nat, n: nat)
    requires k < n <= |s| && s[k] == c
    requires forall j :: k < j < n ==> s[j] != c
    ensures RFindBelow(s, c, n) == Some(k)
    decreases n
  {
    if k < n - 1 {
      RFindLast(s, c, k, n - 1);
    }
  }

  /** The last dot of `x + "." + e`, when `e` has none, is the one
      between them. */
  lemma LastDot(x: string, e: string)
    requires forall j :: 0 <= j < |e| ==> e[j] != '.'
    ensures RFind(x + "." + e, '.') == Some(|x|)
  {
    var p := x + "." + e;
    assert p[|x|] == '.';
    forall j | |x| < j < |p|
      ensures p[j] != '.'
    {
      assert p[j] == e[j - (|x| + 1)];
    }
    RFindLast(p, '.', |x|, |p|);
  }

  /** `name.ext` where the name does not end in a dot or slash and the
      extension holds neither has extension `.ext`. */
  lemma ExtensionOfName(stem: string, e: string)
    requires stem != [] && stem[|stem| - 1] != '.' && stem[|stem| - 1] != '/'
    requires forall j :: 0 <= j < |e| ==> e[j] != '.' && e[j] != '/'
    ensures Extension(stem + "." + e) == "." + e
  {
    var p := stem + "." + e;
    var d := |stem|;
    LastDot(stem, e);
    assert p[d - 1] == stem[d - 1];
    assert BaseStart(p) <= d - 1;
    assert p[d..] == "." + e;
  }

  /** A last component made only of dots before its final dot (`.pdf`,
      `dir/..png`) has no extension. */
  lemma DotfileHasNoExtension(dir: string, dots: string, e: string)
    requires dir == [] || dir[|dir| - 1] == '/'
    requires forall j :: 0 <= j < |dots| ==> dots[j] == '.'
    requires forall j :: 0 <= j < |e| ==> e[j] != '.' && e[j] != '/'
    ensures Extension(dir + dots + "." + e) == []
  {
    var x := dir + dots;
    var p := x + "." + e;
    LastDot(x, e);
    var b := BaseStart(p);
    if dir != [] {
      assert p[|dir| - 1] == '/';
    }
    assert |dir| <= b;
    forall j | b <= j < |x|
      ensures p[j] == '.'
    {
      assert p[j] == dots[j - |dir|];
    }
  }

  /** A name that is accepted is accepted for its own extension: the
      result is the lower-cased form of the name's last characters. */
  lemma AcceptedExtensionIsSuffix(filename: string)
    requires ValidateUpload(Some(filename)).Success?
    ensures var x := ValidateUpload(Some(filename)).value;
      && |x| <= |filename|
      && x == Lower(filename[|filename| - |x|..])
      && x[0] == '.'
  {
    var ext := Extension(filename);
    assert ValidateUpload(Some(filename)).value == Lower(ext);
    assert Lower(ext)[0] == LowerChar(ext[0]);
  }

  /** A file named `name.ext` is accepted exactly when `.ext`, lower-cased,
      is a supported format, whatever the case of its letters. */
  lemma AcceptsSupportedExtension(stem: string, e: string)
    requires stem != [] && stem[|stem| - 1] != '.' && stem[|stem| - 1] != '/'
    requires forall j :: 0 <= j < |e| ==> e[j] != '.' && e[j] != '/'
    ensures ValidateUpload(Some(stem + "." + e)).Success? <==> Lower("." + e) in SupportedFormats
    ensures Lower("." + e) in SupportedFormats ==> ValidateUpload(Some(stem + "." + e)) == Success(Lower("." + e))
  {
    ExtensionOfName(stem, e);
  }

  /** A name with no dot at all has no extension and is refused as an
      unsupported format. */
  lemma RejectsNameWithoutDot(filename: string)
    requires filename != []
    requires forall j :: 0 <= j < |filename| ==> filename[j] != '.'
    ensures ValidateUpload(Some(filename)) == Failure(HttpError(BadRequest, UnsupportedDetail()))
  {
    assert Extension(filename) == [];
    assert Lower([]) == [];
    assert [] !in SupportedFormats;
  }

  /** A hidden file such as `.pdf` has no extension and is refused. */
  lemma RejectsDotfile(dir: string, dots: string, e: string)
    requires dir == [] || dir[|dir| - 1] == '/'
    requires forall j :: 0 <= j < |dots| ==> dots[j] == '.'
    requires forall j :: 0 <= j < |e| ==> e[j] != '.' && e[j] != '/'
    ensures ValidateUpload(Some(dir + dots + "." + e)) == Failure(HttpError(BadRequest, UnsupportedDetail()))
  {
    DotfileHasNoExtension(dir, dots, e);
    assert Lower([]) == [];
    assert [] !in SupportedFormats;
  }
}
