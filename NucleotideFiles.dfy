/** File names: which format a path names by its extension, and the path of
    the converted file. Paths are strings split on `/`, with the rules of
    Rust's `Path::file_name`, `Path::extension` and `Path::with_extension`
    for the last component: trailing separators and `.` components are
    ignored, and `..` has no file name. */
module NucleotideFiles {
  import opened Base

  datatype FileFormat = Fasta | Basta

  /** A file to convert: its format, its path, and whether its extension
      is the five-letter one (`fasta`, `basta`) or the two-letter one. */
  datatype NucleotideFile = NucleotideFile(format: FileFormat, filePath: string, longExtension: bool)

  const SEPARATOR: char := '/'
  const DOT: char := '.'

  /** The last position of `c` in `s`, if any. */
  function LastIndexOf(s: string, c: char): (r: Option<nat>)
    ensures r.Some? ==> r.value < |s| && s[r.value] == c && forall j :: r.value < j < |s| ==> s[j] != c
    ensures r.None? ==> forall j :: 0 <= j < |s| ==> s[j] != c
    decreases |s|
  {
    if s == [] then None
    else if s[|s| - 1] == c then Some(|s| - 1)
    else LastIndexOf(s[..|s| - 1], c)
  }

  /** The last position of `c` is the one the characterisation names. */
  lemma LastIndexOfIs(s: string, c: char, i: Option<nat>)
    requires i.Some? ==> i.value < |s| && s[i.value] == c && forall j :: i.value < j < |s| ==> s[j] != c
    requires i.None? ==> forall j :: 0 <= j < |s| ==> s[j] != c
    ensures LastIndexOf(s, c) == i
  {
  }

  /** The path without trailing separators and trailing `.` components,
      which `Path::components` skips. */
  function Trimmed(p: string): (t: string)
    ensures |t| <= |p| && t == p[..|t|]
    ensures forall k :: |t| <= k < |p| ==> p[k] == SEPARATOR || p[k] == DOT
    ensures t == [] || t[|t| - 1] != SEPARATOR
    ensures !(|t| >= 2 && t[|t| - 2] == SEPARATOR && t[|t| - 1] == DOT)
    ensures (p == [] || p[|p| - 1] != SEPARATOR) && !(|p| >= 2 && p[|p| - 2] == SEPARATOR && p[|p| - 1] == DOT) ==> t == p
    decreases |p|
  {
    if p != [] && p[|p| - 1] == SEPARATOR then Trimmed(p[..|p| - 1])
    else if |p| >= 2 && p[|p| - 2] == SEPARATOR && p[|p| - 1] == DOT then Trimmed(p[..|p| - 1])
    else p
  }

  /** Trimming twice is trimming once. */
  lemma TrimmedTwice(p: string)
    ensures Trimmed(Trimmed(p)) == Trimmed(p)
  {
  }

  /** Where the last component starts. */
  function NameStart(p: string): (k: nat)
    ensures k <= |p|
    ensures forall j :: k <= j < |p| ==> p[j] != SEPARATOR
    ensures k > 0 ==> p[k - 1] == SEPARATOR
  {
    match LastIndexOf(p, SEPARATOR)
    case None => 0
    case Some(i) => i + 1
  }

  /** `Path::file_name`: the last component of the trimmed path, unless it
      is empty, `.` or `..`. */
  function FileName(p: string): (r: Option<string>)
    ensures var t := Trimmed(p);
      r.Some? ==> r.value == t[NameStart(t)..] && r.value != [] && r.value != "." && r.value != ".."
    ensures var t := Trimmed(p); r.None? ==> t[NameStart(t)..] in {"", ".", ".."}
  {
    var t := Trimmed(p);
    var name := t[NameStart(t)..];
    if name == "" || name == "." || name == ".." then None else Some(name)
  }

  /** The position in the path of the dot that starts the extension: the
      last dot of the file name, unless the name starts there. */
  function ExtensionDot(p: string): (r: Option<nat>)
    ensures var t := Trimmed(p); r.Some? ==> NameStart(t) < r.value < |t| && t[r.value] == DOT
    ensures var t := Trimmed(p);
      r.Some? ==> forall j :: r.value < j < |t| ==> t[j] != DOT && t[j] != SEPARATOR
  {
    var name := FileName(p);
    if name.None? then None
    else match LastIndexOf(name.value, DOT)
      case None => None
      case Some(i) => if i == 0 then None else Some(NameStart(Trimmed(p)) + i)
  }

  /** `Path::extension`: what follows the extension's dot in the trimmed
      path. */
  function Extension(p: string): (r: Option<string>)
    ensures r.Some? <==> ExtensionDot(p).Some?
    ensures r.Some? ==> Trimmed(p) == p[..ExtensionDot(p).value] + [DOT] + r.value
  {
    match ExtensionDot(p)
    case None => None
    case Some(d) =>
      var t := Trimmed(p);
      assert t == t[..d] + [DOT] + t[d + 1..];
      assert t[..d] == p[..d];
      Some(t[d + 1..])
  }

  function ErrorMessage(p: string): string
  {
    "Expected a FASTA or BASTA file, but found '" + p + "'."
  }

  /** `NucleotideFile::new`: `fasta` and `fa` name FASTA files, `basta` and
      `ba` binary ones; any other extension, or none, is an error naming
      the path. */
  function New(p: string): (r: Result<NucleotideFile, string>)
    ensures r.Ok? <==> Extension(p).Some? && Extension(p).value in {"fasta", "fa", "basta", "ba"}
    ensures r.Ok? ==> r.value.filePath == p
    ensures r.Ok? ==> (r.value.format == Fasta <==> Extension(p).value in {"fasta", "fa"})
    ensures r.Ok? ==> (r.value.longExtension <==> |Extension(p).value| == 5)
    ensures r.Err? ==> r.error == ErrorMessage(p)
  {
    match Extension(p)
    case None => Err(ErrorMessage(p))
    case Some(ext) =>
      if ext == "fasta" || ext == "fa" then Ok(NucleotideFile(Fasta, p, |ext| > 2))
      else if ext == "basta" || ext == "ba" then Ok(NucleotideFile(Basta, p, |ext| > 2))
      else Err(ErrorMessage(p))
  }

  /** `get_opposite_type`: the other format. */
  function OppositeType(f: FileFormat): (r: FileFormat)
    ensures r != f
  {
    match f
    case Fasta => Basta
    case Basta => Fasta
  }

  /** `Path::with_extension`: the path up to the extension's dot (the whole
      trimmed path when it has no extension) and then `.ext`; a path with
      no file name is left as it is. */
  function WithExtension(p: string, ext: string): (r: string)
    requires ext != []
    ensures FileName(p).None? ==> r == p
    ensures FileName(p).Some? && ExtensionDot(p).Some? ==> r == p[..ExtensionDot(p).value] + [DOT] + ext
    ensures FileName(p).Some? && ExtensionDot(p).None? ==> r == Trimmed(p) + [DOT] + ext
  {
    if FileName(p).None? then p
    else
      var stemEnd := if ExtensionDot(p).Some? then ExtensionDot(p).value else |Trimmed(p)|;
      p[..stemEnd] + [DOT] + ext
  }

  /** The extension of the converted file: one of the other format, as
      long as the current one. */
  function TargetExtension(f: NucleotideFile): (ext: string)
    ensures f.format == Basta ==> ext in {"fasta", "fa"}
    ensures f.format == Fasta ==> ext in {"basta", "ba"}
    ensures |ext| == 5 <==> f.longExtension
    ensures ext != [] && forall j :: 0 <= j < |ext| ==> ext[j] != DOT && ext[j] != SEPARATOR
  {
    if f.format == Fasta then (if f.longExtension then "basta" else "ba")
    else (if f.longExtension then "fasta" else "fa")
  }

  /** `switch_extension`: the other format, the same extension length, and
      the path with the matching extension. */
  function SwitchExtension(f: NucleotideFile): (r: NucleotideFile)
    ensures r.format == OppositeType(f.format) && r.longExtension == f.longExtension
  {
    NucleotideFile(OppositeType(f.format), WithExtension(f.filePath, TargetExtension(f)), f.longExtension)
  }

  /** Swapping the format twice gives it back. */
  lemma OppositeInvolution(f: FileFormat)
    ensures OppositeType(OppositeType(f)) == f
  {
  }

  /** Replacing the extension of a path that has one: the new path's
      extension is the new one, at the same place. */
  lemma {:induction false} ReplacedExtension(p: string, ext: string)
    requires ExtensionDot(p).Some?
    requires ext != [] && forall j :: 0 <= j < |ext| ==> ext[j] != DOT && ext[j] != SEPARATOR
    ensures Trimmed(p[..ExtensionDot(p).value] + [DOT] + ext) == p[..ExtensionDot(p).value] + [DOT] + ext
    ensures NameStart(p[..ExtensionDot(p).value] + [DOT] + ext) == NameStart(Trimmed(p))
    ensures ExtensionDot(p[..ExtensionDot(p).value] + [DOT] + ext) == ExtensionDot(p)
    ensures Extension(p[..ExtensionDot(p).value] + [DOT] + ext) == Some(ext)
  {
    var t := Trimmed(p);
    var d := ExtensionDot(p).value;
    TrimmedOnly(p);
    assert p[..d] == t[..d];
    ReplacedTrimmedExtension(t, ext);
  }

  /** The file name and the extension depend only on the trimmed path. */
  lemma {:induction false} TrimmedOnly(p: string)
    ensures Trimmed(Trimmed(p)) == Trimmed(p)
    ensures FileName(Trimmed(p)) == FileName(p)
    ensures ExtensionDot(Trimmed(p)) == ExtensionDot(p)
  {
    TrimmedTwice(p);
  }

  /** `ReplacedExtension` for a path that is already trimmed. */
  lemma {:induction false} ReplacedTrimmedExtension(t: string, ext: string)
    requires Trimmed(t) == t && ExtensionDot(t).Some?
    requires ext != [] && forall j :: 0 <= j < |ext| ==> ext[j] != DOT && ext[j] != SEPARATOR
    ensures Trimmed(t[..ExtensionDot(t).value] + [DOT] + ext) == t[..ExtensionDot(t).value] + [DOT] + ext
    ensures NameStart(t[..ExtensionDot(t).value] + [DOT] + ext) == NameStart(t)
    ensures ExtensionDot(t[..ExtensionDot(t).value] + [DOT] + ext) == ExtensionDot(t)
    ensures Extension(t[..ExtensionDot(t).value] + [DOT] + ext) == Some(ext)
  {
    var d := ExtensionDot(t).value;
    var start := NameStart(t);
    var q := t[..d] + [DOT] + ext;
    assert Trimmed(q) == q by {
      assert q[|q| - 1] == ext[|ext| - 1];
    }
    assert NameStart(q) == start by {
      // The last separator is where it was.
      var sep := LastIndexOf(t, SEPARATOR);
      assert forall j :: d < j < |q| ==> q[j] == ext[j - d - 1];
      assert forall j :: 0 <= j < d ==> q[j] == t[j];
      LastIndexOfIs(q, SEPARATOR, sep);
    }
    // The file name's last dot is the new one.
    var name := q[start..];
    assert name[d - start] == DOT;
    LastIndexOfIs(name, DOT, Some(d - start));
    var oldName := t[start..];
    assert FileName(t) == Some(oldName);
    assert d - start > 0;
    assert |name| >= 2;
    assert q[d + 1..] == ext;
  }

  /** The converted file's name is itself accepted, as a file of the
      other format with the same extension length. */
  lemma {:induction false} SwitchedIsAccepted(p: string)
    requires New(p).Ok?
    ensures New(SwitchExtension(New(p).value).filePath) == Ok(SwitchExtension(New(p).value))
  {
    var f := New(p).value;
    var ext := TargetExtension(f);
    var d := ExtensionDot(p).value;
    var q := p[..d] + [DOT] + ext;
    assert SwitchExtension(f).filePath == q by {
      assert FileName(p).Some?;
    }
    assert Extension(q) == Some(ext) by {
      ReplacedExtension(p, ext);
    }
    NewOfTarget(q, f);
  }

  /** A path whose extension is the target extension of `f` is accepted as
      a file of the other format with the same extension length. */
  lemma {:induction false} NewOfTarget(q: string, f: NucleotideFile)
    requires Extension(q) == Some(TargetExtension(f))
    ensures New(q) == Ok(NucleotideFile(OppositeType(f.format), q, f.longExtension))
  {
    var ext := Extension(q).value;
    if f.format == Fasta {
      assert ext == "basta" || ext == "ba";
      assert ext != "fasta" && ext != "fa";
    } else {
      assert ext == "fasta" || ext == "fa";
    }
  }

  /** Switching twice gives the original file back, its path without the
      trailing separators and `.` components that `with_extension` drops. */
  lemma {:induction false} SwitchTwice(p: string)
    requires New(p).Ok?
    ensures SwitchExtension(SwitchExtension(New(p).value))
         == NucleotideFile(New(p).value.format, Trimmed(p), New(p).value.longExtension)
  {
    var f := New(p).value;
    var ext := Extension(p).value;
    var d := ExtensionDot(p).value;
    var g := SwitchExtension(f);
    var q := g.filePath;
    assert q == p[..d] + [DOT] + TargetExtension(f) by {
      assert FileName(p).Some?;
    }
    assert TargetExtension(g) == ext by {
      TargetOfSwitched(f, ext);
    }
    assert SwitchExtension(g).filePath == Trimmed(p) by {
      assert FileName(p).Some?;
      SwitchBack(p, TargetExtension(f));
    }
  }

  /** The target extension of the switched file is the extension the file
      was classified by. */
  lemma TargetOfSwitched(f: NucleotideFile, ext: string)
    requires f.format == Fasta ==> ext in {"fasta", "fa"}
    requires f.format == Basta ==> ext in {"basta", "ba"}
    requires |ext| == 5 <==> f.longExtension
    ensures TargetExtension(SwitchExtension(f)) == ext
  {
  }

  /** Putting the old extension back on a path whose extension was replaced
      gives the trimmed path back. */
  lemma {:induction false} SwitchBack(p: string, ext: string)
    requires ExtensionDot(p).Some? && FileName(p).Some? && Extension(p).value != []
    requires ext != [] && forall j :: 0 <= j < |ext| ==> ext[j] != DOT && ext[j] != SEPARATOR
    ensures WithExtension(p[..ExtensionDot(p).value] + [DOT] + ext, Extension(p).value) == Trimmed(p)
  {
    var d := ExtensionDot(p).value;
    var q := p[..d] + [DOT] + ext;
    ReplacedExtension(p, ext);
    var name := q[NameStart(q)..];
    assert name[|name| - 1] == ext[|ext| - 1];
    assert FileName(q).Some?;
    assert q[..d] == p[..d];
  }

  /** Only the extension changes: the directory and the file stem are kept,
      and the new extension is a different one. */
  lemma {:induction false} SwitchKeepsStem(p: string)
    requires New(p).Ok?
    ensures ExtensionDot(p).value < |SwitchExtension(New(p).value).filePath|
    ensures SwitchExtension(New(p).value).filePath[..ExtensionDot(p).value] == p[..ExtensionDot(p).value]
    ensures Extension(SwitchExtension(New(p).value).filePath).Some?
    ensures Extension(SwitchExtension(New(p).value).filePath).value != Extension(p).value
  {
    var f := New(p).value;
    var d := ExtensionDot(p).value;
    var ext := TargetExtension(f);
    var q := p[..d] + [DOT] + ext;
    assert SwitchExtension(f).filePath == q by {
      SwitchedPath(p);
    }
    assert Extension(q) == Some(ext) by {
      ReplacedExtension(p, ext);
    }
    assert ext != Extension(p).value by {
      TargetDiffers(f, Extension(p).value);
    }
    assert q[..d] == p[..d];
  }

  /** The switched path: the path up to its extension's dot, the dot, and
      the target extension. */
  lemma {:induction false} SwitchedPath(p: string)
    requires New(p).Ok?
    ensures SwitchExtension(New(p).value).filePath
         == p[..ExtensionDot(p).value] + [DOT] + TargetExtension(New(p).value)
  {
    assert FileName(p).Some?;
  }

  /** The target extension is never the extension the file has. */
  lemma TargetDiffers(f: NucleotideFile, ext: string)
    requires f.format == Fasta ==> ext in {"fasta", "fa"}
    requires f.format == Basta ==> ext in {"basta", "ba"}
    ensures TargetExtension(f) != ext
  {
    assert TargetExtension(f)[0] != ext[0];
  }

  /** A trailing separator is ignored: `x.fasta/` is a FASTA file, and its
      converted file is `x.basta`. */
  lemma TrailingSeparatorIgnored()
    ensures New("x.fasta/") == Ok(NucleotideFile(Fasta, "x.fasta/", true))
    ensures SwitchExtension(New("x.fasta/").value).filePath == "x.basta"
  {
    var p := "x.fasta/";
    var t := "x.fasta";
    assert Trimmed(p) == Trimmed(p[..7]);
    assert p[..7] == t;
    assert Trimmed(t) == t;
    LastIndexOfIs(t, SEPARATOR, None);
    assert NameStart(t) == 0;
    assert t[0..] == t;
    LastIndexOfIs(t, DOT, Some(1));
    assert ExtensionDot(p) == Some(1);
    assert t[2..] == "fasta";
    assert p[..1] + [DOT] + "basta" == "x.basta";
  }

  /** A FASTA file in a nested directory becomes a binary file beside it. */
  lemma NestedPathSwitch()
    ensures New("/path/to/test.fasta") == Ok(NucleotideFile(Fasta, "/path/to/test.fasta", true))
    ensures SwitchExtension(New("/path/to/test.fasta").value).filePath == "/path/to/test.basta"
  {
    var p := "/path/to/test.fasta";
    LastIndexOfIs(p, SEPARATOR, Some(8));
    assert NameStart(p) == 9;
    var name := p[9..];
    assert name == "test.fasta";
    LastIndexOfIs(name, DOT, Some(4));
    assert ExtensionDot(p) == Some(13);
    assert p[14..] == "fasta";
    assert p[..13] + [DOT] + "basta" == "/path/to/test.basta";
  }
}
