/** The command line's check on the input file name. */
module Parser {
  import opened Base
  import NucleotideFiles

  predicate EndsWith(s: string, suffix: string)
  {
    |suffix| <= |s| && s[|s| - |suffix|..] == suffix
  }

  const ACCEPTED_SUFFIXES: seq<string> := [".fa", ".fasta", ".ba", ".basta"]

  const MESSAGE_START: string := "Invalid input file '"
  const MESSAGE_END: string :=
    "'. Input file must end with .fa/.fasta for FASTA files, or .ba/.basta for binary FASTA files."

  /** `parse_input`: the input unchanged when it ends with one of the four
      accepted suffixes (compared case by case), otherwise a message that
      quotes it. */
  function ParseInput(s: string): (r: Result<string, string>)
    ensures r.Ok? <==> exists k :: 0 <= k < |ACCEPTED_SUFFIXES| && EndsWith(s, ACCEPTED_SUFFIXES[k])
    ensures r.Ok? ==> r.value == s
    ensures r.Err? ==> |MESSAGE_START| + |s| <= |r.error| && r.error[|MESSAGE_START|..|MESSAGE_START| + |s|] == s
  {
    if EndsWith(s, ".fa") || EndsWith(s, ".fasta") || EndsWith(s, ".ba") || EndsWith(s, ".basta") then
      assert EndsWith(s, ACCEPTED_SUFFIXES[0]) || EndsWith(s, ACCEPTED_SUFFIXES[1])
          || EndsWith(s, ACCEPTED_SUFFIXES[2]) || EndsWith(s, ACCEPTED_SUFFIXES[3]);
      Ok(s)
    else
      var message := MESSAGE_START + s + MESSAGE_END;
      assert message[|MESSAGE_START|..|MESSAGE_START| + |s|] == s;
      Err(message)
  }

  /** A trimmed path ends with its extension's dot and the extension. */
  lemma {:induction false} EndsWithExtension(p: string)
    requires NucleotideFiles.Extension(p).Some?
    ensures EndsWith(NucleotideFiles.Trimmed(p), [NucleotideFiles.DOT] + NucleotideFiles.Extension(p).value)
  {
    var t := NucleotideFiles.Trimmed(p);
    var suffix := [NucleotideFiles.DOT] + NucleotideFiles.Extension(p).value;
    var d := NucleotideFiles.ExtensionDot(p).value;
    assert t == p[..d] + suffix;
    assert t[|t| - |suffix|..] == suffix;
  }

  /** A name ending with a dot and one of the four extensions passes. */
  lemma {:induction false} SuffixAccepted(p: string, ext: string)
    requires ext in {"fasta", "fa", "basta", "ba"}
    requires EndsWith(p, [NucleotideFiles.DOT] + ext)
    ensures ParseInput(p) == Ok(p)
  {
    var suffix := [NucleotideFiles.DOT] + ext;
    if ext == "fasta" {
      assert suffix == ".fasta";
    } else if ext == "fa" {
      assert suffix == ".fa";
    } else if ext == "basta" {
      assert suffix == ".basta";
    } else {
      assert suffix == ".ba";
    }
  }

  /** Every path the file classifier accepts passes the command line's
      check once its trailing separators and `.` components are removed. */
  lemma {:induction false} ClassifiedIsParsed(p: string)
    requires NucleotideFiles.New(p).Ok?
    ensures ParseInput(NucleotideFiles.Trimmed(p)) == Ok(NucleotideFiles.Trimmed(p))
  {
    EndsWithExtension(p);
    SuffixAccepted(NucleotideFiles.Trimmed(p), NucleotideFiles.Extension(p).value);
  }

  /** The check is looser than the classifier: a hidden file named `.fa`
      passes it, but has no extension and is then rejected. */
  lemma HiddenFilePassesCheck()
    ensures ParseInput(".fa") == Ok(".fa")
    ensures NucleotideFiles.New(".fa").Err?
  {
    var p := ".fa";
    NucleotideFiles.LastIndexOfIs(p, NucleotideFiles.SEPARATOR, None);
    NucleotideFiles.LastIndexOfIs(p, NucleotideFiles.DOT, Some(0));
    assert NucleotideFiles.NameStart(p) == 0;
    assert p[0..] == p;
  }

  /** The check is stricter than the classifier on a trailing separator:
      `x.fasta/` is refused, although it names a FASTA file. */
  lemma TrailingSeparatorRefused()
    ensures ParseInput("x.fasta/").Err?
    ensures NucleotideFiles.New("x.fasta/").Ok?
  {
    NucleotideFiles.TrailingSeparatorIgnored();
  }

  /** Suffixes are compared case by case: `x.FA` is refused. */
  lemma UpperCaseRefused()
    ensures ParseInput("x.FA").Err?
  {
    var s := "x.FA";
    assert s[|s| - 3..] == ".FA";
    assert s[|s| - 3..][1] != 'f';
    assert s[|s| - 3..][1] != 'b';
    assert !EndsWith(s, ".fasta") && !EndsWith(s, ".basta");
  }
}
