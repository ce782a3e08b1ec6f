/** The output file of the `start` service: a validated base name plus the container format. */
module Naming {
  import opened Wrappers

  /** The two containers the encoder may write (the schema's `vol.In(['gif', 'mp4'])`). */
  datatype Format = Gif | Mp4

  function FormatName(f: Format): string {
    match f
    case Gif => "gif"
    case Mp4 => "mp4"
  }

  const DefaultFilename: string := "latest"
  const DefaultFormat: Format := Gif

  /** The characters the filename pattern's negated class rules out. */
  const Forbidden: set<char> := {'<', '>', ':', ';', ',', '.', '?', '"', '*', '|', '/', '\\'}

  /**
   * The filename pattern `^[^<>:;,.?"*|/\\]+$`, matched one character at a time:
   * at least one character, and every character outside `Forbidden`.
   */
  predicate ValidFilename(s: string)
    decreases |s|
  {
    |s| > 0 && s[0] !in Forbidden && (|s| == 1 || ValidFilename(s[1..]))
  }

  /** The pattern accepts exactly the non-empty strings with no forbidden character. */
  lemma {:induction false} ValidFilenameIff(s: string)
    ensures ValidFilename(s) <==> |s| > 0 && forall i :: 0 <= i < |s| ==> s[i] !in Forbidden
    decreases |s|
  {
    if |s| > 1 {
      ValidFilenameIff(s[1..]);
      assert forall i :: 1 <= i < |s| ==> s[i] == s[1..][i - 1];
    }
  }

  /** The output name `f'{filename}.{format}'`. For a valid base name its only dot is the separator. */
  function OutputName(filename: string, format: Format): (out: string)
    ensures |out| == |filename| + 4
    ensures ValidFilename(filename) ==>
      forall i :: 0 <= i < |out| ==> (out[i] == '.' <==> i == |filename|)
  {
    ValidFilenameIff(filename);
    filename + "." + FormatName(format)
  }

  /** Reads a base name and a format back from an output name; None when it is not one. */
  function SplitOutputName(out: string): (r: Option<(string, Format)>)
  {
    if |out| < 4 || out[|out| - 4] != '.' then None
    else
      var base := out[..|out| - 4];
      var ext := out[|out| - 3..];
      if !ValidFilename(base) then None
      else if ext == "gif" then Some((base, Gif))
      else if ext == "mp4" then Some((base, Mp4))
      else None
  }

  /** Building an output name from a valid base name and reading it back gives both parts. */
  lemma OutputNameRoundTrip(filename: string, format: Format)
    requires ValidFilename(filename)
    ensures SplitOutputName(OutputName(filename, format)) == Some((filename, format))
  {
    var out := OutputName(filename, format);
    assert out[..|out| - 4] == filename;
    assert out[|out| - 3..] == FormatName(format);
  }

  /** Every name that reads back is the output name of what it reads back to. */
  lemma SplitOutputNameSound(out: string)
    requires SplitOutputName(out).Some?
    ensures ValidFilename(SplitOutputName(out).value.0)
    ensures OutputName(SplitOutputName(out).value.0, SplitOutputName(out).value.1) == out
  {
    var base := out[..|out| - 4];
    assert out == base + "." + out[|out| - 3..];
  }

  /** Distinct requests never name the same output file. */
  lemma OutputNameInjective(f1: string, t1: Format, f2: string, t2: Format)
    requires ValidFilename(f1) && ValidFilename(f2)
    requires OutputName(f1, t1) == OutputName(f2, t2)
    ensures f1 == f2 && t1 == t2
  {
    OutputNameRoundTrip(f1, t1);
    OutputNameRoundTrip(f2, t2);
  }

  /** The defaults produce `latest.gif`, and the default base name passes the pattern. */
  lemma DefaultOutputName()
    ensures ValidFilename(DefaultFilename)
    ensures OutputName(DefaultFilename, DefaultFormat) == "latest.gif"
  {
  }
}
