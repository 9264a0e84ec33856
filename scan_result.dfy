/**
 * The result of scanning one file, as the scanner hands it to the history:
 * whether the file is clean and the scan command's output, plus the path of
 * the scanned node and the id of the user who triggered the scan, which are
 * filled in after construction. A Java `null` string is `None`.
 */
module ScanResults {
  import opened Wrappers

  class ScanResult {
    var clean: bool
    var output: Option<string>
    var path: Option<string>
    var userId: Option<string>

    /** A result with the scan outcome; path and user are not yet known. */
    constructor (output: Option<string>, clean: bool)
      ensures this.clean == clean && this.output == output
      ensures path == None && userId == None
    {
      this.clean := clean;
      this.output := output;
      path := None;
      userId := None;
    }

    function IsClean(): bool
      reads this
    {
      clean
    }

    function GetOutput(): Option<string>
      reads this
    {
      output
    }

    function GetPath(): Option<string>
      reads this
    {
      path
    }

    function GetUserId(): Option<string>
      reads this
    {
      userId
    }

    /** Records the scanned node's path; nothing else changes. */
    method SetPath(path: Option<string>)
      modifies this
      ensures GetPath() == path
      ensures clean == old(clean) && output == old(output) && userId == old(userId)
    {
      this.path := path;
    }

    /** Records the user id; nothing else changes. */
    method SetUserId(userId: Option<string>)
      modifies this
      ensures GetUserId() == userId
      ensures clean == old(clean) && output == old(output) && path == old(path)
    {
      this.userId := userId;
    }

    /** `toString`: the clean flag and the output, on two lines. */
    function ToString(): string
      reads this
    {
      Describe(clean, output)
    }
  }

  /** A string as Java's `+` writes it: `null` becomes the text "null". */
  function JavaText(s: Option<string>): string {
    match s
    case None => "null"
    case Some(x) => x
  }

  /** `Boolean.toString`. */
  function BoolText(b: bool): string {
    if b then "true" else "false"
  }

  /** The text `toString` gives for a result with these values. */
  function Describe(clean: bool, output: Option<string>): string {
    "Clean: " + BoolText(clean) + "\n" + "Output: " + JavaText(output)
  }

  /**
   * The description is readable back: it starts with the clean flag and
   * ends with the output text after a fixed prefix, so two descriptions are
   * equal only when the flags and the output texts are.
   */
  lemma DescribeDetermines(clean: bool, output: Option<string>, clean': bool, output': Option<string>)
    ensures Describe(clean, output) == Describe(clean', output')
        <==> clean == clean' && JavaText(output) == JavaText(output')
  {
    var d, d' := Describe(clean, output), Describe(clean', output');
    var prefix := "Clean: " + BoolText(clean) + "\n" + "Output: ";
    var prefix' := "Clean: " + BoolText(clean') + "\n" + "Output: ";
    assert d == prefix + JavaText(output) && d' == prefix' + JavaText(output');
    if d == d' {
      assert d[7] == d'[7];
      assert clean == clean';
      assert d[|prefix|..] == JavaText(output) && d'[|prefix|..] == JavaText(output');
    }
  }

  /** A fresh result carries exactly what the setters recorded after construction. */
  method Build(output: Option<string>, clean: bool, path: Option<string>, userId: Option<string>)
    returns (r: ScanResult)
    ensures r.IsClean() == clean && r.GetOutput() == output
    ensures r.GetPath() == path && r.GetUserId() == userId
    ensures r.ToString() == Describe(clean, output)
  {
    r := new ScanResult(output, clean);
    r.SetPath(path);
    r.SetUserId(userId);
  }
}
