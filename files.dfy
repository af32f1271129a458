/** A local text log as the batch scripts use it: it may be missing, and otherwise
    holds one entry per line written (each `write(... + "\n")` adds one line). */
module Files {

  class LogFile {
    var present: bool
    var lines: seq<string>

    /** A log that does not exist yet (`os.path.exists` is false). */
    constructor Missing()
      ensures !present && lines == []
    {
      present := false;
      lines := [];
    }

    /** A log that exists with the given lines. */
    constructor Existing(initial: seq<string>)
      ensures present && lines == initial
    {
      present := true;
      lines := initial;
    }

    /** `open(path, 'a').write(line + "\n")`: creates the file if needed and adds one
        line after all earlier ones, which stay as they were. */
    method Append(line: string)
      modifies this
      ensures present
      ensures lines == old(lines) + [line]
      ensures |lines| == |old(lines)| + 1 && lines[..|old(lines)|] == old(lines)
    {
      lines := lines + [line];
      present := true;
    }

    /** `open(path, 'w')` followed by writing `newLines`: earlier content is lost. */
    method Overwrite(newLines: seq<string>)
      modifies this
      ensures present && lines == newLines
    {
      lines := newLines;
      present := true;
    }
  }
}
