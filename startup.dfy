/**
 * Startup validation of the firmware image named on the command line:
 * `getFileExt` and the argument, existence and extension checks that
 * `main` performs before it subscribes to device events.
 */
module Startup {
  import opened Wrappers

  /** The only extension a Glove80 firmware image may carry (case-sensitive). */
  const FIRMWARE_FILE_EXTENSION: string := "uf2"

  /** Index of the last occurrence of `c` in `s`, or None: what `strrchr` locates. */
  function LastIndex(s: string, c: char): (r: Option<nat>)
    ensures r.None? <==> c !in s
    ensures r.Some? ==> r.value < |s| && s[r.value] == c && c !in s[r.value + 1..]
  {
    if |s| == 0 then None
    else if s[|s| - 1] == c then Some(|s| - 1)
    else
      var r := LastIndex(s[..|s| - 1], c);
      assert s == s[..|s| - 1] + [s[|s| - 1]];
      if r.Some? then
        assert s[r.value + 1..] == s[..|s| - 1][r.value + 1..] + [s[|s| - 1]];
        r
      else r
  }

  /**
   * The text after the last '.' of `filename`; empty when there is no '.'
   * or when the last '.' is the very first character of the whole name.
   */
  function FileExt(filename: string): (ext: string)
    ensures '.' !in ext
    ensures ext != [] ==>
      |ext| + 1 < |filename| &&
      filename == filename[..|filename| - |ext| - 1] + "." + ext
  {
    match LastIndex(filename, '.')
    case None => ""
    case Some(i) =>
      if i == 0 then ""
      else
        assert filename == filename[..i] + "." + filename[i + 1..];
        filename[i + 1..]
  }

  /** A non-empty stem, a dot and a dot-free tail: the tail is the extension. */
  lemma {:induction false} FileExtOfSplit(stem: string, ext: string)
    requires stem != [] && '.' !in ext
    ensures FileExt(stem + "." + ext) == ext
  {
    var name := stem + "." + ext;
    var r := LastIndex(name, '.');
    assert name[|stem|] == '.';
    assert name[|stem| + 1..] == ext;
    assert r.value >= |stem| by {
      assert forall k :: r.value < k < |name| ==> name[k] == name[r.value + 1..][k - r.value - 1];
    }
    assert r.value <= |stem| by {
      assert forall k :: |stem| < k < |name| ==> name[k] == ext[k - |stem| - 1];
    }
  }

  /** A name with no dot, or whose only dot leads it, has no extension. */
  lemma FileExtAbsent(filename: string)
    requires '.' !in filename || (filename != [] && filename[0] == '.' && '.' !in filename[1..])
    ensures FileExt(filename) == ""
  {
  }

  /** What `main` decides from its arguments before the event loop starts. */
  datatype StartupResult =
    | UsageError                 // not exactly one argument
    | FileError                  // `access` says the file is not there
    | NotFirmware                // the extension is not exactly "uf2"
    | Ready(firmware: string)    // go on to watch for the keyboard halves

  /**
   * `argv` includes the program name, as in C. `accessible` stands for the
   * `access(path, F_OK)` probe of the file system.
   */
  function CheckStartup(argv: seq<string>, accessible: string -> bool): (r: StartupResult)
    ensures r.UsageError? <==> |argv| != 2
    ensures r.FileError? <==> |argv| == 2 && !accessible(argv[1])
    ensures r.Ready? <==>
      |argv| == 2 && accessible(argv[1]) && FileExt(argv[1]) == FIRMWARE_FILE_EXTENSION
    ensures r.Ready? ==> r.firmware == argv[1]
  {
    if |argv| < 2 || |argv| > 2 then UsageError
    else if !accessible(argv[1]) then FileError
    else if FileExt(argv[1]) != FIRMWARE_FILE_EXTENSION then NotFirmware
    else Ready(argv[1])
  }

  /** The value `main` returns on each early exit; the usage error returns 0. */
  function ExitCode(r: StartupResult): (code: int)
    requires !r.Ready?
    ensures code == 0 <==> r.UsageError?
    ensures !r.UsageError? ==> code == -1
  {
    if r.UsageError? then 0 else -1
  }

  /** Every accepted path ends in ".uf2" after a non-empty stem. */
  lemma AcceptedNamesEndInUf2(argv: seq<string>, accessible: string -> bool)
    requires CheckStartup(argv, accessible).Ready?
    ensures |argv| == 2 && accessible(argv[1])
    ensures |argv[1]| > 4 && argv[1] == argv[1][..|argv[1]| - 4] + ".uf2"
  {
  }

  /** Conversely, any existing path "<stem>.uf2" with a non-empty stem is accepted. */
  lemma Uf2NamesAccepted(program: string, stem: string, accessible: string -> bool)
    requires stem != [] && accessible(stem + ".uf2")
    ensures CheckStartup([program, stem + ".uf2"], accessible) == Ready(stem + ".uf2")
  {
    FileExtOfSplit(stem, "uf2");
    assert stem + ".uf2" == stem + "." + "uf2";
  }

  /** Any other extension, including "bin", "hex", "UF2" and the empty one, is refused. */
  lemma OtherExtensionsRejected(program: string, stem: string, ext: string, accessible: string -> bool)
    requires stem != [] && '.' !in ext && ext != FIRMWARE_FILE_EXTENSION
    requires accessible(stem + "." + ext)
    ensures CheckStartup([program, stem + "." + ext], accessible) == NotFirmware
  {
    FileExtOfSplit(stem, ext);
  }

  /** A path with no dot at all, or a bare ".uf2", is refused too. */
  lemma NoExtensionRejected(program: string, name: string, accessible: string -> bool)
    requires accessible(name)
    requires '.' !in name || (name != [] && name[0] == '.' && '.' !in name[1..])
    ensures CheckStartup([program, name], accessible) == NotFirmware
  {
  }

  /** A missing file is reported as such, whatever its extension: existence is checked first. */
  lemma MissingFileReportedFirst(program: string, name: string, accessible: string -> bool)
    requires !accessible(name)
    ensures CheckStartup([program, name], accessible) == FileError
    ensures ExitCode(CheckStartup([program, name], accessible)) == -1
  {
  }
}
