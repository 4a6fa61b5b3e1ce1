/**
 * The remote file template's `get`: the local file is named by two
 * expressions, the remote one by two more, and the remote path joins the
 * remote directory and file with exactly one separator between them.
 *
 * Evaluating the expressions, the file system and the session are outside
 * this model: their answers are parameters.
 */
module RemoteFileTemplate {
  import opened Wrappers
  import opened JavaLang

  const DefaultTemporaryFileSuffix := ".writing"
  const DefaultFileSeparator := "/"

  /** The remote directory, followed by the separator unless it already ends with it. */
  function DirectoryPrefix(directory: string, separator: string): (d: string)
    ensures EndsWith(d, separator)
    ensures |d| >= |directory| && d[..|directory|] == directory
    ensures EndsWith(directory, separator) ==> d == directory
    ensures !EndsWith(directory, separator) ==> |d| == |directory| + |separator|
  {
    if EndsWith(directory, separator) then directory
    else
      var d := directory + separator;
      assert d[|d| - |separator|..] == separator;
      d
  }

  /** The path `get` reads from: the directory, a separator if it lacks one, the file. */
  function RemoteFilePath(directory: string, separator: string, file: string): (p: string)
    ensures p == DirectoryPrefix(directory, separator) + file
  {
    var path := directory;
    var path := if !EndsWith(directory, separator) then path + separator else path;
    path + file
  }

  /**
   * The path starts with the directory and ends with the file, and what
   * precedes the file ends with the separator; the separator is added only
   * when the directory lacks it.
   */
  lemma RemoteFilePathJoins(directory: string, separator: string, file: string)
    ensures var p := RemoteFilePath(directory, separator, file);
      && p == DirectoryPrefix(directory, separator) + file
      && |p| >= |directory| + |file|
      && p[..|directory|] == directory
      && p[|p| - |file|..] == file
      && EndsWith(p[..|p| - |file|], separator)
      && (EndsWith(directory, separator) <==> |p| == |directory| + |file|)
  {
    var p := RemoteFilePath(directory, separator, file);
    var d := DirectoryPrefix(directory, separator);
    assert p == d + file;
    assert p[..|p| - |file|] == d;
    assert p[..|directory|] == d[..|directory|];
    if !EndsWith(directory, separator) {
      assert |p| == |directory| + |separator| + |file|;
    }
  }

  /** The paths of the two template tests. */
  lemma RemoteFilePathExamples()
    ensures RemoteFilePath("bar", DefaultFileSeparator, "qux") == "bar/qux"
    ensures RemoteFilePath("bar", DefaultFileSeparator, "baz") == "bar/baz"
    ensures RemoteFilePath("bar/", DefaultFileSeparator, "baz") == "bar/baz"
  {
    assert !EndsWith("bar", "/") by { assert "bar"[2..] == "r"; }
    assert EndsWith("bar/", "/") by { assert "bar/"[3..] == "/"; }
  }

  /** The template's configuration; `None` stands for a null expression. */
  datatype Template = Template(
    commandExpression: Option<string>,
    remoteDirectoryExpression: string,
    remoteFileExpression: string,
    localDirectoryExpression: string,
    localFileExpression: string,
    temporaryFileSuffix: string,
    fileSeparator: string)

  function IllegalArgument(message: string): Throwable {
    Throwable(IllegalArgumentException, Some(message))
  }

  /**
   * The constructor: the resolver and the four path expressions must be
   * given, checked in that order; the command expression may be null. The
   * suffix and the separator start at their defaults.
   */
  function Create(hasResolver: bool, commandExpression: Option<string>,
                  remoteDirectoryExpression: Option<string>, remoteFileExpression: Option<string>,
                  localDirectoryExpression: Option<string>, localFileExpression: Option<string>)
    : (r: Result<Template, Throwable>)
    ensures r.Success? <==>
      hasResolver && remoteDirectoryExpression.Some? && remoteFileExpression.Some?
      && localDirectoryExpression.Some? && localFileExpression.Some?
    ensures r.Success? ==>
      && r.value.commandExpression == commandExpression
      && r.value.temporaryFileSuffix == DefaultTemporaryFileSuffix
      && r.value.fileSeparator == DefaultFileSeparator
    ensures !hasResolver ==> r == Failure(IllegalArgument("SessionFactoryResolver may not be null"))
    ensures r.Success? ==>
      && r.value.remoteDirectoryExpression == remoteDirectoryExpression.value
      && r.value.remoteFileExpression == remoteFileExpression.value
      && r.value.localDirectoryExpression == localDirectoryExpression.value
      && r.value.localFileExpression == localFileExpression.value
    ensures hasResolver && remoteDirectoryExpression.None? ==>
      r == Failure(IllegalArgument("Remote directory expression may not be null"))
    ensures hasResolver && remoteDirectoryExpression.Some? && remoteFileExpression.None? ==>
      r == Failure(IllegalArgument("Remote file expression may not be null"))
    ensures (hasResolver && remoteDirectoryExpression.Some? && remoteFileExpression.Some?
             && localDirectoryExpression.None?) ==>
      r == Failure(IllegalArgument("Local directory expression may not be null"))
    ensures (hasResolver && remoteDirectoryExpression.Some? && remoteFileExpression.Some?
             && localDirectoryExpression.Some? && localFileExpression.None?) ==>
      r == Failure(IllegalArgument("Local file expression may not be null"))
    ensures r.Failure? ==> r.error.kind == IllegalArgumentException
  {
    if !hasResolver then Failure(IllegalArgument("SessionFactoryResolver may not be null"))
    else if remoteDirectoryExpression.None? then Failure(IllegalArgument("Remote directory expression may not be null"))
    else if remoteFileExpression.None? then Failure(IllegalArgument("Remote file expression may not be null"))
    else if localDirectoryExpression.None? then Failure(IllegalArgument("Local directory expression may not be null"))
    else if localFileExpression.None? then Failure(IllegalArgument("Local file expression may not be null"))
    else Success(Template(commandExpression, remoteDirectoryExpression.value, remoteFileExpression.value,
                          localDirectoryExpression.value, localFileExpression.value,
                          DefaultTemporaryFileSuffix, DefaultFileSeparator))
  }

  /** What the four expressions evaluated to for one message (`None` for null). */
  datatype Evaluated = Evaluated(
    localDirectory: Option<string>, localFile: Option<string>,
    remoteDirectory: Option<string>, remoteFile: Option<string>)

  /** The local file as the file system sees it: its path, its absolute path and whether it is there. */
  datatype LocalFile = LocalFile(path: string, absolutePath: string, present: bool)

  /** What a successful `get` did: read `remotePath` into `tempFile`, then renamed that to `localFile`. */
  datatype Transfer = Transfer(remotePath: string, tempFile: string, localFile: string)

  const CopyFailure := "Failure occurred while copying from remote to local directory"
  const RenameFailure := "Failed to rename local file"

  function AlreadyExists(path: string): Throwable {
    Throwable(MessagingException, Some("Local file " + path + " already exists"))
  }

  /**
   * `get`, given the values the expressions evaluate to, the local file, how
   * opening the temporary file for writing ended (`None` when it opened), how
   * the session's read ended (`None` when it succeeded) and whether the
   * rename succeeded.
   */
  function Get(t: Template, e: Evaluated, local: LocalFile, openError: Option<Throwable>,
               readError: Option<Throwable>, renamed: bool)
    : (r: Result<Transfer, Throwable>)
    ensures e.localDirectory.None? ==> r == Failure(IllegalArgument("Local directory resolved to null"))
    ensures e.localDirectory.Some? && e.localFile.None? ==> r == Failure(IllegalArgument("Local file resolved to null"))
    ensures e.localDirectory.Some? && e.localFile.Some? && local.present ==> r == Failure(AlreadyExists(local.path))
    ensures e.localDirectory.Some? && e.localFile.Some? && !local.present && openError.Some? ==>
      r == Failure(openError.value)
    ensures e.localDirectory.Some? && e.localFile.Some? && !local.present && openError.None? ==>
      && (e.remoteDirectory.None? ==> r == Failure(IllegalArgument("Remote directory resolved to null")))
      && (e.remoteDirectory.Some? && e.remoteFile.None? ==> r == Failure(IllegalArgument("Remote file resolved to null")))
    ensures r.Success? <==>
      && e.localDirectory.Some? && e.localFile.Some? && !local.present && openError.None?
      && e.remoteDirectory.Some? && e.remoteFile.Some? && readError.None? && renamed
    ensures r.Success? ==>
      r.value == Transfer(RemoteFilePath(e.remoteDirectory.value, t.fileSeparator, e.remoteFile.value),
                          local.absolutePath + t.temporaryFileSuffix, local.path)
    ensures (e.localDirectory.Some? && e.localFile.Some? && !local.present && openError.None?
             && e.remoteDirectory.Some? && e.remoteFile.Some?) ==>
      && (readError.Some? && readError.value.kind == CheckedException ==>
            r == Failure(Throwable(MessagingException, Some(CopyFailure))))
      && (readError.Some? && readError.value.kind != CheckedException ==> r == Failure(readError.value))
      && (readError.None? && !renamed ==> r == Failure(Throwable(MessagingException, Some(RenameFailure))))
  {
    if e.localDirectory.None? then Failure(IllegalArgument("Local directory resolved to null"))
    else if e.localFile.None? then Failure(IllegalArgument("Local file resolved to null"))
    else if local.present then Failure(AlreadyExists(local.path))
    else
      var tempFile := local.absolutePath + t.temporaryFileSuffix;
      if openError.Some? then Failure(openError.value)
      else if e.remoteDirectory.None? then Failure(IllegalArgument("Remote directory resolved to null"))
      else if e.remoteFile.None? then Failure(IllegalArgument("Remote file resolved to null"))
      else
        var remotePath := RemoteFilePath(e.remoteDirectory.value, t.fileSeparator, e.remoteFile.value);
        match readError
        case Some(error) =>
          if error.kind == CheckedException then Failure(Throwable(MessagingException, Some(CopyFailure)))
          else Failure(error)
        case None =>
          if !renamed then Failure(Throwable(MessagingException, Some(RenameFailure)))
          else Success(Transfer(remotePath, tempFile, local.path))
  }

  /** An existing local file is never overwritten: `get` fails whatever the remote side would do. */
  lemma ExistingLocalFileRefused(t: Template, e: Evaluated, local: LocalFile, openError: Option<Throwable>,
                                 readError: Option<Throwable>, renamed: bool)
    requires e.localDirectory.Some? && e.localFile.Some? && local.present
    ensures var r := Get(t, e, local, openError, readError, renamed);
      r.Failure? && r.error.kind == MessagingException
      && r.error.message.Some? && |r.error.message.value| > |"Local file "|
      && r.error.message.value[..|"Local file "|] == "Local file "
  {
    var m := "Local file " + local.path + " already exists";
    assert m[..|"Local file "|] == "Local file ";
  }

  /**
   * With the default separator, a successful `get` of "bar" and "qux" reads
   * "bar/qux", and writes through a ".writing" file next to the local one.
   */
  lemma GetExample(local: LocalFile)
    requires !local.present
    ensures var t := Create(true, None, Some("headers['foo']"), Some("headers['baz']"), Some("dir"), Some("'qux.out'"));
      && t.Success?
      && Get(t.value, Evaluated(Some("dir"), Some("qux.out"), Some("bar"), Some("qux")), local, None, None, true)
           == Success(Transfer("bar/qux", local.absolutePath + ".writing", local.path))
  {
    RemoteFilePathExamples();
  }
}
