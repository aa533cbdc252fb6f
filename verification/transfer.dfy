/**
 * The transfer engine (src/transfer.ts): path clean-up, the settings check, the link to a
 * note in the other vault, the flat non-overwriting copy of the open note, and the insertion
 * of the link at the cursor.
 */
module Transfer {
  import opened Wrappers
  import opened Text
  import opened Uri
  import opened Host
  import opened Settings

  /** The note a command runs on (`view.file`): its path in the vault, its file name, and its name without extension. */
  datatype NoteFile = NoteFile(path: string, name: string, basename: string)

  /*
   * cleanPath
   */

  /** Drops one leading and one trailing slash. */
  function StripSlashes(t: string): (r: string)
    ensures |t| - 2 <= |r| <= |t|
    ensures var k := if t != [] && t[0] == '/' then 1 else 0;
      && k + |r| <= |t| && r == t[k..k + |r|]
      && (k + |r| == |t| || (k + |r| == |t| - 1 && t[|t| - 1] == '/'))
    ensures r != [] && r[0] == '/' ==> |t| >= 2 && t[0] == '/' && t[1] == '/'
    ensures r != [] && r[|r| - 1] == '/' ==> |t| >= 2 && t[|t| - 1] == '/' && t[|t| - 2] == '/'
  {
    var u := if |t| > 0 && t[0] == '/' then t[1..] else t;
    if |u| > 0 && u[|u| - 1] == '/' then u[..|u| - 1] else u
  }

  /** Trims `path`, turns every backslash into a slash, then drops one leading and one trailing slash. */
  function CleanPath(path: string): (r: string)
    ensures '\\' !in r
    ensures |r| <= |path|
    ensures Blank(path) ==> r == []
  {
    StripSlashes(ReplaceBackslashes(Trim(path)))
  }

  /** On a trimmed path without backslashes, cleaning only drops the slashes. */
  lemma CleanPathOfTrimmed(path: string)
    requires Trimmed(path) && '\\' !in path
    ensures CleanPath(path) == StripSlashes(path)
  {
    TrimOfTrimmed(path);
    ReplaceBackslashesIdentity(path);
    assert ReplaceBackslashes(Trim(path)) == path;
  }

  /** A string with no slash at either end is left as it is. */
  lemma StripSlashesNone(t: string)
    requires t == [] || (t[0] != '/' && t[|t| - 1] != '/')
    ensures StripSlashes(t) == t
  {
  }

  /** Only a leading slash: it is dropped. */
  lemma StripSlashesLeading(t: string)
    requires |t| >= 2 && t[0] == '/' && t[|t| - 1] != '/'
    ensures StripSlashes(t) == t[1..]
  {
    assert t[1..][|t| - 2] == t[|t| - 1];
  }

  /** A slash at each end: both are dropped. */
  lemma StripSlashesBoth(t: string)
    requires |t| >= 2 && t[0] == '/' && t[|t| - 1] == '/'
    ensures StripSlashes(t) == t[1..|t| - 1]
  {
    assert t[1..][|t| - 2] == t[|t| - 1];
    assert t[1..][..|t| - 2] == t[1..|t| - 1];
  }

  /** Only a trailing slash: it is dropped. */
  lemma StripSlashesTrailingOnly(t: string)
    requires |t| >= 1 && t[0] != '/' && t[|t| - 1] == '/'
    ensures StripSlashes(t) == t[..|t| - 1]
  {
  }

  /** A path already trimmed, without backslashes and without a slash at either end is left as it is. */
  lemma CleanPathFixedPoint(path: string)
    requires Trimmed(path) && '\\' !in path
    requires path == [] || (path[0] != '/' && path[|path| - 1] != '/')
    ensures CleanPath(path) == path
  {
    CleanPathOfTrimmed(path);
    StripSlashesNone(path);
  }

  /** A path `cleanPath` leaves as it is: non-empty, trimmed, without backslashes and without a slash at either end. */
  predicate CleanForm(t: string) {
    t != [] && Trimmed(t) && '\\' !in t && t[0] != '/' && t[|t| - 1] != '/'
  }

  /** A character missing from two strings is missing from their concatenation. */
  lemma NotInAppend(a: string, b: string, x: char)
    requires x !in a && x !in b
    ensures x !in a + b
  {
  }

  /** One leading slash before a clean path is dropped. */
  lemma CleanPathLeading(t: string)
    requires CleanForm(t)
    ensures CleanPath("/" + t) == t
  {
    var v := "/" + t;
    NotInAppend("/", t, '\\');
    assert v[|v| - 1] == t[|t| - 1];
    CleanPathOfTrimmed(v);
    StripSlashesLeading(v);
    assert v[1..] == t;
  }

  /** Of a leading slash and two trailing ones around a clean path, one trailing slash is left. */
  lemma CleanPathDoubledTrailing(t: string)
    requires CleanForm(t)
    ensures CleanPath("/" + t + "//") == t + "/"
  {
    var once := t + "/";
    var v := "/" + t + "//";
    assert v == "/" + once + "/";
    NotInAppend(t, "/", '\\');
    NotInAppend("/", once, '\\');
    NotInAppend("/" + once, "/", '\\');
    CleanPathOfTrimmed(v);
    StripSlashesBoth(v);
    assert v[1..|v| - 1] == once;
  }

  /** One trailing slash after a clean path is dropped. */
  lemma CleanPathTrailing(t: string)
    requires CleanForm(t)
    ensures CleanPath(t + "/") == t
  {
    CleanPathIgnoresTrailingSeparator(t, '/');
    CleanPathFixedPoint(t);
  }

  /** Only one slash is dropped at each end, so cleaning twice can differ from cleaning once: `//a` cleans to `/a`, then to `a`. */
  lemma CleanPathNotIdempotent(a: string)
    requires CleanForm(a)
    ensures CleanPath("//" + a) == "/" + a
    ensures CleanPath(CleanPath("//" + a)) == a
  {
    var once := "/" + a;
    var v := "/" + once;
    assert v == "//" + a;
    NotInAppend("/", a, '\\');
    NotInAppend("/", once, '\\');
    assert v[|v| - 1] == a[|a| - 1];
    CleanPathOfTrimmed(v);
    StripSlashesLeading(v);
    assert v[1..] == once;
    CleanPathLeading(a);
  }

  /** Windows separators in the input make no difference. */
  lemma CleanPathIgnoresBackslashes(path: string)
    ensures CleanPath(ReplaceBackslashes(path)) == CleanPath(path)
  {
    TrimReplace(path);
    ReplaceBackslashesIdentity(ReplaceBackslashes(Trim(path)));
  }

  /** A slash added after a string that does not end in one is the slash that gets dropped. */
  lemma StripSlashesTrailing(t: string)
    requires t != [] && t[|t| - 1] != '/'
    ensures StripSlashes(t + ['/']) == StripSlashes(t)
  {
    if t[0] == '/' {
      assert (t + ['/'])[1..] == t[1..] + ['/'];
      assert (t[1..] + ['/'])[..|t[1..]|] == t[1..];
    } else {
      assert (t + ['/'])[0] == t[0];
      assert (t + ['/'])[..|t|] == t;
    }
  }

  /** Trimming a path that ends in a non-blank character keeps that character last, and one more such character after it. */
  lemma TrimAppendChar(v: string, c: char)
    requires v != [] && !IsWhiteSpace(v[|v| - 1]) && !IsWhiteSpace(c)
    ensures Trim(v) != [] && Trim(v)[|Trim(v)| - 1] == v[|v| - 1]
    ensures Trim(v + [c]) == Trim(v) + [c]
  {
    TrimStartAppend(v, [c]);
    var t := TrimStart(v);
    assert t != [] && t[|t| - 1] == v[|v| - 1];
    assert TrimEnd(t) == t;
    assert TrimEnd(t + [c]) == t + [c];
  }

  /** A lone separator, of either kind, cleans to the empty path. */
  lemma CleanPathOfSeparator(c: char)
    requires c == '/' || c == '\\'
    ensures CleanPath([c]) == []
  {
    var t := [c];
    TrimOfTrimmed(t);
    var r := ReplaceBackslashes(t);
    assert |r| == 1 && r[0] == '/';
  }

  /** A separator of either kind added to a string becomes a slash. */
  lemma ReplaceSeparatorAppend(t: string, c: char)
    requires c == '/' || c == '\\'
    ensures ReplaceBackslashes(t + [c]) == ReplaceBackslashes(t) + ['/']
  {
    ReplaceBackslashesAppend(t, [c]);
    assert ReplaceBackslashes([c]) == ['/'];
  }

  /** After a trimmed path ending in an ordinary character, an added separator is the trailing slash that is dropped. */
  lemma StripSlashesDropsAddedSeparator(t: string, c: char, u: string)
    requires c == '/' || c == '\\'
    requires t != [] && t[|t| - 1] != '/' && t[|t| - 1] != '\\' && u == t + [c]
    ensures StripSlashes(ReplaceBackslashes(u)) == StripSlashes(ReplaceBackslashes(t))
  {
    ReplaceSeparatorAppend(t, c);
    var rt := ReplaceBackslashes(t);
    assert rt[|rt| - 1] == t[|t| - 1];
    StripSlashesTrailing(rt);
  }

  /** After a path ending in an ordinary character, the added separator becomes the trailing slash that is dropped. */
  lemma CleanPathDropsAddedSeparator(path: string, c: char)
    requires c == '/' || c == '\\'
    requires path != [] && !IsWhiteSpace(path[|path| - 1]) && path[|path| - 1] != '/' && path[|path| - 1] != '\\'
    ensures CleanPath(path + [c]) == CleanPath(path)
  {
    TrimDropsAddedSeparator(path, c);
  }

  /** The same, stated on the trims the cleaning starts from. */
  lemma TrimDropsAddedSeparator(path: string, c: char)
    requires c == '/' || c == '\\'
    requires path != [] && !IsWhiteSpace(path[|path| - 1]) && path[|path| - 1] != '/' && path[|path| - 1] != '\\'
    ensures StripSlashes(ReplaceBackslashes(Trim(path + [c]))) == StripSlashes(ReplaceBackslashes(Trim(path)))
  {
    var t := Trim(path);
    var u := Trim(path + [c]);
    assert !IsWhiteSpace(c);
    TrimAppendChar(path, c);
    assert t != [] && t[|t| - 1] == path[|path| - 1] && u == t + [c];
    StripSlashesDropsAddedSeparator(t, c, u);
  }

  /** One separator, of either kind, added after a path that does not already end in one makes no difference. */
  lemma CleanPathIgnoresTrailingSeparator(path: string, c: char)
    requires c == '/' || c == '\\'
    requires path == [] || (!IsWhiteSpace(path[|path| - 1]) && path[|path| - 1] != '/' && path[|path| - 1] != '\\')
    ensures CleanPath(path + [c]) == CleanPath(path)
  {
    if path != [] {
      CleanPathDropsAddedSeparator(path, c);
    } else {
      assert path + [c] == [c];
      CleanPathOfSeparator(c);
      assert Blank(path);
    }
  }

  /*
   * showErrorIfSettingsInvalid
   */

  /** The settings cannot be used: the target vault is blank. */
  predicate SettingsInvalid(settings: VaultTransferSettings) {
    |Trim(settings.outputVault)| == 0
  }

  const InvalidSettingsMessage: string := "Target vault has not been set."

  const InvalidSettingsNotice: string := "Error: " + InvalidSettingsMessage

  /** The defaults have no target vault, so they never pass the check. */
  lemma DefaultSettingsInvalid()
    ensures SettingsInvalid(DefaultSettings)
  {
  }

  /** The check fails exactly when the target vault is empty or all white space. */
  lemma SettingsInvalidIffBlank(settings: VaultTransferSettings)
    ensures SettingsInvalid(settings) <==> Blank(settings.outputVault)
  {
  }

  /** Shows the notice and answers true exactly when the target vault is blank. */
  method ShowErrorIfSettingsInvalid(settings: VaultTransferSettings, notices: NoticeLog) returns (shown: bool)
    modifies notices
    ensures shown <==> SettingsInvalid(settings)
    ensures shown ==> notices.messages == old(notices.messages) + [InvalidSettingsNotice]
    ensures !shown ==> notices.messages == old(notices.messages)
  {
    var message: Option<string> := None;
    if |Trim(settings.outputVault)| == 0 {
      message := Some(InvalidSettingsMessage);
    }
    if message.Some? {
      notices.Show("Error: " + message.value);
      return true;
    }
    return false;
  }

  /*
   * createVaultFileLink
   */

  /** The last `/`-piece of a path: its longest suffix without a slash. */
  function LastSegment(c: string): (name: string)
    ensures '/' !in name
    ensures |name| <= |c| && name == c[|c| - |name|..]
    ensures |name| == |c| || c[|c| - |name| - 1] == '/'
  {
    var vaultPathArray := Split(c, {'/'});
    SplitLast(c, {'/'});
    var name := vaultPathArray[|vaultPathArray| - 1];
    assert Free(name, {'/'});
    name
  }

  /** A character missing from a string is missing from each of its suffixes. */
  lemma SuffixAvoids(c: string, k: nat, x: char)
    requires k <= |c| && x !in c
    ensures x !in c[k..]
  {
  }

  /** The name of the other vault: the last `/`-piece of the cleaned vault path. */
  function VaultName(outputVault: string): (name: string)
    ensures '/' !in name && '\\' !in name
  {
    var c := CleanPath(outputVault);
    var name := LastSegment(c);
    SuffixAvoids(c, |c| - |name|, '\\');
    name
  }

  /** A separator, of either kind, added after the setting does not change the vault name. */
  lemma VaultNameIgnoresTrailingSeparator(outputVault: string, c: char)
    requires c == '/' || c == '\\'
    requires outputVault == [] || (var last := outputVault[|outputVault| - 1];
      !IsWhiteSpace(last) && last != '/' && last != '\\')
    ensures VaultName(outputVault + [c]) == VaultName(outputVault)
  {
    CleanPathIgnoresTrailingSeparator(outputVault, c);
  }

  /** Windows separators in the setting do not change the vault name. */
  lemma VaultNameIgnoresBackslashes(outputVault: string)
    ensures VaultName(ReplaceBackslashes(outputVault)) == VaultName(outputVault)
  {
    CleanPathIgnoresBackslashes(outputVault);
  }

  /** The start of a link, up to the encoded vault name. */
  function LinkPrefix(fileDisplayName: string): string {
    "[" + fileDisplayName + "](obsidian://vault/"
  }

  /** `[name](obsidian://vault/<vault>/<name>)`, with the vault and the name in the URI passed through `encodeURI`. */
  function CreateVaultFileLink(fileDisplayName: string, outputVault: string): string {
    var urlOtherVault := EncodeURI(VaultName(outputVault));
    var urlFile := EncodeURI(fileDisplayName);
    LinkPrefix(fileDisplayName) + urlOtherVault + "/" + urlFile + ")"
  }

  /** Two slash-free pieces joined by one slash split back into those pieces. */
  lemma SplitSlash(a: string, b: string)
    requires '/' !in a && '/' !in b
    ensures Split(a + ['/'] + b, {'/'}) == [a, b]
  {
    assert Free(a, {'/'});
    assert Free(b, {'/'});
    SplitAt(a, '/', b, {'/'});
    SplitFree(b, {'/'});
  }

  /** Where the pieces of a link sit in it. */
  lemma LinkSlices(p: string, a: string, b: string)
    ensures var link := p + a + "/" + b + ")";
      && |p| < |link| && link[..|p|] == p && link[|link| - 1] == ')'
      && link[|p|..|link| - 1] == a + ['/'] + b
  {
    var link := p + a + "/" + b + ")";
    assert link == p + (a + ['/'] + b) + [')'];
  }

  /**
   * The URI of a link reads back: after the prefix and before the closing parenthesis come
   * the encoded vault name and, after one slash, the encoded note name.
   */
  lemma LinkTarget(fileDisplayName: string, outputVault: string)
    requires '/' !in fileDisplayName
    ensures var link := CreateVaultFileLink(fileDisplayName, outputVault);
      var p := LinkPrefix(fileDisplayName);
      && |p| < |link| && link[..|p|] == p && link[|link| - 1] == ')'
      && Split(link[|p|..|link| - 1], {'/'}) == [EncodeURI(VaultName(outputVault)), EncodeURI(fileDisplayName)]
  {
    var a := EncodeURI(VaultName(outputVault));
    var b := EncodeURI(fileDisplayName);
    LinkSlices(LinkPrefix(fileDisplayName), a, b);
    EncodeURIKeepsPunctuation(VaultName(outputVault), '/');
    EncodeURIKeepsPunctuation(fileDisplayName, '/');
    SplitSlash(a, b);
  }

  /** A non-empty name made of ASCII letters and digits only. */
  predicate Plain(s: string) {
    s != [] && forall i :: 0 <= i < |s| ==> IsAlphaNumeric(s[i])
  }

  /** A plain name has no white space, no separator, and is not encoded. */
  lemma PlainFacts(s: string)
    requires Plain(s)
    ensures Trimmed(s) && '/' !in s && '\\' !in s
    ensures EncodeURI(s) == s
  {
    EncodeURIIdentity(s);
  }

  /** Two plain names joined by a slash form a clean path whose last piece is the second name. */
  lemma PlainJoin(dir: string, name: string)
    requires Plain(dir) && Plain(name)
    ensures CleanForm(dir + "/" + name)
    ensures LastSegment(dir + "/" + name) == name
  {
    PlainFacts(dir);
    PlainFacts(name);
    var p := dir + "/" + name;
    NotInAppend(dir, "/", '\\');
    NotInAppend(dir + "/", name, '\\');
    assert p[0] == dir[0] && p[|p| - 1] == name[|name| - 1];
    assert p == dir + ['/'] + name;
    SplitSlash(dir, name);
  }

  /** The setting `/<dir>/<name>`, with plain names, cleans to `<dir>/<name>` and names the vault `<name>`. */
  lemma PlainVaultPath(dir: string, name: string)
    requires Plain(dir) && Plain(name)
    ensures CleanPath("/" + dir + "/" + name) == dir + "/" + name
    ensures VaultName("/" + dir + "/" + name) == name
  {
    PlainJoin(dir, name);
    var inner := dir + "/" + name;
    assert "/" + dir + "/" + name == "/" + inner;
    CleanPathLeading(inner);
  }

  /**
   * For plain names, the vault setting `/<dir>/<name>` and the note `<note>` give the link
   * `[<note>](obsidian://vault/<name>/<note>)`; for example `/Vaults/Second` and `MyNote` give
   * `[MyNote](obsidian://vault/Second/MyNote)`.
   */
  lemma PlainVaultLink(dir: string, name: string, note: string)
    requires Plain(dir) && Plain(name) && Plain(note)
    ensures CreateVaultFileLink(note, "/" + dir + "/" + name) == "[" + note + "](obsidian://vault/" + name + "/" + note + ")"
  {
    PlainVaultPath(dir, name);
    PlainFacts(name);
    PlainFacts(note);
  }

  /*
   * transferNote
   */

  /** Where the note is copied to: `<vault>/<folder>`, both cleaned. */
  function OutputFolderPath(settings: VaultTransferSettings): string {
    CleanPath(settings.outputVault) + "/" + CleanPath(settings.outputFolder)
  }

  /** The copy's path: the output folder and the note's file name; where the note sits in its own vault plays no part. */
  function OutputPath(settings: VaultTransferSettings, fileName: string): string {
    OutputFolderPath(settings) + "/" + fileName
  }

  /** The note's own path on disk, under the vault's base path. */
  function SourcePath(basePath: string, file: NoteFile): string {
    basePath + "/" + file.path
  }

  /** The link `transferNote` leaves in the note. */
  function TransferLink(settings: VaultTransferSettings, file: NoteFile): string {
    CreateVaultFileLink(file.basename, CleanPath(settings.outputVault))
  }

  /** What the host looks like to the commands: the file system, the open note's editor and the notices shown. */
  datatype Session = Session(disk: Disk, editor: EditorState, notices: seq<string>)

  /** Every check passes and the copy goes through. */
  predicate TransferSucceeds(disk: Disk, basePath: string, file: NoteFile, settings: VaultTransferSettings) {
    && !SettingsInvalid(settings)
    && Exists(disk, OutputFolderPath(settings))
    && !Exists(disk, OutputPath(settings, file.name))
    && CopyError(disk, SourcePath(basePath, file), OutputPath(settings, file.name)).None?
  }

  /** The notice when nothing exists at the output folder's path. */
  function MissingFolderNotice(outputFolderPath: string): string {
    "Error: Directory does not exist at " + outputFolderPath
  }

  /** The notice when something already exists at the copy's path. */
  const FileExistsNotice: string := "Error: File already exists"

  /** The notice the `catch` shows for the error the copy raised. */
  function CopyFailedNotice(error: string): string {
    "Error copying file: " + error
  }

  /** The one notice a transfer that does not succeed shows: the first check that fails, or the copy's error. */
  function FailureNotice(disk: Disk, basePath: string, file: NoteFile, settings: VaultTransferSettings): string
    requires !TransferSucceeds(disk, basePath, file, settings)
  {
    if SettingsInvalid(settings) then InvalidSettingsNotice
    else if !Exists(disk, OutputFolderPath(settings)) then MissingFolderNotice(OutputFolderPath(settings))
    else if Exists(disk, OutputPath(settings, file.name)) then FileExistsNotice
    else CopyFailedNotice(CopyError(disk, SourcePath(basePath, file), OutputPath(settings, file.name)).value)
  }

  /** The session after `transferNote`, step by step as the command runs. */
  function TransferNoteEffect(s: Session, basePath: string, file: NoteFile, settings: VaultTransferSettings): Session
  {
    if SettingsInvalid(settings) then s.(notices := s.notices + [InvalidSettingsNotice])
    else
      var outputFolderPath := OutputFolderPath(settings);
      var outputPath := OutputPath(settings, file.name);
      if !Exists(s.disk, outputFolderPath) then
        s.(notices := s.notices + [MissingFolderNotice(outputFolderPath)])
      else if Exists(s.disk, outputPath) then
        s.(notices := s.notices + [FileExistsNotice])
      else
        var src := SourcePath(basePath, file);
        match CopyError(s.disk, src, outputPath)
        case Some(e) => s.(notices := s.notices + [CopyFailedNotice(e)])
        case None => Session(AfterCopy(s.disk, src, outputPath), EditorState(TransferLink(settings, file), 0, 0), s.notices)
  }

  /**
   * What a transfer promises: the file system gains at most the copy; a failed check or copy
   * shows exactly one notice and changes nothing else; a successful copy leaves the note
   * holding only the link.
   */
  lemma TransferNoteEffectSpec(s: Session, basePath: string, file: NoteFile, settings: VaultTransferSettings, s': Session)
    requires s' == TransferNoteEffect(s, basePath, file, settings)
    // the file system gains at most the copy, never loses or overwrites a file
    ensures s'.disk.dirs == s.disk.dirs && s'.disk.locked == s.disk.locked
    ensures forall p :: p in s.disk.files ==> p in s'.disk.files && s'.disk.files[p] == s.disk.files[p]
    ensures forall p :: p in s'.disk.files && p !in s.disk.files ==>
      && p == OutputPath(settings, file.name)
      && SourcePath(basePath, file) in s.disk.files
      && s'.disk.files[p] == s.disk.files[SourcePath(basePath, file)]
    // a failed check or copy changes nothing but the notices, and shows one notice
    ensures !TransferSucceeds(s.disk, basePath, file, settings) ==>
      && s'.disk == s.disk && s'.editor == s.editor
      && s'.notices == s.notices + [FailureNotice(s.disk, basePath, file, settings)]
    // a successful copy adds the file and leaves the note holding only the link
    ensures TransferSucceeds(s.disk, basePath, file, settings) ==>
      && OutputPath(settings, file.name) !in s.disk.files
      && OutputPath(settings, file.name) in s'.disk.files
      && s'.editor == EditorState(TransferLink(settings, file), 0, 0)
      && s'.notices == s.notices
  {
    var outputPath := OutputPath(settings, file.name);
    var src := SourcePath(basePath, file);
    if SettingsInvalid(settings) {
      assert s' == s.(notices := s.notices + [InvalidSettingsNotice]);
    } else if !Exists(s.disk, OutputFolderPath(settings)) {
      assert s'.disk == s.disk && s'.editor == s.editor;
    } else if Exists(s.disk, outputPath) {
      assert s'.disk == s.disk && s'.editor == s.editor;
    } else if CopyError(s.disk, src, outputPath).Some? {
      assert s'.disk == s.disk && s'.editor == s.editor;
    } else {
      assert s'.disk == AfterCopy(s.disk, src, outputPath);
    }
  }

  /**
   * `existsSync` is true for a regular file too, so the folder check alone lets a file standing
   * at the output folder's path through; the copy then refuses it. A transfer succeeds only into
   * a real directory.
   */
  lemma TransferNeedsDirectory(disk: Disk, basePath: string, file: NoteFile, settings: VaultTransferSettings)
    requires '/' !in file.name
    ensures TransferSucceeds(disk, basePath, file, settings) ==> OutputFolderPath(settings) in disk.dirs
  {
    DirNameJoin(OutputFolderPath(settings), file.name);
  }

  /** A file at the output folder's path passes both checks, and the copy then fails with `ENOTDIR`. */
  lemma TransferIntoFileFails(disk: Disk, basePath: string, file: NoteFile, settings: VaultTransferSettings)
    requires '/' !in file.name && !SettingsInvalid(settings)
    requires OutputFolderPath(settings) in disk.files && OutputFolderPath(settings) !in disk.dirs
    requires !Exists(disk, OutputPath(settings, file.name)) && SourcePath(basePath, file) in disk.files
    ensures !TransferSucceeds(disk, basePath, file, settings)
    ensures FailureNotice(disk, basePath, file, settings) == "Error copying file: "
      + CopyFailure("ENOTDIR: not a directory", SourcePath(basePath, file), OutputPath(settings, file.name))
  {
    var folder := OutputFolderPath(settings);
    DirNameJoin(folder, file.name);
    assert folder[|CleanPath(settings.outputVault)|] == '/';
  }

  /** Copies the open note into the other vault, unless a check fails, then replaces the note's text with the link. */
  method TransferNote(editor: Editor, fs: FileSystem, notices: NoticeLog, basePath: string, file: NoteFile,
                      settings: VaultTransferSettings)
    modifies editor, fs, notices
    ensures Session(fs.State(), editor.State(), notices.messages)
      == TransferNoteEffect(old(Session(fs.State(), editor.State(), notices.messages)), basePath, file, settings)
  {
    ghost var s0 := Session(fs.State(), editor.State(), notices.messages);
    var settingsErrorShown := ShowErrorIfSettingsInvalid(settings, notices);
    if settingsErrorShown {
      assert TransferNoteEffect(s0, basePath, file, settings) == s0.(notices := s0.notices + [InvalidSettingsNotice]);
      return;
    }

    // `<cleaned vault>/<cleaned folder>` and the note's name below it
    var outputFolderPath := OutputFolderPath(settings);
    var outputPath := OutputPath(settings, file.name);

    var folderExists := fs.ExistsSync(outputFolderPath);
    if !folderExists {
      assert TransferNoteEffect(s0, basePath, file, settings)
        == s0.(notices := s0.notices + [MissingFolderNotice(outputFolderPath)]);
      notices.Show(MissingFolderNotice(outputFolderPath));
      return;
    }

    var fileExists := fs.ExistsSync(outputPath);
    if fileExists {
      assert TransferNoteEffect(s0, basePath, file, settings) == s0.(notices := s0.notices + [FileExistsNotice]);
      notices.Show(FileExistsNotice);
      return;
    }

    var sourcePath := SourcePath(basePath, file);
    var error := fs.CopyFileSync(sourcePath, outputPath);
    if error.Some? {
      assert TransferNoteEffect(s0, basePath, file, settings)
        == s0.(notices := s0.notices + [CopyFailedNotice(error.value)]);
      notices.Show(CopyFailedNotice(error.value));
      return;
    }

    var link := TransferLink(settings, file);
    assert TransferNoteEffect(s0, basePath, file, settings)
      == Session(AfterCopy(s0.disk, sourcePath, outputPath), EditorState(link, 0, 0), s0.notices);
    editor.SetValue(link);
  }

  /*
   * insertLinkToOtherVault
   */

  /** The session after `insertLinkToOtherVault`. */
  function InsertLinkEffect(s: Session, file: NoteFile, settings: VaultTransferSettings): (s': Session)
    requires s.editor.Valid()
    ensures s'.disk == s.disk && s'.editor.Valid()
    ensures SettingsInvalid(settings) ==> s'.editor == s.editor && s'.notices == s.notices + [InvalidSettingsNotice]
    ensures !SettingsInvalid(settings) ==>
      && s'.notices == s.notices
      && var e := s.editor; var link := CreateVaultFileLink(file.basename, settings.outputVault);
      && s'.editor.text == e.text[..e.from] + link + e.text[e.to..]
      && s'.editor.from == s'.editor.to == e.from + |link|
  {
    if SettingsInvalid(settings) then s.(notices := s.notices + [InvalidSettingsNotice])
    else s.(editor := ReplacedSelection(s.editor, CreateVaultFileLink(file.basename, settings.outputVault)))
  }

  /** Replaces the selection with the link to the note in the other vault; the file system is not involved. */
  method InsertLinkToOtherVault(editor: Editor, notices: NoticeLog, file: NoteFile, settings: VaultTransferSettings)
    requires editor.State().Valid()
    modifies editor, notices
    ensures editor.State().Valid()
    ensures forall disk ::
      InsertLinkEffect(Session(disk, old(editor.State()), old(notices.messages)), file, settings)
        == Session(disk, editor.State(), notices.messages)
  {
    var settingsErrorShown := ShowErrorIfSettingsInvalid(settings, notices);
    if settingsErrorShown {
      return;
    }
    var fileDisplayName := file.basename;
    var outputVault := settings.outputVault;
    var link := CreateVaultFileLink(fileDisplayName, outputVault);
    editor.ReplaceSelection(link);
  }

  /**
   * `insertLinkToOtherVault` builds the link from the raw vault setting, `transferNote` from
   * the cleaned one; the two agree whenever the cleaned path is left alone by a second cleaning.
   */
  lemma InsertLinkMatchesTransferLink(file: NoteFile, settings: VaultTransferSettings)
    requires var c := CleanPath(settings.outputVault);
      Trimmed(c) && (c == [] || (c[0] != '/' && c[|c| - 1] != '/'))
    ensures CreateVaultFileLink(file.basename, settings.outputVault) == TransferLink(settings, file)
  {
    CleanPathFixedPoint(CleanPath(settings.outputVault));
  }

  /** A path ending in a slash has an empty last piece. */
  lemma LastSegmentAfterSlash(c: string)
    requires c != [] && c[|c| - 1] == '/'
    ensures LastSegment(c) == ""
  {
  }

  /**
   * The setting `/<dir>/<name>//` loses its leading slash and only one of its two trailing
   * ones, so its vault name is empty; cleaning it again gives `<dir>/<name>`, named `<name>`.
   */
  lemma DoubledSlashVaultNames(dir: string, name: string)
    requires Plain(dir) && Plain(name)
    ensures CleanPath("/" + dir + "/" + name + "//") == dir + "/" + name + "/"
    ensures VaultName("/" + dir + "/" + name + "//") == ""
    ensures VaultName(CleanPath("/" + dir + "/" + name + "//")) == name
  {
    PlainJoin(dir, name);
    var inner := dir + "/" + name;
    assert "/" + dir + "/" + name + "//" == "/" + inner + "//";
    assert dir + "/" + name + "/" == inner + "/";
    CleanPathDoubledTrailing(inner);
    LastSegmentAfterSlash(inner + "/");
    CleanPathTrailing(inner);
  }

  /** The link to a note in a vault whose name and note name `encodeURI` leaves as they are. */
  lemma LinkOfVaultName(note: string, setting: string, name: string)
    requires VaultName(setting) == name && EncodeURI(name) == name && EncodeURI(note) == note
    ensures CreateVaultFileLink(note, setting) == LinkPrefix(note) + name + "/" + note + ")"
  {
  }

  /** With an empty vault name the link's URI has nothing between `vault/` and the note's slash. */
  lemma LinkOfEmptyVaultName(note: string, setting: string)
    requires VaultName(setting) == "" && EncodeURI(note) == note
    ensures CreateVaultFileLink(note, setting) == LinkPrefix(note) + "/" + note + ")"
  {
    assert EncodeURI("") == "";
    assert LinkPrefix(note) + "" == LinkPrefix(note);
  }

  /**
   * The two commands disagree for a vault setting with a doubled trailing slash: with
   * `/Vaults/Second//` and `MyNote`, the inserted link is `[MyNote](obsidian://vault//MyNote)`
   * (an empty vault name) and the one a transfer leaves is `[MyNote](obsidian://vault/Second/MyNote)`.
   */
  lemma InsertLinkDiffersFromTransferLink(dir: string, name: string, note: string)
    requires Plain(dir) && Plain(name) && Plain(note)
    ensures CreateVaultFileLink(note, "/" + dir + "/" + name + "//") == LinkPrefix(note) + "/" + note + ")"
    ensures CreateVaultFileLink(note, CleanPath("/" + dir + "/" + name + "//")) == LinkPrefix(note) + name + "/" + note + ")"
  {
    DoubledSlashVaultNames(dir, name);
    PlainFacts(name);
    PlainFacts(note);
    var setting := "/" + dir + "/" + name + "//";
    LinkOfEmptyVaultName(note, setting);
    LinkOfVaultName(note, CleanPath(setting), name);
  }
}
