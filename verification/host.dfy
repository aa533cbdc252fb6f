/**
 * The host capabilities the transfer code calls, as state it can observe and change: Node's
 * synchronous file system (`existsSync`, `copyFileSync`), the editor buffer of the open note
 * (`setValue`, `replaceSelection`) and the notice area (`showNotice`).
 */
module Host {
  import opened Wrappers

  newtype byte = b: int | 0 <= b < 256

  type Bytes = seq<byte>

  /**
   * The file system as the transfer code sees it: the bytes of each file by path, the set of
   * directory paths, and the paths where a write is refused (standing for the faults
   * `copyFileSync` can raise that the paths alone do not explain, such as permissions).
   */
  datatype Disk = Disk(files: map<string, Bytes>, dirs: set<string>, locked: set<string>)

  /** `existsSync(path)`: true for a file and for a directory. */
  predicate Exists(d: Disk, path: string) {
    path in d.files || path in d.dirs
  }

  /** The directory part of `path`: everything before its last `/`, or empty when it has none. */
  function DirName(path: string): (dir: string)
    ensures |dir| <= |path| && dir == path[..|dir|]
    ensures '/' !in path ==> dir == []
    ensures '/' in path ==> |dir| < |path| && path[|dir|] == '/' && '/' !in path[|dir| + 1..]
  {
    if path == [] then []
    else if path[|path| - 1] == '/' then path[..|path| - 1]
    else
      var init := path[..|path| - 1];
      assert path == init + [path[|path| - 1]];
      DirName(init)
  }

  /** Below a name without a slash, the directory part is the folder it was joined to. */
  lemma DirNameJoin(folder: string, name: string)
    requires '/' !in name
    ensures DirName(folder + "/" + name) == folder
  {
    var path := folder + "/" + name;
    assert path[|folder|] == '/';
  }

  /** Whether the folder `copyFileSync` writes `dst` into is a directory (the current one when `dst` names none). */
  predicate ParentIsDirectory(d: Disk, dst: string) {
    DirName(dst) == [] || DirName(dst) in d.dirs
  }

  /**
   * The error `copyFileSync(src, dst)` raises on `d`, as the text of the exception, if any:
   * a missing source, a destination folder that is a file or is missing, a destination that is
   * a directory, a refused write.
   */
  function CopyError(d: Disk, src: string, dst: string): (e: Option<string>)
    ensures e.None? <==> src in d.files && ParentIsDirectory(d, dst) && dst !in d.dirs && dst !in d.locked
    ensures !ParentIsDirectory(d, dst) && DirName(dst) in d.files && src in d.files ==>
      e == Some(CopyFailure("ENOTDIR: not a directory", src, dst))
  {
    var code :=
      if src !in d.files then "ENOENT: no such file or directory"
      else if !ParentIsDirectory(d, dst) then
        if DirName(dst) in d.files then "ENOTDIR: not a directory" else "ENOENT: no such file or directory"
      else if dst in d.dirs then "EISDIR: illegal operation on a directory"
      else "EACCES: permission denied";
    if src in d.files && ParentIsDirectory(d, dst) && dst !in d.dirs && dst !in d.locked then None
    else Some(CopyFailure(code, src, dst))
  }

  /** How Node renders a failed copy: the error code and its description, then the two paths. */
  function CopyFailure(code: string, src: string, dst: string): string {
    "Error: " + code + ", copyfile '" + src + "' -> '" + dst + "'"
  }

  /** The file system after a successful `copyFileSync(src, dst)`. */
  function AfterCopy(d: Disk, src: string, dst: string): (d': Disk)
    requires src in d.files
    ensures d'.files.Keys == d.files.Keys + {dst} && d'.files[dst] == d.files[src]
    ensures forall p :: p in d.files && p != dst ==> d'.files[p] == d.files[p]
    ensures d'.dirs == d.dirs && d'.locked == d.locked
  {
    d.(files := d.files[dst := d.files[src]])
  }

  class FileSystem {
    var files: map<string, Bytes>
    var dirs: set<string>
    var locked: set<string>

    constructor (d: Disk)
      ensures State() == d
    {
      files, dirs, locked := d.files, d.dirs, d.locked;
    }

    function State(): Disk
      reads this
    {
      Disk(files, dirs, locked)
    }

    method ExistsSync(path: string) returns (b: bool)
      ensures b == Exists(State(), path)
    {
      b := path in files || path in dirs;
    }

    /** Copies the bytes of `src` to `dst`, or raises (returns) the error and changes nothing. */
    method CopyFileSync(src: string, dst: string) returns (error: Option<string>)
      modifies this
      ensures error == CopyError(old(State()), src, dst)
      ensures State() == if error.None? then AfterCopy(old(State()), src, dst) else old(State())
    {
      error := CopyError(State(), src, dst);
      if error.None? {
        files := files[dst := files[src]];
      }
    }
  }

  /** The text of a note's editor and its selection `[from, to)`. */
  datatype EditorState = EditorState(text: string, from: nat, to: nat) {
    predicate Valid() {
      from <= to <= |text|
    }
  }

  /** The buffer after `replaceSelection(s)`: `s` stands where the selection was, the cursor right after it. */
  function ReplacedSelection(e: EditorState, s: string): (e': EditorState)
    requires e.Valid()
    ensures e'.Valid()
    ensures |e'.text| == |e.text| - (e.to - e.from) + |s|
    ensures e'.text[..e.from] == e.text[..e.from] && e'.text[e.from..e.from + |s|] == s
    ensures e'.text[e.from + |s|..] == e.text[e.to..]
    ensures e'.from == e'.to == e.from + |s|
  {
    EditorState(e.text[..e.from] + s + e.text[e.to..], e.from + |s|, e.from + |s|)
  }

  class Editor {
    var text: string
    var from: nat
    var to: nat

    constructor (e: EditorState)
      requires e.Valid()
      ensures State() == e
    {
      text, from, to := e.text, e.from, e.to;
    }

    function State(): EditorState
      reads this
    {
      EditorState(text, from, to)
    }

    /** `setValue(s)`: the whole buffer becomes `s`, the cursor at its start. */
    method SetValue(s: string)
      modifies this
      ensures State() == EditorState(s, 0, 0)
    {
      text, from, to := s, 0, 0;
    }

    method ReplaceSelection(s: string)
      requires State().Valid()
      modifies this
      ensures State() == ReplacedSelection(old(State()), s)
    {
      text := text[..from] + s + text[to..];
      from := from + |s|;
      to := from;
    }
  }

  /** The notices shown so far, oldest first; `showNotice` only appends. */
  class NoticeLog {
    var messages: seq<string>

    constructor ()
      ensures messages == []
    {
      messages := [];
    }

    method Show(message: string)
      modifies this
      ensures messages == old(messages) + [message]
    {
      messages := messages + [message];
    }
  }
}
