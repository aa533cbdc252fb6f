/**
 * The plug-in's settings (src/settings.ts): the settings record and its defaults, and the
 * list edits the settings tab makes in its callbacks: the parse of the "Remove folders from
 * path" text area and the "Add Path" / delete buttons of the override-path list.
 */
module Settings {
  import opened Text
  import opened Wrappers

  /** One override rule; the settings tab edits these objects in place and deletes them by identity. */
  class OverridePath {
    var sourcePath: string
    var replacement: string

    constructor (sourcePath: string, replacement: string)
      ensures this.sourcePath == sourcePath && this.replacement == replacement
    {
      this.sourcePath := sourcePath;
      this.replacement := replacement;
    }
  }

  datatype DateSource = Frontmatter | Creation | Modification

  datatype DateVariable = DateVariable(source: DateSource, fallback: Option<DateSource>, frontmatterKey: Option<string>)

  datatype VaultTransferSettings = VaultTransferSettings(
    outputVault: string,
    outputFolder: string,
    automaticCreateOutputFolder: bool,
    createLink: bool,
    dateVariable: DateVariable,
    deleteOriginal: bool,
    moveToSystemTrash: bool,
    overwrite: bool,
    recreateTree: bool,
    overridedPath: seq<OverridePath>,
    removePath: seq<string>)

  const DefaultSettings: VaultTransferSettings := VaultTransferSettings(
    outputVault := "",
    outputFolder := "",
    automaticCreateOutputFolder := false,
    createLink := true,
    dateVariable := DateVariable(Frontmatter, None, Some("date")),
    deleteOriginal := false,
    moveToSystemTrash := false,
    overwrite := false,
    recreateTree := false,
    overridedPath := [],
    removePath := [])

  /** The defaults: no target vault, copy without overwriting, keep the original and link to the copy. */
  lemma DefaultSettingsValues()
    ensures Blank(DefaultSettings.outputVault) && DefaultSettings.outputFolder == ""
    ensures !DefaultSettings.overwrite && !DefaultSettings.deleteOriginal && DefaultSettings.createLink
    ensures DefaultSettings.removePath == [] && DefaultSettings.overridedPath == []
  {
  }

  /** The separators of the remove-path text area: comma and new line. */
  const RemovePathSeparators: set<char> := {',', '\n'}

  /** What one raw piece contributes: nothing when it is blank, else its trimmed and normalised form. */
  function KeptPath(rawPath: string, normalizePath: string -> string): (kept: seq<string>)
    ensures |kept| <= 1
  {
    var trimmedPath := Trim(rawPath);
    if trimmedPath == "" then [] else [normalizePath(trimmedPath)]
  }

  /** The clean paths of a list of raw pieces, in their order. */
  function CleanPaths(rawPaths: seq<string>, normalizePath: string -> string): (cleanPaths: seq<string>)
    ensures |cleanPaths| <= |rawPaths|
  {
    if rawPaths == [] then []
    else CleanPaths(rawPaths[..|rawPaths| - 1], normalizePath) + KeptPath(rawPaths[|rawPaths| - 1], normalizePath)
  }

  /** The remove-path list the text `value` stands for. */
  function RemovePaths(value: string, normalizePath: string -> string): seq<string> {
    CleanPaths(Split(value, RemovePathSeparators), normalizePath)
  }

  /** A text without a comma or a line break is one raw path: one entry, or none when it is blank. */
  lemma RemovePathsOfOne(value: string, normalizePath: string -> string)
    requires Free(value, RemovePathSeparators)
    ensures RemovePaths(value, normalizePath) == KeptPath(value, normalizePath)
  {
    SplitFree(value, RemovePathSeparators);
    var rawPaths := [value];
    assert rawPaths[..|rawPaths| - 1] == [];
    assert RemovePaths(value, normalizePath) == CleanPaths(rawPaths, normalizePath);
    assert CleanPaths(rawPaths, normalizePath) == CleanPaths([], normalizePath) + KeptPath(value, normalizePath);
  }

  /** The text the settings tab shows for a remove-path list. */
  function RemovePathText(removePath: seq<string>): (text: string)
    ensures removePath == [] ==> text == ""
    ensures |removePath| == 1 ==> text == removePath[0]
  {
    Join(removePath, ", ")
  }

  /** Parsing one more piece appends what that piece contributes. */
  lemma CleanPathsStep(rawPaths: seq<string>, i: nat, normalizePath: string -> string)
    requires i < |rawPaths|
    ensures CleanPaths(rawPaths[..i + 1], normalizePath)
      == CleanPaths(rawPaths[..i], normalizePath) + KeptPath(rawPaths[i], normalizePath)
  {
    var prefix := rawPaths[..i + 1];
    assert prefix[..|prefix| - 1] == rawPaths[..i];
  }

  /** The parse loop of the remove-path callback: split, trim, drop blanks, normalise. */
  method ParseRemovePaths(value: string, normalizePath: string -> string) returns (cleanPaths: seq<string>)
    ensures cleanPaths == RemovePaths(value, normalizePath)
  {
    var rawPaths := Split(value, RemovePathSeparators);
    cleanPaths := [];
    for i := 0 to |rawPaths|
      invariant cleanPaths == CleanPaths(rawPaths[..i], normalizePath)
    {
      CleanPathsStep(rawPaths, i, normalizePath);
      var trimmedPath := Trim(rawPaths[i]);
      if trimmedPath == "" {
        continue;
      }
      cleanPaths := cleanPaths + [normalizePath(trimmedPath)];
    }
    assert rawPaths[..|rawPaths|] == rawPaths;
  }

  /** Parsing is a filter-map over the pieces: the pieces of a concatenation parse to the concatenation. */
  lemma {:induction false} CleanPathsAppend(a: seq<string>, b: seq<string>, normalizePath: string -> string)
    ensures CleanPaths(a + b, normalizePath) == CleanPaths(a, normalizePath) + CleanPaths(b, normalizePath)
  {
    if b == [] {
      assert a + b == a;
    } else {
      var b' := b[..|b| - 1];
      assert (a + b)[..|a + b| - 1] == a + b';
      assert (a + b)[|a + b| - 1] == b[|b| - 1];
      CleanPathsAppend(a, b', normalizePath);
    }
  }

  /** Blank pieces contribute nothing. */
  lemma {:induction false} CleanPathsAllBlank(rawPaths: seq<string>, normalizePath: string -> string)
    requires forall i :: 0 <= i < |rawPaths| ==> Blank(rawPaths[i])
    ensures CleanPaths(rawPaths, normalizePath) == []
  {
    if rawPaths != [] {
      CleanPathsAllBlank(rawPaths[..|rawPaths| - 1], normalizePath);
    }
  }

  /** When no piece is blank, every piece is kept, in order, as its normalised trim. */
  lemma {:induction false} CleanPathsNoneBlank(rawPaths: seq<string>, normalizePath: string -> string)
    requires forall i :: 0 <= i < |rawPaths| ==> Trim(rawPaths[i]) != ""
    ensures |CleanPaths(rawPaths, normalizePath)| == |rawPaths|
    ensures forall i :: 0 <= i < |rawPaths| ==> CleanPaths(rawPaths, normalizePath)[i] == normalizePath(Trim(rawPaths[i]))
  {
    if rawPaths != [] {
      var n := |rawPaths|;
      var init := rawPaths[..n - 1];
      assert forall i :: 0 <= i < n - 1 ==> Trim(init[i]) != "" by {
        forall i | 0 <= i < n - 1 ensures Trim(init[i]) != "" {
          assert init[i] == rawPaths[i];
        }
      }
      CleanPathsNoneBlank(init, normalizePath);
      var last := rawPaths[n - 1];
      assert Trim(last) != "";
      var kept := KeptPath(last, normalizePath);
      assert kept == [normalizePath(Trim(last))];
      var before := CleanPaths(init, normalizePath);
      var after := CleanPaths(rawPaths, normalizePath);
      assert after == before + kept;
      forall i | 0 <= i < n ensures after[i] == normalizePath(Trim(rawPaths[i])) {
        if i < n - 1 {
          assert init[i] == rawPaths[i] && after[i] == before[i];
        }
      }
    }
  }

  /** The pieces of `lead + join(xs, ", ")`: the first with the lead, every later one after a space. */
  lemma {:induction false} SplitCommaSpace(lead: string, xs: seq<string>)
    requires |xs| >= 1 && Free(lead, RemovePathSeparators)
    requires forall k :: 0 <= k < |xs| ==> Free(xs[k], RemovePathSeparators)
    ensures Split(lead + Join(xs, ", "), RemovePathSeparators)
      == [lead + xs[0]] + seq(|xs| - 1, i requires 0 <= i < |xs| - 1 => " " + xs[i + 1])
    decreases |xs|
  {
    var seps := RemovePathSeparators;
    if |xs| == 1 {
      SplitFree(lead + xs[0], seps);
    } else {
      var rest := Join(xs[1..], ", ");
      assert lead + Join(xs, ", ") == (lead + xs[0]) + [','] + (" " + rest);
      SplitAt(lead + xs[0], ',', " " + rest, seps);
      SplitCommaSpace(" ", xs[1..]);
    }
  }

  /** An entry the remove-path text can hold unchanged: non-empty, no white space at its ends, no separator, normalised. */
  predicate Settled(x: string, normalizePath: string -> string) {
    && x != ""
    && Trimmed(x)
    && Free(x, RemovePathSeparators)
    && normalizePath(x) == x
  }

  /** A piece of the shown text, with or without the space the join put before it, trims back to the entry. */
  lemma TrimSpaced(x: string)
    requires x != "" && Trimmed(x)
    ensures Trim(x) == x && Trim(" " + x) == x
  {
    TrimOfTrimmed(x);
    assert (" " + x)[1..] == x;
    assert TrimStart(" " + x) == TrimStart(x);
  }

  /** The first entry, then every later entry after a space. */
  function ShownPieces(removePath: seq<string>): seq<string>
    requires |removePath| >= 1
  {
    [removePath[0]] + seq(|removePath| - 1, i requires 0 <= i < |removePath| - 1 => " " + removePath[i + 1])
  }

  /** The shown text splits into the first entry and every later entry after a space. */
  lemma ShownTextPieces(removePath: seq<string>)
    requires |removePath| >= 1
    requires forall k :: 0 <= k < |removePath| ==> Free(removePath[k], RemovePathSeparators)
    ensures Split(RemovePathText(removePath), RemovePathSeparators) == ShownPieces(removePath)
  {
    SplitCommaSpace("", removePath);
    assert "" + removePath[0] == removePath[0];
    assert "" + Join(removePath, ", ") == RemovePathText(removePath);
  }

  /** The `i`-th shown piece: the first entry as it is, every later one after a space. */
  lemma ShownPiece(removePath: seq<string>, i: nat)
    requires i < |removePath|
    ensures |ShownPieces(removePath)| == |removePath|
    ensures ShownPieces(removePath)[i] == if i == 0 then removePath[0] else " " + removePath[i]
  {
  }

  /** Every shown piece trims back to its entry. */
  lemma ShownPiecesTrim(removePath: seq<string>)
    requires |removePath| >= 1
    requires forall k :: 0 <= k < |removePath| ==> removePath[k] != "" && Trimmed(removePath[k])
    ensures |ShownPieces(removePath)| == |removePath|
    ensures forall i :: 0 <= i < |removePath| ==> Trim(ShownPieces(removePath)[i]) == removePath[i]
  {
    forall i | 0 <= i < |removePath| ensures Trim(ShownPieces(removePath)[i]) == removePath[i] {
      ShownPiece(removePath, i);
      TrimSpaced(removePath[i]);
    }
  }

  /** Pieces that each trim to a settled entry parse to exactly those entries. */
  lemma CleanPathsOfSettled(rawPaths: seq<string>, entries: seq<string>, normalizePath: string -> string)
    requires |rawPaths| == |entries|
    requires forall i :: 0 <= i < |rawPaths| ==> Trim(rawPaths[i]) == entries[i]
    requires forall k :: 0 <= k < |entries| ==> Settled(entries[k], normalizePath)
    ensures CleanPaths(rawPaths, normalizePath) == entries
  {
    forall i | 0 <= i < |rawPaths| ensures Trim(rawPaths[i]) != "" {
      assert Settled(entries[i], normalizePath);
    }
    CleanPathsNoneBlank(rawPaths, normalizePath);
    var r := CleanPaths(rawPaths, normalizePath);
    forall i | 0 <= i < |rawPaths| ensures r[i] == entries[i] {
      assert Settled(entries[i], normalizePath);
    }
  }

  /**
   * The text the tab shows for a list parses back to that list, provided every entry is
   * non-empty, has no white space at its ends, holds no comma or new line, and is already
   * in normalised form.
   */
  lemma RemovePathRoundTrip(removePath: seq<string>, normalizePath: string -> string)
    requires forall k :: 0 <= k < |removePath| ==> Settled(removePath[k], normalizePath)
    ensures RemovePaths(RemovePathText(removePath), normalizePath) == removePath
  {
    if removePath == [] {
      assert Split("", RemovePathSeparators) == [""];
    } else {
      ShownTextPieces(removePath);
      ShownPiecesTrim(removePath);
      CleanPathsOfSettled(ShownPieces(removePath), removePath, normalizePath);
    }
  }

  /** Removes every occurrence of `o`, keeping the rest in order (`filter(x => x != o)`). */
  function Without<T(==)>(s: seq<T>, o: T): (r: seq<T>)
    ensures |r| <= |s|
    ensures o !in r
  {
    if s == [] then [] else (if s[0] != o then [s[0]] else []) + Without(s[1..], o)
  }

  /** The filter keeps nothing that was not in the list, and keeps every entry other than `o`. */
  lemma {:induction false} WithoutMembers<T>(s: seq<T>, o: T)
    ensures forall i :: 0 <= i < |Without(s, o)| ==> Without(s, o)[i] in s
    ensures forall i :: 0 <= i < |s| && s[i] != o ==> s[i] in Without(s, o)
  {
    if s != [] {
      var tail := s[1..];
      WithoutMembers(tail, o);
      var r := Without(s, o);
      var head: seq<T> := if s[0] != o then [s[0]] else [];
      assert r == head + Without(tail, o);
      forall i | 0 <= i < |r| ensures r[i] in s {
        if i >= |head| {
          assert r[i] == Without(tail, o)[i - |head|];
          assert r[i] in tail;
        }
      }
      forall i | 0 <= i < |s| && s[i] != o ensures s[i] in r {
        if i > 0 {
          assert s[i] == tail[i - 1];
        }
      }
    }
  }

  /** Deleting an entry that occurs once, at `i`, removes exactly that position. */
  lemma {:induction false} WithoutOnce<T>(s: seq<T>, i: nat, o: T)
    requires i < |s| && s[i] == o
    requires forall j :: 0 <= j < |s| && j != i ==> s[j] != o
    ensures Without(s, o) == s[..i] + s[i + 1..]
  {
    var tail := s[1..];
    assert Without(s, o) == (if s[0] != o then [s[0]] else []) + Without(tail, o);
    if i == 0 {
      assert o !in tail by {
        forall j | 0 <= j < |tail| ensures tail[j] != o {
          assert tail[j] == s[j + 1];
        }
      }
      WithoutAbsent(tail, o);
      assert s[..0] + s[1..] == tail;
    } else {
      assert s[0] != o;
      forall j | 0 <= j < |tail| && j != i - 1 ensures tail[j] != o {
        assert tail[j] == s[j + 1];
      }
      WithoutOnce(tail, i - 1, o);
      assert tail[..i - 1] == s[1..i];
      assert tail[i..] == s[i + 1..];
      assert [s[0]] + s[1..i] == s[..i];
    }
  }

  /** Deleting an entry that is not there changes nothing. */
  lemma {:induction false} WithoutAbsent<T>(s: seq<T>, o: T)
    requires o !in s
    ensures Without(s, o) == s
  {
    if s != [] {
      WithoutAbsent(s[1..], o);
      assert [s[0]] + s[1..] == s;
    }
  }

  /** The settings tab's hold on `plugin.settings`, which its callbacks update in place. */
  class SettingTab {
    var settings: VaultTransferSettings

    constructor (settings: VaultTransferSettings)
      ensures this.settings == settings
    {
      this.settings := settings;
    }

    /** The "Remove folders from path" text area changed to `value`. */
    method OnRemovePathChange(value: string, normalizePath: string -> string)
      modifies this
      ensures settings == old(settings).(removePath := RemovePaths(value, normalizePath))
    {
      var cleanPaths := ParseRemovePaths(value, normalizePath);
      settings := settings.(removePath := cleanPaths);
    }

    /** "Add Path": appends one fresh, empty override and leaves the others as they were. */
    method OnAddPath()
      modifies this
      ensures |settings.overridedPath| == |old(settings.overridedPath)| + 1
      ensures settings.overridedPath[..|old(settings.overridedPath)|] == old(settings.overridedPath)
      ensures var added := settings.overridedPath[|settings.overridedPath| - 1];
        fresh(added) && added.sourcePath == "" && added.replacement == ""
      ensures settings == old(settings).(overridedPath := settings.overridedPath)
    {
      var added := new OverridePath("", "");
      settings := settings.(overridedPath := settings.overridedPath + [added]);
    }

    /** The delete button of `override`: the list without that object. */
    method OnDeleteOverride(override: OverridePath)
      modifies this
      ensures settings == old(settings).(overridedPath := Without(old(settings.overridedPath), override))
    {
      settings := settings.(overridedPath := Without(settings.overridedPath, override));
    }
  }
}
