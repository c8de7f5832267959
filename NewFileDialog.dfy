/**
 * The file-opening dialog of src/dialogs/NewFileDialog.cpp: the list of
 * recent files and projects kept in the configuration, the hexadecimal
 * byte pairs taken out of typed shellcode, and the widget lists showing the
 * files that still exist.
 *
 * The file system is the set of paths that exist; the configuration lists
 * and the line-edit texts are fields. `QDir::toNativeSeparators` is taken
 * as the identity (the separators of a Unix system).
 */
module NewFileDialog {
  import opened Common

  // ---------------------------------------------------------------- shellcode

  /**
   * The matches of `([0-9a-f]{2})`, case-insensitive, concatenated: from
   * each position the next two characters are taken when both are
   * hexadecimal digits, and the search resumes after them.
   */
  function HexPairs(s: string): string
    decreases |s|
  {
    if |s| < 2 then ""
    else if IsHexDigit(s[0]) && IsHexDigit(s[1]) then s[..2] + HexPairs(s[2..])
    else HexPairs(s[1..])
  }

  /** The extracted code is made of whole hexadecimal byte pairs. */
  lemma {:induction false} HexPairsShape(s: string)
    ensures |HexPairs(s)| % 2 == 0 && AllHex(HexPairs(s))
    decreases |s|
  {
    if |s| >= 2 {
      if IsHexDigit(s[0]) && IsHexDigit(s[1]) {
        HexPairsShape(s[2..]);
        var rest := HexPairs(s[2..]);
        assert HexPairs(s) == s[..2] + rest;
        assert forall i :: 2 <= i < |HexPairs(s)| ==> HexPairs(s)[i] == rest[i - 2];
      } else {
        HexPairsShape(s[1..]);
      }
    }
  }

  /** Text that is already an even run of hexadecimal digits is extracted whole. */
  lemma {:induction false} HexPairsOfHex(s: string)
    requires AllHex(s) && |s| % 2 == 0
    ensures HexPairs(s) == s
    decreases |s|
  {
    if |s| >= 2 {
      assert IsHexDigit(s[0]) && IsHexDigit(s[1]);
      assert AllHex(s[2..]) by {
        forall i | 0 <= i < |s[2..]| ensures IsHexDigit(s[2..][i]) {
          assert s[2..][i] == s[i + 2];
        }
      }
      HexPairsOfHex(s[2..]);
      assert s == s[..2] + s[2..];
    }
  }

  /** Extracting again from extracted code changes nothing. */
  lemma {:induction false} HexPairsIdempotent(s: string)
    ensures HexPairs(HexPairs(s)) == HexPairs(s)
  {
    HexPairsShape(s);
    HexPairsOfHex(HexPairs(s));
  }

  /** The `globalMatch` loop of the shellcode button and of the Ctrl+Return filter. */
  method ExtractShellcode(shellcode: string) returns (extractedCode: string)
    ensures extractedCode == HexPairs(shellcode)
  {
    extractedCode := "";
    var i := 0;
    while i + 1 < |shellcode|
      invariant 0 <= i <= |shellcode|
      invariant extractedCode + HexPairs(shellcode[i..]) == HexPairs(shellcode)
      decreases |shellcode| - i
    {
      var rest := shellcode[i..];
      if IsHexDigit(shellcode[i]) && IsHexDigit(shellcode[i + 1]) {
        assert rest[2..] == shellcode[i + 2..];
        assert rest[..2] == shellcode[i..i + 2];
        extractedCode := extractedCode + shellcode[i..i + 2];
        i := i + 2;
      } else {
        assert rest[1..] == shellcode[i + 1..];
        i := i + 1;
      }
    }
  }

  /** What `loadShellcode` opens: `malloc://<size>` holding the extracted code. */
  datatype ShellcodeLoad = ShellcodeLoad(filename: string, shellcode: string, size: int)

  /** The shellcode button: the code is loaded only when at least one byte pair was found. */
  method ShellcodeButton(shellcode: string) returns (load: Option<ShellcodeLoad>)
    ensures var code := HexPairs(shellcode);
      (load.Some? <==> |code| / 2 > 0) &&
      (load.Some? ==> load.value == ShellcodeLoad("malloc://" + Decimal(|code| / 2), code, |code| / 2))
  {
    var extractedCode := ExtractShellcode(shellcode);
    var size := |extractedCode| / 2;
    if size > 0 {
      load := Some(ShellcodeLoad("malloc://" + Decimal(size), extractedCode, size));
    } else {
      load := None;
    }
  }

  /** The key event the shellcode editor's filter sees. */
  datatype KeyEvent = KeyEvent(isKeyPress: bool, control: bool, isEnterOrReturn: bool)

  /** `eventFilter`: Ctrl+Return or Ctrl+Enter does what the shellcode button does, and the event is consumed. */
  method EventFilter(shellcode: string, event: KeyEvent) returns (handled: bool, load: Option<ShellcodeLoad>)
    ensures handled <==> event.isKeyPress && event.control && event.isEnterOrReturn
    ensures !handled ==> load == None
    ensures handled ==> var code := HexPairs(shellcode);
      (load.Some? <==> |code| / 2 > 0) &&
      (load.Some? ==> load.value == ShellcodeLoad("malloc://" + Decimal(|code| / 2), code, |code| / 2))
  {
    handled, load := false, None;
    if event.isKeyPress && event.control && event.isEnterOrReturn {
      load := ShellcodeButton(shellcode);
      handled := true;
    }
  }

  // ---------------------------------------------------------------- recent lists

  /** `QStringList::removeAll`. */
  function RemoveAll(files: seq<string>, x: string): (r: seq<string>)
  {
    Filter(files, (y: string) => y != x)
  }

  lemma {:induction false} RemoveAllMembership(files: seq<string>, x: string, y: string)
    ensures y in RemoveAll(files, x) <==> y in files && y != x
  {
    FilterMembership(files, (z: string) => z != x, y);
  }

  /** A list trimmed to its first `n` entries by repeated `removeLast`. */
  function Truncated(s: seq<string>, n: nat): (r: seq<string>)
  {
    if |s| <= n then s else s[..n]
  }

  /** The recent-file list after `loadFile` added `fn`. */
  function Recent(files: seq<string>, fn: string, maxRecent: nat): seq<string>
  {
    Truncated([fn] + RemoveAll(files, fn), maxRecent)
  }

  /**
   * After a file is opened it is first in the recent list and occurs once,
   * the list holds at most `maxRecent` entries, and the rest is the earlier
   * list without the file, in order and cut at the end.
   */
  lemma {:induction false} RecentSpec(files: seq<string>, fn: string, maxRecent: nat)
    requires maxRecent >= 1
    ensures var r := Recent(files, fn, maxRecent);
      1 <= |r| <= maxRecent && r[0] == fn && fn !in r[1..] && r[1..] <= RemoveAll(files, fn) &&
      forall y :: y in r ==> y == fn || y in files
  {
    var rest := RemoveAll(files, fn);
    var r := Recent(files, fn, maxRecent);
    assert r[1..] <= rest by {
      if |[fn] + rest| > maxRecent {
        assert r[1..] == rest[..maxRecent - 1];
      } else {
        assert r[1..] == rest;
      }
    }
    forall y | y in r[1..]
      ensures y != fn && y in files
    {
      assert y in rest;
      RemoveAllMembership(files, fn, y);
    }
  }

  /** The `removeAll`, `prepend` and `removeLast` loop of `loadFile`. */
  method AddRecent(files: seq<string>, fn: string, maxRecent: nat) returns (r: seq<string>)
    ensures r == Recent(files, fn, maxRecent)
  {
    r := RemoveAll(files, fn);
    r := [fn] + r;
    ghost var full := r;
    while |r| > maxRecent
      invariant |r| >= maxRecent || |r| == |full|
      invariant r == full[..|r|]
    {
      r := r[..|r| - 1];
    }
  }

  /** `fillFilesList`: the files that exist, in their order, removed in place through a mutable iterator. */
  method FillFilesList(files: seq<string>, existing: set<string>) returns (updatedFiles: seq<string>)
    ensures updatedFiles == Filter(files, (f: string) => f in existing)
  {
    ghost var keep := (f: string) => f in existing;
    updatedFiles := files;
    var i, j := 0, 0;
    while i < |files|
      invariant 0 <= i <= |files| && 0 <= j <= |updatedFiles|
      invariant updatedFiles == Filter(files[..i], keep) + files[i..]
      invariant j == |Filter(files[..i], keep)|
    {
      FilterStep(files, keep, i);
      if files[i] !in existing {
        updatedFiles := updatedFiles[..j] + updatedFiles[j + 1..];
      } else {
        j := j + 1;
      }
      i := i + 1;
    }
    assert files[..i] == files;
  }

  /** One step of the iterator: the entry at `i` is either dropped or kept where it is. */
  lemma {:induction false} FilterStep<T>(s: seq<T>, keep: T -> bool, i: int)
    requires 0 <= i < |s|
    ensures var f, g := Filter(s[..i], keep), Filter(s[..i + 1], keep);
      (f + s[i..])[|f|] == s[i] &&
      (keep(s[i]) ==> g == f + [s[i]] && g + s[i + 1..] == f + s[i..]) &&
      (!keep(s[i]) ==> g == f && (f + s[i..])[..|f|] + (f + s[i..])[|f| + 1..] == g + s[i + 1..])
  {
    assert s[..i + 1][..i] == s[..i];
    var f := Filter(s[..i], keep);
    assert s[i..] == [s[i]] + s[i + 1..];
    assert (f + s[i..])[..|f|] == f;
    assert (f + s[i..])[|f| + 1..] == s[i + 1..];
  }

  /** The dialog: the two configuration lists, the two widget lists (the path each row holds) and the line edits. */
  class Dialog {
    const maxRecentFiles: nat
    var recentFiles: seq<string>
    var recentProjects: seq<string>
    var recentItems: seq<string>
    var projectItems: seq<string>
    var newFileText: string
    var projectFileText: string
    var loadProjectEnabled: bool

    /**
     * The dialog over the configured recent files and projects; `existing`
     * holds the paths that exist on disk. Both lists are filled at once,
     * which drops the missing paths from the configuration, and the load
     * button follows the still empty project path.
     */
    constructor (maxRecentFiles: nat, recentFiles: seq<string>, recentProjects: seq<string>, existing: set<string>)
      ensures this.maxRecentFiles == maxRecentFiles
      ensures this.recentFiles == Filter(recentFiles, (f: string) => f in existing) && recentItems == this.recentFiles
      ensures this.recentProjects == Filter(recentProjects, (f: string) => f in existing) && projectItems == this.recentProjects
      ensures newFileText == "" && projectFileText == "" && !loadProjectEnabled
    {
      this.maxRecentFiles := maxRecentFiles;
      this.recentFiles, this.recentProjects := recentFiles, recentProjects;
      recentItems, projectItems := [], [];
      newFileText, projectFileText := "", "";
      loadProjectEnabled := false;
      new;
      var _ := FillRecentFilesList(existing);
      var _ := FillProjectsList(existing);
      UpdateLoadProjectButton();
    }

    /** `fillRecentFilesList`: the files that no longer exist leave the configuration and the rest are listed. */
    method FillRecentFilesList(existing: set<string>) returns (nonEmpty: bool)
      modifies this
      ensures recentFiles == Filter(old(recentFiles), (f: string) => f in existing)
      ensures recentItems == old(recentItems) + recentFiles
      ensures nonEmpty <==> recentFiles != []
      ensures recentProjects == old(recentProjects) && projectItems == old(projectItems)
      ensures newFileText == old(newFileText) && projectFileText == old(projectFileText)
    {
      var files := FillFilesList(recentFiles, existing);
      recentItems := recentItems + files;
      recentFiles := files;
      nonEmpty := files != [];
    }

    /** `fillProjectsList`, the same for the recent projects. */
    method FillProjectsList(existing: set<string>) returns (nonEmpty: bool)
      modifies this
      ensures recentProjects == Filter(old(recentProjects), (f: string) => f in existing)
      ensures projectItems == old(projectItems) + recentProjects
      ensures nonEmpty <==> recentProjects != []
      ensures recentFiles == old(recentFiles) && recentItems == old(recentItems)
      ensures newFileText == old(newFileText) && projectFileText == old(projectFileText)
    {
      var files := FillFilesList(recentProjects, existing);
      projectItems := projectItems + files;
      recentProjects := files;
      nonEmpty := files != [];
    }

    /** `updateLoadProjectButton`. */
    method UpdateLoadProjectButton()
      modifies this
      ensures loadProjectEnabled <==> Trim(projectFileText) != ""
      ensures projectFileText == old(projectFileText) && recentProjects == old(recentProjects)
      ensures newFileText == old(newFileText) && recentFiles == old(recentFiles)
      ensures recentItems == old(recentItems) && projectItems == old(projectItems)
    {
      loadProjectEnabled := Trim(projectFileText) != "";
    }

    /**
     * `loadFile` with the selected I/O plugin (index and text), whether
     * `tryFile` succeeded and whether fileless opening is checked: either
     * nothing happens, or the file joins the recent list and the name
     * handed to the main window is returned.
     */
    method LoadFile(filename: string, ioIndex: int, ioText: string, tryFileOk: bool, fileless: bool)
      returns (openedName: Option<string>)
      modifies this
      ensures ioIndex == 0 && !tryFileOk && !fileless ==> openedName == None && recentFiles == old(recentFiles)
      ensures !(ioIndex == 0 && !tryFileOk && !fileless) ==>
        recentFiles == Recent(old(recentFiles), filename, maxRecentFiles) &&
        openedName == Some((if ioIndex != 0 then ioText else "") + filename)
      ensures recentProjects == old(recentProjects) && recentItems == old(recentItems)
    {
      if ioIndex == 0 && !tryFileOk && !fileless {
        return None;
      }
      var files := AddRecent(recentFiles, filename, maxRecentFiles);
      recentFiles := files;
      var ioFile := "";
      if ioIndex != 0 {
        ioFile := ioText;
      }
      ioFile := ioFile + filename;
      openedName := Some(ioFile);
    }

    /** `on_actionRemove_item_triggered` with the current row (-1 when no item is current). */
    method RemoveItem(row: int)
      modifies this
      ensures !(0 <= row < |old(recentItems)|) ==>
        recentFiles == old(recentFiles) && recentItems == old(recentItems) && newFileText == old(newFileText)
      ensures 0 <= row < |old(recentItems)| ==>
        recentFiles == RemoveAll(old(recentFiles), old(recentItems)[row]) &&
        recentItems == old(recentItems)[..row] + old(recentItems)[row + 1..] && newFileText == ""
      ensures recentProjects == old(recentProjects) && projectItems == old(projectItems)
    {
      if !(0 <= row < |recentItems|) {
        return;
      }
      var sitem := recentItems[row];
      recentFiles := RemoveAll(recentFiles, sitem);
      recentItems := recentItems[..row] + recentItems[row + 1..];
      newFileText := "";
    }

    /** `on_actionClear_all_triggered`. */
    method ClearAll()
      modifies this
      ensures recentFiles == [] && recentItems == [] && newFileText == ""
      ensures recentProjects == old(recentProjects) && projectItems == old(projectItems)
    {
      recentFiles, recentItems, newFileText := [], [], "";
    }

    /** `on_actionRemove_project_triggered`. */
    method RemoveProject(row: int)
      modifies this
      ensures !(0 <= row < |old(projectItems)|) ==>
        recentProjects == old(recentProjects) && projectItems == old(projectItems) && projectFileText == old(projectFileText)
      ensures 0 <= row < |old(projectItems)| ==>
        recentProjects == RemoveAll(old(recentProjects), old(projectItems)[row]) &&
        projectItems == old(projectItems)[..row] + old(projectItems)[row + 1..] && projectFileText == ""
      ensures recentFiles == old(recentFiles) && recentItems == old(recentItems)
    {
      if !(0 <= row < |projectItems|) {
        return;
      }
      var sitem := projectItems[row];
      recentProjects := RemoveAll(recentProjects, sitem);
      projectItems := projectItems[..row] + projectItems[row + 1..];
      projectFileText := "";
    }

    /** `on_actionClearProjects_triggered`. */
    method ClearProjects()
      modifies this
      ensures recentProjects == [] && projectItems == [] && projectFileText == ""
      ensures recentFiles == old(recentFiles) && recentItems == old(recentItems)
    {
      recentProjects, projectItems, projectFileText := [], [], "";
    }
  }

  /** After a removal the removed path is nowhere in the recent list, and every other entry stays. */
  lemma {:induction false} RemoveAllSpec(files: seq<string>, x: string)
    ensures x !in RemoveAll(files, x)
    ensures forall y :: y in files && y != x ==> y in RemoveAll(files, x)
  {
    RemoveAllMembership(files, x, x);
    forall y | y in files && y != x
      ensures y in RemoveAll(files, x)
    {
      RemoveAllMembership(files, x, y);
    }
  }

  /** Listing files keeps exactly those that exist. */
  lemma {:induction false} FillFilesListSpec(files: seq<string>, existing: set<string>, f: string)
    ensures f in Filter(files, (g: string) => g in existing) <==> f in files && f in existing
  {
    FilterMembership(files, (g: string) => g in existing, f);
  }
}
