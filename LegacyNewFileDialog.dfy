/**
 * The older file-opening dialog of dialogs/NewFileDialog.cpp. It keeps the
 * recent files under the settings key `recentFileList` instead of the
 * configuration object, and has no recent-project list of that kind; the
 * shellcode extraction and the recent-list update are the ones of the newer
 * dialog, whose definitions are reused.
 */
module LegacyNewFileDialog {
  import opened Common
  import NewFileDialog

  class Dialog {
    const maxRecentFiles: nat
    /** The settings value `recentFileList`. */
    var recentFileList: seq<string>
    /** The path each row of `recentsListWidget` holds. */
    var recentItems: seq<string>
    var newFileText: string

    /** The dialog over the saved recent files; `existing` holds the paths that exist on disk. The list is filled at once. */
    constructor (maxRecentFiles: nat, recentFileList: seq<string>, existing: set<string>)
      ensures this.maxRecentFiles == maxRecentFiles
      ensures this.recentFileList == Filter(recentFileList, (f: string) => f in existing)
      ensures recentItems == this.recentFileList && newFileText == ""
    {
      this.maxRecentFiles := maxRecentFiles;
      this.recentFileList := recentFileList;
      recentItems, newFileText := [], "";
      new;
      var _ := FillRecentFilesList(existing);
    }

    /** `fillRecentFilesList`: the same in-place removal of files that no longer exist, saved back to the settings. */
    method FillRecentFilesList(existing: set<string>) returns (nonEmpty: bool)
      modifies this
      ensures recentFileList == Filter(old(recentFileList), (f: string) => f in existing)
      ensures recentItems == old(recentItems) + recentFileList
      ensures nonEmpty <==> recentFileList != []
      ensures newFileText == old(newFileText)
    {
      var files := NewFileDialog.FillFilesList(recentFileList, existing);
      recentItems := recentItems + files;
      recentFileList := files;
      nonEmpty := files != [];
    }

    /** `loadFile`: as in the newer dialog, with the list read from and written to the settings. */
    method LoadFile(filename: string, ioIndex: int, ioText: string, tryFileOk: bool, fileless: bool)
      returns (openedName: Option<string>)
      modifies this
      ensures ioIndex == 0 && !tryFileOk && !fileless ==> openedName == None && recentFileList == old(recentFileList)
      ensures !(ioIndex == 0 && !tryFileOk && !fileless) ==>
        recentFileList == NewFileDialog.Recent(old(recentFileList), filename, maxRecentFiles) &&
        openedName == Some((if ioIndex != 0 then ioText else "") + filename)
      ensures recentItems == old(recentItems)
    {
      if ioIndex == 0 && !tryFileOk && !fileless {
        return None;
      }
      var files := NewFileDialog.AddRecent(recentFileList, filename, maxRecentFiles);
      recentFileList := files;
      var ioFile := "";
      if ioIndex != 0 {
        ioFile := ioText;
      }
      ioFile := ioFile + filename;
      openedName := Some(ioFile);
    }

    /** `on_actionRemove_item_triggered` with the current row (-1 when no item is current). */
    method RemoveItem(row: int)
      modifies this
      ensures !(0 <= row < |old(recentItems)|) ==>
        recentFileList == old(recentFileList) && recentItems == old(recentItems) && newFileText == old(newFileText)
      ensures 0 <= row < |old(recentItems)| ==>
        recentFileList == NewFileDialog.RemoveAll(old(recentFileList), old(recentItems)[row]) &&
        recentItems == old(recentItems)[..row] + old(recentItems)[row + 1..] && newFileText == ""
    {
      if !(0 <= row < |recentItems|) {
        return;
      }
      var sitem := recentItems[row];
      var files := NewFileDialog.RemoveAll(recentFileList, sitem);
      recentFileList := files;
      recentItems := recentItems[..row] + recentItems[row + 1..];
      newFileText := "";
    }

    /** `on_actionClear_all_triggered`. */
    method ClearAll()
      modifies this
      ensures recentFileList == [] && recentItems == [] && newFileText == ""
    {
      var files := recentFileList;
      files := [];
      recentItems := [];
      recentFileList := files;
      newFileText := "";
    }
  }
}
