/**
 * The decisions the Data Manager window takes around host calls: how the asset tree
 * is set up (BuildMenuTree), what a delete asks and does (DeleteAssets) and when a
 * rename goes ahead (StartRename, PerformRename). Every host answer (the assets found,
 * their folders, the item count of the built tree, dialog choices, the popup, the
 * asset database's existence check and error text) is an input.
 */
module WindowRules {
  import opened Wrappers
  import opened Text

  // ---------------------------------------------------------------------------
  // BuildMenuTree
  // ---------------------------------------------------------------------------

  /** The choices BuildMenuTree makes for the tree it returns. */
  datatype TreeSetup = TreeSetup(
    drawSearchToolbar: bool,  // the search toolbar is drawn
    warnNoAssets: bool,       // the "No matching files" warning is logged
    populated: bool,          // the assets are added to the tree
    flatten: bool,            // they are added without folder items
    selectFirst: bool,        // the first menu item is selected
    focusSearch: bool)        // the search field gets the keyboard focus

  /** The parent folders of the asset paths. */
  function ParentFolders(paths: seq<string>, parentOf: string -> string): set<string> {
    set p | p in paths :: parentOf(p)
  }

  /** The tree is flattened when the assets lie in fewer than two distinct folders. */
  predicate Flatten(paths: seq<string>, parentOf: string -> string) {
    |ParentFolders(paths, parentOf)| < 2
  }

  /**
   * BuildMenuTree for the selected type (None when no type is selected), the paths the
   * asset search finds for it, the folder of a path and the number of top-level items
   * in the tree once it is filled.
   */
  function BuildMenuTree<T>(selectedType: Option<T>, found: seq<string>, parentOf: string -> string, itemCount: nat): (setup: TreeSetup)
    ensures setup.drawSearchToolbar <==> selectedType.Some? && |found| > 1
    ensures setup.populated <==> selectedType.Some? && |found| >= 1
    ensures setup.warnNoAssets <==> selectedType.Some? && found == []
    ensures setup.selectFirst ==> setup.populated && setup.flatten && itemCount >= 1
    ensures setup.focusSearch ==> setup.populated
  {
    var assetPaths := if selectedType.None? then [] else found;
    var drawSearchToolbar := |assetPaths| > 1;
    if selectedType.None? then
      TreeSetup(drawSearchToolbar, false, false, false, false, false)
    else if |assetPaths| < 1 then
      TreeSetup(drawSearchToolbar, true, false, false, false, false)
    else
      var flatten := Flatten(assetPaths, parentOf);
      TreeSetup(drawSearchToolbar, false, true, flatten, itemCount > 0 && flatten, itemCount > 1 || !flatten)
  }

  /** Fewer than two distinct folders means every asset lies in the same folder. */
  lemma FlattenIffOneFolder(paths: seq<string>, parentOf: string -> string)
    ensures Flatten(paths, parentOf) <==>
      forall i, j :: 0 <= i < |paths| && 0 <= j < |paths| ==> parentOf(paths[i]) == parentOf(paths[j])
  {
    var folders := ParentFolders(paths, parentOf);
    if forall i, j :: 0 <= i < |paths| && 0 <= j < |paths| ==> parentOf(paths[i]) == parentOf(paths[j]) {
      if paths == [] {
        assert folders == {};
      } else {
        assert folders == {parentOf(paths[0])};
      }
    } else {
      var i, j :| 0 <= i < |paths| && 0 <= j < |paths| && parentOf(paths[i]) != parentOf(paths[j]);
      assert {parentOf(paths[i]), parentOf(paths[j])} <= folders;
      assert |{parentOf(paths[i]), parentOf(paths[j])}| == 2;
      SubsetCardinality({parentOf(paths[i]), parentOf(paths[j])}, folders);
    }
  }

  lemma SubsetCardinality<X>(a: set<X>, b: set<X>)
    requires a <= b
    ensures |a| <= |b|
  {
    assert b == a + (b - a);
  }

  /**
   * Assets in a single folder: the tree is flat, the first item is selected when the tree
   * has one, and the search field is focused only when there are several items.
   */
  lemma OneFolderTree<T>(selectedType: T, found: seq<string>, parentOf: string -> string, itemCount: nat)
    requires found != []
    requires forall i :: 0 <= i < |found| ==> parentOf(found[i]) == parentOf(found[0])
    ensures var setup := BuildMenuTree(Some(selectedType), found, parentOf, itemCount);
      && setup.flatten
      && (setup.selectFirst <==> itemCount >= 1)
      && (setup.focusSearch <==> itemCount > 1)
  {
    FlattenIffOneFolder(found, parentOf);
  }

  /** Assets in two different folders: a folder tree, nothing preselected, the search field focused. */
  lemma SeveralFoldersTree<T>(selectedType: T, found: seq<string>, parentOf: string -> string, itemCount: nat, i: nat, j: nat)
    requires i < |found| && j < |found| && parentOf(found[i]) != parentOf(found[j])
    ensures var setup := BuildMenuTree(Some(selectedType), found, parentOf, itemCount);
      && !setup.flatten && !setup.selectFirst && setup.focusSearch && setup.drawSearchToolbar
  {
    FlattenIffOneFolder(found, parentOf);
  }

  // ---------------------------------------------------------------------------
  // DeleteAssets
  // ---------------------------------------------------------------------------

  /** A menu item: its display name, and the path of its asset when its value is an asset (None for a folder). */
  datatype MenuItem = MenuItem(name: string, assetPath: Option<string>)

  /** The items whose value is an asset, in order (line 429). */
  function AssetItems(items: seq<MenuItem>): (r: seq<MenuItem>)
    ensures |r| <= |items|
    ensures forall x :: x in r <==> x in items && x.assetPath.Some?
  {
    if items == [] then []
    else if items[0].assetPath.Some? then [items[0]] + AssetItems(items[1..])
    else AssetItems(items[1..])
  }

  /** Filtering distributes over concatenation, so the assets keep their order. */
  lemma {:induction false} AssetItemsAppend(a: seq<MenuItem>, b: seq<MenuItem>)
    ensures AssetItems(a + b) == AssetItems(a) + AssetItems(b)
  {
    if a == [] {
      assert a + b == b;
    } else {
      assert (a + b)[1..] == a[1..] + b;
      AssetItemsAppend(a[1..], b);
    }
  }

  /** string.Join(separator, parts). */
  function Join(separator: string, parts: seq<string>): string {
    if parts == [] then "" else if |parts| == 1 then parts[0] else parts[0] + separator + Join(separator, parts[1..])
  }

  function Names(items: seq<MenuItem>): (r: seq<string>)
    ensures |r| == |items| && forall i :: 0 <= i < |items| ==> r[i] == items[i].name
  {
    if items == [] then [] else [items[0].name] + Names(items[1..])
  }

  function Paths(items: seq<MenuItem>): (r: seq<string>)
    requires forall x :: x in items ==> x.assetPath.Some?
    ensures |r| == |items| && forall i :: 0 <= i < |items| ==> r[i] == items[i].assetPath.value
  {
    if items == [] then [] else [items[0].assetPath.value] + Paths(items[1..])
  }

  /** The question of the delete dialog (lines 432-435). */
  function ConfirmMessage(toDelete: seq<MenuItem>): string
    requires toDelete != []
  {
    if |toDelete| == 1 then "Are you sure you want to delete '" + toDelete[0].name + "'?"
    else "Are you sure you want to delete " + NatToDecimal(|toDelete|) + " assets?\n\n" + Join("\n", Names(toDelete))
  }

  datatype DeleteOutcome =
    | NothingToDelete                                  // no dialog, nothing deleted
    | DeleteCancelled(message: string)                 // the dialog was shown and not confirmed
    | Deleted(message: string, paths: seq<string>)     // the dialog was confirmed; these assets are deleted, in order

  /** DeleteAssets(items) with `choice` the button index DisplayDialogComplex returns (0 is "Delete"). */
  function DeleteAssets(items: seq<MenuItem>, choice: int): DeleteOutcome {
    var toDelete := AssetItems(items);
    if |toDelete| == 0 then NothingToDelete
    else if choice != 0 then DeleteCancelled(ConfirmMessage(toDelete))
    else Deleted(ConfirmMessage(toDelete), Paths(toDelete))
  }

  /**
   * A dialog appears exactly when some item is an asset; assets are deleted exactly when
   * its choice is 0, and then every asset item, and nothing else, is deleted.
   */
  lemma DeleteRules(items: seq<MenuItem>, choice: int)
    ensures DeleteAssets(items, choice).NothingToDelete? <==> forall x :: x in items ==> x.assetPath.None?
    ensures DeleteAssets(items, choice).Deleted? <==> (exists x :: x in items && x.assetPath.Some?) && choice == 0
    ensures DeleteAssets(items, choice).Deleted? ==>
      forall p :: p in DeleteAssets(items, choice).paths <==> exists x :: x in items && x.assetPath == Some(p)
  {
    var toDelete := AssetItems(items);
    if toDelete != [] {
      assert toDelete[0] in items;
    }
    if DeleteAssets(items, choice).Deleted? {
      var paths := Paths(toDelete);
      forall p ensures p in paths <==> exists x :: x in items && x.assetPath == Some(p) {
        if p in paths {
          var k :| 0 <= k < |paths| && paths[k] == p;
          assert toDelete[k] in items;
        }
        if x :| x in items && x.assetPath == Some(p) {
          assert x in toDelete;
          var k :| 0 <= k < |toDelete| && toDelete[k] == x;
          assert paths[k] == p;
        }
      }
    }
  }

  /** Splits s at every occurrence of the separator character, as string.Split does. */
  function Split(s: string, separator: char): (r: seq<string>)
    ensures |r| >= 1
  {
    if s == [] then [""]
    else if s[0] == separator then [""] + Split(s[1..], separator)
    else var rest := Split(s[1..], separator); [[s[0]] + rest[0]] + rest[1..]
  }

  lemma {:induction false} SplitPlain(x: string, separator: char, rest: string)
    requires separator !in x
    ensures Split(x + [separator] + rest, separator) == [x] + Split(rest, separator)
    ensures Split(x, separator) == [x]
  {
    if x == [] {
      assert x + [separator] + rest == [separator] + rest;
    } else {
      assert (x + [separator] + rest)[1..] == x[1..] + [separator] + rest;
      SplitPlain(x[1..], separator, rest);
      assert [x[0]] + x[1..] == x;
    }
  }

  /** Joining lines that contain no line feed and splitting the result gives the lines back. */
  lemma {:induction false} SplitJoin(parts: seq<string>, separator: char)
    requires parts != []
    requires forall i :: 0 <= i < |parts| ==> separator !in parts[i]
    ensures Split(Join([separator], parts), separator) == parts
  {
    if |parts| == 1 {
      SplitPlain(parts[0], separator, "");
    } else {
      var tail := parts[1..];
      var rest := Join([separator], tail);
      assert Join([separator], parts) == parts[0] + [separator] + rest;
      assert forall i :: 0 <= i < |tail| ==> separator !in tail[i];
      SplitJoin(tail, separator);
      SplitPlain(parts[0], separator, rest);
      ConsTail(parts);
    }
  }

  lemma ConsTail<X>(s: seq<X>)
    requires s != []
    ensures [s[0]] + s[1..] == s
  {
  }

  lemma HeaderHasNoLineFeed(count: nat)
    ensures '\n' !in "Are you sure you want to delete " + NatToDecimal(count) + " assets?"
  {
    var digits := NatToDecimal(count);
    assert forall i :: 0 <= i < |digits| ==> digits[i] != '\n';
  }

  /**
   * The question for several assets: a first line with their number, an empty line, then
   * one line per asset name in order (names without line feeds). For one asset it names it.
   */
  lemma ConfirmMessageLines(toDelete: seq<MenuItem>)
    requires |toDelete| >= 2
    requires forall x :: x in toDelete ==> '\n' !in x.name
    ensures var lines := Split(ConfirmMessage(toDelete), '\n');
      && |lines| == |toDelete| + 2
      && lines[0] == "Are you sure you want to delete " + NatToDecimal(|toDelete|) + " assets?"
      && lines[1] == ""
      && lines[2..] == Names(toDelete)
  {
    var first := "Are you sure you want to delete " + NatToDecimal(|toDelete|) + " assets?";
    var names := Names(toDelete);
    assert ConfirmMessage(toDelete) == first + "\n\n" + Join("\n", names);
    HeaderHasNoLineFeed(|toDelete|);
    forall i | 0 <= i < |names| ensures '\n' !in names[i] {
      assert toDelete[i] in toDelete;
    }
    SplitHeaderBlankList(first, names);
  }

  /** A line, an empty line and then the joined lines split back into exactly those lines. */
  lemma SplitHeaderBlankList(first: string, names: seq<string>)
    requires '\n' !in first && names != []
    requires forall i :: 0 <= i < |names| ==> '\n' !in names[i]
    ensures Split(first + "\n\n" + Join("\n", names), '\n') == [first, ""] + names
  {
    var list := Join("\n", names);
    assert first + "\n\n" + list == first + ['\n'] + ("" + ['\n'] + list);
    SplitJoin(names, '\n');
    SplitPlain("", '\n', list);
    SplitPlain(first, '\n', "" + ['\n'] + list);
    assert [first] + ([""] + names) == [first, ""] + names;
  }

  // ---------------------------------------------------------------------------
  // StartRename / PerformRename
  // ---------------------------------------------------------------------------

  datatype RenameOutcome =
    | NotAttempted                    // StartRename does not call PerformRename
    | TargetExists(message: string)   // a "File Exists" dialog, and nothing is renamed
    | RenameFailed(error: string)     // the asset database refused; the error is logged
    | Renamed(newName: string)        // the asset now has the new name

  /**
   * StartRename and PerformRename for an asset named `currentName`. `popupShown` is whether
   * the drop-down returned a window, `newName` the popup's text (None for null), `taken` the
   * names with an asset in the asset's folder, and `renameError` what AssetDatabase.RenameAsset
   * returns (None for null).
   */
  function Rename(currentName: string, popupShown: bool, newName: Option<string>, taken: set<string>, renameError: Option<string>): RenameOutcome {
    if !(popupShown && !IsNullOrWhiteSpace(newName) && newName.value != currentName) then NotAttempted
    else if newName.value in taken then
      TargetExists("An asset named '" + newName.value + "' already exists in this location. Rename cancelled.")
    else if renameError.Some? && renameError.value != "" then RenameFailed(renameError.value)
    else Renamed(newName.value)
  }

  /**
   * A rename is attempted exactly when the popup returned, the new name is not blank and it
   * differs from the current one; it stops at the dialog exactly when that name is taken;
   * and it succeeds only with a fresh, non-blank, different name.
   */
  lemma RenameRules(currentName: string, popupShown: bool, newName: Option<string>, taken: set<string>, renameError: Option<string>)
    ensures var outcome := Rename(currentName, popupShown, newName, taken, renameError);
      var attempted := popupShown && !IsNullOrWhiteSpace(newName) && newName.value != currentName;
      && (outcome.NotAttempted? <==> !attempted)
      && (outcome.TargetExists? <==> attempted && newName.value in taken)
      && (outcome.Renamed? ==>
            && newName == Some(outcome.newName) && outcome.newName !in taken
            && outcome.newName != currentName && !AllWhiteSpace(outcome.newName))
  {
  }

  /** The names in the folder after the outcome. */
  function FolderAfter(folder: set<string>, currentName: string, outcome: RenameOutcome): set<string> {
    if outcome.Renamed? then folder - {currentName} + {outcome.newName} else folder
  }

  /**
   * A rename never overwrites another asset: the folder keeps as many assets as before,
   * with the new name in place of the old one.
   */
  lemma RenameKeepsAssetCount(currentName: string, popupShown: bool, newName: Option<string>, folder: set<string>, renameError: Option<string>)
    requires currentName in folder
    ensures var outcome := Rename(currentName, popupShown, newName, folder, renameError);
      |FolderAfter(folder, currentName, outcome)| == |folder|
  {
    var outcome := Rename(currentName, popupShown, newName, folder, renameError);
    if outcome.Renamed? {
      var rest := folder - {currentName};
      assert folder == rest + {currentName};
      assert outcome.newName !in rest;
    }
  }
}
