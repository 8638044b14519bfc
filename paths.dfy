/**
 * The path computations of dialog.cpp: the home-only filter applied to the
 * complete lines of locate's output, the basename shown as a row's label, and
 * the folder that "Open Folder" hands to the file opener.
 */
module Paths {
  import opened Text

  /**
   * The filter pattern is "^" + QRegExp::escape(home) + "/": because the home
   * path is escaped it is matched literally, so a path passes exactly when it
   * starts with the home path followed by a slash.
   */
  predicate UnderHome(path: string, home: string): (under: bool)
    ensures under <==> exists rest :: path == home + "/" + rest
  {
    assert forall rest :: path == home + "/" + rest ==> path[..|home| + 1] == home + "/";
    if |home| + 1 <= |path| && path[..|home| + 1] == home + "/" then
      assert path == home + "/" + path[|home| + 1..];
      true
    else false
  }

  /** QStringList::filter with the home pattern: the paths under home, in their original order. */
  function HomeOnly(paths: seq<string>, home: string): (kept: seq<string>)
    ensures |kept| <= |paths|
  {
    if paths == [] then []
    else
      var rest := HomeOnly(paths[1..], home);
      if UnderHome(paths[0], home) then [paths[0]] + rest else rest
  }

  /** A path survives the filter exactly when it is one of the paths and lies under home. */
  lemma {:induction false} HomeOnlyMembers(paths: seq<string>, home: string, p: string)
    ensures p in HomeOnly(paths, home) <==> p in paths && UnderHome(p, home)
  {
    if paths != [] {
      HomeOnlyMembers(paths[1..], home, p);
      assert p in paths <==> p == paths[0] || p in paths[1..];
    }
  }

  /** Filtering a concatenation filters each half: survivors keep their relative order. */
  lemma {:induction false} HomeOnlyAppend(a: seq<string>, b: seq<string>, home: string)
    ensures HomeOnly(a + b, home) == HomeOnly(a, home) + HomeOnly(b, home)
  {
    if a == [] {
      assert a + b == b;
    } else {
      assert (a + b)[1..] == a[1..] + b;
      HomeOnlyAppend(a[1..], b, home);
    }
  }

  /** A single path survives exactly when it lies under home. */
  lemma HomeOnlySingle(path: string, home: string)
    ensures HomeOnly([path], home) == if UnderHome(path, home) then [path] else []
  {
    assert [path][1..] == [];
  }

  /**
   * The row label in short mode: filename.mid(filename.lastIndexOf('/') + 1),
   * the text after the last slash, or the whole path when it has none.
   */
  function Basename(path: string): (name: string)
    ensures '/' !in name
    ensures |name| <= |path| && name == path[|path| - |name|..]
  {
    var name := AfterLast(path, '/');
    assert forall k :: 0 <= k < |name| ==> name[k] != '/' by {
      forall k | 0 <= k < |name| ensures name[k] != '/' {
        assert name[k] == path[LastIndexOf(path, '/') + 1 + k];
      }
    }
    name
  }

  /** A path with no slash is its own basename; otherwise the basename is what follows the last slash. */
  lemma BasenameOfFolderPath(folder: string, name: string)
    requires '/' !in name
    ensures Basename(folder + "/" + name) == name
    ensures Basename(name) == name
  {
    var p := folder + "/" + name;
    assert p[|folder|] == '/';
    assert forall j :: |folder| < j < |p| ==> p[j] != '/' by {
      forall j | |folder| < j < |p| ensures p[j] != '/' {
        assert p[j] == name[j - |folder| - 1];
      }
    }
    LastIndexOfIs(p, '/', |folder|);
    assert p[|folder| + 1..] == name;
    LastIndexOfIs(name, '/', -1);
  }

  /** Whether the pattern "/[^/]+$" matches path at position k: a slash followed by a non-empty, slash-free last component. */
  predicate FinalComponentAt(path: string, k: int) {
    0 <= k < |path| - 1 && path[k] == '/' && forall j :: k < j < |path| ==> path[j] != '/'
  }

  /**
   * The "Open Folder" target: path.remove(QRegExp("/[^/]+$")).  The pattern can
   * match in at most one place, the last slash, and only when a non-empty
   * component follows it; that suffix is removed and nothing else changes.
   */
  function ParentFolder(path: string): (folder: string)
    ensures forall k :: FinalComponentAt(path, k) ==> folder == path[..k]
    ensures (forall k :: !FinalComponentAt(path, k)) ==> folder == path
  {
    var i := LastIndexOf(path, '/');
    if 0 <= i < |path| - 1 then
      assert FinalComponentAt(path, i);
      path[..i]
    else path
  }

  /** Opening the folder of folder + "/" + name gives folder back when name is a non-empty file name. */
  lemma ParentOfFolderPath(folder: string, name: string)
    requires '/' !in name && name != ""
    ensures ParentFolder(folder + "/" + name) == folder
  {
    var p := folder + "/" + name;
    assert FinalComponentAt(p, |folder|) by {
      forall j | |folder| < j < |p| ensures p[j] != '/' {
        assert p[j] == name[j - |folder| - 1];
      }
    }
    assert p[..|folder|] == folder;
  }

  /**
   * As written, a file directly under the root loses its only slash: the folder
   * opened for "/" + name is the empty string, not "/".
   */
  lemma ParentOfRootFile(name: string)
    requires '/' !in name && name != ""
    ensures ParentFolder("/" + name) == ""
  {
    ParentOfFolderPath("", name);
    assert "" + "/" + name == "/" + name;
  }

  /**
   * The folder "Open Folder" evidently means: ParentFolder, except that a file
   * under the root opens "/".  The folder of an absolute path is then always a
   * non-empty absolute path, and wherever ParentFolder gives a non-empty
   * folder the two agree.
   */
  function FolderOf(path: string): (folder: string)
    ensures ParentFolder(path) != "" ==> folder == ParentFolder(path)
    ensures path != "" && path[0] == '/' ==> folder != "" && folder[0] == '/'
  {
    var parent := ParentFolder(path);
    if parent == "" && path != "" && path[0] == '/' then "/"
    else
      var i := LastIndexOf(path, '/');
      assert 0 <= i < |path| - 1 ==> FinalComponentAt(path, i);
      parent
  }

  /** With the correction, folder + "/" + name opens folder, or "/" when folder is empty. */
  lemma FolderOfFolderPath(folder: string, name: string)
    requires '/' !in name && name != ""
    ensures FolderOf(folder + "/" + name) == if folder == "" then "/" else folder
  {
    ParentOfFolderPath(folder, name);
    var p := folder + "/" + name;
    if folder == "" {
      assert p[0] == '/';
    }
  }

  /** When the pattern matches, the folder and the label put back together are the path. */
  lemma ParentAndBasename(path: string, k: int)
    requires FinalComponentAt(path, k)
    ensures ParentFolder(path) + "/" + Basename(path) == path
  {
    LastIndexOfIs(path, '/', k);
    assert path[..k] + "/" + path[k + 1..] == path;
  }
}
