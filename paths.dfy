/**
 The path handling of the face index: how an input path becomes a URL, and
 which entries of a directory listing count as label directories or as
 sample images.

 A URL is modelled by its path string. `HasDirectoryPath`, `LastPathComponent`
 and `PathExtension` are written out the way Foundation computes them for
 file URLs: a directory URL ends in '/', the last component ignores one
 trailing '/', and a name whose only '.' is its first character (a hidden
 file) has no extension.
 */
module Paths {
  import opened Collections

  datatype Url = Url(path: string)

  /** What `inputImagePathToURL` builds: a URL parsed from the string, or a file URL. */
  datatype InputUrl = Remote(urlString: string) | FilePath(filePath: string)

  predicate StartsWith(s: string, prefix: string) {
    |prefix| <= |s| && s[..|prefix|] == prefix
  }

  /** `inputImagePathToURL`: a path that starts with "http" is parsed as a
      URL, any other path is taken as a file path. */
  function InputImagePathToUrl(inputImagePath: string): (r: InputUrl)
    ensures r.Remote? <==> StartsWith(inputImagePath, "http")
    ensures r == Remote(inputImagePath) || r == FilePath(inputImagePath)
  {
    if StartsWith(inputImagePath, "http") then Remote(inputImagePath) else FilePath(inputImagePath)
  }

  /** The index of the last occurrence of `c` in `s`, or -1 when there is none. */
  function LastIndexOf(s: string, c: char): (k: int)
    ensures -1 <= k < |s|
    ensures 0 <= k ==> s[k] == c
    ensures forall j :: k < j < |s| ==> s[j] != c
  {
    if s == [] then -1
    else if s[|s| - 1] == c then |s| - 1
    else LastIndexOf(s[..|s| - 1], c)
  }

  /** An occurrence of `c` after which `c` does not occur is the last one. */
  lemma LastIndexOfIs(s: string, c: char, k: nat)
    requires k < |s| && s[k] == c
    requires forall j :: k < j < |s| ==> s[j] != c
    ensures LastIndexOf(s, c) == k
  {
  }

  /** `hasDirectoryPath`: the URL's path ends in '/'. */
  predicate HasDirectoryPath(u: Url) {
    |u.path| > 0 && u.path[|u.path| - 1] == '/'
  }

  function DropTrailingSlash(p: string): string {
    if |p| > 1 && p[|p| - 1] == '/' then p[..|p| - 1] else p
  }

  /** `lastPathComponent`: what follows the last '/', a trailing '/' aside;
      the root path is its own last component. */
  function LastPathComponent(u: Url): (r: string)
    ensures r != "/" ==> '/' !in r
  {
    var p := DropTrailingSlash(u.path);
    if p == "/" then p else p[LastIndexOf(p, '/') + 1..]
  }

  /** `pathExtension`: what follows the last '.' of the last component, or
      "" when that component has no '.' or only a leading one. */
  function PathExtension(u: Url): string {
    var name := LastPathComponent(u);
    var dot := LastIndexOf(name, '.');
    if dot <= 0 then "" else name[dot + 1..]
  }

  /** The extension test of `imagesForLabel` (case-sensitive). */
  predicate IsImage(u: Url) {
    var ext := PathExtension(u);
    ext == "jpg" || ext == "jpeg" || ext == "png"
  }

  /** `imagesForLabel`, after the listing: `contents.filter` on the image
      extensions. */
  function ImagesForLabel(contents: seq<Url>): seq<Url> {
    Filter(contents, IsImage)
  }

  /** `getLabels`, after the listing: `contents.filter { $0.hasDirectoryPath }
      .map { $0.lastPathComponent }`. */
  function GetLabels(contents: seq<Url>): seq<string> {
    var dirs := Filter(contents, HasDirectoryPath);
    seq(|dirs|, i requires 0 <= i < |dirs| => LastPathComponent(dirs[i]))
  }

  /** The samples are exactly the image entries of the listing; every other
      entry is dropped. */
  lemma ImagesForLabelKeepsImages(contents: seq<Url>)
    ensures forall u :: u in ImagesForLabel(contents) <==> u in contents && IsImage(u)
    ensures |ImagesForLabel(contents)| <= |contents|
  {
    FilterKeeps(contents, IsImage);
  }

  /** The sample filter works entry by entry, so it keeps the listing's order. */
  lemma ImagesForLabelAppend(a: seq<Url>, b: seq<Url>)
    ensures ImagesForLabel(a + b) == ImagesForLabel(a) + ImagesForLabel(b)
  {
    FilterAppend(a, b, IsImage);
  }

  /** The labels are exactly the last components of the directory entries. */
  lemma GetLabelsOfDirectories(contents: seq<Url>)
    ensures forall l :: l in GetLabels(contents) <==>
      exists u :: u in contents && HasDirectoryPath(u) && LastPathComponent(u) == l
    ensures |GetLabels(contents)| <= |contents|
  {
    var dirs := Filter(contents, HasDirectoryPath);
    FilterKeeps(contents, HasDirectoryPath);
    forall l | l in GetLabels(contents)
      ensures exists u :: u in contents && HasDirectoryPath(u) && LastPathComponent(u) == l
    {
      var i :| 0 <= i < |dirs| && GetLabels(contents)[i] == l;
      assert dirs[i] in dirs;
    }
    forall u | u in contents && HasDirectoryPath(u) ensures LastPathComponent(u) in GetLabels(contents) {
      assert u in dirs;
      var i :| 0 <= i < |dirs| && dirs[i] == u;
      assert GetLabels(contents)[i] == LastPathComponent(u);
    }
  }

  /** The label listing works entry by entry, so it keeps the listing's order. */
  lemma GetLabelsAppend(a: seq<Url>, b: seq<Url>)
    ensures GetLabels(a + b) == GetLabels(a) + GetLabels(b)
  {
    FilterAppend(a, b, HasDirectoryPath);
  }

  /** `appendingPathComponent(name)`: the URL of an entry `name` inside
      directory `dir`; a directory URL ends in '/'. */
  function Child(dir: string, name: string, isDirectory: bool): Url {
    Url(dir + "/" + name + (if isDirectory then "/" else ""))
  }

  /** The last path component of a child entry is the name it was created with. */
  lemma LastPathComponentOfChild(dir: string, name: string, isDirectory: bool)
    requires name != "" && '/' !in name
    ensures LastPathComponent(Child(dir, name, isDirectory)) == name
    ensures HasDirectoryPath(Child(dir, name, isDirectory)) == isDirectory
  {
    var u := Child(dir, name, isDirectory);
    var p := dir + "/" + name;
    assert name[|name| - 1] in name;
    assert DropTrailingSlash(u.path) == p by {
      if isDirectory {
        assert u.path == p + "/";
        assert u.path[..|u.path| - 1] == p;
      } else {
        assert u.path == p;
      }
    }
    assert p[|dir|] == '/';
    forall j | |dir| < j < |p| ensures p[j] != '/' {
      assert p[j] == name[j - |dir| - 1];
    }
    LastIndexOfIs(p, '/', |dir|);
    assert p != "/";
    assert p[|dir| + 1..] == name;
  }

  /** A file `stem.ext` inside any directory has extension `ext`, when the
      stem is not empty and the extension holds no '.'. */
  lemma ExtensionOfFile(dir: string, stem: string, ext: string)
    requires stem != "" && '/' !in stem && '/' !in ext && '.' !in ext
    ensures PathExtension(Child(dir, stem + "." + ext, false)) == ext
  {
    var name := stem + "." + ext;
    FileNameParts(stem, ext);
    LastPathComponentOfChild(dir, name, false);
    assert LastPathComponent(Child(dir, name, false)) == name;
  }

  /** In `stem.ext`, with no '/' in either part and no '.' in `ext`, there is
      no '/' and the last '.' is the one after `stem`. */
  lemma FileNameParts(stem: string, ext: string)
    requires '/' !in stem && '/' !in ext && '.' !in ext
    ensures var name := stem + "." + ext;
      && '/' !in name
      && LastIndexOf(name, '.') == |stem|
      && name[|stem| + 1..] == ext
  {
    var name := stem + "." + ext;
    assert name[|stem|] == '.';
    forall j | 0 <= j < |name| ensures name[j] != '/' {
      if j < |stem| {
        assert name[j] == stem[j];
      } else if j > |stem| {
        assert name[j] == ext[j - |stem| - 1];
      }
    }
    forall j | |stem| < j < |name| ensures name[j] != '.' {
      assert name[j] == ext[j - |stem| - 1];
    }
    LastIndexOfIs(name, '.', |stem|);
    assert name[|stem| + 1..] == ext;
  }

  /** The centroid file `avg.faceprint` that the index keeps in every label
      directory is never taken for a sample image. */
  lemma AvgFaceprintIsNotImage(dir: string)
    ensures !IsImage(Child(dir, "avg.faceprint", false))
  {
    assert "avg.faceprint" == "avg" + "." + "faceprint";
    ExtensionOfFile(dir, "avg", "faceprint");
  }

  /** The file `<id>.faceprint` that `add` writes for a new embedding, with
      `id` a UUID string, is never taken for a sample image. */
  lemma AddedFaceprintIsNotImage(dir: string, id: string)
    requires id != "" && '/' !in id
    ensures !IsImage(Child(dir, id + ".faceprint", false))
  {
    assert id + ".faceprint" == id + "." + "faceprint";
    ExtensionOfFile(dir, id, "faceprint");
  }

  /** The entries of the label directories `names` under `root`. */
  function LabelDirectories(root: string, names: seq<string>): seq<Url> {
    seq(|names|, i requires 0 <= i < |names| => Child(root, names[i], true))
  }

  /** Listing only the label directories created under `root` gives back
      their names, in order. */
  lemma LabelsOfLabelDirectories(root: string, names: seq<string>)
    requires forall i :: 0 <= i < |names| ==> names[i] != "" && '/' !in names[i]
    ensures GetLabels(LabelDirectories(root, names)) == names
  {
    var dirs := LabelDirectories(root, names);
    forall i | 0 <= i < |dirs| ensures HasDirectoryPath(dirs[i]) && LastPathComponent(dirs[i]) == names[i] {
      LastPathComponentOfChild(root, names[i], true);
    }
    FilterAll(dirs, HasDirectoryPath);
  }

  /** A plain file in the faceprints directory is never listed as a label. */
  lemma FileIsNotLabel(a: seq<Url>, u: Url, b: seq<Url>)
    requires !HasDirectoryPath(u)
    ensures GetLabels(a + [u] + b) == GetLabels(a + b)
  {
    FilterSkips(a, u, b, HasDirectoryPath);
  }
}
