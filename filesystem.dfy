/** The workspace's nested file tree (a file holds text, a folder holds named
    children) with path resolution (`getFileContent`) and the content update
    used by saving (`saveFile`). A folder's children are kept as an ordered
    list of named entries: the source keeps them in a JavaScript object, whose
    keys are listed in insertion order. */
module FileSystem {
  import opened Wrappers
  import opened Strings

  datatype Node = File(content: string) | Folder(children: Dir)

  datatype Entry = Entry(name: string, node: Node)

  /** The children of one folder; the root of the tree is one too. */
  type Dir = seq<Entry>

  /** The child called `name` (`dir[name]`). */
  function Lookup(d: Dir, name: string): (r: Option<Node>)
    ensures r.Some? ==> Entry(name, r.value) in d
  {
    if |d| == 0 then None
    else if d[0].name == name then Some(d[0].node)
    else Lookup(d[1..], name)
  }

  /** The children with the one called `name` given a new node, in place. */
  function Replace(d: Dir, name: string, n: Node): (r: Dir)
    ensures |r| == |d|
    ensures forall k :: 0 <= k < |d| ==> r[k].name == d[k].name
  {
    if |d| == 0 then []
    else if d[0].name == name then [Entry(name, n)] + d[1..]
    else [d[0]] + Replace(d[1..], name, n)
  }

  /** After a replacement the name leads to the new node and every other name
      to what it led to before. */
  lemma {:induction false} LookupReplace(d: Dir, name: string, n: Node, other: string)
    requires Lookup(d, name).Some?
    ensures Lookup(Replace(d, name, n), other) ==
            if other == name then Some(n) else Lookup(d, other)
  {
    if d[0].name != name {
      LookupReplace(d[1..], name, n, other);
      assert Replace(d, name, n)[1..] == Replace(d[1..], name, n);
    }
  }

  /** The names a path goes through: `path.split('/').filter(p => p)`. */
  function Segments(path: string): (r: seq<string>)
    ensures forall k :: 0 <= k < |r| ==> r[k] != ""
  {
    NonEmpty(Split(path, '/'))
  }

  /** The node reached from the root by descending through folders; a file
      met before the last name, or a missing name, ends the walk with
      nothing. The empty path names no node (the root is not a node). */
  function NodeAt(d: Dir, segs: seq<string>): Option<Node>
  {
    if |segs| == 0 then None
    else match Lookup(d, segs[0])
      case None => None
      case Some(n) =>
        if |segs| == 1 then Some(n)
        else if n.Folder? then NodeAt(n.children, segs[1..])
        else None
  }

  /** The content of the file a path leads to. */
  function FileAt(d: Dir, segs: seq<string>): Option<string>
  {
    match NodeAt(d, segs)
    case Some(File(c)) => Some(c)
    case _ => None
  }

  /** The root map has an entry literally called "type", which the source's
      walk takes for the tag of a node. */
  predicate HasTypeKey(d: Dir)
  {
    Lookup(d, "type").Some?
  }

  /** What `getFileContent(path, fs)` returns: the content of the file the
      path's segments lead to, and nothing for a missing name, a file in the
      middle of the path, a folder at its end, or the empty path. */
  function ContentOf(fs: Dir, path: string): Option<string>
  {
    var segs := Segments(path);
    if |segs| > 0 && HasTypeKey(fs) then None else FileAt(fs, segs)
  }

  /** Walking one more name from where a walk ended. */
  lemma {:induction false} NodeAtSnoc(d: Dir, segs: seq<string>, s: string)
    requires |segs| > 0
    ensures NodeAt(d, segs + [s]) ==
            match NodeAt(d, segs)
            case Some(Folder(ch)) => Lookup(ch, s)
            case _ => None
  {
    assert (segs + [s])[0] == segs[0];
    if |segs| > 1 {
      assert (segs + [s])[1..] == segs[1..] + [s];
      match Lookup(d, segs[0])
      case None =>
      case Some(n) =>
        if n.Folder? { NodeAtSnoc(n.children, segs[1..], s); }
    } else {
      assert (segs + [s])[1..] == [s];
    }
  }

  /** A walk that fails on a prefix fails on the whole path. */
  lemma {:induction false} NodeAtStopped(d: Dir, segs: seq<string>, i: nat)
    requires 0 < i < |segs|
    requires NodeAt(d, segs[..i]).None? || NodeAt(d, segs[..i]).value.File?
    ensures NodeAt(d, segs) == None
  {
    assert segs[..i][0] == segs[0];
    if i > 1 {
      assert segs[..i][1..] == segs[1..][..i - 1];
      match Lookup(d, segs[0])
      case None =>
      case Some(n) =>
        if n.Folder? { NodeAtStopped(n.children, segs[1..], i - 1); }
    }
  }

  /** `getFileContent`: walks the segments one at a time from the root map,
      following a folder's children and giving up on a missing name or a
      file in the middle, and returns the content if the walk ends on a
      file. */
  method GetFileContent(fs: Dir, path: string) returns (r: Option<string>)
    ensures r == ContentOf(fs, path)
  {
    var parts := Segments(path);
    var atRoot := true;
    var node := Folder(fs);
    var i := 0;
    while i < |parts|
      invariant 0 <= i <= |parts|
      invariant atRoot <==> i == 0
      invariant i > 0 ==> NodeAt(fs, parts[..i]) == Some(node) && !HasTypeKey(fs)
    {
      if atRoot {
        if HasTypeKey(fs) {
          return None;
        }
        var next := Lookup(fs, parts[i]);
        if next.None? {
          assert NodeAt(fs, parts[..1]) == None;
          if 1 < |parts| { NodeAtStopped(fs, parts, 1); }
          else { assert parts[..1] == parts; }
          return None;
        }
        assert NodeAt(fs, parts[..1]) == next;
        node := next.value;
        atRoot := false;
      } else {
        assert parts[..i + 1] == parts[..i] + [parts[i]];
        NodeAtSnoc(fs, parts[..i], parts[i]);
        match node
        case File(_) =>
          NodeAtStopped(fs, parts, i);
          return None;
        case Folder(ch) =>
          var next := Lookup(ch, parts[i]);
          if next.None? {
            if i + 1 < |parts| { NodeAtStopped(fs, parts, i + 1); }
            else { assert parts[..i + 1] == parts; }
            return None;
          }
          node := next.value;
      }
      i := i + 1;
    }
    assert parts[..i] == parts;
    if !atRoot && node.File? {
      r := Some(node.content);
    } else {
      r := None;
    }
  }

  /** The tree with the file at `segs` holding `c` and everything else as it
      was: what `saveFile` leaves behind. */
  function WithContent(d: Dir, segs: seq<string>, c: string): Dir
    requires FileAt(d, segs).Some?
  {
    var n := Lookup(d, segs[0]).value;
    if |segs| == 1 then Replace(d, segs[0], File(c))
    else Replace(d, segs[0], Folder(WithContent(n.children, segs[1..], c)))
  }

  /** A file reached through more than one name is reached through the
      folder the first name leads to. */
  lemma FileAtStep(d: Dir, segs: seq<string>)
    requires |segs| > 1 && FileAt(d, segs).Some?
    ensures Lookup(d, segs[0]).Some? && Lookup(d, segs[0]).value.Folder?
    ensures FileAt(Lookup(d, segs[0]).value.children, segs[1..]) == FileAt(d, segs)
  {
  }

  /** After the update, the file at `segs` holds `c`, and every other path
      reads as before. */
  lemma {:induction false} FileAtWithContent(d: Dir, segs: seq<string>, c: string, q: seq<string>)
    decreases |segs|, 1
    requires FileAt(d, segs).Some?
    ensures FileAt(WithContent(d, segs, c), q) == if q == segs then Some(c) else FileAt(d, q)
  {
    if |q| == 0 {
    } else if |segs| == 1 {
      FileAtWithContentHere(d, segs, c, q);
    } else if q[0] != segs[0] {
      FileAtWithContentBeside(d, segs, c, q);
    } else {
      FileAtStep(d, segs);
      FileAtWithContentBelow(d, segs, c, q);
    }
  }

  lemma SingletonEqual(q: seq<string>, segs: seq<string>)
    requires |q| == 1 && |segs| == 1 && q[0] == segs[0]
    ensures q == segs
  {
  }

  lemma {:induction false} FileAtWithContentHere(d: Dir, segs: seq<string>, c: string, q: seq<string>)
    requires |segs| == 1 && |q| > 0 && FileAt(d, segs).Some?
    ensures FileAt(WithContent(d, segs, c), q) == if q == segs then Some(c) else FileAt(d, q)
  {
    var d' := Replace(d, segs[0], File(c));
    assert WithContent(d, segs, c) == d';
    LookupReplace(d, segs[0], File(c), q[0]);
    if q[0] != segs[0] {
      SameFirstStep(d', d, q);
      assert q != segs;
    } else if |q| == 1 {
      SingletonEqual(q, segs);
      assert NodeAt(d', q) == Some(File(c));
    } else {
      assert q != segs;
      assert NodeAt(d', q) == None;
      assert Lookup(d, segs[0]).value.File? by {
        assert NodeAt(d, segs) == Lookup(d, segs[0]);
      }
      assert NodeAt(d, q) == None;
    }
  }

  lemma {:induction false} FileAtWithContentBeside(d: Dir, segs: seq<string>, c: string, q: seq<string>)
    requires |segs| > 1 && |q| > 0 && q[0] != segs[0] && FileAt(d, segs).Some?
    ensures FileAt(WithContent(d, segs, c), q) == if q == segs then Some(c) else FileAt(d, q)
  {
    var n := Lookup(d, segs[0]).value;
    var d' := Replace(d, segs[0], Folder(WithContent(n.children, segs[1..], c)));
    assert WithContent(d, segs, c) == d';
    LookupReplace(d, segs[0], Folder(WithContent(n.children, segs[1..], c)), q[0]);
    SameFirstStep(d', d, q);
  }

  /** Two trees whose first name on a path leads to the same node agree on
      the whole path. */
  lemma SameFirstStep(d1: Dir, d2: Dir, q: seq<string>)
    requires |q| > 0 && Lookup(d1, q[0]) == Lookup(d2, q[0])
    ensures NodeAt(d1, q) == NodeAt(d2, q)
  {
  }

  /** The inductive step of FileAtWithContent, for a path that goes into the
      folder the update descends into. */
  lemma {:induction false} FileAtWithContentBelow(d: Dir, segs: seq<string>, c: string, q: seq<string>)
    decreases |segs|, 0
    requires |segs| > 1 && |q| > 0 && q[0] == segs[0]
    requires Lookup(d, segs[0]).Some? && Lookup(d, segs[0]).value.Folder?
    requires FileAt(Lookup(d, segs[0]).value.children, segs[1..]).Some?
    ensures FileAt(d, segs).Some?
    ensures FileAt(WithContent(d, segs, c), q) == if q == segs then Some(c) else FileAt(d, q)
  {
    var ch := Lookup(d, segs[0]).value.children;
    var inner := WithContent(ch, segs[1..], c);
    var d' := WithContent(d, segs, c);
    assert d' == Replace(d, segs[0], Folder(inner));
    LookupReplace(d, segs[0], Folder(inner), q[0]);
    assert Lookup(d', q[0]) == Some(Folder(inner));
    if |q| == 1 {
      assert NodeAt(d', q) == Some(Folder(inner));
      assert q != segs;
    } else {
      FileAtWithContent(ch, segs[1..], c, q[1..]);
      assert NodeAt(d', q) == NodeAt(inner, q[1..]);
      assert NodeAt(d, q) == NodeAt(ch, q[1..]);
      assert q == segs <==> q[1..] == segs[1..] by {
        assert q == [q[0]] + q[1..] && segs == [segs[0]] + segs[1..];
      }
    }
  }

  /** No node off the updated path changes: every path that is not a prefix
      of `segs` leads to the same node as before. */
  lemma {:induction false} NodeAtWithContent(d: Dir, segs: seq<string>, c: string, q: seq<string>)
    requires FileAt(d, segs).Some?
    requires !(q <= segs)
    ensures NodeAt(WithContent(d, segs, c), q) == NodeAt(d, q)
  {
    var n := Lookup(d, segs[0]).value;
    if |segs| == 1 {
      LookupReplace(d, segs[0], File(c), q[0]);
    } else {
      var inner := WithContent(n.children, segs[1..], c);
      LookupReplace(d, segs[0], Folder(inner), q[0]);
      if q[0] == segs[0] {
        NodeAtWithContent(n.children, segs[1..], c, q[1..]);
      }
    }
  }

  /** The update keeps the names of the root map. */
  lemma WithContentKeepsRootNames(d: Dir, segs: seq<string>, c: string, name: string)
    requires FileAt(d, segs).Some?
    ensures Lookup(WithContent(d, segs, c), name).Some? == Lookup(d, name).Some?
  {
    var n := Lookup(d, segs[0]).value;
    if |segs| == 1 {
      LookupReplace(d, segs[0], File(c), name);
    } else {
      LookupReplace(d, segs[0], Folder(WithContent(n.children, segs[1..], c)), name);
    }
  }

  /** `dirs[k]` is the children map the walk along `parts` is in after `k`
      names, and the rest of the path leads from it to a file. */
  ghost predicate Descent(parts: seq<string>, dirs: seq<Dir>)
  {
    |dirs| <= |parts|
    && (forall k :: 0 <= k < |dirs| ==> FileAt(dirs[k], parts[k..]).Some?)
    && (forall k :: 0 <= k < |dirs| - 1 ==> dirs[k + 1] == Lookup(dirs[k], parts[k]).value.children)
  }

  /** One more folder on the way down to the file. */
  lemma DescentStep(parts: seq<string>, dirs: seq<Dir>)
    requires Descent(parts, dirs) && 0 < |dirs| < |parts|
    ensures var i := |dirs| - 1;
      Lookup(dirs[i], parts[i]).Some? && Lookup(dirs[i], parts[i]).value.Folder?
      && Descent(parts, dirs + [Lookup(dirs[i], parts[i]).value.children])
  {
    var i := |dirs| - 1;
    FileAtStep(dirs[i], parts[i..]);
    var child := Lookup(dirs[i], parts[i]).value.children;
    var next := dirs + [child];
    assert FileAt(child, parts[i + 1..]).Some? by {
      assert parts[i..][1..] == parts[i + 1..];
    }
    forall k | 0 <= k < |next| ensures FileAt(next[k], parts[k..]).Some? {
      if k < |dirs| {
        assert next[k] == dirs[k];
      }
    }
    forall k | 0 <= k < |next| - 1 ensures next[k + 1] == Lookup(next[k], parts[k]).value.children {
      assert next[k] == dirs[k];
    }
  }

  /** `saveFile`: descends to the folder holding the file, sets the file's
      content, and gives back the new tree; the old tree value is untouched.
      The source deep-copies the tree and then assigns in place; here the
      enclosing folders are rebuilt on the way back up. */
  method SaveFile(fs: Dir, path: string, content: string) returns (r: Dir)
    requires FileAt(fs, Segments(path)).Some?
    ensures r == WithContent(fs, Segments(path), content)
  {
    var parts := Segments(path);
    var dirs: seq<Dir> := [fs];
    var i := 0;
    while i < |parts| - 1
      invariant 0 <= i <= |parts| - 1
      invariant |dirs| == i + 1 && dirs[0] == fs
      invariant Descent(parts, dirs)
    {
      DescentStep(parts, dirs);
      var child := Lookup(dirs[i], parts[i]).value;
      dirs := dirs + [child.children];
      i := i + 1;
    }
    assert parts[i..] == [parts[i]];
    r := Replace(dirs[i], parts[i], File(content));
    while i > 0
      invariant 0 <= i < |parts|
      invariant r == WithContent(dirs[i], parts[i..], content)
    {
      i := i - 1;
      assert FileAt(dirs[i], parts[i..]).Some?;
      assert dirs[i + 1] == Lookup(dirs[i], parts[i]).value.children;
      assert parts[i..][1..] == parts[i + 1..];
      r := Replace(dirs[i], parts[i], Folder(r));
    }
  }

  /** Reading after a save: the saved path reads the new content, every path
      with other segments reads what it read before. */
  lemma ContentAfterSave(fs: Dir, path: string, c: string, other: string)
    requires FileAt(fs, Segments(path)).Some?
    ensures ContentOf(WithContent(fs, Segments(path), c), other) ==
            if Segments(other) == Segments(path) && !HasTypeKey(fs) then Some(c)
            else ContentOf(fs, other)
  {
    FileAtWithContent(fs, Segments(path), c, Segments(other));
    WithContentKeepsRootNames(fs, Segments(path), c, "type");
  }

  /** The tree the workspace starts with. */
  const ReadmeText := "# VS Code Web Edition\n\nWelcome to your new web-based code editor!"
  const AppText := "import React from 'react';\n\nconst App = () => {\n  return (\n    <div className=\"app\">\n      <h1>Hello, World!</h1>\n    </div>\n  );\n};\n\nexport default App;\n"
  const CssText := "body {\n  font-family: sans-serif;\n  margin: 0;\n}"
  const PackageText := "{\n  \"name\": \"vscode-web-clone\",\n  \"version\": \"1.0.0\",\n  \"description\": \"\",\n  \"main\": \"index.js\",\n  \"scripts\": {\n    \"start\": \"react-scripts start\"\n  },\n  \"dependencies\": {\n    \"react\": \"^18.0.0\"\n  }\n}"

  const InitialFileSystem: Dir := [
    Entry("README.md", File(ReadmeText)),
    Entry("src", Folder([Entry("App.tsx", File(AppText)), Entry("index.css", File(CssText))])),
    Entry("package.json", File(PackageText))
  ]

  /** A file listed first at the root, in a root with no entry called
      "type", reads its content through its name. */
  lemma ContentOfFirstFile(name: string, t: string, rest: Dir)
    requires name != "" && '/' !in name && name != "type" && Lookup(rest, "type").None?
    ensures ContentOf([Entry(name, File(t))] + rest, name) == Some(t)
  {
    var d := [Entry(name, File(t))] + rest;
    SplitWithoutSeparator(name, '/');
    assert Segments(name) == [name];
    assert Lookup(d, "type") == Lookup(rest, "type") by {
      assert d[1..] == rest;
    }
    assert NodeAt(d, [name]) == Some(File(t));
  }

  /** The top-level README of the initial tree reads its initial text. */
  lemma InitialReadmeContent()
    ensures ContentOf(InitialFileSystem, "README.md") == Some(ReadmeText)
  {
    var rest := InitialFileSystem[1..];
    assert InitialFileSystem == [Entry("README.md", File(ReadmeText))] + rest;
    assert Lookup(rest, "type").None?;
    ContentOfFirstFile("README.md", ReadmeText, rest);
  }
}
