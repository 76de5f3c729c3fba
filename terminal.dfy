/** The terminal panel's command interpreter: a typed line is split into a
    command word and arguments, paths are resolved against the file tree,
    and each command answers with terminal writes and at most one request to
    the rest of the application (open a file in the editor, close the
    terminal). The key handler keeps the line being typed in a buffer. */
module Terminal {
  import opened Wrappers
  import opened Strings
  import opened FileSystem

  /** Where a path resolution ends: the root map itself, or a node of the
      tree. */
  datatype Located = AtRoot | At(node: Node)

  /** One write to the terminal: `writeln`, `write` or `clear`. */
  datatype Output = WriteLine(text: string) | Write(text: string) | ClearScreen

  /** What a command asks of the application besides writing. */
  datatype Effect = NoEffect | OpenFile(path: string, name: string) | ToggleTerminal

  datatype Reply = Reply(out: seq<Output>, effect: Effect)

  /** `command.trim().split(' ').filter(Boolean)`: the command word and its
      arguments. */
  function Tokens(command: string): (r: seq<string>)
    ensures forall k :: 0 <= k < |r| ==> r[k] != "" && ' ' !in r[k]
  {
    var parts := Split(Trim(command), ' ');
    NonEmptyKeeps(parts);
    assert forall p :: p in parts ==> ' ' !in p;
    NonEmpty(parts)
  }

  /** A token that also survives trimming: no white space at all. */
  predicate IsWord(s: string)
  {
    s != "" && forall i :: 0 <= i < |s| ==> !IsSpace(s[i])
  }

  /** A word has no space in it and no white space at either end. */
  lemma WordEnds(w: string)
    requires IsWord(w)
    ensures ' ' !in w && !IsSpace(w[0]) && !IsSpace(w[|w| - 1])
  {
  }

  lemma WordsCons(w: string, ws: seq<string>)
    requires IsWord(w) && forall k :: 0 <= k < |ws| ==> IsWord(ws[k])
    ensures forall k :: 0 <= k < |[w] + ws| ==> IsWord(([w] + ws)[k])
  {
  }

  lemma EchoIsWord()
    ensures IsWord("echo")
  {
    assert "echo" == ['e', 'c', 'h', 'o'];
  }

  /** Words joined by spaces need no trimming. */
  lemma JoinedWordsAreTrimmed(ws: seq<string>)
    requires |ws| > 0
    requires forall k :: 0 <= k < |ws| ==> IsWord(ws[k])
    ensures Trim(Join(ws, " ")) == Join(ws, " ")
  {
    var last := ws[|ws| - 1];
    WordEnds(ws[0]);
    WordEnds(last);
    JoinStart(ws, " ");
    JoinEnd(ws, " ");
    TrimKeepsTrimmed(Join(ws, " "));
  }

  /** Words joined by single spaces tokenise back into the same words; so
      does the empty list, which is the empty line. */
  lemma TokensOfJoin(ws: seq<string>)
    requires forall k :: 0 <= k < |ws| ==> IsWord(ws[k])
    ensures Tokens(Join(ws, " ")) == ws
  {
    if |ws| == 0 {
      assert Trim("") == "";
      assert Split("", ' ') == [""];
      assert NonEmpty([""]) == [];
    } else {
      forall k | 0 <= k < |ws|
        ensures ' ' !in ws[k] && ws[k] != ""
      {
        WordEnds(ws[k]);
      }
      JoinedWordsAreTrimmed(ws);
      SplitJoin(ws, ' ');
      NonEmptyKeepsAll(ws);
    }
  }

  /** A line yields no tokens exactly when it is blank. */
  lemma NoTokensIffBlank(command: string)
    ensures Tokens(command) == [] <==> IsBlank(command)
  {
    var t := Trim(command);
    TrimEmptyIffBlank(command);
    TrimIsInfix(command);
    if t != "" {
      var parts := Split(t, ' ');
      assert t[0] != ' ' by {
        assert !IsSpace(t[0]);
      }
      assert parts[0] != "" by {
        assert parts == [[t[0]] + Split(t[1..], ' ')[0]] + Split(t[1..], ' ')[1..];
      }
      assert NonEmpty(parts) == [parts[0]] + NonEmpty(parts[1..]);
    }
  }

  /** One turn of `findNode`'s loop. From the root map a name is looked up
      directly; from a folder, among its children; a file ends the walk
      with nothing (see README: the source reads a property of the file
      object there). */
  function Step(fs: Dir, at: Located, part: string): Option<Located>
  {
    match at
    case AtRoot => (match Lookup(fs, part) case Some(n) => Some(At(n)) case None => None)
    case At(Folder(children)) =>
      (match Lookup(children, part) case Some(n) => Some(At(n)) case None => None)
    case At(File(_)) => None
  }

  /** The walk over several names. */
  function Walk(fs: Dir, at: Located, parts: seq<string>): Option<Located>
    decreases |parts|
  {
    if |parts| == 0 then Some(at)
    else match Step(fs, at, parts[0])
      case None => None
      case Some(next) => Walk(fs, next, parts[1..])
  }

  /** What `findNode(path)` finds: the walk from the root over the path's
      non-empty segments. */
  function Resolve(fs: Dir, path: string): Option<Located>
  {
    Walk(fs, AtRoot, Segments(path))
  }

  /** `findNode`: the loop over the segments, stopping at the first name
      that cannot be followed. */
  method FindNode(fs: Dir, path: string) returns (r: Option<Located>)
    ensures r == Resolve(fs, path)
  {
    var parts := Segments(path);
    var current := AtRoot;
    var i := 0;
    while i < |parts|
      invariant 0 <= i <= |parts|
      invariant Walk(fs, AtRoot, parts) == Walk(fs, current, parts[i..])
    {
      assert parts[i..][1..] == parts[i + 1..];
      var next := Step(fs, current, parts[i]);
      if next.None? {
        return None;
      }
      current := next.value;
      i := i + 1;
    }
    r := Some(current);
  }

  function Lift(n: Option<Node>): Option<Located>
  {
    match n
    case Some(v) => Some(At(v))
    case None => None
  }

  /** Below a folder the walk finds what `NodeAt` finds among its children. */
  lemma {:induction false} WalkInFolder(fs: Dir, d: Dir, segs: seq<string>)
    requires |segs| > 0
    ensures Walk(fs, At(Folder(d)), segs) == Lift(NodeAt(d, segs))
  {
    match Lookup(d, segs[0])
    case None =>
    case Some(n) =>
      if |segs| > 1 {
        if n.Folder? {
          WalkInFolder(fs, n.children, segs[1..]);
        } else {
          assert segs[1..][0] == segs[1];
        }
      }
  }

  /** The terminal resolves a non-empty path exactly as the tree walk of
      the editor does, except that it never looks at a "type" entry of the
      root; the empty path is the root itself. */
  lemma ResolveIsNodeAt(fs: Dir, path: string)
    ensures Segments(path) == [] ==> Resolve(fs, path) == Some(AtRoot)
    ensures Segments(path) != [] ==> Resolve(fs, path) == Lift(NodeAt(fs, Segments(path)))
  {
    var segs := Segments(path);
    if segs != [] {
      match Lookup(fs, segs[0])
      case None =>
      case Some(n) =>
        var rest := segs[1..];
        assert Walk(fs, AtRoot, segs) == Walk(fs, At(n), rest);
        if |segs| > 1 {
          if n.Folder? {
            WalkInFolder(fs, n.children, segs[1..]);
          } else {
            assert Step(fs, At(n), rest[0]) == None;
          }
        }
    }
  }

  /** `cat` and the editor read the same file: when the root has no entry
      called "type", the path leads the terminal to a file with content
      `c` exactly when `getFileContent` returns `c`. */
  lemma CatAgreesWithEditor(fs: Dir, path: string, c: string)
    requires !HasTypeKey(fs)
    ensures Resolve(fs, path) == Some(At(File(c))) <==> ContentOf(fs, path) == Some(c)
  {
    ResolveIsNodeAt(fs, path);
  }

  /** How `ls` shows one entry: folders in bold blue with a trailing slash. */
  function Label(e: Entry): string
  {
    if e.node.Folder? then "\U{1B}[1;34m" + e.name + "/\U{1B}[0m" else e.name
  }

  function Labels(d: Dir): (r: seq<string>)
    ensures |r| == |d|
    ensures forall k :: 0 <= k < |d| ==> r[k] == Label(d[k])
  {
    if |d| == 0 then [] else [Label(d[0])] + Labels(d[1..])
  }

  /** The names of a folder in key order, joined by two spaces. */
  function Listing(d: Dir): string
  {
    Join(Labels(d), "  ")
  }

  /** The line `ls` writes for the target path, given what it resolved to. */
  function ListOutput(fs: Dir, target: string, found: Option<Located>): string
  {
    match found
    case None => "ls: cannot access '" + target + "': No such file or directory"
    case Some(AtRoot) => if HasTypeKey(fs) then target else Listing(fs)
    case Some(At(Folder(children))) => Listing(children)
    case Some(At(File(_))) => target
  }

  /** The name `code` gives the tab: the last segment of the path, or the
      whole argument when that segment is empty. */
  function TabName(path: string): string
  {
    var last := LastPiece(path, '/');
    if last == "" then path else last
  }

  const HelpText: seq<Output> := [
      WriteLine("Available commands:"),
      WriteLine("  \U{1B}[1;32mls [path]\U{1B}[0m   - List directory contents"),
      WriteLine("  \U{1B}[1;32mcat [file]\U{1B}[0m   - Display file content"),
      WriteLine("  \U{1B}[1;32mcode [file]\U{1B}[0m  - Open file in editor"),
      WriteLine("  \U{1B}[1;32mecho [text]\U{1B}[0m  - Display a line of text"),
      WriteLine("  \U{1B}[1;32mclear\U{1B}[0m        - Clear the terminal screen"),
      WriteLine("  \U{1B}[1;32mexit\U{1B}[0m         - Close the terminal")
    ]

  /** The answer to a command line. */
  function Respond(fs: Dir, command: string): Reply
  {
    var tokens := Tokens(command);
    if |tokens| == 0 then Reply([], NoEffect)
    else
      var cmd, args := tokens[0], tokens[1..];
      if cmd == "help" then Reply(HelpText, NoEffect)
      else if cmd == "ls" then
        var target := if |args| > 0 then args[0] else "";
        var found := if target != "" then Resolve(fs, target) else Some(AtRoot);
        Reply([WriteLine(ListOutput(fs, target, found))], NoEffect)
      else if cmd == "cat" then
        if |args| == 0 then Reply([WriteLine("usage: cat [file]")], NoEffect)
        else (match Resolve(fs, args[0])
          case Some(At(File(c))) => Reply([Write(ReplaceAll(c, '\n', "\r\n"))], NoEffect)
          case _ => Reply([WriteLine("cat: " + args[0] + ": No such file or directory")], NoEffect))
      else if cmd == "code" then
        if |args| == 0 then Reply([WriteLine("usage: code [file]")], NoEffect)
        else (match Resolve(fs, args[0])
          case Some(At(File(_))) =>
            Reply([WriteLine("Opening " + args[0] + "...")], OpenFile(args[0], TabName(args[0])))
          case _ => Reply([WriteLine("code: " + args[0] + ": No such file or directory")], NoEffect))
      else if cmd == "echo" then Reply([WriteLine(Join(args, " "))], NoEffect)
      else if cmd == "clear" then Reply([ClearScreen], NoEffect)
      else if cmd == "exit" then Reply([], ToggleTerminal)
      else Reply([WriteLine("command not found: " + cmd)], NoEffect)
  }

  /** `executeCommand`: the switch over the command word. */
  method ExecuteCommand(fs: Dir, command: string) returns (out: seq<Output>, effect: Effect)
    ensures Reply(out, effect) == Respond(fs, command)
  {
    var tokens := Tokens(command);
    effect := NoEffect;
    if |tokens| == 0 {
      out := [];
      return;
    }
    var cmd, args := tokens[0], tokens[1..];
    if cmd == "help" {
      out := HelpText;
    } else if cmd == "ls" {
      var target := if |args| > 0 then args[0] else "";
      var found := Some(AtRoot);
      if target != "" {
        found := FindNode(fs, target);
      }
      out := [WriteLine(ListOutput(fs, target, found))];
    } else if cmd == "cat" {
      if |args| == 0 {
        out := [WriteLine("usage: cat [file]")];
      } else {
        var found := FindNode(fs, args[0]);
        if found.Some? && found.value.At? && found.value.node.File? {
          out := [Write(ReplaceAll(found.value.node.content, '\n', "\r\n"))];
        } else {
          out := [WriteLine("cat: " + args[0] + ": No such file or directory")];
        }
      }
    } else if cmd == "code" {
      if |args| == 0 {
        out := [WriteLine("usage: code [file]")];
      } else {
        var found := FindNode(fs, args[0]);
        if found.Some? && found.value.At? && found.value.node.File? {
          effect := OpenFile(args[0], TabName(args[0]));
          out := [WriteLine("Opening " + args[0] + "...")];
        } else {
          out := [WriteLine("code: " + args[0] + ": No such file or directory")];
        }
      }
    } else if cmd == "echo" {
      out := [WriteLine(Join(args, " "))];
    } else if cmd == "clear" {
      out := [ClearScreen];
    } else if cmd == "exit" {
      out := [];
      effect := ToggleTerminal;
    } else {
      out := [WriteLine("command not found: " + cmd)];
    }
  }

  /** A blank line writes nothing and asks for nothing. */
  lemma BlankLineIsSilent(fs: Dir, command: string)
    requires IsBlank(command)
    ensures Respond(fs, command) == Reply([], NoEffect)
  {
    NoTokensIffBlank(command);
  }

  /** `cat` on a file writes its lines separated by CR LF and nothing else;
      on anything else it writes the error line. */
  lemma CatWritesLines(fs: Dir, command: string)
    requires |Tokens(command)| >= 2 && Tokens(command)[0] == "cat"
    ensures var p, r := Tokens(command)[1], Respond(fs, command);
      r.effect == NoEffect
      && (Resolve(fs, p).Some? && Resolve(fs, p).value.At? && Resolve(fs, p).value.node.File? ==>
            r.out == [Write(Join(Split(Resolve(fs, p).value.node.content, '\n'), "\r\n"))])
      && (!(Resolve(fs, p).Some? && Resolve(fs, p).value.At? && Resolve(fs, p).value.node.File?) ==>
            r.out == [WriteLine("cat: " + p + ": No such file or directory")])
  {
    var p := Tokens(command)[1];
    match Resolve(fs, p)
    case Some(At(File(c))) => ReplaceAllIsSplitJoin(c, '\n', "\r\n");
    case _ =>
  }

  /** The only way to ask the editor to open a file is `code` on a path that
      leads to a file; the request names that path and its last segment, and
      (when the root has no "type" entry) the editor can read the file, so
      `openFile` will not ignore it. */
  lemma CodeRequestsOpen(fs: Dir, command: string)
    ensures var t, e := Tokens(command), Respond(fs, command).effect;
      e.OpenFile? <==>
        (|t| >= 2 && t[0] == "code" && Resolve(fs, t[1]).Some?
         && Resolve(fs, t[1]).value.At? && Resolve(fs, t[1]).value.node.File?)
    ensures var t, e := Tokens(command), Respond(fs, command).effect;
      e.OpenFile? ==>
        e.path == t[1] && e.name == TabName(t[1])
        && (!HasTypeKey(fs) ==> ContentOf(fs, t[1]) == Some(Resolve(fs, t[1]).value.node.content))
  {
    var t := Tokens(command);
    if |t| >= 2 && t[0] == "code" {
      match Resolve(fs, t[1])
      case Some(At(File(c))) =>
        if !HasTypeKey(fs) {
          CatAgreesWithEditor(fs, t[1], c);
        }
      case _ =>
    }
  }

  /** Only `exit` asks to close the terminal. */
  lemma ExitTogglesTerminal(fs: Dir, command: string)
    ensures Respond(fs, command).effect == ToggleTerminal <==>
            |Tokens(command)| > 0 && Tokens(command)[0] == "exit"
  {
  }

  /** `echo` writes its arguments joined by single spaces. */
  lemma EchoWritesArgs(fs: Dir, command: string)
    requires |Tokens(command)| > 0 && Tokens(command)[0] == "echo"
    ensures Respond(fs, command) == Reply([WriteLine(Join(Tokens(command)[1..], " "))], NoEffect)
  {
  }

  /** `echo` followed by words writes exactly those words back. */
  lemma EchoRoundTrip(fs: Dir, words: seq<string>)
    requires forall k :: 0 <= k < |words| ==> IsWord(words[k])
    ensures Respond(fs, Join(["echo"] + words, " ")) == Reply([WriteLine(Join(words, " "))], NoEffect)
  {
    var ws := ["echo"] + words;
    EchoIsWord();
    WordsCons("echo", words);
    var line := Join(ws, " ");
    TokensOfJoin(ws);
    assert Tokens(line)[1..] == words;
    EchoWritesArgs(fs, line);
  }

  /** `ls` on the root (no argument) lists the root's entries, unless the
      root has an entry called "type", in which case the empty target path
      is printed. */
  lemma LsListsRoot(fs: Dir)
    ensures Respond(fs, "ls") ==
            Reply([WriteLine(if HasTypeKey(fs) then "" else Listing(fs))], NoEffect)
  {
    TokensOfJoin(["ls"]);
  }

  /** `ls` with a path: the error line when nothing is found there, the path
      itself for a file, the folder's entries for a folder, and for a path
      made only of slashes the root's entries (or the path, when the root
      has an entry called "type"). */
  lemma LsShowsPath(fs: Dir, command: string)
    requires |Tokens(command)| >= 2 && Tokens(command)[0] == "ls"
    ensures var p, r := Tokens(command)[1], Respond(fs, command);
      r.effect == NoEffect
      && (Resolve(fs, p).None? ==>
            r.out == [WriteLine("ls: cannot access '" + p + "': No such file or directory")])
      && (Resolve(fs, p).Some? && Resolve(fs, p).value.At? && Resolve(fs, p).value.node.File? ==>
            r.out == [WriteLine(p)])
      && (Resolve(fs, p).Some? && Resolve(fs, p).value.At? && Resolve(fs, p).value.node.Folder? ==>
            r.out == [WriteLine(Listing(Resolve(fs, p).value.node.children))])
      && (Resolve(fs, p) == Some(AtRoot) ==>
            r.out == [WriteLine(if HasTypeKey(fs) then p else Listing(fs))])
  {
  }

  lemma LsIsWord()
    ensures IsWord("ls")
  {
    assert "ls" == ['l', 's'];
  }

  /** `ls` typed with one word as its path lists what that word resolves
      to: the error line, the file's path, or the folder's entries. */
  lemma LsOnWord(fs: Dir, p: string)
    requires IsWord(p)
    ensures var r := Respond(fs, Join(["ls", p], " "));
      r.effect == NoEffect
      && (Resolve(fs, p).None? ==>
            r.out == [WriteLine("ls: cannot access '" + p + "': No such file or directory")])
      && (Resolve(fs, p).Some? && Resolve(fs, p).value.At? && Resolve(fs, p).value.node.File? ==>
            r.out == [WriteLine(p)])
      && (Resolve(fs, p).Some? && Resolve(fs, p).value.At? && Resolve(fs, p).value.node.Folder? ==>
            r.out == [WriteLine(Listing(Resolve(fs, p).value.node.children))])
  {
    LsIsWord();
    WordsCons("ls", [p]);
    TokensOfJoin(["ls", p]);
    LsShowsPath(fs, Join(["ls", p], " "));
  }

  /** `cat` and `code` without an argument print their usage line. */
  lemma UsageWithoutArgument(fs: Dir, command: string)
    requires |Tokens(command)| == 1
    ensures Tokens(command)[0] == "cat" ==>
              Respond(fs, command) == Reply([WriteLine("usage: cat [file]")], NoEffect)
    ensures Tokens(command)[0] == "code" ==>
              Respond(fs, command) == Reply([WriteLine("usage: code [file]")], NoEffect)
  {
  }

  /** `help` prints the command list and `clear` clears the screen, whatever
      follows them. */
  lemma HelpAndClear(fs: Dir, command: string)
    requires |Tokens(command)| > 0
    ensures Tokens(command)[0] == "help" ==> Respond(fs, command) == Reply(HelpText, NoEffect)
    ensures Tokens(command)[0] == "clear" ==> Respond(fs, command) == Reply([ClearScreen], NoEffect)
  {
  }

  /** Any other first word is reported as an unknown command, and nothing
      else happens. */
  lemma UnknownCommand(fs: Dir, command: string)
    requires |Tokens(command)| > 0
    requires Tokens(command)[0] !in ["help", "ls", "cat", "code", "echo", "clear", "exit"]
    ensures Respond(fs, command) == Reply([WriteLine("command not found: " + Tokens(command)[0])], NoEffect)
  {
  }

  const Prompt: string := "\r\n\U{1B}[1;34muser@vscode-web\U{1B}[0m:\U{1B}[1;32m~$\U{1B}[0m "
  const Welcome: string := "Welcome to the VS Code Web Terminal!"
  /** Back one column, blank it, back again. */
  const Erase: string := "\U{8} \U{8}"

  /** A key press as the terminal widget reports it: the text it would
      insert, the DOM key name, and the modifier flags. */
  datatype KeyEvent = KeyEvent(key: string, domKey: string, alt: bool, ctrl: bool, meta: bool)

  /** The typing echoed for each character of a text. */
  function Echoes(s: string): (r: seq<Output>)
    ensures |r| == |s|
    ensures forall k :: 0 <= k < |s| ==> r[k] == Write([s[k]])
  {
    if |s| == 0 then [] else Echoes(s[..|s| - 1]) + [Write([s[|s| - 1]])]
  }

  /** What typing `s` key by key leaves in the buffer: a character outside the
      Basic Multilingual Plane is two UTF-16 code units long, so its key is
      not typed; every other character is. */
  function Typed(s: string): (r: string)
    ensures |r| <= |s|
  {
    if |s| == 0 then ""
    else
      var last := s[|s| - 1];
      Typed(s[..|s| - 1]) + (if last as int < 0x1_0000 then [last] else "")
  }

  /** Every character that gets typed is one UTF-16 code unit long. */
  lemma {:induction false} TypedIsBmp(s: string)
    ensures forall k :: 0 <= k < |Typed(s)| ==> Typed(s)[k] as int < 0x1_0000
  {
    if |s| > 0 {
      TypedIsBmp(s[..|s| - 1]);
    }
  }

  /** A text of Basic Multilingual Plane characters is typed whole. */
  lemma {:induction false} TypedBmpText(s: string)
    requires forall k :: 0 <= k < |s| ==> s[k] as int < 0x1_0000
    ensures Typed(s) == s
  {
    if |s| > 0 {
      TypedBmpText(s[..|s| - 1]);
      assert s[..|s| - 1] + [s[|s| - 1]] == s;
    }
  }

  /** A character outside the Basic Multilingual Plane is never typed. */
  lemma AstralNotTyped(c: char)
    requires c as int >= 0x1_0000
    ensures Typed([c]) == ""
  {
    assert [c][..0] == "";
  }

  /** Typing one more character adds it to what is typed when it is one
      UTF-16 code unit long. */
  lemma TypedStep(text: string, i: nat)
    requires i < |text|
    ensures Typed(text[..i + 1]) == Typed(text[..i]) + (if text[i] as int < 0x1_0000 then [text[i]] else "")
  {
    assert text[..i + 1][..i] == text[..i];
  }

  /** One more key of `text` keeps the buffer and the screen in step with
      what typing its prefix produces. */
  lemma TypeTextStep(text: string, i: nat, cur0: string, scr0: seq<Output>, cur: string, scr: seq<Output>)
    requires i < |text|
    requires text[i] as int < 0x1_0000 ==>
               cur == cur0 + Typed(text[..i]) + [text[i]] && scr == scr0 + Echoes(Typed(text[..i])) + [Write([text[i]])]
    requires text[i] as int >= 0x1_0000 ==>
               cur == cur0 + Typed(text[..i]) && scr == scr0 + Echoes(Typed(text[..i]))
    ensures cur == cur0 + Typed(text[..i + 1]) && scr == scr0 + Echoes(Typed(text[..i + 1]))
  {
    TypedStep(text, i);
    if text[i] as int < 0x1_0000 {
      EchoesStep(Typed(text[..i]), text[i]);
    } else {
      assert Typed(text[..i]) + "" == Typed(text[..i]);
    }
  }

  /** Echoing one more character adds one write. */
  lemma EchoesStep(s: string, c: char)
    ensures Echoes(s + [c]) == Echoes(s) + [Write([c])]
  {
    assert (s + [c])[..|s|] == s;
  }

  /** The terminal's line buffer together with everything written to the
      screen and every request handed to the application. */
  class LineEditor {
    var current: string
    var screen: seq<Output>
    var requests: seq<Effect>

    /** The welcome text and the first prompt. */
    constructor ()
      ensures current == "" && screen == [Write(Welcome), Write(Prompt)] && requests == []
    {
      current := "";
      screen := [Write(Welcome), Write(Prompt)];
      requests := [];
    }

    /** The key handler: Enter runs the buffered line against the tree and
        empties the buffer; Backspace erases the last character when there
        is one; a key one UTF-16 code unit long without Alt, Ctrl or Meta is
        typed, so a character outside the Basic Multilingual Plane is not. */
    method HandleKey(fs: Dir, ev: KeyEvent)
      modifies this
      ensures ev.domKey == "Enter" ==>
                var reply := Respond(fs, old(current));
                current == ""
                && screen == old(screen) + [Write("\r\n")] + reply.out + [Write(Prompt)]
                && requests == old(requests) + (if reply.effect == NoEffect then [] else [reply.effect])
      ensures ev.domKey == "Backspace" ==>
                requests == old(requests)
                && if old(current) == "" then current == old(current) && screen == old(screen)
                   else current == old(current)[..|old(current)| - 1]
                        && screen == old(screen) + [Write(Erase)]
      ensures ev.domKey != "Enter" && ev.domKey != "Backspace" ==>
                requests == old(requests)
                && if !ev.alt && !ev.ctrl && !ev.meta && |ev.domKey| == 1 && ev.domKey[0] as int < 0x1_0000 then
                     current == old(current) + ev.key && screen == old(screen) + [Write(ev.key)]
                   else current == old(current) && screen == old(screen)
    {
      Utf16LengthOne(ev.domKey);
      if ev.domKey == "Enter" {
        var out, effect := ExecuteCommand(fs, current);
        screen := screen + [Write("\r\n")] + out + [Write(Prompt)];
        if effect != NoEffect {
          requests := requests + [effect];
        }
        current := "";
      } else if ev.domKey == "Backspace" {
        if |current| > 0 {
          screen := screen + [Write(Erase)];
          current := current[..|current| - 1];
        }
      } else if !ev.alt && !ev.ctrl && !ev.meta && Utf16Length(ev.domKey) == 1 {
        screen := screen + [Write(ev.key)];
        current := current + ev.key;
      }
    }

    /** Pressing the key of one character, without modifiers, types it
        exactly when it is one UTF-16 code unit long. */
    method TypeChar(fs: Dir, c: char)
      modifies this
      ensures requests == old(requests)
      ensures c as int < 0x1_0000 ==> current == old(current) + [c] && screen == old(screen) + [Write([c])]
      ensures c as int >= 0x1_0000 ==> current == old(current) && screen == old(screen)
    {
      assert |[c]| != |"Enter"| && |[c]| != |"Backspace"|;
      HandleKey(fs, KeyEvent([c], [c], false, false, false));
    }

    /** Typing a text key by key appends its typeable characters to the
        buffer and echoes each of them. */
    method TypeText(fs: Dir, text: string)
      modifies this
      ensures current == old(current) + Typed(text)
      ensures screen == old(screen) + Echoes(Typed(text))
      ensures requests == old(requests)
    {
      var i := 0;
      while i < |text|
        invariant 0 <= i <= |text|
        invariant current == old(current) + Typed(text[..i])
        invariant screen == old(screen) + Echoes(Typed(text[..i]))
        invariant requests == old(requests)
      {
        TypeChar(fs, text[i]);
        TypeTextStep(text, i, old(current), old(screen), current, screen);
        i := i + 1;
      }
      assert text[..i] == text;
    }

    /** Typing a line on an empty buffer and pressing Enter runs exactly its
        typeable characters and leaves the buffer empty. */
    method EnterLine(fs: Dir, text: string)
      requires current == ""
      modifies this
      ensures current == ""
      ensures var reply := Respond(fs, Typed(text));
              screen == old(screen) + Echoes(Typed(text)) + [Write("\r\n")] + reply.out + [Write(Prompt)]
              && requests == old(requests) + (if reply.effect == NoEffect then [] else [reply.effect])
    {
      TypeText(fs, text);
      assert current == Typed(text);
      HandleKey(fs, KeyEvent("\r", "Enter", false, false, false));
    }
  }
}
