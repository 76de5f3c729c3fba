/** The workspace state container: the file tree, the open editor tabs with
    their dirty flags, the active tab, per-tab decoration bookkeeping, the
    staged and unstaged change sets with the commit message, and the sidebar
    and terminal visibility. Every operation is one state transition. */
module Workspace {
  import opened Wrappers
  import opened Strings
  import opened FileSystem

  /** One open editing session; `id` is the file's path as it was opened. */
  datatype Tab = Tab(id: string, name: string, content: string, isDirty: bool)

  datatype View = Explorer | Search | SourceControl | Debug | Extensions | AiAssistant

  predicate HasTab(tabs: seq<Tab>, id: string)
  {
    exists k :: 0 <= k < |tabs| && tabs[k].id == id
  }

  predicate UniqueIds(tabs: seq<Tab>)
  {
    forall i, j :: 0 <= i < j < |tabs| ==> tabs[i].id != tabs[j].id
  }

  /** `openTabs.find(tab => tab.id === id)`, where `id` may be null. */
  function FindTab(tabs: seq<Tab>, id: Option<string>): (r: Option<Tab>)
    ensures r.Some? <==> id.Some? && HasTab(tabs, id.value)
    ensures r.Some? ==> r.value in tabs && r.value.id == id.value
  {
    if id.None? || |tabs| == 0 then None
    else if tabs[0].id == id.value then Some(tabs[0])
    else FindTab(tabs[1..], id)
  }

  /** `tabs.filter(tab => tab.id !== id)`. */
  function WithoutTab(tabs: seq<Tab>, id: string): (r: seq<Tab>)
    ensures forall t :: t in r <==> t in tabs && t.id != id
    ensures |r| <= |tabs|
  {
    if |tabs| == 0 then []
    else if tabs[0].id == id then WithoutTab(tabs[1..], id)
    else [tabs[0]] + WithoutTab(tabs[1..], id)
  }

  lemma UniqueTail(tabs: seq<Tab>)
    requires UniqueIds(tabs) && |tabs| > 0
    ensures UniqueIds(tabs[1..]) && !HasTab(tabs[1..], tabs[0].id)
  {
    forall i, j | 0 <= i < j < |tabs[1..]| ensures tabs[1..][i].id != tabs[1..][j].id {
      assert tabs[1..][i] == tabs[i + 1] && tabs[1..][j] == tabs[j + 1];
    }
  }

  /** Closing a tab that is open removes exactly that tab and keeps the
      others in their order. */
  lemma {:induction false} WithoutOpenTab(tabs: seq<Tab>, k: nat)
    requires UniqueIds(tabs) && k < |tabs|
    ensures WithoutTab(tabs, tabs[k].id) == tabs[..k] + tabs[k + 1..]
  {
    UniqueTail(tabs);
    if k == 0 {
      WithoutAbsentTab(tabs[1..], tabs[0].id);
    } else {
      var id := tabs[k].id;
      assert tabs[0].id != id;
      assert tabs[1..][k - 1] == tabs[k];
      WithoutOpenTab(tabs[1..], k - 1);
      assert WithoutTab(tabs, id) == [tabs[0]] + WithoutTab(tabs[1..], id);
      assert tabs[1..][..k - 1] == tabs[1..k];
      assert tabs[1..][k..] == tabs[k + 1..];
      assert [tabs[0]] + tabs[1..k] == tabs[..k];
    }
  }

  /** Closing an id no tab has leaves the list as it is. */
  lemma {:induction false} WithoutAbsentTab(tabs: seq<Tab>, id: string)
    requires !HasTab(tabs, id)
    ensures WithoutTab(tabs, id) == tabs
  {
    if |tabs| > 0 {
      assert !HasTab(tabs[1..], id);
      WithoutAbsentTab(tabs[1..], id);
      assert [tabs[0]] + tabs[1..] == tabs;
    }
  }

  /** Removing tabs keeps ids unique. */
  lemma {:induction false} WithoutTabKeepsUnique(tabs: seq<Tab>, id: string)
    requires UniqueIds(tabs)
    ensures UniqueIds(WithoutTab(tabs, id))
  {
    if |tabs| > 0 {
      UniqueTail(tabs);
      WithoutTabKeepsUnique(tabs[1..], id);
      var rest := WithoutTab(tabs[1..], id);
      if tabs[0].id != id {
        forall j | 0 <= j < |rest| ensures rest[j].id != tabs[0].id {
          assert rest[j] in tabs[1..];
          var m :| 0 <= m < |tabs[1..]| && tabs[1..][m] == rest[j];
          assert tabs[m + 1] == rest[j];
        }
      }
    }
  }

  /** The tab list after an edit of tab `id`: that tab gets the new content
      and the given dirty flag, the others stay as they are. */
  function Edited(tabs: seq<Tab>, id: string, content: string, dirty: bool): (r: seq<Tab>)
    ensures |r| == |tabs|
    ensures forall k :: 0 <= k < |tabs| ==>
              r[k] == if tabs[k].id == id then tabs[k].(content := content, isDirty := dirty) else tabs[k]
  {
    if |tabs| == 0 then []
    else [if tabs[0].id == id then tabs[0].(content := content, isDirty := dirty) else tabs[0]]
         + Edited(tabs[1..], id, content, dirty)
  }

  /** The tab list with tab `id` marked clean. */
  function MarkedClean(tabs: seq<Tab>, id: string): (r: seq<Tab>)
    ensures |r| == |tabs|
    ensures forall k :: 0 <= k < |tabs| ==>
              r[k] == if tabs[k].id == id then tabs[k].(isDirty := false) else tabs[k]
  {
    if |tabs| == 0 then []
    else [if tabs[0].id == id then tabs[0].(isDirty := false) else tabs[0]] + MarkedClean(tabs[1..], id)
  }

  /** The tab ids are those of the list before, whatever is edited. */
  lemma SameIdsKeepUnique(before: seq<Tab>, after: seq<Tab>)
    requires UniqueIds(before) && |after| == |before|
    requires forall k :: 0 <= k < |before| ==> after[k].id == before[k].id
    ensures UniqueIds(after)
  {
  }

  /** Every tab's path leads to a file of the tree. */
  predicate Openable(fs: Dir, tabs: seq<Tab>)
  {
    forall k :: 0 <= k < |tabs| ==> ContentOf(fs, tabs[k].id).Some?
  }

  /** Closing tabs keeps the remaining ones openable. */
  lemma CloseKeepsOpenable(fs: Dir, tabs: seq<Tab>, id: string)
    requires Openable(fs, tabs)
    ensures Openable(fs, WithoutTab(tabs, id))
  {
    var rest := WithoutTab(tabs, id);
    forall k | 0 <= k < |rest| ensures ContentOf(fs, rest[k].id).Some? {
      assert rest[k] in tabs;
    }
  }

  /** Saving an open tab's buffer keeps every open tab's path leading to a
      file, and the saved path then reads the buffer. */
  lemma SaveKeepsTabsOpenable(fs: Dir, tabs: seq<Tab>, t: Tab)
    requires Openable(fs, tabs)
    requires t in tabs
    ensures FileAt(fs, Segments(t.id)).Some?
    ensures ContentOf(WithContent(fs, Segments(t.id), t.content), t.id) == Some(t.content)
    ensures Openable(WithContent(fs, Segments(t.id), t.content), tabs)
  {
    ContentAfterSave(fs, t.id, t.content, t.id);
    forall k | 0 <= k < |tabs|
      ensures ContentOf(WithContent(fs, Segments(t.id), t.content), tabs[k].id).Some?
    {
      ContentAfterSave(fs, t.id, t.content, tabs[k].id);
    }
  }

  /** Saving an open tab and marking it clean keeps the tab invariants. */
  lemma SaveKeepsValid(fs: Dir, tabs: seq<Tab>, t: Tab)
    requires UniqueIds(tabs) && Openable(fs, tabs) && t in tabs
    ensures FileAt(fs, Segments(t.id)).Some?
    ensures ContentOf(WithContent(fs, Segments(t.id), t.content), t.id) == Some(t.content)
    ensures UniqueIds(MarkedClean(tabs, t.id))
    ensures Openable(WithContent(fs, Segments(t.id), t.content), MarkedClean(tabs, t.id))
  {
    SaveKeepsTabsOpenable(fs, tabs, t);
    var cleaned := MarkedClean(tabs, t.id);
    SameIdsKeepUnique(tabs, cleaned);
    SameIdsKeepOpenable(WithContent(fs, Segments(t.id), t.content), tabs, cleaned);
  }

  /** Tabs with the same ids are openable together. */
  lemma SameIdsKeepOpenable(fs: Dir, before: seq<Tab>, after: seq<Tab>)
    requires Openable(fs, before) && |after| == |before|
    requires forall k :: 0 <= k < |before| ==> after[k].id == before[k].id
    ensures Openable(fs, after)
  {
  }

  /** What the user sees in place of a commit message while the assistant is
      asked for one, and after the request failed. */
  const GeneratingMessage := "Generating commit message..."
  const GenerateFailedMessage := "Error generating message."

  class Workspace {
    var fileSystem: Dir
    var openTabs: seq<Tab>
    var activeTabId: Option<string>
    /** Decoration ids per tab id (the editor widget owns the decorations). */
    var decorations: map<string, seq<string>>
    var unstaged: set<string>
    var staged: set<string>
    var commitMessage: string
    var activeView: View
    var sidebarVisible: bool
    var terminalOpen: bool

    /** Tab ids are unique, every open tab's path still leads to a file, and
        no path is both staged and unstaged. */
    ghost predicate Valid()
      reads this
    {
      UniqueIds(openTabs)
      && Openable(fileSystem, openTabs)
      && staged !! unstaged
    }

    constructor ()
      ensures Valid()
      ensures fileSystem == InitialFileSystem && openTabs == [] && activeTabId == None
      ensures decorations == map[] && unstaged == {} && staged == {} && commitMessage == ""
      ensures activeView == Explorer && sidebarVisible && !terminalOpen
    {
      fileSystem := InitialFileSystem;
      openTabs := [];
      activeTabId := None;
      decorations := map[];
      unstaged := {};
      staged := {};
      commitMessage := "";
      activeView := Explorer;
      sidebarVisible := true;
      terminalOpen := false;
    }

    /** `openFile`: focus the tab of an already open path; otherwise open the
        file's content in a new clean tab at the end and focus it; a path
        that does not lead to a file changes nothing. */
    method OpenFile(path: string, name: string)
      requires Valid()
      modifies this`openTabs, this`activeTabId
      ensures Valid()
      ensures old(HasTab(openTabs, path)) ==>
                openTabs == old(openTabs) && activeTabId == Some(path)
      ensures !old(HasTab(openTabs, path)) && ContentOf(fileSystem, path).None? ==>
                openTabs == old(openTabs) && activeTabId == old(activeTabId)
      ensures !old(HasTab(openTabs, path)) && ContentOf(fileSystem, path).Some? ==>
                openTabs == old(openTabs) + [Tab(path, name, ContentOf(fileSystem, path).value, false)]
                && activeTabId == Some(path)
    {
      if HasTab(openTabs, path) {
        activeTabId := Some(path);
        return;
      }
      var content := GetFileContent(fileSystem, path);
      if content.Some? {
        openTabs := openTabs + [Tab(path, name, content.value, false)];
        activeTabId := Some(path);
      }
    }

    /** `closeTab`: drops the tab's decorations and the tab itself; if it was
        the active one, the last remaining tab (or none) becomes active. */
    method CloseTab(id: string)
      requires Valid()
      modifies this`openTabs, this`activeTabId, this`decorations
      ensures Valid()
      ensures openTabs == WithoutTab(old(openTabs), id)
      ensures decorations == old(decorations) - {id}
      ensures old(activeTabId) == Some(id) ==>
                activeTabId == if openTabs == [] then None else Some(openTabs[|openTabs| - 1].id)
      ensures old(activeTabId) != Some(id) ==> activeTabId == old(activeTabId)
    {
      decorations := decorations - {id};
      var remaining := WithoutTab(openTabs, id);
      WithoutTabKeepsUnique(openTabs, id);
      if activeTabId == Some(id) {
        activeTabId := if |remaining| > 0 then Some(remaining[|remaining| - 1].id) else None;
      }
      CloseKeepsOpenable(fileSystem, openTabs, id);
      openTabs := remaining;
    }

    /** `setActiveTab`: only the active id changes; the id need not be open. */
    method SetActiveTab(id: string)
      requires Valid()
      modifies this`activeTabId
      ensures Valid()
      ensures activeTabId == Some(id)
    {
      activeTabId := Some(id);
    }

    /** `updateTabContent`: the tab's buffer becomes `content` and it is dirty
        exactly when that differs from what the tree holds for its path (the
        empty text if nothing); its decorations are emptied when the editor is
        mounted. Other tabs are untouched. */
    method UpdateTabContent(id: string, content: string, editorMounted: bool)
      requires Valid()
      modifies this`openTabs, this`decorations
      ensures Valid()
      ensures |openTabs| == |old(openTabs)|
      ensures forall k :: 0 <= k < |openTabs| && old(openTabs)[k].id != id ==>
                openTabs[k] == old(openTabs)[k]
      ensures forall k :: 0 <= k < |openTabs| && old(openTabs)[k].id == id ==>
                openTabs[k].id == id && openTabs[k].name == old(openTabs)[k].name
                && openTabs[k].content == content
                && (openTabs[k].isDirty <==> content != ContentOf(fileSystem, id).GetOr(""))
      ensures decorations ==
                if editorMounted && id in old(decorations) then old(decorations)[id := []] else old(decorations)
    {
      if editorMounted && id in decorations {
        decorations := decorations[id := []];
      }
      var persisted := GetFileContent(fileSystem, id);
      var before := openTabs;
      openTabs := Edited(openTabs, id, content, content != persisted.GetOr(""));
      SameIdsKeepUnique(before, openTabs);
      SameIdsKeepOpenable(fileSystem, before, openTabs);
    }

    /** `saveActiveFile`: when the active tab exists and is dirty, its buffer
        is written to the tree, the tab becomes clean, and its path is added
        to the unstaged changes unless it is already staged. Otherwise nothing
        changes. */
    method SaveActiveFile()
      requires Valid()
      modifies this`fileSystem, this`openTabs, this`unstaged
      ensures Valid()
      ensures var t := FindTab(old(openTabs), activeTabId);
              if t.Some? && t.value.isDirty then
                fileSystem == WithContent(old(fileSystem), Segments(t.value.id), t.value.content)
                && ContentOf(fileSystem, t.value.id) == Some(t.value.content)
                && openTabs == MarkedClean(old(openTabs), t.value.id)
                && unstaged == (if t.value.id in staged then old(unstaged) else old(unstaged) + {t.value.id})
              else
                fileSystem == old(fileSystem) && openTabs == old(openTabs) && unstaged == old(unstaged)
    {
      var active := FindTab(openTabs, activeTabId);
      if active.Some? && active.value.isDirty {
        var t := active.value;
        var fs, tabs, isStaged := fileSystem, openTabs, t.id in staged;
        SaveKeepsValid(fs, tabs, t);
        var saved := SaveFile(fs, t.id, t.content);
        fileSystem, openTabs := saved, MarkedClean(tabs, t.id);
        if !isStaged {
          unstaged := unstaged + {t.id};
        }
        assert FindTab(old(openTabs), activeTabId) == Some(t);
      }
    }

    /** `stageChange`: the path is staged and no longer unstaged, whether or
        not it was unstaged before. */
    method StageChange(path: string)
      requires Valid()
      modifies this`unstaged, this`staged
      ensures Valid()
      ensures unstaged == old(unstaged) - {path} && staged == old(staged) + {path}
    {
      unstaged := unstaged - {path};
      staged := staged + {path};
    }

    /** `unstageChange`: the mirror of StageChange. */
    method UnstageChange(path: string)
      requires Valid()
      modifies this`unstaged, this`staged
      ensures Valid()
      ensures staged == old(staged) - {path} && unstaged == old(unstaged) + {path}
    {
      staged := staged - {path};
      unstaged := unstaged + {path};
    }

    /** `stageAllChanges`: every unstaged path moves to the staged set. */
    method StageAllChanges()
      requires Valid()
      modifies this`unstaged, this`staged
      ensures Valid()
      ensures staged == old(staged) + old(unstaged) && unstaged == {}
    {
      staged := staged + unstaged;
      unstaged := {};
    }

    /** `unstageAllChanges`: every staged path moves to the unstaged set. */
    method UnstageAllChanges()
      requires Valid()
      modifies this`unstaged, this`staged
      ensures Valid()
      ensures unstaged == old(unstaged) + old(staged) && staged == {}
    {
      unstaged := unstaged + staged;
      staged := {};
    }

    /** The commit message text box. */
    method SetCommitMessage(message: string)
      requires Valid()
      modifies this`commitMessage
      ensures Valid()
      ensures commitMessage == message
    {
      commitMessage := message;
    }

    /** `commit`: succeeds only with something staged and a message that is
        not blank; it then empties the staged set and the message. The
        unstaged set is never touched. `ok` is which of the two alerts the
        user sees. */
    method Commit() returns (ok: bool)
      requires Valid()
      modifies this`staged, this`commitMessage
      ensures Valid()
      ensures ok <==> old(staged) != {} && !IsBlank(old(commitMessage))
      ensures ok ==> staged == {} && commitMessage == ""
      ensures !ok ==> staged == old(staged) && commitMessage == old(commitMessage)
    {
      TrimEmptyIffBlank(commitMessage);
      ok := |staged| > 0 && Trim(commitMessage) != "";
      if ok {
        staged := {};
        commitMessage := "";
      }
    }

    /** `generateCommitMessage` without the call to the language model: with
        nothing staged it only reports that; otherwise the message becomes the
        trimmed reply, or the error text when the request failed (`reply` is
        None). */
    method GenerateCommitMessage(reply: Option<string>) returns (started: bool)
      requires Valid()
      modifies this`commitMessage
      ensures Valid()
      ensures started <==> old(staged) != {}
      ensures !started ==> commitMessage == old(commitMessage)
      ensures started ==> commitMessage == if reply.Some? then Trim(reply.value) else GenerateFailedMessage
    {
      if |staged| == 0 {
        return false;
      }
      started := true;
      commitMessage := GeneratingMessage;
      match reply
      case Some(text) => commitMessage := Trim(text);
      case None => commitMessage := GenerateFailedMessage;
    }

    /** The bookkeeping after an explanation was attached in the editor: the
        new decoration ids are appended to the active tab's list; without an
        active tab nothing is recorded. */
    method RecordDecorations(newIds: seq<string>)
      requires Valid()
      modifies this`decorations
      ensures Valid()
      ensures var t := FindTab(openTabs, activeTabId);
              decorations == if t.None? then old(decorations)
                             else old(decorations)[t.value.id := old(if t.value.id in decorations then decorations[t.value.id] else []) + newIds]
    {
      var active := FindTab(openTabs, activeTabId);
      if active.Some? {
        var current := if active.value.id in decorations then decorations[active.value.id] else [];
        decorations := decorations[active.value.id := current + newIds];
      }
    }

    /** `setActiveView` from the activity bar: choosing the view already shown
        hides the sidebar; any other choice shows the sidebar with that
        view. */
    method SetActiveView(view: View)
      requires Valid()
      modifies this`activeView, this`sidebarVisible
      ensures Valid()
      ensures old(activeView) == view && old(sidebarVisible) ==>
                !sidebarVisible && activeView == old(activeView)
      ensures !(old(activeView) == view && old(sidebarVisible)) ==>
                sidebarVisible && activeView == view
    {
      if view == activeView && sidebarVisible {
        sidebarVisible := false;
      } else {
        activeView := view;
        sidebarVisible := true;
      }
    }

    method ToggleSidebar()
      requires Valid()
      modifies this`sidebarVisible
      ensures Valid()
      ensures sidebarVisible == !old(sidebarVisible)
    {
      sidebarVisible := !sidebarVisible;
    }

    method ToggleTerminal()
      requires Valid()
      modifies this`terminalOpen
      ensures Valid()
      ensures terminalOpen == !old(terminalOpen)
    {
      terminalOpen := !terminalOpen;
    }
  }

  /** Open a file, type different text into it and save it: one tab, dirty
      after the edit and clean again after the save, the tree holding the new
      text, and the path listed as unstaged. */
  method EditSaveScenario(w: Workspace, path: string, original: string, edited: string)
    requires w.Valid() && w.openTabs == [] && w.staged == {} && w.unstaged == {}
    requires ContentOf(w.fileSystem, path) == Some(original) && original != edited
    modifies w
    ensures w.Valid()
    ensures w.openTabs == [Tab(path, path, edited, false)]
    ensures ContentOf(w.fileSystem, path) == Some(edited)
    ensures w.staged == {} && w.unstaged == {path}
  {
    w.OpenFile(path, path);
    assert w.openTabs == [Tab(path, path, original, false)];
    w.UpdateTabContent(path, edited, true);
    var dirty := Tab(path, path, edited, true);
    assert w.openTabs == [dirty];
    assert FindTab(w.openTabs, w.activeTabId) == Some(dirty);
    w.SaveActiveFile();
  }

  /** Staging the saved path and committing with a message empties the staged
      set and the message and leaves nothing unstaged. */
  method StageCommitScenario(w: Workspace, path: string)
    requires w.Valid() && w.staged == {} && w.unstaged == {path}
    modifies w
    ensures w.staged == {} && w.commitMessage == "" && w.unstaged == {}
  {
    w.StageChange(path);
    w.SetCommitMessage("docs: update readme");
    assert !IsBlank(w.commitMessage) by { assert !IsSpace(w.commitMessage[0]); }
    var ok := w.Commit();
    assert ok;
  }

  /** Both, on the README of the workspace as it starts. */
  method ReadmeScenario()
  {
    var w := new Workspace();
    InitialReadmeContent();
    EditSaveScenario(w, "README.md", ReadmeText, "# Title\nMore");
    StageCommitScenario(w, "README.md");
  }
}
