/** The command palette: a fixed list of commands filtered by a search text
    without regard to case, a highlighted row moved with the arrow keys and
    wrapping around, and Enter running the highlighted command. */
module Palette {
  import opened Wrappers
  import opened Strings

  /** What running a command asks of the application. */
  datatype Action = SetTheme(theme: string) | RunAiCodeCommand(kind: string)

  datatype Command = Command(id: string, title: string, action: Action)

  const Commands: seq<Command> := [
      Command("theme.dark", "Change Color Theme to Dark", SetTheme("vs-dark")),
      Command("theme.light", "Change Color Theme to Light", SetTheme("vs-light")),
      Command("ai.explain", "AI: Explain Code", RunAiCodeCommand("explain")),
      Command("ai.refactor", "AI: Refactor Code", RunAiCodeCommand("refactor")),
      Command("ai.add-comments", "AI: Add Comments", RunAiCodeCommand("add-comments"))
    ]

  /** A command is listed when its title (the source's `label`),
      lower-cased, includes the search text, lower-cased. */
  predicate Matches(c: Command, search: string)
  {
    Contains(Lower(c.title), Lower(search))
  }

  /** The commands shown for a search text, in their original order. */
  function Filter(cmds: seq<Command>, search: string): (r: seq<Command>)
    ensures |r| <= |cmds|
    ensures forall k :: 0 <= k < |r| ==> Matches(r[k], search)
  {
    if |cmds| == 0 then []
    else if Matches(cmds[0], search) then [cmds[0]] + Filter(cmds[1..], search)
    else Filter(cmds[1..], search)
  }

  /** A single command is listed exactly when it matches. */
  lemma FilterOne(c: Command, search: string)
    ensures Filter([c], search) == if Matches(c, search) then [c] else []
  {
    assert [c][1..] == [];
  }

  /** Filtering a list in two parts filters each part and keeps them in
      order; with `FilterOne` this makes `Filter` the order-preserving
      selection of the matching commands. */
  lemma {:induction false} FilterAppend(x: seq<Command>, y: seq<Command>, search: string)
    ensures Filter(x + y, search) == Filter(x, search) + Filter(y, search)
  {
    if |x| == 0 {
      assert x + y == y;
    } else {
      assert (x + y)[0] == x[0];
      assert (x + y)[1..] == x[1..] + y;
      FilterAppend(x[1..], y, search);
    }
  }

  /** Exactly the matching commands are shown. */
  lemma {:induction false} FilterKeeps(cmds: seq<Command>, search: string)
    ensures forall c :: c in Filter(cmds, search) <==> c in cmds && Matches(c, search)
  {
    if |cmds| > 0 {
      FilterKeeps(cmds[1..], search);
      assert cmds == [cmds[0]] + cmds[1..];
    }
  }

  /** The empty search shows every command, in order. */
  lemma {:induction false} EmptySearchShowsAll(cmds: seq<Command>)
    ensures Filter(cmds, "") == cmds
  {
    if |cmds| > 0 {
      assert Lower("") == "";
      ContainsEmpty(Lower(cmds[0].title));
      assert Matches(cmds[0], "");
      EmptySearchShowsAll(cmds[1..]);
      assert Filter(cmds, "") == [cmds[0]] + cmds[1..];
    }
  }

  /** The search ignores case: a lower-cased search shows the same list. */
  lemma {:induction false} FilterIgnoresCase(cmds: seq<Command>, search: string)
    ensures Filter(cmds, Lower(search)) == Filter(cmds, search)
  {
    LowerTwice(search);
    if |cmds| > 0 {
      FilterIgnoresCase(cmds[1..], search);
    }
  }

  lemma ContainsShorter(s: string, u: string, t: string)
    requires u <= t && Contains(s, t)
    ensures Contains(s, u)
  {
    var i :| 0 <= i <= |s| && t <= s[i..];
    assert u <= s[i..];
  }

  /** Typing further characters only narrows the list: everything shown for
      the longer search was shown for the shorter one. */
  lemma {:induction false} TypingNarrows(cmds: seq<Command>, s: string, t: string)
    requires s <= t
    ensures forall c :: c in Filter(cmds, t) ==> c in Filter(cmds, s)
  {
    FilterKeeps(cmds, s);
    FilterKeeps(cmds, t);
    assert Lower(s) <= Lower(t);
    forall c | c in Filter(cmds, t) ensures c in Filter(cmds, s) {
      ContainsShorter(Lower(c.title), Lower(s), Lower(t));
    }
  }

  /** The highlighted row. JavaScript's `%` by zero gives NaN, which then
      stays NaN through further arrow keys and selects nothing. */
  datatype Selection = Index(i: int) | NotANumber

  /** JavaScript's `%`: the remainder takes the sign of the dividend. */
  function JsRem(a: int, n: int): (r: int)
    requires n != 0
    ensures a >= 0 ==> 0 <= r < if n > 0 then n else -n
    ensures a < 0 ==> -(if n > 0 then n else -n) < r <= 0
  {
    if a >= 0 then a % n else -((-a) % n)
  }

  /** ArrowDown: one row further, wrapping to the top. */
  function Next(sel: Selection, n: int): Selection
  {
    if sel.NotANumber? || n == 0 then NotANumber else Index(JsRem(sel.i + 1, n))
  }

  /** ArrowUp: one row back, wrapping to the bottom. */
  function Prev(sel: Selection, n: int): Selection
  {
    if sel.NotANumber? || n == 0 then NotANumber else Index(JsRem(sel.i - 1 + n, n))
  }

  /** The remainder of a number below twice the divisor. */
  lemma RemOnce(a: int, n: int)
    requires 0 <= a < 2 * n
    ensures JsRem(a, n) == if a < n then a else a - n
  {
    var r := if a < n then a else a - n;
    var q := if a < n then 0 else 1;
    assert a == q * n + r && 0 <= r < n;
    assert a % n == r;
  }

  /** A row that exists stays a row that exists, and the two keys undo each
      other. */
  lemma ArrowsInverse(i: int, n: int)
    requires 0 <= i < n
    ensures Next(Index(i), n).Index? && 0 <= Next(Index(i), n).i < n
    ensures Prev(Index(i), n).Index? && 0 <= Prev(Index(i), n).i < n
    ensures Prev(Next(Index(i), n), n) == Index(i)
    ensures Next(Prev(Index(i), n), n) == Index(i)
  {
    RemOnce(i + 1, n);
    var j := JsRem(i + 1, n);
    RemOnce(j - 1 + n, n);
    RemOnce(i - 1 + n, n);
    var k := JsRem(i - 1 + n, n);
    RemOnce(k + 1, n);
  }

  /** Down from the last row is the first, up from the first is the last. */
  lemma ArrowsWrap(n: int)
    requires n > 0
    ensures Next(Index(n - 1), n) == Index(0)
    ensures Prev(Index(0), n) == Index(n - 1)
  {
    RemOnce(n, n);
    RemOnce(n - 1, n);
  }

  /** With nothing listed an arrow key leaves no row highlighted, and Enter
      runs nothing until the selection is reset. */
  lemma ArrowOnEmptyList(sel: Selection, filtered: seq<Command>)
    requires |filtered| == 0
    ensures Next(sel, |filtered|) == NotANumber && Prev(sel, |filtered|) == NotANumber
    ensures Highlighted(filtered, Next(sel, |filtered|)) == None
  {
  }

  /** `filteredCommands[selectedIndex]`: the command in the highlighted row,
      if that row exists. */
  function Highlighted(filtered: seq<Command>, sel: Selection): (r: Option<Command>)
    ensures r.Some? <==> sel.Index? && 0 <= sel.i < |filtered|
    ensures r.Some? ==> r.value in filtered
  {
    if sel.Index? && 0 <= sel.i < |filtered| then Some(filtered[sel.i]) else None
  }

  /** A key press as the window reports it. */
  datatype Key = Key(key: string, ctrl: bool, meta: bool, shift: bool)

  /** Ctrl+Shift+P or Cmd+Shift+P. */
  predicate IsShortcut(ev: Key)
  {
    (ev.ctrl || ev.meta) && ev.shift && Lower(ev.key) == "p"
  }

  /** The palette's state and the actions it has run. */
  class Palette {
    /** The palette's command list (`Commands`). */
    const commands: seq<Command>
    var open: bool
    var search: string
    var selected: Selection
    var fired: seq<Action>

    /** The commands listed for the current search. */
    function Filtered(): seq<Command>
      reads this
    {
      Filter(commands, search)
    }

    /** The highlighted row exists, or is the first row of an empty list, or
        is NaN after an arrow key on an empty list. */
    predicate Valid()
      reads this
    {
      selected.Index? ==> 0 <= selected.i && (selected.i < |Filtered()| || selected.i == 0)
    }

    constructor ()
      ensures commands == Commands
      ensures !open && search == "" && selected == Index(0) && fired == []
      ensures Valid()
    {
      commands := Commands;
      open, search, selected, fired := false, "", Index(0), [];
    }

    /** `toggleCommandPalette` followed by the reset effect: closing clears
        the search, and either way the first row is highlighted. */
    method Toggle()
      modifies this
      ensures open == !old(open)
      ensures search == if open then old(search) else ""
      ensures selected == Index(0) && fired == old(fired)
      ensures Valid()
    {
      open := !open;
      if !open {
        search := "";
      }
      selected := Index(0);
    }

    /** Typing in the search box (only rendered while the palette is open)
        sets the search and highlights the first row again. */
    method SetSearch(value: string)
      modifies this
      ensures old(open) ==> open && search == value && selected == Index(0) && fired == old(fired)
      ensures !old(open) ==> unchanged(this)
      ensures old(Valid()) ==> Valid()
    {
      if open {
        search, selected := value, Index(0);
      }
    }

    /** ArrowDown: the next row, wrapping. */
    method MoveDown()
      requires Valid()
      modifies this
      ensures selected == Next(old(selected), |old(Filtered())|)
      ensures open == old(open) && search == old(search) && fired == old(fired)
      ensures Valid()
    {
      var n := |Filtered()|;
      if selected.Index? && n > 0 {
        ArrowsInverse(selected.i, n);
      }
      selected := Next(selected, n);
    }

    /** ArrowUp: the previous row, wrapping. */
    method MoveUp()
      requires Valid()
      modifies this
      ensures selected == Prev(old(selected), |old(Filtered())|)
      ensures open == old(open) && search == old(search) && fired == old(fired)
      ensures Valid()
    {
      var n := |Filtered()|;
      if selected.Index? && n > 0 {
        ArrowsInverse(selected.i, n);
      }
      selected := Prev(selected, n);
    }

    /** Enter: the highlighted command, if its row exists, runs and the
        palette closes. */
    method RunHighlighted() returns (ran: Option<Action>)
      requires open && Valid()
      modifies this
      ensures match Highlighted(old(Filtered()), old(selected))
              case Some(c) => ran == Some(c.action) && fired == old(fired) + [c.action]
                              && !open && search == "" && selected == Index(0)
              case None => ran == None && unchanged(this)
      ensures Valid()
    {
      var h := Highlighted(Filtered(), selected);
      ran := None;
      if h.Some? {
        ran := Some(h.value.action);
        fired := fired + [h.value.action];
        Toggle();
      }
    }

    /** The window's key handler. The shortcut toggles the palette; the
        other keys act only when the palette was open before the key. */
    method HandleKey(ev: Key) returns (ran: Option<Action>)
      requires Valid()
      modifies this
      ensures Valid()
      ensures IsShortcut(ev) ==>
                open == !old(open) && search == (if open then old(search) else "")
                && selected == Index(0) && ran == None && fired == old(fired)
      ensures !IsShortcut(ev) && !old(open) ==> unchanged(this) && ran == None
      ensures !IsShortcut(ev) && old(open) && ev.key == "Escape" ==>
                !open && search == "" && selected == Index(0) && ran == None && fired == old(fired)
      ensures !IsShortcut(ev) && old(open) && ev.key == "ArrowDown" ==>
                open && search == old(search) && ran == None && fired == old(fired)
                && selected == Next(old(selected), |old(Filtered())|)
      ensures !IsShortcut(ev) && old(open) && ev.key == "ArrowUp" ==>
                open && search == old(search) && ran == None && fired == old(fired)
                && selected == Prev(old(selected), |old(Filtered())|)
      ensures !IsShortcut(ev) && old(open) && ev.key == "Enter" ==>
                match Highlighted(old(Filtered()), old(selected))
                case Some(c) => ran == Some(c.action) && fired == old(fired) + [c.action]
                                && !open && search == "" && selected == Index(0)
                case None => ran == None && unchanged(this)
      ensures !IsShortcut(ev) && old(open)
              && ev.key != "Escape" && ev.key != "ArrowDown" && ev.key != "ArrowUp" && ev.key != "Enter" ==>
                unchanged(this) && ran == None
      ensures ran.Some? ==> ev.key == "Enter" && old(open)
    {
      ran := None;
      if IsShortcut(ev) {
        Toggle();
      } else if open {
        if ev.key == "Escape" {
          Toggle();
        } else if ev.key == "ArrowDown" {
          MoveDown();
        } else if ev.key == "ArrowUp" {
          MoveUp();
        } else if ev.key == "Enter" {
          ran := RunHighlighted();
        }
      }
    }

    /** Clicking a listed row runs its command and closes the palette. */
    method Click(index: int) returns (ran: Action)
      requires open && 0 <= index < |Filtered()|
      modifies this
      ensures ran == old(Filtered())[index].action
      ensures fired == old(fired) + [ran]
      ensures !open && search == "" && selected == Index(0)
    {
      ran := Filtered()[index].action;
      fired := fired + [ran];
      Toggle();
    }
  }
}
