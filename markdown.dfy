/** The assistant panel: a chat message is cut into code blocks and text
    around them, code blocks are shown without their fences and language
    line, blank text is dropped; and the input box sends a message only
    when it holds something other than white space and no answer is being
    awaited. */
module Assistant {
  import opened Wrappers
  import opened Strings
  import opened Fences

  /** Three backquotes begin at index `i` of `s`. */
  predicate FenceAt(s: string, i: int)
  {
    0 <= i && i + 3 <= |s| && s[i] == '`' && s[i + 1] == '`' && s[i + 2] == '`'
  }

  lemma FenceAtIsFence(s: string, i: int)
    requires 0 <= i && i + 3 <= |s|
    ensures FenceAt(s, i) <==> s[i..i + 3] == Fence
  {
    assert |s[i..i + 3]| == 3;
  }

  /** No three backquotes anywhere in `s`. */
  predicate NoFence(s: string)
  {
    forall k :: 0 <= k < |s| ==> !FenceAt(s, k)
  }

  /** The first index at or after `from` where a fence begins. */
  function FirstFence(s: string, from: nat): (r: Option<nat>)
    decreases |s| - from
    ensures r.Some? ==> from <= r.value && FenceAt(s, r.value)
    ensures r.Some? ==> forall k :: from <= k < r.value ==> !FenceAt(s, k)
    ensures r.None? ==> forall k :: from <= k ==> !FenceAt(s, k)
  {
    if from + 3 > |s| then None
    else if FenceAt(s, from) then Some(from)
    else FirstFence(s, from + 1)
  }

  /** `content.split(/(```[\s\S]*?```)/g)`: text, then a block from a fence
      to the next fence (the shortest match), then text again, and so on.
      When the first fence has no later fence to close it, the rest is one
      piece of text. */
  function SplitOnBlocks(s: string): (r: seq<string>)
    decreases |s|
    ensures |r| >= 1
  {
    match FirstFence(s, 0)
    case None => [s]
    case Some(i) =>
      match FirstFence(s, i + 3)
      case None => [s]
      case Some(j) => [s[..i], s[i..j + 3]] + SplitOnBlocks(s[j + 3..])
  }

  /** The pieces one after another (`join('')`). */
  function Concat(parts: seq<string>): string
  {
    if |parts| == 0 then "" else parts[0] + Concat(parts[1..])
  }

  /** The pieces put back together are the message. */
  lemma {:induction false} SplitOnBlocksJoin(s: string)
    ensures Concat(SplitOnBlocks(s)) == s
    decreases |s|
  {
    match FirstFence(s, 0)
    case None =>
    case Some(i) =>
      match FirstFence(s, i + 3)
      case None =>
      case Some(j) =>
        var rest := s[j + 3..];
        SplitOnBlocksJoin(rest);
        JoinTwoMore(s[..i], s[i..j + 3], SplitOnBlocks(rest));
        assert s[..i] + (s[i..j + 3] + rest) == s;
  }

  lemma JoinTwoMore(a: string, b: string, tail: seq<string>)
    ensures Concat([a, b] + tail) == a + (b + Concat(tail))
  {
    var r := [a, b] + tail;
    assert r[1..] == [b] + tail && ([b] + tail)[1..] == tail;
  }

  /** A code block as the split produces it: a fence, then no fence until
      the closing fence at its end. */
  predicate IsBlock(p: string)
  {
    |p| >= 6 && FenceAt(p, 0) && FenceAt(p, |p| - 3)
    && forall k :: 3 <= k < |p| - 3 ==> !FenceAt(p, k)
  }

  /** The text after the last block: it holds no fence that a later fence
      could close. */
  predicate Unclosed(p: string)
  {
    forall i, j :: 0 <= i < |p| && 0 <= j < |p| && FenceAt(p, i) && FenceAt(p, j) ==> j < i + 3
  }

  /** A fence in a slice is a fence of the whole string, shifted. */
  lemma FenceInSlice(s: string, lo: int, hi: int, k: int)
    requires 0 <= lo <= hi <= |s|
    ensures FenceAt(s[lo..hi], k) <==> (0 <= k && k + 3 <= hi - lo && FenceAt(s, lo + k))
  {
  }

  lemma FenceInSuffix(s: string, lo: int, k: int)
    requires 0 <= lo <= |s|
    ensures FenceAt(s[lo..], k) <==> (0 <= k && FenceAt(s, lo + k))
  {
    assert s[lo..] == s[lo..|s|];
    FenceInSlice(s, lo, |s|, k);
  }

  /** The text before the first fence holds no fence. */
  lemma HeadHasNoFence(s: string, i: nat)
    requires i <= |s| && forall k :: 0 <= k < i ==> !FenceAt(s, k)
    ensures NoFence(s[..i])
  {
    forall k | 0 <= k < i ensures !FenceAt(s[..i], k) {
      FenceInSlice(s, 0, i, k);
    }
  }

  /** The piece from a fence to the first later fence is a block. */
  lemma MiddleIsBlock(s: string, i: nat, j: nat)
    requires FenceAt(s, i) && FenceAt(s, j) && i + 3 <= j
    requires forall k :: i + 3 <= k < j ==> !FenceAt(s, k)
    ensures IsBlock(s[i..j + 3])
  {
    var p := s[i..j + 3];
    FenceInSlice(s, i, j + 3, 0);
    FenceInSlice(s, i, j + 3, |p| - 3);
    forall k | 3 <= k < |p| - 3 ensures !FenceAt(p, k) {
      FenceInSlice(s, i, j + 3, k);
    }
  }

  /** Text with no closable fence pair is left as one piece. */
  lemma LoneText(s: string)
    requires FirstFence(s, 0).None? || FirstFence(s, FirstFence(s, 0).value + 3).None?
    ensures Unclosed(s)
  {
    forall i, j | 0 <= i < |s| && 0 <= j < |s| && FenceAt(s, i) && FenceAt(s, j) ensures j < i + 3 {
      var f := FirstFence(s, 0);
      assert f.Some? && f.value <= i;
    }
  }

  /** Text with no fence, a block, text with no fence, ..., and finally
      text in which no fence is closed. */
  predicate Alternates(r: seq<string>)
  {
    |r| % 2 == 1
    && (forall k :: 0 <= k < |r| && k % 2 == 1 ==> IsBlock(r[k]))
    && (forall k :: 0 <= k < |r| - 1 && k % 2 == 0 ==> NoFence(r[k]))
    && Unclosed(r[|r| - 1])
  }

  lemma AlternatesCons(head: string, block: string, tail: seq<string>)
    requires NoFence(head) && IsBlock(block) && Alternates(tail)
    ensures Alternates([head, block] + tail)
  {
    var r := [head, block] + tail;
    forall k | 0 <= k < |r| && k % 2 == 1 ensures IsBlock(r[k]) {
      if k > 1 {
        assert r[k] == tail[k - 2];
      }
    }
    forall k | 0 <= k < |r| - 1 && k % 2 == 0 ensures NoFence(r[k]) {
      if k > 0 {
        assert r[k] == tail[k - 2];
      }
    }
    assert r[|r| - 1] == tail[|tail| - 1];
  }

  /** The pieces alternate between text and blocks. */
  lemma {:induction false} SplitOnBlocksShape(s: string)
    decreases |s|
    ensures Alternates(SplitOnBlocks(s))
  {
    match FirstFence(s, 0)
    case None => LoneText(s);
    case Some(i) =>
      match FirstFence(s, i + 3)
      case None => LoneText(s);
      case Some(j) =>
        SplitOnBlocksShape(s[j + 3..]);
        HeadHasNoFence(s, i);
        MiddleIsBlock(s, i, j);
        AlternatesCons(s[..i], s[i..j + 3], SplitOnBlocks(s[j + 3..]));
  }

  /** One element of the rendered message. */
  datatype Block = CodeBlock(code: string) | Paragraph(text: string)

  /** `part.startsWith('```') && part.endsWith('```')`: the renderer's test
      for a code block. */
  predicate LooksFenced(part: string)
  {
    StartsWith(part, Fence) && EndsWith(part, Fence)
  }

  /** `part.slice(3, -3)`: empty when the two fences overlap. */
  function Inner(part: string): (r: string)
    ensures |part| >= 6 ==> part == part[..3] + r + part[|part| - 3..]
    ensures |part| < 6 ==> r == ""
  {
    if |part| >= 6 then part[3..|part| - 3] else ""
  }

  /** `s.indexOf(c)`: the first index of `c`, or -1. */
  function IndexOf(s: string, c: char): (r: int)
    ensures -1 <= r < |s|
    ensures r == -1 <==> c !in s
    ensures r >= 0 ==> s[r] == c && c !in s[..r]
  {
    if |s| == 0 then -1
    else if s[0] == c then 0
    else
      var k := IndexOf(s[1..], c);
      assert s[1..][..if k >= 0 then k else 0] == s[1..if k >= 0 then k + 1 else 1];
      assert k >= 0 ==> s[..k + 1] == [s[0]] + s[1..][..k];
      if k == -1 then -1 else k + 1
  }

  /** The code shown for a block: what follows the first line break (the
      language line), or all of it when there is none, trimmed. */
  function CodeOf(part: string): string
  {
    var inner := Inner(part);
    Trim(inner[IndexOf(inner, '\n') + 1..])
  }

  /** What one piece renders to. */
  function RenderPiece(part: string): seq<Block>
  {
    if LooksFenced(part) then [CodeBlock(CodeOf(part))]
    else if Trim(part) != "" then [Paragraph(part)]
    else []
  }

  function RenderPieces(parts: seq<string>): seq<Block>
  {
    if |parts| == 0 then [] else RenderPiece(parts[0]) + RenderPieces(parts[1..])
  }

  /** `MarkdownRenderer`. */
  function Render(content: string): seq<Block>
  {
    RenderPieces(SplitOnBlocks(content))
  }

  /** A message without a fence is one paragraph, or nothing when blank. */
  lemma PlainTextRender(s: string)
    requires NoFence(s)
    ensures Render(s) == if IsBlank(s) then [] else [Paragraph(s)]
  {
    assert !FenceAt(s, 0);
    TrimEmptyIffBlank(s);
    assert SplitOnBlocks(s) == [s];
    assert RenderPieces([s]) == RenderPiece(s) + RenderPieces([]);
  }

  /** The first occurrence, found where it is. */
  lemma IndexOfAt(s: string, c: char, p: int)
    requires 0 <= p < |s| && s[p] == c && c !in s[..p]
    ensures IndexOf(s, c) == p
  {
    assert s[p] == c;
  }

  /** A message whose only fences are its first and last three characters
      splits as empty text, the block and empty text. */
  lemma WholeBlockPieces(s: string)
    requires FenceAt(s, 0) && FirstFence(s, 3) == Some(|s| - 3)
    ensures SplitOnBlocks(s) == ["", s, ""]
  {
    var n := |s|;
    assert FirstFence(s, 0) == Some(0);
    assert FirstFence("", 0) == None;
    assert s[n..] == "" && s[..0] == "" && s[0..n] == s;
  }

  /** The closing fence of such a block is the first fence after the
      opening one. */
  lemma SingleBlockFences(tag: string, body: string)
    requires forall k :: 0 <= k < |tag| ==> IsWordChar(tag[k])
    requires '`' !in body
    ensures var s := Fence + tag + "\n" + body + Fence;
      FenceAt(s, 0) && FirstFence(s, 3) == Some(|s| - 3)
  {
    var s := Fence + tag + "\n" + body + Fence;
    var n := |s|;
    assert FenceAt(s, 0) && FenceAt(s, n - 3);
    forall k | 3 <= k < n - 3 ensures !FenceAt(s, k) {
      if k < 3 + |tag| {
        assert s[k] == tag[k - 3];
      } else if k > 3 + |tag| {
        assert s[k] == body[k - 4 - |tag|];
      }
    }
  }

  /** Its code is the body, trimmed: the tag line goes. */
  lemma SingleBlockCode(tag: string, body: string)
    requires forall k :: 0 <= k < |tag| ==> IsWordChar(tag[k])
    ensures CodeOf(Fence + tag + "\n" + body + Fence) == Trim(body)
  {
    var s := Fence + tag + "\n" + body + Fence;
    var inner := tag + "\n" + body;
    assert Inner(s) == inner;
    assert '\n' !in tag;
    assert inner[..|tag|] == tag;
    IndexOfAt(inner, '\n', |tag|);
    assert inner[|tag| + 1..] == body;
  }

  /** A message that is exactly one fenced block, with a language tag on
      the first line and no backquote in the code, renders as that code,
      trimmed. */
  lemma SingleBlockRender(tag: string, body: string)
    requires forall k :: 0 <= k < |tag| ==> IsWordChar(tag[k])
    requires '`' !in body
    ensures Render(Fence + tag + "\n" + body + Fence) == [CodeBlock(Trim(body))]
  {
    var s := Fence + tag + "\n" + body + Fence;
    SingleBlockFences(tag, body);
    WholeBlockPieces(s);
    SingleBlockCode(tag, body);
    assert LooksFenced(s) by {
      assert s[..3] == Fence && s[|s| - 3..] == Fence;
    }
    assert Trim("") == "" && RenderPiece("") == [];
    assert RenderPieces([""]) == [] by {
      assert [""][1..] == [];
    }
    assert RenderPieces([s, ""]) == [CodeBlock(Trim(body))] by {
      assert [s, ""][1..] == [""];
    }
    assert ["", s, ""][1..] == [s, ""];
  }

  /** Such a block shows the same code as the assistant's refactor and
      comment commands put into the editor. */
  lemma RendererAgreesWithStripFences(tag: string, body: string)
    requires forall k :: 0 <= k < |tag| ==> IsWordChar(tag[k])
    requires '`' !in body
    ensures Render(Fence + tag + "\n" + body + Fence) ==
            [CodeBlock(StripFences(Fence + tag + "\n" + body + Fence))]
  {
    SingleBlockRender(tag, body);
    FencedBlockYieldsBody(tag, body);
  }

  lemma LoneFenceIsOnePiece()
    ensures SplitOnBlocks(Fence) == [Fence]
  {
    assert FenceAt(Fence, 0);
    assert FirstFence(Fence, 3) == None;
  }

  lemma LoneFenceHasNoCode()
    ensures CodeOf(Fence) == ""
  {
    assert Inner(Fence) == "";
    assert Trim("") == "";
  }

  /** A lone fence starts and ends with a fence, so it renders as an empty
      code block rather than as text. */
  lemma LoneFenceIsEmptyBlock()
    ensures Render(Fence) == [CodeBlock("")]
  {
    LoneFenceIsOnePiece();
    LoneFenceHasNoCode();
    assert LooksFenced(Fence);
    assert RenderPieces([Fence]) == RenderPiece(Fence) + RenderPieces([]);
  }

  /** `input.trim() && !isAiLoading`: whether the input box sends. */
  function ShouldSend(input: string, loading: bool): (r: bool)
    ensures r <==> !IsBlank(input) && !loading
  {
    TrimEmptyIffBlank(input);
    Trim(input) != "" && !loading
  }

  /** The input box and the messages it has handed to the chat. */
  class ChatInput {
    var input: string
    var sent: seq<string>

    constructor ()
      ensures input == "" && sent == []
    {
      input, sent := "", [];
    }

    method Type(value: string)
      modifies this
      ensures input == value && sent == old(sent)
    {
      input := value;
    }

    /** `handleSubmit`: the message goes untrimmed, and the box is
        emptied; a blank box or a pending answer changes nothing. */
    method Submit(loading: bool)
      modifies this
      ensures ShouldSend(old(input), loading) ==> sent == old(sent) + [old(input)] && input == ""
      ensures !ShouldSend(old(input), loading) ==> sent == old(sent) && input == old(input)
    {
      if Trim(input) != "" && !loading {
        sent := sent + [input];
        input := "";
      }
    }
  }
}
