/** Cleaning the code returned by the assistant for the refactor and
    add-comments commands: the reply is trimmed, one opening code fence
    (with an optional language tag on its own line) and one closing fence at
    the very end are cut off, and the rest is trimmed again. */
module Fences {
  import opened Strings

  const Fence: string := "```"

  /** A character of the regular-expression class `\w`. */
  predicate IsWordChar(ch: char)
  {
    'A' <= ch <= 'Z' || 'a' <= ch <= 'z' || '0' <= ch <= '9' || ch == '_'
  }

  /** The longest prefix made of word characters. */
  function WordRun(s: string): (r: string)
    ensures r <= s
    ensures forall k :: 0 <= k < |r| ==> IsWordChar(r[k])
    ensures |r| < |s| ==> !IsWordChar(s[|r|])
  {
    if |s| > 0 && IsWordChar(s[0]) then [s[0]] + WordRun(s[1..]) else ""
  }

  /** `replace(/^```(?:\w+\n)?/, '')`: a leading fence is removed, together
      with a word followed by a line break right after it when there is one
      (a word not followed by a line break stays). */
  function StripOpening(s: string): string
  {
    if StartsWith(s, Fence) then
      var rest := s[3..];
      var tag := WordRun(rest);
      if |tag| > 0 && |tag| < |rest| && rest[|tag|] == '\n' then rest[|tag| + 1..] else rest
    else s
  }

  /** `replace(/```$/, '')`: a fence at the very end of the text is removed
      (the pattern has no multi-line flag, so only the end of the input
      counts). */
  function StripClosing(s: string): string
  {
    if EndsWith(s, Fence) then s[..|s| - 3] else s
  }

  /** The code put into the editor for an assistant reply. */
  function StripFences(reply: string): string
  {
    Trim(StripClosing(StripOpening(Trim(reply))))
  }

  /** The cleaned code neither starts nor ends with white space. */
  lemma StripFencesIsTrimmed(reply: string)
    ensures var r := StripFences(reply); r == "" || (!IsSpace(r[0]) && !IsSpace(r[|r| - 1]))
  {
    TrimIsInfix(StripClosing(StripOpening(Trim(reply))));
  }

  /** A line break in front of a text makes no difference once trimmed. */
  lemma TrimAfterBreak(body: string)
    ensures Trim("\n" + body) == Trim(body)
  {
    assert ("\n" + body)[1..] == body;
  }

  /** A fence at the end of a text is what the closing step cuts. */
  lemma ClosingFenceGoes(x: string)
    ensures StripClosing(x + Fence) == x
  {
    assert (x + Fence)[|x|..] == Fence;
    assert (x + Fence)[..|x|] == x;
  }

  /** The opening step cuts the fence and, when there is one, the tag with
      its line break. */
  lemma OpeningFenceGoes(s: string, tag: string, after: string)
    requires forall k :: 0 <= k < |tag| ==> IsWordChar(tag[k])
    requires s == Fence + tag + "\n" + after
    ensures StripOpening(s) == if |tag| > 0 then after else "\n" + after
  {
    var rest := tag + ("\n" + after);
    assert StartsWith(s, Fence) && s[3..] == rest by {
      assert s == Fence + rest;
    }
    WordRunPrefix(tag, "\n" + after);
    if |tag| > 0 {
      assert rest[|tag|] == '\n';
      assert rest[|tag| + 1..] == after;
    } else {
      assert rest == "\n" + after;
    }
  }

  /** The three cleaning steps, one after the other. */
  lemma StripFencesSteps(reply: string, mid: string)
    requires Trim(reply) == reply && StripClosing(StripOpening(reply)) == mid
    ensures StripFences(reply) == Trim(mid)
  {
  }

  /** A fenced block starts and ends with a backtick, so trimming keeps it. */
  lemma FencedBlockIsTrimmed(tag: string, body: string)
    ensures Trim(Fence + tag + "\n" + body + Fence) == Fence + tag + "\n" + body + Fence
  {
    var reply := Fence + tag + "\n" + body + Fence;
    assert reply[0] == '`' && reply[|reply| - 1] == '`';
    TrimKeepsTrimmed(reply);
  }

  /** Both fences of a block go, and with the opening one its tag. */
  lemma FencedBlockUnwraps(tag: string, body: string)
    requires forall k :: 0 <= k < |tag| ==> IsWordChar(tag[k])
    ensures StripClosing(StripOpening(Fence + tag + "\n" + body + Fence))
            == if |tag| > 0 then body else "\n" + body
  {
    var reply := Fence + tag + "\n" + body + Fence;
    ConcatAssoc(Fence + tag + "\n", body, Fence);
    OpeningFenceGoes(reply, tag, body + Fence);
    if |tag| > 0 {
      ClosingFenceGoes(body);
    } else {
      ConcatAssoc("\n", body, Fence);
      ClosingFenceGoes("\n" + body);
    }
  }

  /** A reply that is one fenced block, with or without a language tag,
      yields the block's body, trimmed. */
  lemma FencedBlockYieldsBody(tag: string, body: string)
    requires forall k :: 0 <= k < |tag| ==> IsWordChar(tag[k])
    ensures StripFences(Fence + tag + "\n" + body + Fence) == Trim(body)
  {
    var reply := Fence + tag + "\n" + body + Fence;
    FencedBlockIsTrimmed(tag, body);
    FencedBlockUnwraps(tag, body);
    if |tag| > 0 {
      StripFencesSteps(reply, body);
    } else {
      StripFencesSteps(reply, "\n" + body);
      TrimAfterBreak(body);
    }
  }

  /** A reply with no fence at either end is only trimmed. */
  lemma UnfencedReplyIsTrimmed(reply: string)
    requires !StartsWith(Trim(reply), Fence) && !EndsWith(Trim(reply), Fence)
    ensures StripFences(reply) == Trim(reply)
  {
    var t := Trim(reply);
    TrimIsInfix(reply);
    if t != "" {
      TrimKeepsTrimmed(t);
    }
  }

  /** A fence tag not followed by a line break is kept: only the three
      backticks go. */
  lemma TagWithoutBreakStays(tag: string, body: string)
    requires |tag| > 0 && forall k :: 0 <= k < |tag| ==> IsWordChar(tag[k])
    requires body == "" || (!IsWordChar(body[0]) && body[0] != '\n')
    ensures StripOpening(Fence + tag + body) == tag + body
  {
    var rest := (Fence + tag + body)[3..];
    assert rest == tag + body;
    assert WordRun(rest) == tag by {
      WordRunPrefix(tag, body);
    }
  }

  lemma {:induction false} WordRunPrefix(tag: string, body: string)
    requires forall k :: 0 <= k < |tag| ==> IsWordChar(tag[k])
    requires body == "" || !IsWordChar(body[0])
    ensures WordRun(tag + body) == tag
  {
    if |tag| > 0 {
      assert (tag + body)[1..] == tag[1..] + body;
      WordRunPrefix(tag[1..], body);
      assert [tag[0]] + tag[1..] == tag;
    } else {
      assert tag + body == body;
    }
  }
}
