/** The JavaScript string operations the workspace relies on, stated on
    sequences of characters: `split` on one character, `join`, `trim`,
    `toLowerCase`, `includes`, `startsWith`/`endsWith` and a global
    one-character `replace`. */
module Strings {

  /** `s.split(c)` for a one-character separator: the pieces between the
      separators, including empty ones; never an empty list. */
  function Split(s: string, c: char): (r: seq<string>)
    ensures |r| >= 1
    ensures forall k :: 0 <= k < |r| ==> c !in r[k]
  {
    if |s| == 0 then [""]
    else
      var rest := Split(s[1..], c);
      if s[0] == c then [""] + rest
      else [[s[0]] + rest[0]] + rest[1..]
  }

  /** Concatenation regroups freely; a separate fact keeps the solver from
      rediscovering it element by element inside larger proofs. */
  lemma ConcatAssoc<T>(p: seq<T>, r: seq<T>, q: seq<T>)
    ensures p + (r + q) == (p + r) + q
  {
  }

  /** `parts.join(sep)`. */
  function Join(parts: seq<string>, sep: string): string
  {
    if |parts| == 0 then ""
    else if |parts| == 1 then parts[0]
    else parts[0] + sep + Join(parts[1..], sep)
  }

  /** Joining the pieces of a split with the separator gives the string back. */
  lemma {:induction false} JoinSplit(s: string, c: char)
    ensures Join(Split(s, c), [c]) == s
  {
    if |s| > 0 {
      var rest := Split(s[1..], c);
      JoinSplit(s[1..], c);
      if s[0] == c {
        assert Split(s, c) == [""] + rest;
        assert ([""] + rest)[1..] == rest;
      } else {
        var parts := [[s[0]] + rest[0]] + rest[1..];
        assert Split(s, c) == parts;
        if |rest| == 1 {
          assert Join(parts, [c]) == [s[0]] + rest[0];
        } else {
          assert parts[1..] == rest[1..];
          assert Join(rest, [c]) == rest[0] + [c] + Join(rest[1..], [c]);
          assert Join(parts, [c]) == [s[0]] + rest[0] + [c] + Join(rest[1..], [c]);
        }
      }
    }
  }

  /** Splitting a join of separator-free pieces gives the pieces back. */
  lemma {:induction false} SplitJoin(parts: seq<string>, c: char)
    requires |parts| > 0
    requires forall k :: 0 <= k < |parts| ==> c !in parts[k]
    ensures Split(Join(parts, [c]), c) == parts
  {
    if |parts| == 1 {
      SplitWithoutSeparator(parts[0], c);
    } else {
      SplitJoin(parts[1..], c);
      SplitAfterHead(parts[0], c, Join(parts[1..], [c]));
      assert [parts[0]] + parts[1..] == parts;
    }
  }

  /** A join starts where its first piece starts. */
  lemma JoinStart(parts: seq<string>, sep: string)
    requires |parts| > 0 && parts[0] != ""
    ensures |Join(parts, sep)| > 0 && Join(parts, sep)[0] == parts[0][0]
  {
    if |parts| > 1 {
      assert Join(parts, sep) == parts[0] + (sep + Join(parts[1..], sep));
    }
  }

  /** A join ends where its last piece ends. */
  lemma {:induction false} JoinEnd(parts: seq<string>, sep: string)
    requires |parts| > 0 && parts[|parts| - 1] != ""
    ensures var j, last := Join(parts, sep), parts[|parts| - 1];
      |j| > 0 && j[|j| - 1] == last[|last| - 1]
  {
    if |parts| > 1 {
      JoinEnd(parts[1..], sep);
      var tail := Join(parts[1..], sep);
      assert Join(parts, sep) == (parts[0] + sep) + tail;
    }
  }

  /** A string without the separator splits into itself alone. */
  lemma {:induction false} SplitWithoutSeparator(s: string, c: char)
    requires c !in s
    ensures Split(s, c) == [s]
  {
    if |s| > 0 {
      SplitWithoutSeparator(s[1..], c);
      assert [s[0]] + s[1..] == s;
    }
  }

  /** Whatever comes before the last separator, the text after it is the
      last piece. */
  lemma {:induction false} LastPieceAfterSeparator(x: string, c: char, y: string)
    requires c !in y
    ensures |Split(x + [c] + y, c)| >= 2
    ensures LastPiece(x + [c] + y, c) == y
  {
    var s := x + [c] + y;
    if |x| == 0 {
      assert s == [c] + y && s[1..] == y;
      SplitWithoutSeparator(y, c);
    } else {
      LastPieceAfterSeparator(x[1..], c, y);
      assert s[1..] == x[1..] + [c] + y;
    }
  }

  /** A separator-free head and a separator split into that head followed by
      the pieces of the remainder. */
  lemma {:induction false} SplitAfterHead(x: string, c: char, y: string)
    requires c !in x
    ensures Split(x + [c] + y, c) == [x] + Split(y, c)
  {
    if |x| == 0 {
      assert x + [c] + y == [c] + y;
      assert ([c] + y)[1..] == y;
    } else {
      SplitAfterHead(x[1..], c, y);
      assert (x + [c] + y)[1..] == x[1..] + [c] + y;
      assert [x[0]] + x[1..] == x;
    }
  }

  /** The text after the last separator (`s.split(c).pop()`). */
  function LastPiece(s: string, c: char): (r: string)
    ensures c !in r
  {
    var parts := Split(s, c);
    parts[|parts| - 1]
  }

  /** The last piece is a suffix of the string, and it is the whole string
      when the separator does not occur. */
  lemma {:induction false} LastPieceIsSuffix(s: string, c: char)
    ensures |LastPiece(s, c)| <= |s|
    ensures s[|s| - |LastPiece(s, c)|..] == LastPiece(s, c)
    ensures c !in s ==> LastPiece(s, c) == s
  {
    if |s| > 0 {
      var rest := Split(s[1..], c);
      var last := LastPiece(s[1..], c);
      LastPieceIsSuffix(s[1..], c);
      assert s[|s| - |last|..] == last by {
        assert s[|s| - |last|..] == s[1..][|s[1..]| - |last|..];
      }
      if s[0] == c || |rest| > 1 {
        assert LastPiece(s, c) == last by {
          if s[0] == c {
            assert Split(s, c) == [""] + rest;
          } else {
            assert Split(s, c) == [[s[0]] + rest[0]] + rest[1..];
          }
        }
      } else {
        assert LastPiece(s, c) == s by {
          assert Split(s, c) == [[s[0]] + rest[0]];
          JoinSplit(s[1..], c);
          assert rest[0] == s[1..];
          assert [s[0]] + s[1..] == s;
        }
      }
    }
    if c !in s {
      SplitWithoutSeparator(s, c);
    }
  }

  /** `filter(Boolean)` on a list of strings: drops the empty ones and keeps
      the others in order. */
  function NonEmpty(parts: seq<string>): (r: seq<string>)
    ensures forall k :: 0 <= k < |r| ==> r[k] != ""
    ensures |r| <= |parts|
  {
    if |parts| == 0 then []
    else if parts[0] == "" then NonEmpty(parts[1..])
    else [parts[0]] + NonEmpty(parts[1..])
  }

  /** The kept pieces are exactly the non-empty pieces. */
  lemma {:induction false} NonEmptyKeeps(parts: seq<string>)
    ensures forall p :: p in NonEmpty(parts) <==> p in parts && p != ""
  {
    if |parts| > 0 {
      NonEmptyKeeps(parts[1..]);
      assert parts == [parts[0]] + parts[1..];
    }
  }
  /** A list with no empty piece is kept as it is. */
  lemma {:induction false} NonEmptyKeepsAll(parts: seq<string>)
    requires forall k :: 0 <= k < |parts| ==> parts[k] != ""
    ensures NonEmpty(parts) == parts
  {
    if |parts| > 0 {
      NonEmptyKeepsAll(parts[1..]);
      assert [parts[0]] + parts[1..] == parts;
    }
  }


  /** The characters `String.prototype.trim` removes: the ECMAScript
      WhiteSpace and LineTerminator characters. */
  predicate IsSpace(ch: char)
  {
    ch == ' ' || ch == '\t' || ch == '\n' || ch == '\r' || ch == '\U{000B}' || ch == '\U{000C}'
    || ch == '\U{00A0}' || ch == '\U{1680}' || ('\U{2000}' <= ch <= '\U{200A}')
    || ch == '\U{2028}' || ch == '\U{2029}' || ch == '\U{202F}' || ch == '\U{205F}'
    || ch == '\U{3000}' || ch == '\U{FEFF}'
  }

  predicate IsBlank(s: string)
  {
    forall k :: 0 <= k < |s| ==> IsSpace(s[k])
  }

  /** `s.trimStart()`. */
  function TrimStart(s: string): string
  {
    if |s| > 0 && IsSpace(s[0]) then TrimStart(s[1..]) else s
  }

  /** `s.trimEnd()`. */
  function TrimEnd(s: string): string
  {
    if |s| > 0 && IsSpace(s[|s| - 1]) then TrimEnd(s[..|s| - 1]) else s
  }

  /** `s.trim()`: the longest infix with no white space at either end. */
  function Trim(s: string): string
  {
    TrimEnd(TrimStart(s))
  }

  /** Trimming the start drops a blank prefix and stops at a character that
      is not white space. */
  lemma {:induction false} TrimStartDropsBlank(s: string)
    ensures var r := TrimStart(s);
      |r| <= |s| && r == s[|s| - |r|..] && IsBlank(s[..|s| - |r|])
      && (r != [] ==> !IsSpace(r[0]))
  {
    if |s| > 0 && IsSpace(s[0]) {
      TrimStartDropsBlank(s[1..]);
      var r := TrimStart(s);
      assert s[..|s| - |r|] == [s[0]] + s[1..][..|s| - 1 - |r|];
    }
  }

  /** Trimming the end drops a blank suffix and stops at a character that is
      not white space. */
  lemma {:induction false} TrimEndDropsBlank(s: string)
    ensures var r := TrimEnd(s);
      |r| <= |s| && r == s[..|r|] && IsBlank(s[|r|..])
      && (r != [] ==> !IsSpace(r[|r| - 1]))
  {
    if |s| > 0 && IsSpace(s[|s| - 1]) {
      var p := s[..|s| - 1];
      TrimEndDropsBlank(p);
      var r := TrimEnd(p);
      assert s[..|r|] == p[..|r|];
      assert s[|r|..] == p[|r|..] + [s[|s| - 1]];
    }
  }

  /** What trim keeps is an infix of the string, everything cut off is white
      space, and the result neither starts nor ends with white space. */
  lemma TrimIsInfix(s: string)
    ensures exists i :: (0 <= i <= |s| - |Trim(s)| && Trim(s) == s[i..i + |Trim(s)|]
                         && IsBlank(s[..i]) && IsBlank(s[i + |Trim(s)|..]))
    ensures Trim(s) != [] ==> !IsSpace(Trim(s)[0]) && !IsSpace(Trim(s)[|Trim(s)| - 1])
  {
    var t := TrimStart(s);
    TrimStartDropsBlank(s);
    TrimEndDropsBlank(t);
    var i := |s| - |t|;
    var r := Trim(s);
    assert r == t[..|r|];
    assert t[|r|..] == s[i + |r|..];
    assert r == s[i..i + |r|];
  }

  /** A string trims to nothing exactly when it is all white space. */
  lemma TrimEmptyIffBlank(s: string)
    ensures Trim(s) == "" <==> IsBlank(s)
  {
    var t := TrimStart(s);
    TrimStartDropsBlank(s);
    TrimEndDropsBlank(t);
    if t == "" {
      assert s[..|s|] == s;
    } else {
      assert t[0] == s[|s| - |t|];
    }
  }
  /** A text that starts and ends with something other than white space
      trims to itself. */
  lemma TrimKeepsTrimmed(s: string)
    requires s != "" && !IsSpace(s[0]) && !IsSpace(s[|s| - 1])
    ensures Trim(s) == s
  {
  }


  /** Upper-case ASCII letters as `toLowerCase` turns them. */
  function LowerChar(ch: char): char
  {
    if 'A' <= ch <= 'Z' then (ch as int - 'A' as int + 'a' as int) as char else ch
  }

  /** `s.toLowerCase()` on the letters A to Z. */
  function Lower(s: string): (r: string)
    ensures |r| == |s|
    ensures forall k :: 0 <= k < |s| ==> r[k] == LowerChar(s[k])
  {
    if |s| == 0 then "" else [LowerChar(s[0])] + Lower(s[1..])
  }

  /** JavaScript's `length`: the number of UTF-16 code units, two for a
      character outside the Basic Multilingual Plane. */
  function Utf16Length(s: string): (r: nat)
    ensures r >= |s|
  {
    if |s| == 0 then 0 else (if s[0] as int < 0x1_0000 then 1 else 2) + Utf16Length(s[1..])
  }

  /** A text is one UTF-16 code unit long exactly when it is one character
      of the Basic Multilingual Plane. */
  lemma Utf16LengthOne(s: string)
    ensures Utf16Length(s) == 1 <==> |s| == 1 && s[0] as int < 0x1_0000
  {
    if |s| > 0 {
      assert Utf16Length(s[1..]) >= |s| - 1;
    }
  }

  /** Lowering is idempotent. */
  lemma LowerTwice(s: string)
    ensures Lower(Lower(s)) == Lower(s)
  {
  }

  predicate IsLetter(ch: char)
  {
    'A' <= ch <= 'Z' || 'a' <= ch <= 'z'
  }

  /** Every piece lowered. */
  function LowerAll(parts: seq<string>): (r: seq<string>)
    ensures |r| == |parts|
    ensures forall k :: 0 <= k < |parts| ==> r[k] == Lower(parts[k])
  {
    if |parts| == 0 then [] else [Lower(parts[0])] + LowerAll(parts[1..])
  }

  lemma LowerAllCons(p: string, parts: seq<string>)
    ensures LowerAll([p] + parts) == [Lower(p)] + LowerAll(parts)
  {
    assert ([p] + parts)[1..] == parts;
  }

  /** Lowering a string commutes with splitting it on a character that is not
      a letter. */
  lemma {:induction false} LowerCommutesWithSplit(s: string, c: char)
    requires !IsLetter(c)
    ensures Split(Lower(s), c) == LowerAll(Split(s, c))
  {
    if |s| > 0 {
      var t := Lower(s);
      var rest := Split(s[1..], c);
      LowerCommutesWithSplit(s[1..], c);
      assert t[0] == LowerChar(s[0]) && t[1..] == Lower(s[1..]);
      assert (t[0] == c) == (s[0] == c);
      if s[0] == c {
        assert Split(s, c) == [""] + rest;
        assert Split(t, c) == [""] + LowerAll(rest);
        LowerAllCons("", rest);
      } else {
        var head := [s[0]] + rest[0];
        assert Split(s, c) == [head] + rest[1..];
        assert Lower(head) == [t[0]] + Lower(rest[0]) by {
          assert head[1..] == rest[0];
        }
        assert LowerAll(rest) == [Lower(rest[0])] + LowerAll(rest[1..]) by {
          LowerAllCons(rest[0], rest[1..]);
          assert [rest[0]] + rest[1..] == rest;
        }
        LowerAllCons(head, rest[1..]);
      }
    } else {
      assert Lower(s) == "";
    }
  }

  /** The last piece of a lowered string is the lowered last piece. */
  lemma LowerLastPiece(s: string, c: char)
    requires !IsLetter(c)
    ensures LastPiece(Lower(s), c) == Lower(LastPiece(s, c))
  {
    LowerCommutesWithSplit(s, c);
  }

  /** `s.includes(sub)`. */
  predicate Contains(s: string, sub: string)
  {
    exists i :: 0 <= i <= |s| && sub <= s[i..]
  }

  /** Every string includes the empty string. */
  lemma ContainsEmpty(s: string)
    ensures Contains(s, "")
  {
    assert "" <= s[0..];
  }

  predicate StartsWith(s: string, prefix: string)
  {
    prefix <= s
  }

  predicate EndsWith(s: string, suffix: string)
  {
    |suffix| <= |s| && s[|s| - |suffix|..] == suffix
  }

  /** `s.replace(/c/g, repl)`: every occurrence of `c` becomes `repl`. */
  function ReplaceAll(s: string, c: char, repl: string): (r: string)
    ensures c !in repl ==> c !in r
  {
    if |s| == 0 then ""
    else (if s[0] == c then repl else [s[0]]) + ReplaceAll(s[1..], c, repl)
  }

  /** Replacing a character everywhere is the same as splitting on it and
      joining with the replacement. */
  lemma {:induction false} ReplaceAllIsSplitJoin(s: string, c: char, repl: string)
    ensures ReplaceAll(s, c, repl) == Join(Split(s, c), repl)
  {
    if |s| > 0 {
      ReplaceAllIsSplitJoin(s[1..], c, repl);
      var rest := Split(s[1..], c);
      if s[0] == c {
        assert ([""] + rest)[1..] == rest;
      } else {
        var parts := [[s[0]] + rest[0]] + rest[1..];
        if |rest| > 1 {
          assert parts[1..] == rest[1..];
          assert Join(rest, repl) == rest[0] + repl + Join(rest[1..], repl);
        }
      }
    }
  }
}
