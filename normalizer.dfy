/**
 * `remove_comments_and_whitespace` of DaObfu/daobfu.py: two MULTILINE regex
 * substitutions, modelled as scanners over the lines of the script.
 *
 * `^\s*#.*$` -> '' : a match starts at a line start, lets `\s*` run over
 *   whitespace, newlines included, and needs '#' as the first non-whitespace
 *   character; `.*$` then stops before the line's '\n'. Line by line: a comment
 *   line becomes empty but keeps its line break, and the whitespace-only lines
 *   directly before it are swallowed by the same match.
 * `^\s*\n` -> '' : `\s*` backtracks to the last '\n' of the whitespace run, so
 *   every whitespace-only line that ends in '\n' disappears; the final,
 *   unterminated line stays even when it is blank.
 */
module Normalizer {
  import opened Text

  /** Number of leading whitespace characters of a line. */
  function Indent(line: string): (k: nat)
    ensures k <= |line|
    ensures IsBlank(line[..k])
    ensures k < |line| ==> !IsSpace(line[k])
  {
    if line != [] && IsSpace(line[0]) then 1 + Indent(line[1..]) else 0
  }

  /** A full-line comment: '#' is the first non-whitespace character. */
  predicate IsCommentLine(line: string)
  {
    var k := Indent(line);
    k < |line| && line[k] == '#'
  }

  /** A line holding something other than whitespace and not a full-line comment. */
  predicate IsCodeLine(line: string)
  {
    !IsBlank(line) && !IsCommentLine(line)
  }

  /** A whitespace-only line is never a comment line. */
  lemma BlankIsNotComment(line: string)
    requires IsBlank(line)
    ensures !IsCommentLine(line)
  {
  }

  /** The first line of `ls` that is not whitespace-only exists and is a comment. */
  predicate CommentFollows(ls: seq<string>)
  {
    ls != [] && (IsCommentLine(ls[0]) || (IsBlank(ls[0]) && CommentFollows(ls[1..])))
  }

  /** The comment pattern applied to a list of lines. */
  function StripCommentLines(ls: seq<string>): (r: seq<string>)
    ensures forall i :: 0 <= i < |r| ==> !IsCommentLine(r[i])
    ensures forall i :: 0 <= i < |r| ==> r[i] == "" || r[i] in ls
    ensures |r| <= |ls| && (r == [] <==> ls == [])
    ensures Width(r) <= Width(ls)
  {
    if ls == [] then []
    else if IsCommentLine(ls[0]) then [""] + StripCommentLines(ls[1..])
    else if IsBlank(ls[0]) && CommentFollows(ls[1..]) then StripCommentLines(ls[1..])
    else
      var rest := StripCommentLines(ls[1..]);
      assert forall i :: 0 <= i < |rest| ==> rest[i] == "" || rest[i] in ls;
      [ls[0]] + rest
  }

  /** The lines holding code, in order. */
  function CodeLines(ls: seq<string>): seq<string>
  {
    if ls == [] then [] else (if IsCodeLine(ls[0]) then [ls[0]] else []) + CodeLines(ls[1..])
  }

  /** Every code line, a line with a trailing comment included, survives unchanged and in order. */
  lemma {:induction false} StripCommentLinesKeepsCode(ls: seq<string>)
    ensures CodeLines(StripCommentLines(ls)) == CodeLines(ls)
  {
    if ls != [] {
      StripCommentLinesKeepsCode(ls[1..]);
      var rest := StripCommentLines(ls[1..]);
      if IsCommentLine(ls[0]) {
        var r := [""] + rest;
        assert r[0] == "" && r[1..] == rest;
        assert !IsCodeLine(r[0]) && !IsCodeLine(ls[0]);
        assert CodeLines(r) == CodeLines(rest);
      } else if IsBlank(ls[0]) && CommentFollows(ls[1..]) {
        assert !IsCodeLine(ls[0]);
      } else {
        var r := [ls[0]] + rest;
        assert r[0] == ls[0] && r[1..] == rest;
        assert CodeLines(r) == (if IsCodeLine(ls[0]) then [ls[0]] else []) + CodeLines(rest);
      }
    }
  }

  /**
   * Reference reading of the comment pattern, line by line: a comment line becomes
   * empty, a blank line is swallowed when only blank lines separate it from a later
   * comment line, and every other line stays.
   */
  ghost predicate SwallowedBlank(ls: seq<string>, i: nat)
    requires i < |ls|
  {
    IsBlank(ls[i])
    && exists j :: i < j < |ls| && IsCommentLine(ls[j]) && forall k :: i < k < j ==> IsBlank(ls[k])
  }

  ghost function CommentReference(ls: seq<string>, i: nat): seq<string>
    requires i <= |ls|
    decreases |ls| - i
  {
    if i == |ls| then []
    else
      var kept := if IsCommentLine(ls[i]) then [""] else if SwallowedBlank(ls, i) then [] else [ls[i]];
      kept + CommentReference(ls, i + 1)
  }

  /** `CommentFollows` of a suffix: a comment line comes after blank lines only. */
  lemma {:induction false} CommentFollowsAt(ls: seq<string>, i: nat)
    requires i <= |ls|
    ensures CommentFollows(ls[i..]) <==>
      exists j :: i <= j < |ls| && IsCommentLine(ls[j]) && forall k :: i <= k < j ==> IsBlank(ls[k])
    decreases |ls| - i
  {
    if i < |ls| {
      CommentFollowsAt(ls, i + 1);
      assert ls[i..][0] == ls[i] && ls[i..][1..] == ls[i + 1..];
      if CommentFollows(ls[i..]) && !IsCommentLine(ls[i]) {
        var j :| i + 1 <= j < |ls| && IsCommentLine(ls[j]) && forall k :: i + 1 <= k < j ==> IsBlank(ls[k]);
        assert forall k :: i <= k < j ==> IsBlank(ls[k]);
      }
      if !CommentFollows(ls[i..]) {
        forall j | i <= j < |ls| && IsCommentLine(ls[j])
          ensures exists k :: i <= k < j && !IsBlank(ls[k])
        {
          if j == i {
            assert false;
          } else if IsBlank(ls[i]) {
            var k :| i + 1 <= k < j && !IsBlank(ls[k]);
          } else {
            assert !IsBlank(ls[i]);
          }
        }
      }
    } else {
      assert ls[i..] == [];
    }
  }

  /** A line is swallowed exactly when it is blank and a comment follows it after blank lines only. */
  lemma SwallowedBlankIff(ls: seq<string>, i: nat)
    requires i < |ls|
    ensures SwallowedBlank(ls, i) <==> IsBlank(ls[i]) && CommentFollows(ls[i + 1..])
  {
    CommentFollowsAt(ls, i + 1);
  }

  /** The scanner computes the reference reading on every suffix. */
  lemma {:induction false} StripCommentLinesFrom(ls: seq<string>, i: nat)
    requires i <= |ls|
    ensures StripCommentLines(ls[i..]) == CommentReference(ls, i)
    decreases |ls| - i
  {
    if i < |ls| {
      var t := ls[i..];
      assert t != [] && t[0] == ls[i] && t[1..] == ls[i + 1..];
      StripCommentLinesFrom(ls, i + 1);
      SwallowedBlankIff(ls, i);
      var rest := StripCommentLines(ls[i + 1..]);
      if IsCommentLine(ls[i]) {
        assert StripCommentLines(t) == [""] + rest;
      } else if IsBlank(ls[i]) && CommentFollows(ls[i + 1..]) {
        assert StripCommentLines(t) == rest;
      } else {
        assert StripCommentLines(t) == [ls[i]] + rest;
      }
    } else {
      assert ls[i..] == [];
    }
  }

  /**
   * The comment scanner is the reference reading: each comment line leaves one empty
   * line behind, together with the blank lines directly before it.
   */
  lemma StripCommentLinesReference(ls: seq<string>)
    ensures StripCommentLines(ls) == CommentReference(ls, 0)
  {
    StripCommentLinesFrom(ls, 0);
    assert ls[0..] == ls;
  }

  /** Blank lines directly before a comment line go with it, leaving one empty line. */
  lemma SwallowExample()
    ensures StripCommentLines(["a", "  ", "# c", "b"]) == ["a", "", "b"]
  {
    CodeStart("a");
    CodeStart("b");
    assert IsCommentLine("# c") by { assert Indent("# c") == 0; }
    assert IsBlank("  ") && !IsCommentLine("  ");
    assert StripCommentLines(["b"]) == ["b"] by { assert ["b"][1..] == []; }
    assert StripCommentLines(["# c", "b"]) == ["", "b"] by { assert ["# c", "b"][1..] == ["b"]; }
    assert CommentFollows(["# c", "b"]);
    assert StripCommentLines(["  ", "# c", "b"]) == ["", "b"] by { assert ["  ", "# c", "b"][1..] == ["# c", "b"]; }
    assert ["a", "  ", "# c", "b"][1..] == ["  ", "# c", "b"];
  }

  /** A comment, a blank line and a comment leave two empty lines: the blank line goes with the second comment. */
  lemma CommentRunExample()
    ensures StripCommentLines(["# a", "", "# b"]) == ["", ""]
  {
    assert StripCommentLines(["# b"]) == [""] by { assert ["# b"][1..] == []; }
    assert CommentFollows(["# b"]);
    assert StripCommentLines(["", "# b"]) == [""] by { assert ["", "# b"][1..] == ["# b"]; }
    assert ["# a", "", "# b"][1..] == ["", "# b"];
  }

  /** A blank line between code lines stays. */
  lemma KeptBlankExample()
    ensures StripCommentLines(["a", "", "b"]) == ["a", "", "b"]
  {
    CodeStart("a");
    CodeStart("b");
    BlankIsNotComment("");
    assert StripCommentLines(["b"]) == ["b"] by { assert ["b"][1..] == []; }
    assert !CommentFollows(["b"]);
    assert StripCommentLines(["", "b"]) == ["", "b"] by { assert ["", "b"][1..] == ["b"]; }
    assert ["a", "", "b"][1..] == ["", "b"];
  }

  /** A line that starts with a character other than whitespace and '#' is a code line. */
  lemma CodeStart(line: string)
    requires line != [] && !IsSpace(line[0]) && line[0] != '#'
    ensures !IsBlank(line) && !IsCommentLine(line)
  {
    assert Indent(line) == 0;
  }

  lemma {:induction false} NoCommentFollows(ls: seq<string>)
    requires forall i :: 0 <= i < |ls| ==> !IsCommentLine(ls[i])
    ensures !CommentFollows(ls)
  {
    if ls != [] {
      NoCommentFollows(ls[1..]);
    }
  }

  /** Lines without a full-line comment are left exactly as they are. */
  lemma {:induction false} StripCommentLinesIdentity(ls: seq<string>)
    requires forall i :: 0 <= i < |ls| ==> !IsCommentLine(ls[i])
    ensures StripCommentLines(ls) == ls
  {
    if ls != [] {
      NoCommentFollows(ls[1..]);
      StripCommentLinesIdentity(ls[1..]);
      assert [ls[0]] + ls[1..] == ls;
    }
  }

  /** The blank-line pattern applied to a list of lines. */
  function DropBlankLines(ls: seq<string>): (r: seq<string>)
    ensures |r| <= |ls| && (r == [] <==> ls == [])
    ensures forall i :: 0 <= i < |r| - 1 ==> !IsBlank(r[i])
    ensures ls != [] ==> r[|r| - 1] == ls[|ls| - 1]
    ensures forall i :: 0 <= i < |r| ==> r[i] in ls
    ensures Width(r) <= Width(ls)
  {
    if |ls| <= 1 then ls
    else if IsBlank(ls[0]) then DropBlankLines(ls[1..])
    else
      var rest := DropBlankLines(ls[1..]);
      assert forall i :: 0 <= i < |rest| ==> rest[i] in ls;
      [ls[0]] + rest
  }

  /** The lines holding a non-whitespace character, in order. */
  function NonBlankLines(ls: seq<string>): seq<string>
  {
    if ls == [] then [] else (if IsBlank(ls[0]) then [] else [ls[0]]) + NonBlankLines(ls[1..])
  }

  /** Reference definition: the non-blank newline-terminated lines in order, then the last line as it was. */
  lemma {:induction false} DropBlankLinesReference(ls: seq<string>)
    requires ls != []
    ensures DropBlankLines(ls) == NonBlankLines(ls[..|ls| - 1]) + [ls[|ls| - 1]]
  {
    if |ls| > 1 {
      var init := ls[..|ls| - 1];
      DropBlankLinesReference(ls[1..]);
      assert ls[1..][..|ls| - 2] == init[1..];
      assert ls[1..][|ls| - 2] == ls[|ls| - 1];
      assert init[0] == ls[0];
      assert NonBlankLines(init) == (if IsBlank(ls[0]) then [] else [ls[0]]) + NonBlankLines(init[1..]);
    }
  }

  lemma {:induction false} NonBlankLinesAppend(a: seq<string>, b: seq<string>)
    ensures NonBlankLines(a + b) == NonBlankLines(a) + NonBlankLines(b)
  {
    if a == [] {
      assert a + b == b;
    } else {
      assert (a + b)[1..] == a[1..] + b;
      NonBlankLinesAppend(a[1..], b);
    }
  }

  /** Blank-line removal keeps every non-blank line, unchanged and in order. */
  lemma DropBlankLinesKeepsNonBlank(ls: seq<string>)
    ensures NonBlankLines(DropBlankLines(ls)) == NonBlankLines(ls)
  {
    if ls != [] {
      var init := ls[..|ls| - 1];
      var last := ls[|ls| - 1];
      DropBlankLinesReference(ls);
      NonBlankFixpoint(init);
      NonBlankLinesAppend(NonBlankLines(init), [last]);
      NonBlankLinesAppend(init, [last]);
      assert init + [last] == ls;
    }
  }

  lemma {:induction false} NonBlankFixpoint(ls: seq<string>)
    ensures NonBlankLines(NonBlankLines(ls)) == NonBlankLines(ls)
  {
    if ls != [] {
      NonBlankFixpoint(ls[1..]);
      var head := if IsBlank(ls[0]) then [] else [ls[0]];
      NonBlankLinesAppend(head, NonBlankLines(ls[1..]));
    }
  }

  // ---------------------------------------------------------------------------
  // On the text

  /** `re.sub(r'^\s*#.*$', '', s, flags=re.MULTILINE)` */
  function StripComments(s: string): string
  {
    Join(StripCommentLines(Split(s)))
  }

  /** `re.sub(r'^\s*\n', '', s, flags=re.MULTILINE)` */
  function StripBlankLines(s: string): string
  {
    Join(DropBlankLines(Split(s)))
  }

  /** `remove_comments_and_whitespace(script_content, remove_comments, remove_whitespace)` */
  function RemoveCommentsAndWhitespace(s: string, removeComments: bool, removeWhitespace: bool): (r: string)
    ensures !removeComments && !removeWhitespace ==> r == s
  {
    var afterComments := if removeComments then StripComments(s) else s;
    if removeWhitespace then StripBlankLines(afterComments) else afterComments
  }

  lemma StripCommentLinesNoNewlines(ls: seq<string>)
    requires NoNewlines(ls)
    ensures NoNewlines(StripCommentLines(ls))
  {
    var r := StripCommentLines(ls);
    forall i | 0 <= i < |r| ensures '\n' !in r[i] {
      if r[i] != "" {
        var j :| 0 <= j < |ls| && ls[j] == r[i];
      }
    }
  }

  lemma DropBlankLinesNoNewlines(ls: seq<string>)
    requires NoNewlines(ls)
    ensures NoNewlines(DropBlankLines(ls))
  {
    var r := DropBlankLines(ls);
    forall i | 0 <= i < |r| ensures '\n' !in r[i] {
      var j :| 0 <= j < |ls| && ls[j] == r[i];
    }
  }

  /** After comment removal no line of the text is a full-line comment, and the text got no longer. */
  lemma StripCommentsSpec(s: string)
    ensures var lines := Split(StripComments(s));
      forall i :: 0 <= i < |lines| ==> !IsCommentLine(lines[i])
    ensures CodeLines(Split(StripComments(s))) == CodeLines(Split(s))
    ensures |StripComments(s)| <= |s|
  {
    var r := StripCommentLines(Split(s));
    StripCommentLinesNoNewlines(Split(s));
    SplitJoin(r);
    StripCommentLinesKeepsCode(Split(s));
    JoinLength(r);
    JoinLength(Split(s));
    JoinSplit(s);
  }

  /** After blank-line removal every newline-terminated line holds a non-whitespace character,
      the non-blank lines are kept in order, and the text got no longer. */
  lemma StripBlankLinesSpec(s: string)
    ensures var lines := Split(StripBlankLines(s));
      forall i :: 0 <= i < |lines| - 1 ==> !IsBlank(lines[i])
    ensures NonBlankLines(Split(StripBlankLines(s))) == NonBlankLines(Split(s))
    ensures |StripBlankLines(s)| <= |s|
  {
    var r := DropBlankLines(Split(s));
    DropBlankLinesNoNewlines(Split(s));
    SplitJoin(r);
    DropBlankLinesKeepsNonBlank(Split(s));
    JoinLength(r);
    JoinLength(Split(s));
    JoinSplit(s);
  }

  /** With both flags on, the result has no comment line and no blank newline-terminated line. */
  lemma RemoveBothSpec(s: string)
    ensures var lines := Split(RemoveCommentsAndWhitespace(s, true, true));
      && (forall i :: 0 <= i < |lines| ==> !IsCommentLine(lines[i]))
      && (forall i :: 0 <= i < |lines| - 1 ==> !IsBlank(lines[i]))
    ensures |RemoveCommentsAndWhitespace(s, true, true)| <= |s|
  {
    var t := StripComments(s);
    StripCommentsSpec(s);
    StripBlankLinesSpec(t);
    var lt := Split(t);
    var r := DropBlankLines(lt);
    DropBlankLinesNoNewlines(lt);
    SplitJoin(r);
    DropBlankLinesNoComment(lt);
  }

  lemma DropBlankLinesNoComment(ls: seq<string>)
    requires forall i :: 0 <= i < |ls| ==> !IsCommentLine(ls[i])
    ensures var r := DropBlankLines(ls); forall i :: 0 <= i < |r| ==> !IsCommentLine(r[i])
  {
    var r := DropBlankLines(ls);
    forall i | 0 <= i < |r| ensures !IsCommentLine(r[i]) {
      var j :| 0 <= j < |ls| && ls[j] == r[i];
    }
  }

  /** The full-line comments, in order. */
  function CommentLines(ls: seq<string>): seq<string>
  {
    if ls == [] then [] else (if IsCommentLine(ls[0]) then [ls[0]] else []) + CommentLines(ls[1..])
  }

  /** Dropping whitespace-only lines drops no comment line. */
  lemma {:induction false} CommentLinesOfNonBlank(ls: seq<string>)
    ensures CommentLines(NonBlankLines(ls)) == CommentLines(ls)
  {
    if ls != [] {
      CommentLinesOfNonBlank(ls[1..]);
      var rest := NonBlankLines(ls[1..]);
      if IsBlank(ls[0]) {
        BlankIsNotComment(ls[0]);
        assert NonBlankLines(ls) == rest;
      } else {
        var r := [ls[0]] + rest;
        assert NonBlankLines(ls) == r;
        assert r[0] == ls[0] && r[1..] == rest;
      }
    }
  }

  /** With only the blank-line flag set, every comment line survives unchanged and in order. */
  lemma BlankLinesOnlyKeepsComments(s: string)
    ensures CommentLines(Split(RemoveCommentsAndWhitespace(s, false, true))) == CommentLines(Split(s))
  {
    StripBlankLinesSpec(s);
    CommentLinesOfNonBlank(Split(StripBlankLines(s)));
    CommentLinesOfNonBlank(Split(s));
  }
}
