/** Line splitting as Rust's `str::lines` performs it: the text is cut at every
    '\n'; a '\n' that ends the text does not open one more, empty, line (so the
    empty text has no lines); and one trailing '\r' is dropped from every piece,
    so that "\r\n" line endings are accepted too. */
module LineSplit {

  /** Index of the first '\n' in `s`, or `|s|` when `s` has none. */
  function LineEnd(s: string): (i: nat)
    ensures i <= |s|
    ensures '\n' !in s[..i]
    ensures i < |s| ==> s[i] == '\n'
  {
    if s == [] then 0
    else if s[0] == '\n' then 0
    else
      var j := LineEnd(s[1..]);
      assert s[..1 + j] == [s[0]] + s[1..][..j];
      1 + j
  }

  /** The three properties of `LineEnd` pin it down: the first '\n' is at `k`
      (or there is none and `k == |s|`) exactly when `LineEnd(s) == k`. */
  lemma LineEndIs(s: string, k: nat)
    requires k <= |s| && '\n' !in s[..k] && (k < |s| ==> s[k] == '\n')
    ensures LineEnd(s) == k
  {
  }

  /** `s` is empty or ends with '\n': the last line of `s`, if any, is terminated. */
  predicate Terminated(s: string)
  {
    s == [] || s[|s| - 1] == '\n'
  }

  /** The pieces of `s` between '\n' terminators, as `split_terminator('\n')`:
      a final empty piece after a trailing '\n' is not produced. */
  function SplitTerminator(s: string): (pieces: seq<string>)
    ensures forall p <- pieces :: '\n' !in p
    ensures pieces == [] <==> s == []
    decreases |s|
  {
    if s == [] then []
    else
      var i := LineEnd(s);
      [s[..i]] + (if i == |s| then [] else SplitTerminator(s[i + 1..]))
  }

  /** The text made of `lines`, each one followed by '\n'. */
  function Terminate(lines: seq<string>): string
  {
    if lines == [] then [] else lines[0] + "\n" + Terminate(lines[1..])
  }

  /** Writing out a first line and then the rest. */
  lemma TerminateCons(l: string, lines: seq<string>)
    ensures Terminate([l] + lines) == l + "\n" + Terminate(lines)
  {
    assert ([l] + lines)[1..] == lines;
  }

  /** Splitting loses nothing but a missing final '\n': re-terminating the pieces
      gives back `s`, with a '\n' added when `s` did not end with one. */
  lemma {:induction false} TerminateSplitTerminator(s: string)
    ensures Terminate(SplitTerminator(s)) == if Terminated(s) then s else s + "\n"
    decreases |s|
  {
    if s != [] {
      var i := LineEnd(s);
      if i == |s| {
        assert s[..|s|] == s;
        assert s[|s| - 1] in s[..|s|];
      } else {
        var head, rest := s[..i], s[i + 1..];
        assert s == head + "\n" + rest;
        TerminateCons(head, SplitTerminator(rest));
        TerminateSplitTerminator(rest);
        if rest == [] {
          assert Terminated(s);
        } else {
          assert rest[|rest| - 1] == s[|s| - 1];
          if !Terminated(s) {
            assert head + "\n" + (rest + "\n") == s + "\n";
          }
        }
      }
    }
  }

  /** Splitting undoes `Terminate` on lines that hold no '\n'. */
  lemma {:induction false} SplitTerminatorTerminate(lines: seq<string>)
    requires forall l <- lines :: '\n' !in l
    ensures SplitTerminator(Terminate(lines)) == lines
  {
    if lines != [] {
      var s, l, rest := Terminate(lines), lines[0], Terminate(lines[1..]);
      assert s == l + ("\n" + rest);
      assert s[..|l|] == l;
      LineEndIs(s, |l|);
      assert s[|l| + 1..] == rest;
      assert SplitTerminator(s) == [l] + SplitTerminator(rest);
      SplitTerminatorTerminate(lines[1..]);
    }
  }

  /** A final '\n' is optional: adding one to a text that lacks it adds no piece. */
  lemma {:induction false} SplitTerminatorFinalNewline(s: string)
    requires !Terminated(s)
    ensures SplitTerminator(s + "\n") == SplitTerminator(s)
    decreases |s|
  {
    var t := s + "\n";
    var i := LineEnd(s);
    assert t[..i] == s[..i];
    if i == |s| {
      assert s[..|s|] == s;
      LineEndIs(t, |s|);
      assert t[|s| + 1..] == [];
    } else {
      LineEndIs(t, i);
      var rest := s[i + 1..];
      assert t[i + 1..] == rest + "\n";
      assert rest != [] && rest[|rest| - 1] == s[|s| - 1];
      SplitTerminatorFinalNewline(rest);
    }
  }

  /** The piece ends in '\r', as a piece of a "\r\n"-terminated line does. */
  predicate EndsWithCR(piece: string)
  {
    piece != [] && piece[|piece| - 1] == '\r'
  }

  /** The piece with one trailing '\r' removed, if it has one. */
  function StripCR(piece: string): (line: string)
    ensures line <= piece && |piece| <= |line| + 1
    ensures line != piece <==> EndsWithCR(piece)
  {
    if EndsWithCR(piece) then piece[..|piece| - 1] else piece
  }

  /** The lines of `s` as Rust's `str::lines` yields them, in order. */
  function Lines(s: string): (lines: seq<string>)
    ensures |lines| == |SplitTerminator(s)|
    ensures forall l <- lines :: '\n' !in l
    ensures lines == [] <==> s == []
  {
    var pieces := SplitTerminator(s);
    var lines := seq(|pieces|, k requires 0 <= k < |pieces| => StripCR(pieces[k]));
    assert forall k | 0 <= k < |lines| :: lines[k] <= pieces[k] && pieces[k] in pieces;
    lines
  }

  /** A text and the same text with a final '\n' have the same lines. */
  lemma LinesFinalNewline(s: string)
    requires !Terminated(s)
    ensures Lines(s + "\n") == Lines(s)
  {
    SplitTerminatorFinalNewline(s);
  }

  /** Every character of a piece of `s` is a character of `s`. */
  lemma {:induction false} SplitTerminatorChars(s: string, c: char)
    requires c !in s
    ensures forall p <- SplitTerminator(s) :: c !in p
    decreases |s|
  {
    if s != [] {
      var i := LineEnd(s);
      assert forall k | 0 <= k < i :: s[..i][k] == s[k];
      if i < |s| {
        var rest := s[i + 1..];
        assert forall k | 0 <= k < |rest| :: rest[k] == s[i + 1 + k];
        SplitTerminatorChars(rest, c);
      }
    }
  }

  /** When no piece of `s` ends in '\r', the lines are the pieces themselves. */
  lemma LinesWithoutCR(s: string)
    requires forall p <- SplitTerminator(s) :: !EndsWithCR(p)
    ensures Lines(s) == SplitTerminator(s)
  {
  }

  /** On a text whose pieces do not end in '\r', the lines re-terminated give back
      the text, with a '\n' added when the text did not end with one. */
  lemma TerminateLines(s: string)
    requires forall p <- SplitTerminator(s) :: !EndsWithCR(p)
    ensures Terminate(Lines(s)) == if Terminated(s) then s else s + "\n"
  {
    LinesWithoutCR(s);
    TerminateSplitTerminator(s);
  }

  /** A text without any '\r' has no piece ending in '\r'. */
  lemma NoCRPieces(s: string)
    requires '\r' !in s
    ensures forall p <- SplitTerminator(s) :: !EndsWithCR(p)
  {
  }

  /** The text made of `lines`, each one followed by "\r\n". */
  function TerminateCRLF(lines: seq<string>): string
  {
    if lines == [] then [] else lines[0] + "\r\n" + TerminateCRLF(lines[1..])
  }

  /** Splitting a "\r\n"-terminated text at '\n' leaves each line with its '\r'. */
  lemma {:induction false} SplitTerminatorTerminateCRLF(lines: seq<string>)
    requires forall l <- lines :: '\n' !in l
    ensures SplitTerminator(TerminateCRLF(lines)) == seq(|lines|, k requires 0 <= k < |lines| => lines[k] + "\r")
  {
    if lines != [] {
      var s := TerminateCRLF(lines);
      var l := lines[0];
      assert s == (l + "\r") + ("\n" + TerminateCRLF(lines[1..]));
      assert s[..|l| + 1] == l + "\r";
      LineEndIs(s, |l| + 1);
      assert s[|l| + 2..] == TerminateCRLF(lines[1..]);
      SplitTerminatorTerminateCRLF(lines[1..]);
    }
  }

  /** "\r\n" line endings are accepted: `Lines` undoes `TerminateCRLF` on lines
      that hold no '\n', whatever they end with. */
  lemma LinesTerminateCRLF(lines: seq<string>)
    requires forall l <- lines :: '\n' !in l
    ensures Lines(TerminateCRLF(lines)) == lines
  {
    SplitTerminatorTerminateCRLF(lines);
  }

  /** `Lines` undoes `Terminate` on lines that hold no '\n' and do not end in '\r'. */
  lemma LinesTerminate(lines: seq<string>)
    requires forall l <- lines :: '\n' !in l && !EndsWithCR(l)
    ensures Lines(Terminate(lines)) == lines
  {
    SplitTerminatorTerminate(lines);
  }

  /** Three lines, each terminated. */
  lemma TerminateThree(a: string, b: string, c: string)
    ensures Terminate([a, b, c]) == a + "\n" + b + "\n" + c + "\n"
  {
    assert [a, b, c][1..] == [b, c] && [b, c][1..] == [c] && [c][1..] == [];
    assert Terminate([c]) == c + "\n";
    assert Terminate([b, c]) == b + "\n" + (c + "\n");
    assert Terminate([a, b, c]) == a + "\n" + (b + "\n" + (c + "\n"));
  }

  /** A text of three lines, the last one unterminated, splits into those three lines. */
  lemma ThreeLines(a: string, b: string, c: string)
    requires '\n' !in a && '\n' !in b && '\n' !in c
    requires !EndsWithCR(a) && !EndsWithCR(b)
    requires c != [] && !EndsWithCR(c)
    ensures Lines(a + "\n" + b + "\n" + c) == [a, b, c]
  {
    var contents := a + "\n" + b + "\n" + c;
    TerminateThree(a, b, c);
    LinesTerminate([a, b, c]);
    assert contents[|contents| - 1] == c[|c| - 1];
    LinesFinalNewline(contents);
  }
}
