/** The part of JavaScript's string library that the feed-list parser relies on:
    `text.split(/\r?\n/)`, which cuts a text into lines at every LF or CRLF.

    A match of `/\r?\n/` always consumes at least one character, so the split
    of the empty text is the one-element list `[""]`, and a text with n LF
    characters always splits into n + 1 pieces. The leftmost match that ends
    at an LF starts one character earlier exactly when that LF is preceded by
    a CR, so a CRLF is consumed whole, while a CR that is not followed by an
    LF is ordinary text. */
module JsString {

  /** Position of the first LF in `s`, or `|s|` when `s` has none. */
  function NewlineIndex(s: string): (k: nat)
    ensures k <= |s|
    ensures k < |s| ==> s[k] == '\n'
    ensures forall j :: 0 <= j < k ==> s[j] != '\n'
  {
    if s == [] || s[0] == '\n' then 0 else 1 + NewlineIndex(s[1..])
  }

  /** Whether `line` ends in a CR character. */
  predicate EndsInCR(line: string)
  {
    |line| > 0 && line[|line| - 1] == '\r'
  }

  /** The line in front of a separator: a CR right before the LF belongs to the
      match of `/\r?\n/`, so it is not part of the line. */
  function DropTrailingCR(line: string): (r: string)
    ensures r <= line
    ensures |r| < |line| <==> EndsInCR(line)
    ensures |line| <= |r| + 1
  {
    if EndsInCR(line) then line[..|line| - 1] else line
  }

  /** `s.split(/\r?\n/)`: the pieces of `s` between the separators, in order. */
  function SplitLines(s: string): (lines: seq<string>)
    ensures |lines| >= 1
    ensures forall i :: 0 <= i < |lines| ==> '\n' !in lines[i]
    decreases |s|
  {
    var k := NewlineIndex(s);
    if k == |s| then
      [s]
    else
      assert forall c :: c in s[..k] ==> c != '\n';
      [DropTrailingCR(s[..k])] + SplitLines(s[k + 1..])
  }

  /** `lines.join(sep)`: the pieces with `sep` between consecutive ones. */
  function JoinLines(lines: seq<string>, sep: string): string
  {
    if lines == [] then ""
    else if |lines| == 1 then lines[0]
    else lines[0] + sep + JoinLines(lines[1..], sep)
  }

  /** `s` with every CR that directly precedes an LF removed: the text that
      joining the split lines with LF gives back. */
  function CollapseCRLF(s: string): string
    decreases |s|
  {
    if |s| >= 2 && s[0] == '\r' && s[1] == '\n' then "\n" + CollapseCRLF(s[2..])
    else if s == [] then ""
    else [s[0]] + CollapseCRLF(s[1..])
  }

  /** The number of lines is the number of LF characters plus one. */
  lemma {:induction false} SplitLinesCount(s: string)
    ensures |SplitLines(s)| == multiset(s)['\n'] + 1
    decreases |s|
  {
    var k := NewlineIndex(s);
    if k == |s| {
      assert forall c :: c in s ==> c != '\n';
      assert '\n' !in multiset(s);
    } else {
      SplitLinesCount(s[k + 1..]);
      assert s == s[..k] + ['\n'] + s[k + 1..];
      assert forall c :: c in s[..k] ==> c != '\n';
      assert '\n' !in multiset(s[..k]);
      assert multiset(s) == multiset(s[..k]) + multiset(['\n']) + multiset(s[k + 1..]);
    }
  }

  /** A text without LF is a single line, CR characters included. */
  lemma SingleLine(line: string)
    requires '\n' !in line
    ensures SplitLines(line) == [line]
  {
  }

  /** Unfolds the split at its first separator, the LF at index `k`. */
  lemma SplitAt(s: string, k: nat)
    requires k < |s| && s[k] == '\n'
    requires forall j :: 0 <= j < k ==> s[j] != '\n'
    ensures SplitLines(s) == [DropTrailingCR(s[..k])] + SplitLines(s[k + 1..])
  {
    var m := NewlineIndex(s);
    assert m < |s| ==> s[m] == '\n';
    assert m == k;
    assert SplitLines(s) == [DropTrailingCR(s[..m])] + SplitLines(s[m + 1..]);
  }

  /** A line followed by a separator: a CRLF is consumed whole, and so is an
      LF when the line does not end in CR. */
  lemma LineThenRest(a: string, sep: string, b: string)
    requires '\n' !in a
    requires sep == "\r\n" || (sep == "\n" && !EndsInCR(a))
    ensures SplitLines(a + sep + b) == [a] + SplitLines(b)
  {
    var s := a + sep + b;
    var n := |a| + |sep| - 1;
    assert s[n] == '\n';
    forall j | 0 <= j < n ensures s[j] != '\n' {
      if j < |a| { assert s[j] == a[j] && a[j] in a; } else { assert s[j] == '\r'; }
    }
    SplitAt(s, n);
    assert s[n + 1..] == b;
    if sep == "\r\n" {
      assert s[..n] == a + "\r";
    } else {
      assert s[..n] == a;
    }
  }

  /** Text appended after the first LF does not change the first line. */
  lemma SplitLinesAppend(a: string, t: string)
    requires NewlineIndex(a) < |a|
    ensures SplitLines(a + t) ==
      [DropTrailingCR(a[..NewlineIndex(a)])] + SplitLines(a[NewlineIndex(a) + 1..] + t)
  {
    var k := NewlineIndex(a);
    var s := a + t;
    forall j | 0 <= j < k ensures s[j] != '\n' { assert s[j] == a[j]; }
    assert s[k] == a[k];
    SplitAt(s, k);
    assert s[..k] == a[..k];
    assert s[k + 1..] == a[k + 1..] + t;
  }

  /** Splitting distributes over a separator: a CRLF always ends a line
      whole, and so does an LF when the text before it does not end in CR. */
  lemma {:induction false} SplitLinesConcat(a: string, sep: string, b: string)
    requires sep == "\r\n" || (sep == "\n" && !EndsInCR(a))
    ensures SplitLines(a + sep + b) == SplitLines(a) + SplitLines(b)
    decreases |a|
  {
    var k := NewlineIndex(a);
    if k == |a| {
      assert forall c :: c in a ==> c != '\n';
      SingleLine(a);
      LineThenRest(a, sep, b);
    } else {
      var rest := a[k + 1..];
      var first := DropTrailingCR(a[..k]);
      assert EndsInCR(rest) ==> EndsInCR(a) by {
        if EndsInCR(rest) { assert rest[|rest| - 1] == a[|a| - 1]; }
      }
      assert a + sep + b == a + (sep + b);
      assert rest + (sep + b) == rest + sep + b;
      calc {
        SplitLines(a + sep + b);
        { SplitLinesAppend(a, sep + b); }
        [first] + SplitLines(rest + sep + b);
        { SplitLinesConcat(rest, sep, b); }
        [first] + (SplitLines(rest) + SplitLines(b));
        ([first] + SplitLines(rest)) + SplitLines(b);
        { SplitAt(a, k); }
        SplitLines(a) + SplitLines(b);
      }
    }
  }

  /** Splitting the CRLF-join of LF-free lines gives the lines back (the
      split is a left inverse of the CRLF-join). */
  lemma {:induction false} SplitOfCRLFJoin(lines: seq<string>)
    requires |lines| >= 1
    requires forall i :: 0 <= i < |lines| ==> '\n' !in lines[i]
    ensures SplitLines(JoinLines(lines, "\r\n")) == lines
  {
    if |lines| == 1 {
      SingleLine(lines[0]);
    } else {
      SplitOfCRLFJoin(lines[1..]);
      SingleLine(lines[0]);
      SplitLinesConcat(lines[0], "\r\n", JoinLines(lines[1..], "\r\n"));
    }
  }

  /** The same over LF, for lines that do not end in CR (a CR there would be
      taken as part of a CRLF separator). */
  lemma {:induction false} SplitOfLFJoin(lines: seq<string>)
    requires |lines| >= 1
    requires forall i :: 0 <= i < |lines| ==> '\n' !in lines[i]
    requires forall i :: 0 <= i < |lines| - 1 ==> !EndsInCR(lines[i])
    ensures SplitLines(JoinLines(lines, "\n")) == lines
  {
    if |lines| == 1 {
      SingleLine(lines[0]);
    } else {
      SplitOfLFJoin(lines[1..]);
      SingleLine(lines[0]);
      SplitLinesConcat(lines[0], "\n", JoinLines(lines[1..], "\n"));
    }
  }

  /** A text without LF contains no CRLF pair. */
  lemma {:induction false} CollapseWithoutLF(a: string)
    requires '\n' !in a
    ensures CollapseCRLF(a) == a
    decreases |a|
  {
    if a != [] {
      assert a[1..] <= a[1..];
      assert forall c :: c in a[1..] ==> c in a;
      CollapseWithoutLF(a[1..]);
      if |a| >= 2 { assert a[1] in a; }
    }
  }

  /** Dropping the trailing CR of a line of two or more characters leaves its
      first character in place. */
  lemma DropTrailingCRCons(a: string)
    requires |a| >= 2
    ensures DropTrailingCR(a) == [a[0]] + DropTrailingCR(a[1..])
  {
    assert a == [a[0]] + a[1..];
    assert a[|a| - 1] == a[1..][|a[1..]| - 1];
    if EndsInCR(a) {
      assert a[..|a| - 1] == [a[0]] + a[1..][..|a[1..]| - 1];
    }
  }

  /** One step of the collapse when the text does not start with CRLF: the
      first character stays. */
  lemma CollapseKeepsFirst(s: string)
    requires s != [] && !(|s| >= 2 && s[0] == '\r' && s[1] == '\n')
    ensures CollapseCRLF(s) == [s[0]] + CollapseCRLF(s[1..])
  {
  }

  /** Collapsing around one line: the CR at the end of the line, if any, goes. */
  lemma {:induction false} CollapseLine(a: string, b: string)
    requires '\n' !in a
    ensures CollapseCRLF(a + "\n" + b) == DropTrailingCR(a) + "\n" + CollapseCRLF(b)
    decreases |a|
  {
    var s := a + "\n" + b;
    if a == [] {
      assert s == "\n" + b;
      CollapseKeepsFirst(s);
      assert s[1..] == b;
    } else if |a| == 1 && a[0] == '\r' {
      assert s[0] == '\r' && s[1] == '\n' && s[2..] == b;
    } else {
      var tail := DropTrailingCR(a[1..]) + "\n" + CollapseCRLF(b);
      assert CollapseCRLF(s) == [a[0]] + CollapseCRLF(a[1..] + "\n" + b) by {
        assert s[0] == a[0];
        assert |a| >= 2 ==> s[1] == a[1] && a[1] in a;
        CollapseKeepsFirst(s);
        assert s[1..] == a[1..] + "\n" + b;
      }
      assert CollapseCRLF(a[1..] + "\n" + b) == tail by {
        assert forall c :: c in a[1..] ==> c in a;
        CollapseLine(a[1..], b);
      }
      assert DropTrailingCR(a) == [a[0]] + DropTrailingCR(a[1..]) by {
        if |a| >= 2 {
          DropTrailingCRCons(a);
        } else {
          assert a[1..] == [];
        }
      }
    }
  }

  /** Joining the split lines with LF gives the text back with every CRLF
      turned into LF; a lone CR survives where it stood. */
  lemma {:induction false} JoinOfSplit(s: string)
    ensures JoinLines(SplitLines(s), "\n") == CollapseCRLF(s)
    decreases |s|
  {
    var k := NewlineIndex(s);
    if k == |s| {
      assert forall c :: c in s ==> c != '\n';
      CollapseWithoutLF(s);
    } else {
      var a, b := s[..k], s[k + 1..];
      assert s == a + "\n" + b;
      assert forall c :: c in a ==> c != '\n';
      JoinOfSplit(b);
      CollapseLine(a, b);
    }
  }

  /** Text without CR is left alone by the collapse. */
  lemma {:induction false} CollapseWithoutCR(s: string)
    requires '\r' !in s
    ensures CollapseCRLF(s) == s
    decreases |s|
  {
    if s != [] {
      assert forall c :: c in s[1..] ==> c in s;
      CollapseWithoutCR(s[1..]);
    }
  }

  /** Round trip: a text with no CR is the LF-join of its lines. */
  lemma {:induction false} RoundTripWithoutCR(s: string)
    requires '\r' !in s
    ensures JoinLines(SplitLines(s), "\n") == s
  {
    JoinOfSplit(s);
    CollapseWithoutCR(s);
  }
}
