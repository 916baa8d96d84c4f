/** Framing of the device's inbound byte stream into lines, as JavaScript's
    `data.split(/\r?\n/)` does it: a line ends at a line feed, and a carriage
    return directly before that line feed belongs to the terminator. A
    carriage return anywhere else is an ordinary character of the line. */
module Framing {
  import opened Text

  /** `line` with one trailing carriage return removed, if it has one. */
  function StripCR(line: string): (r: string)
    ensures |line| > 0 && line[|line| - 1] == '\r' ==> r == line[..|line| - 1]
    ensures !(|line| > 0 && line[|line| - 1] == '\r') ==> r == line
  {
    if |line| > 0 && line[|line| - 1] == '\r' then line[..|line| - 1] else line
  }

  /** The terminator that ends the first line of `s`, which ends at index `k`. */
  function Terminator(s: string, k: nat): string
    requires k < |s|
  {
    if 0 < k && s[k - 1] == '\r' then "\r\n" else "\n"
  }

  /** The pieces `split(/\r?\n/)` yields, in order. */
  function Split(s: string): (pieces: seq<string>)
    decreases |s|
    ensures |pieces| > 0
  {
    var k := IndexOf(s, "\n");
    if k < 0 then [s] else [StripCR(s[..k])] + Split(s[k + 1..])
  }

  /** The separators `split` removed, in order: each is "\n" or "\r\n". */
  function Separators(s: string): seq<string>
    decreases |s|
  {
    var k := IndexOf(s, "\n");
    if k < 0 then [] else [Terminator(s, k)] + Separators(s[k + 1..])
  }

  /** Interleaves pieces with separators. */
  function Join(pieces: seq<string>, seps: seq<string>): string
    requires |pieces| == |seps| + 1
    decreases |seps|
  {
    if |seps| == 0 then pieces[0] else pieces[0] + seps[0] + Join(pieces[1..], seps[1..])
  }

  /** The number of line feeds in `s`. */
  function NewlineCount(s: string): nat
  {
    multiset(s)['\n']
  }

  /** The first line feed of `s`, found by `IndexOf`, is at `k`, and none is before it. */
  lemma FirstNewline(s: string, k: int)
    requires k == IndexOf(s, "\n") && k >= 0
    ensures k < |s| && s[k] == '\n'
    ensures '\n' !in s[..k]
  {
    assert s[k..k + 1] == "\n";
    NoOccurrenceOfChar(s, '\n', k);
  }

  /** When `IndexOf` finds no line feed, `s` holds none. */
  lemma NewlineNotFound(s: string)
    requires IndexOf(s, "\n") < 0
    ensures '\n' !in s
  {
    forall j | 0 <= j < |s|
      ensures s[j] != '\n'
    {
      assert !OccursAt(s, "\n", j);
      assert s[j..j + 1] == [s[j]];
    }
  }

  /** When `s` holds no line feed, `IndexOf` finds none. */
  lemma NoNewlineFound(s: string)
    requires '\n' !in s
    ensures IndexOf(s, "\n") == -1
  {
    if IndexOf(s, "\n") >= 0 {
      FirstNewline(s, IndexOf(s, "\n"));
    }
  }

  /** Splitting yields one piece more than there are line feeds. */
  lemma {:induction false} SplitCount(s: string)
    ensures |Split(s)| == NewlineCount(s) + 1
    decreases |s|
  {
    var k := IndexOf(s, "\n");
    if k < 0 {
      NewlineNotFound(s);
    } else {
      FirstNewline(s, k);
      SplitCount(s[k + 1..]);
      assert s == s[..k] + [s[k]] + s[k + 1..];
      assert multiset(s) == multiset(s[..k]) + multiset{'\n'} + multiset(s[k + 1..]);
    }
  }

  /** No piece holds a line feed. */
  lemma {:induction false} PiecesHaveNoNewline(s: string)
    ensures forall i :: 0 <= i < |Split(s)| ==> '\n' !in Split(s)[i]
    decreases |s|
  {
    var k := IndexOf(s, "\n");
    if k < 0 {
      NewlineNotFound(s);
    } else {
      FirstNewline(s, k);
      PiecesHaveNoNewline(s[k + 1..]);
      var head := StripCR(s[..k]);
      assert forall c :: c in head ==> c in s[..k];
      var rest := Split(s[k + 1..]);
      assert Split(s) == [head] + rest;
      forall i | 0 <= i < |Split(s)|
        ensures '\n' !in Split(s)[i]
      {
        if i > 0 {
          assert Split(s)[i] == rest[i - 1];
        }
      }
    }
  }

  /** A string without a line feed is one line, whatever carriage returns it holds. */
  lemma BareCarriageReturnDoesNotSplit(s: string)
    requires '\n' !in s
    ensures Split(s) == [s]
    ensures Separators(s) == []
  {
    NoNewlineFound(s);
  }

  /** There is one separator fewer than there are pieces. */
  lemma {:induction false} SeparatorCount(s: string)
    ensures |Split(s)| == |Separators(s)| + 1
    decreases |s|
  {
    var k := IndexOf(s, "\n");
    if k >= 0 {
      SeparatorCount(s[k + 1..]);
    }
  }

  /** Joining the pieces back with the separators that were removed gives the input. */
  lemma {:induction false} SplitJoin(s: string)
    ensures |Split(s)| == |Separators(s)| + 1
    ensures Join(Split(s), Separators(s)) == s
    decreases |s|
  {
    SeparatorCount(s);
    var k := IndexOf(s, "\n");
    if k >= 0 {
      FirstNewline(s, k);
      var rest := s[k + 1..];
      SplitJoin(rest);
      var head, sep := StripCR(s[..k]), Terminator(s, k);
      JoinCons(head, sep, Split(rest), Separators(rest));
      FirstLineRecomposes(s, k);
    }
  }

  /** Joining a first piece and separator onto joined pieces. */
  lemma JoinCons(p: string, sep: string, pieces: seq<string>, seps: seq<string>)
    requires |pieces| == |seps| + 1
    ensures Join([p] + pieces, [sep] + seps) == p + sep + Join(pieces, seps)
  {
    assert ([p] + pieces)[1..] == pieces;
    assert ([sep] + seps)[1..] == seps;
  }

  /** The first line, its terminator and the remainder make up the whole string. */
  lemma FirstLineRecomposes(s: string, k: nat)
    requires k < |s| && s[k] == '\n'
    ensures StripCR(s[..k]) + Terminator(s, k) + s[k + 1..] == s
  {
    if 0 < k && s[k - 1] == '\r' {
      assert s == s[..k - 1] + "\r\n" + s[k + 1..];
    } else {
      assert s == s[..k] + "\n" + s[k + 1..];
    }
  }

  /** A word free of line terminators occurs in `s` exactly when it occurs in
      the first line of `s` or in what follows the first line feed. */
  lemma ContainsAcrossFirstLine(s: string, k: int, w: string)
    requires k == IndexOf(s, "\n") && k >= 0
    requires |w| > 0 && '\n' !in w && '\r' !in w
    ensures Contains(s, w) <==> Contains(StripCR(s[..k]), w) || Contains(s[k + 1..], w)
  {
    FirstNewline(s, k);
    var head := StripCR(s[..k]);
    var rest := s[k + 1..];
    assert head == s[..|head|];
    assert |head| < k ==> |head| == k - 1 && s[k - 1] == '\r';
    if Contains(s, w) {
      var j :| OccursAt(s, w, j);
      OccurrenceAvoids(s, w, j, k);
      if |head| < k {
        OccurrenceAvoids(s, w, j, k - 1);
      }
      if j + |w| <= |head| {
        assert s[0..|head|] == head;
        ContainsSlice(s, w, j, 0, |head|);
      } else if j > k {
        assert s[k + 1..|s|] == rest;
        ContainsSlice(s, w, j, k + 1, |s|);
      } else {
        assert false;
      }
    }
    if Contains(head, w) {
      ContainsInSlice(s, w, 0, |head|);
    }
    if Contains(rest, w) {
      assert s[k + 1..|s|] == rest;
      ContainsInSlice(s, w, k + 1, |s|);
    }
  }

  /** The index of the last line feed of `s`, or -1 when there is none: what
      precedes it and the line feed itself are complete lines, and what
      follows it is an unfinished line. */
  function LastNewline(s: string): (k: int)
    ensures -1 <= k < |s|
    ensures k >= 0 ==> s[k] == '\n'
    ensures forall i :: k < i < |s| ==> s[i] != '\n'
  {
    LastNewlineBefore(s, |s|)
  }

  /** The index of the last line feed among the first `n` characters of `s`, or -1. */
  function LastNewlineBefore(s: string, n: nat): (k: int)
    requires n <= |s|
    ensures -1 <= k < n
    ensures k >= 0 ==> s[k] == '\n'
    ensures forall i :: k < i < n ==> s[i] != '\n'
  {
    if n == 0 then -1
    else if s[n - 1] == '\n' then n - 1
    else LastNewlineBefore(s, n - 1)
  }

  /** A word without a line feed that occurs in `x + y`, where `x` is empty or
      ends a line, occurs in `x` or in `y`: no occurrence straddles the line end. */
  lemma ContainsAfterLineEnd(x: string, y: string, w: string)
    requires |x| == 0 || x[|x| - 1] == '\n'
    requires '\n' !in w
    ensures Contains(x + y, w) <==> Contains(x, w) || Contains(y, w)
  {
    var s := x + y;
    if Contains(s, w) {
      var j :| OccursAt(s, w, j);
      if |x| > 0 {
        OccurrenceAvoids(s, w, j, |x| - 1);
      }
      if j + |w| <= |x| {
        assert s[0..|x|] == x;
        ContainsSlice(s, w, j, 0, |x|);
      } else if j >= |x| {
        assert s[|x|..|s|] == y;
        ContainsSlice(s, w, j, |x|, |s|);
      } else {
        assert false;
      }
    }
    if Contains(x, w) {
      assert s[..|x|] == x;
      ContainsInSlice(s, w, 0, |x|);
    }
    if Contains(y, w) {
      assert s[|x|..|s|] == y;
      ContainsInSlice(s, w, |x|, |s|);
    }
  }

  /** `s` up to and including its last line feed: the lines of `s` that are complete. */
  function Complete(s: string): (c: string)
    ensures |c| <= |s| && c == s[..|c|]
    ensures |c| == 0 || c[|c| - 1] == '\n'
  {
    s[..LastNewline(s) + 1]
  }

  /** What follows the last line feed of `s`: a line still waiting for its end. */
  function Unfinished(s: string): (u: string)
    ensures '\n' !in u
  {
    NoNewlineAfter(s, LastNewline(s));
    s[LastNewline(s) + 1..]
  }

  /** The complete lines and the unfinished line make up the whole string. */
  lemma Recompose(s: string)
    ensures Complete(s) + Unfinished(s) == s
  {
  }

  /** The characters after index `k` hold no line feed. */
  lemma NoNewlineAfter(s: string, k: int)
    requires -1 <= k < |s|
    requires forall i :: k < i < |s| ==> s[i] != '\n'
    ensures '\n' !in s[k + 1..]
  {
  }

  /** `LastNewline` is the only index that holds a line feed with none after it. */
  lemma LastNewlineIs(s: string, k: int)
    requires -1 <= k < |s|
    requires k >= 0 ==> s[k] == '\n'
    requires forall i :: k < i < |s| ==> s[i] != '\n'
    ensures LastNewline(s) == k
  {
  }

  /** After a prefix that is empty or ends a line, the last line feed of
      `x + y` is the last one of `y`, or else the end of `x`. */
  lemma LastNewlineAppend(x: string, y: string)
    requires |x| == 0 || x[|x| - 1] == '\n'
    ensures LastNewline(x + y) == if LastNewline(y) >= 0 then |x| + LastNewline(y) else |x| - 1
  {
    var k := LastNewline(y);
    var whole := x + y;
    var target := if k >= 0 then |x| + k else |x| - 1;
    forall i | target < i < |whole|
      ensures whole[i] != '\n'
    {
      assert whole[i] == y[i - |x|];
    }
    LastNewlineIs(whole, target);
  }

  /** Taking across a concatenation. */
  lemma TakeAppend(x: string, y: string, n: nat)
    requires n <= |y|
    ensures (x + y)[..|x| + n] == x + y[..n]
  {
  }

  /** Dropping across a concatenation. */
  lemma DropAppend(x: string, y: string, n: nat)
    requires n <= |y|
    ensures (x + y)[|x| + n..] == y[n..]
  {
  }

  /** After a prefix that is empty or ends a line, the complete lines are the
      prefix followed by the complete lines of the rest. */
  lemma CompleteAfterLineEnd(c: string, s2: string)
    requires |c| == 0 || c[|c| - 1] == '\n'
    ensures Complete(c + s2) == c + Complete(s2)
  {
    LastNewlineAppend(c, s2);
    TakeAppend(c, s2, LastNewline(s2) + 1);
  }

  /** After a prefix that is empty or ends a line, the unfinished line is that
      of the rest. */
  lemma UnfinishedAfterLineEnd(c: string, s2: string)
    requires |c| == 0 || c[|c| - 1] == '\n'
    ensures Unfinished(c + s2) == Unfinished(s2)
  {
    LastNewlineAppend(c, s2);
    DropAppend(c, s2, LastNewline(s2) + 1);
  }

  /** Appending `b` to `s` completes the lines that `s` had completed, plus the
      ones that `s`'s unfinished line followed by `b` completes. */
  lemma CompleteAppend(s: string, b: string)
    ensures Complete(s + b) == Complete(s) + Complete(Unfinished(s) + b)
  {
    Recompose(s);
    assert s + b == Complete(s) + (Unfinished(s) + b);
    CompleteAfterLineEnd(Complete(s), Unfinished(s) + b);
  }

  /** Appending `b` to `s` leaves the same unfinished line as appending `b` to
      `s`'s unfinished line alone: what `s` completed never comes back. */
  lemma UnfinishedAppend(s: string, b: string)
    ensures Unfinished(s + b) == Unfinished(Unfinished(s) + b)
  {
    Recompose(s);
    assert s + b == Complete(s) + (Unfinished(s) + b);
    UnfinishedAfterLineEnd(Complete(s), Unfinished(s) + b);
  }

  /** A string without a line feed has no complete line: all of it is unfinished. */
  lemma NoCompleteLine(s: string)
    requires '\n' !in s
    ensures Complete(s) == "" && Unfinished(s) == s
  {
    LastNewlineIs(s, -1);
  }

  /** A word without a line feed occurs in `s + b` exactly when it occurs in
      `s` or in `s`'s unfinished line followed by `b`. */
  lemma ContainsAcrossUnfinished(s: string, b: string, w: string)
    requires '\n' !in w
    ensures Contains(s + b, w) <==> Contains(s, w) || Contains(Unfinished(s) + b, w)
  {
    var c, u := Complete(s), Unfinished(s);
    Recompose(s);
    assert s + b == c + (u + b);
    ContainsAfterLineEnd(c, u, w);
    ContainsAfterLineEnd(c, u + b, w);
    if Contains(u, w) {
      assert (u + b)[0..|u|] == u;
      ContainsInSlice(u + b, w, 0, |u|);
    }
  }

  /** A word without a line feed ends after index `n` of `s + b` exactly when
      it ends after `n` within `s`, or ends inside `b` within `s`'s unfinished
      line followed by `b`: no occurrence ending in `b` reaches back past the
      last line feed of `s`. */
  lemma EndsAfterAcrossUnfinished(s: string, b: string, w: string, n: int)
    requires '\n' !in w
    requires 0 <= n <= |s|
    ensures EndsAfter(s + b, w, n) <==> EndsAfter(s, w, n) || EndsAfter(Unfinished(s) + b, w, |Unfinished(s)|)
  {
    var c, u := Complete(s), Unfinished(s);
    Recompose(s);
    assert s + b == c + (u + b);
    if EndsAfter(s + b, w, n) {
      EndsAfterSplits(s, b, w, n);
    }
    if EndsAfter(s, w, n) {
      EndsAfterPrefix(s, b, w, n);
    }
    if EndsAfter(u + b, w, |u|) {
      EndsAfterShift(c, u + b, w, |u|);
    }
  }

  /** The forward half: an occurrence in `s + b` ending after `n` ends within
      `s`, or else lies after the last line feed of `s`. */
  lemma EndsAfterSplits(s: string, b: string, w: string, n: int)
    requires '\n' !in w
    requires 0 <= n <= |s|
    requires EndsAfter(s + b, w, n)
    ensures EndsAfter(s, w, n) || EndsAfter(Unfinished(s) + b, w, |Unfinished(s)|)
  {
    var c, u := Complete(s), Unfinished(s);
    var j :| OccursAt(s + b, w, j) && n < j + |w|;
    if j + |w| <= |s| {
      OccursInPrefix(s, b, w, j);
    } else {
      Recompose(s);
      if |c| > 0 {
        assert (s + b)[|c| - 1] == c[|c| - 1];
        OccurrenceAvoids(s + b, w, j, |c| - 1);
      }
      assert s + b == c + (u + b);
      OccursInSuffix(c, u + b, w, j);
    }
  }
}
