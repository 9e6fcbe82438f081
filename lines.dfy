/** Python's `str.split("\n")` and `"\n".join(...)` on strings, and the facts about them
    that the decorator's line arithmetic rests on. Both are defined from the end of their
    argument, one character or one line at a time. */
module Lines {

  const NewLine: char := '\n'

  /** The pieces of `s + [c]` from the pieces `t` of `s`: a newline starts a new, empty piece,
      any other character extends the last piece. */
  function SplitStep(t: seq<string>, c: char): (r: seq<string>)
    requires |t| >= 1
    ensures |r| >= 1
  {
    if c == NewLine then t + [""]
    else seq(|t|, i requires 0 <= i < |t| => if i == |t| - 1 then t[i] + [c] else t[i])
  }

  /** `s.split("\n")`: the pieces of `s` between newline characters, always at least one. */
  function Split(s: string): (r: seq<string>)
    ensures |r| >= 1
    ensures forall i :: 0 <= i < |r| ==> NewLine !in r[i]
  {
    SplitUpTo(s, |s|)
  }

  /** The pieces of the first `n` characters of `s`. */
  function SplitUpTo(s: string, n: nat): (r: seq<string>)
    requires n <= |s|
    ensures |r| >= 1
    ensures forall i :: 0 <= i < |r| ==> NewLine !in r[i]
  {
    if n == 0 then [""]
    else
      var t := SplitUpTo(s, n - 1);
      var r := SplitStep(t, s[n - 1]);
      assert forall i :: 0 <= i < |r| - 1 ==> r[i] == t[i];
      r
  }

  /** `"\n".join(ls)`: the lines in order with one newline between neighbours, so the text is
      as long as the lines together plus one character per separator. */
  function Join(ls: seq<string>): (r: string)
    ensures ls == [] ==> r == ""
    ensures ls != [] ==> |r| == Width(ls, |ls|) + |ls| - 1
  {
    JoinUpTo(ls, |ls|)
  }

  /** The total length of the first `n` lines of `ls`. */
  function Width(ls: seq<string>, n: nat): nat
    requires n <= |ls|
  {
    if n == 0 then 0 else Width(ls, n - 1) + |ls[n - 1]|
  }

  /** The join of the first `n` lines of `ls`. */
  function JoinUpTo(ls: seq<string>, n: nat): (r: string)
    requires n <= |ls|
    ensures n >= 1 ==> |r| == Width(ls, n) + n - 1
  {
    if n == 0 then ""
    else if n == 1 then ls[0]
    else JoinUpTo(ls, n - 1) + [NewLine] + ls[n - 1]
  }

  /** Only the first `n` characters matter to `SplitUpTo(s, n)`. */
  lemma {:induction false} SplitUpToAgree(s: string, t: string, n: nat)
    requires n <= |s| && n <= |t|
    requires forall i :: 0 <= i < n ==> s[i] == t[i]
    ensures SplitUpTo(s, n) == SplitUpTo(t, n)
  {
    if n > 0 {
      SplitUpToAgree(s, t, n - 1);
    }
  }

  /** Only the first `n` lines matter to `JoinUpTo(ls, n)`. */
  lemma {:induction false} JoinUpToAgree(ls: seq<string>, ms: seq<string>, n: nat)
    requires n <= |ls| && n <= |ms|
    requires forall i :: 0 <= i < n ==> ls[i] == ms[i]
    ensures JoinUpTo(ls, n) == JoinUpTo(ms, n)
  {
    if n > 1 {
      JoinUpToAgree(ls, ms, n - 1);
    }
  }

  /** Every line of `ls` is free of newline characters. */
  predicate NoNewLines(ls: seq<string>)
  {
    forall i :: 0 <= i < |ls| ==> NewLine !in ls[i]
  }

  /** One step of `Split`, stated on a text written as its front and its last character. */
  lemma SplitSnoc(s: string, c: char)
    ensures Split(s + [c]) == SplitStep(Split(s), c)
  {
    SplitUpToAgree(s + [c], s, |s|);
  }

  /** One step of `Join`, stated on lines written as their front and their last line. */
  lemma JoinSnoc(ls: seq<string>, x: string)
    requires |ls| >= 1
    ensures Join(ls + [x]) == Join(ls) + [NewLine] + x
  {
    JoinUpToAgree(ls + [x], ls, |ls|);
  }

  /** Re-joining the pieces of a split gives back the original text. */
  lemma {:induction false} JoinSplit(s: string)
    ensures Join(Split(s)) == s
  {
    if |s| > 0 {
      var p, c := s[..|s| - 1], s[|s| - 1];
      assert s == p + [c];
      JoinSplit(p);
      var t := Split(p);
      SplitSnoc(p, c);
      var m := |t|;
      if c == NewLine {
        JoinSnoc(t, "");
      } else if m == 1 {
        assert SplitStep(t, c) == [t[0] + [c]];
      } else {
        var init := t[..m - 1];
        assert t == init + [t[m - 1]];
        assert SplitStep(t, c) == init + [t[m - 1] + [c]];
        JoinSnoc(init, t[m - 1]);
        JoinSnoc(init, t[m - 1] + [c]);
      }
    }
  }

  /** A text with no newline is one line. */
  lemma {:induction false} SplitOneLine(s: string)
    requires NewLine !in s
    ensures Split(s) == [s]
  {
    if |s| > 0 {
      var p := s[..|s| - 1];
      assert s[|s| - 1] in s;
      assert forall c :: c in p ==> c in s;
      SplitOneLine(p);
      assert p + [s[|s| - 1]] == s;
      SplitSnoc(p, s[|s| - 1]);
    }
  }

  /** The pieces of `a + b` from the pieces `sa` of `a` and `sb` of `b`: the last piece of `a`
      and the first piece of `b` fuse into one line. */
  function Fuse(sa: seq<string>, sb: seq<string>): (r: seq<string>)
    requires |sa| >= 1 && |sb| >= 1
    ensures |r| == |sa| + |sb| - 1
  {
    var m := |sa|;
    seq(|sa| + |sb| - 1, i requires 0 <= i < |sa| + |sb| - 1 =>
                           if i < m - 1 then sa[i] else if i == m - 1 then sa[m - 1] + sb[0] else sb[i - m + 1])
  }

  /** Fusing commutes with a step on the right-hand pieces. */
  lemma FuseStep(sa: seq<string>, sb: seq<string>, c: char)
    requires |sa| >= 1 && |sb| >= 1
    ensures SplitStep(Fuse(sa, sb), c) == Fuse(sa, SplitStep(sb, c))
  {
    var m := |sa|;
    var l, r := SplitStep(Fuse(sa, sb), c), Fuse(sa, SplitStep(sb, c));
    if c != NewLine {
      forall i | 0 <= i < |l| ensures l[i] == r[i] {
        if i == m - 1 && |sb| == 1 {
          assert l[i] == (sa[m - 1] + sb[0]) + [c];
          assert r[i] == sa[m - 1] + (sb[0] + [c]);
        }
      }
    } else {
      forall i | 0 <= i < |l| ensures l[i] == r[i] {
      }
    }
  }

  /** Splitting a concatenation fuses the last piece of the left part with the first of the right. */
  lemma {:induction false} SplitAppend(a: string, b: string)
    ensures Split(a + b) == Fuse(Split(a), Split(b))
  {
    var sa := Split(a);
    if |b| == 0 {
      assert a + b == a;
      assert sa[|sa| - 1] + "" == sa[|sa| - 1];
      assert Fuse(sa, [""]) == sa[..|sa| - 1] + [sa[|sa| - 1]] == sa;
    } else {
      var b', c := b[..|b| - 1], b[|b| - 1];
      assert b == b' + [c];
      assert a + b == (a + b') + [c];
      SplitAppend(a, b');
      SplitSnoc(a + b', c);
      SplitSnoc(b', c);
      FuseStep(sa, Split(b'), c);
    }
  }

  /** Splitting a join of newline-free lines gives back the lines. */
  lemma {:induction false} SplitJoin(ls: seq<string>)
    requires |ls| >= 1 && NoNewLines(ls)
    ensures Split(Join(ls)) == ls
  {
    var n := |ls|;
    if n == 1 {
      SplitOneLine(ls[0]);
    } else {
      var init, last := ls[..n - 1], ls[n - 1];
      assert ls == init + [last];
      SplitJoin(init);
      JoinSnoc(init, last);
      SplitSnoc(Join(init), NewLine);
      SplitOneLine(last);
      var front := Join(init) + [NewLine];
      assert Split(front) == init + [""];
      SplitAppend(front, last);
      assert (init + [""])[..n - 1] == init;
      assert Fuse(init + [""], [last]) == init + ["" + last];
      assert "" + last == last;
    }
  }

  /** Joining two non-empty runs of lines puts one newline between them. */
  lemma {:induction false} JoinAppend(a: seq<string>, b: seq<string>)
    requires |a| >= 1 && |b| >= 1
    ensures Join(a + b) == Join(a) + [NewLine] + Join(b)
  {
    var n := |b|;
    var init, last := b[..n - 1], b[n - 1];
    assert b == init + [last];
    if n == 1 {
      JoinSnoc(a, last);
    } else {
      assert a + b == (a + init) + [last];
      JoinAppend(a, init);
      JoinSnoc(a + init, last);
      JoinSnoc(init, last);
    }
  }

  /** Splitting text that starts with complete lines gives those lines, then the rest's pieces. */
  lemma SplitJoinThenRest(header: seq<string>, rest: string)
    requires |header| >= 1 && NoNewLines(header)
    ensures Split(Join(header) + [NewLine] + rest) == header + Split(rest)
  {
    var front := Join(header) + [NewLine];
    SplitJoinThenNewLine(header);
    SplitAppend(front, rest);
    FuseAfterBlank(header, Split(rest));
  }

  /** Complete lines followed by a newline split into those lines and an empty last piece. */
  lemma SplitJoinThenNewLine(header: seq<string>)
    requires |header| >= 1 && NoNewLines(header)
    ensures Split(Join(header) + [NewLine]) == header + [""]
  {
    SplitJoin(header);
    SplitSnoc(Join(header), NewLine);
  }

  /** An empty last piece on the left fuses away into the right's first piece. */
  lemma FuseAfterBlank(header: seq<string>, sr: seq<string>)
    requires |sr| >= 1
    ensures Fuse(header + [""], sr) == header + sr
  {
    assert (header + [""])[..|header|] == header;
    assert "" + sr[0] == sr[0];
    assert [sr[0]] + sr[1..] == sr;
  }

  /** Splitting `a + "\n" + rest`, for a line `a`, peels `a` off as the first piece. */
  lemma SplitLineThenRest(a: string, rest: string)
    requires NewLine !in a
    ensures Split(a + [NewLine] + rest) == [a] + Split(rest)
  {
    assert NoNewLines([a]);
    SplitJoinThenRest([a], rest);
  }
}
