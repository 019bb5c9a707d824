/** Text helpers: the `join_text` rule that flattens an element's text
    fragments, and splitting text into newline-terminated lines. */
module Text {

  /** Sum of the lengths of the fragments. */
  function TotalLength(fs: seq<string>): nat
  {
    if |fs| == 0 then 0 else TotalLength(fs[..|fs| - 1]) + |fs[|fs| - 1]|
  }

  /** Where fragment `k` starts in the joined text: every earlier fragment
      and one separator after each of them. */
  function Offset(fs: seq<string>, k: nat): nat
    requires k <= |fs|
  {
    TotalLength(fs[..k]) + k
  }

  /** The joined text of an element: its fragments with one space between
      consecutive ones, built as a left fold that starts from the first
      fragment. */
  function JoinedText(fs: seq<string>): (r: string)
    ensures |fs| == 0 ==> r == ""
    ensures |fs| > 0 ==> |r| == TotalLength(fs) + |fs| - 1
  {
    if |fs| == 0 then ""
    else if |fs| == 1 then fs[0]
    else JoinedText(fs[..|fs| - 1]) + " " + fs[|fs| - 1]
  }

  /** Each fragment appears verbatim at its offset, preceded by a space when
      it is not the first; with the length in JoinedText's contract this
      determines the joined text completely. */
  lemma {:induction false} JoinedTextFragment(fs: seq<string>, k: nat)
    requires k < |fs|
    ensures Offset(fs, k) + |fs[k]| <= |JoinedText(fs)|
    ensures JoinedText(fs)[Offset(fs, k)..Offset(fs, k) + |fs[k]|] == fs[k]
    ensures k > 0 ==> JoinedText(fs)[Offset(fs, k) - 1] == ' '
  {
    var n := |fs|;
    if n == 1 {
      assert fs[..0] == [];
    } else {
      var init := fs[..n - 1];
      var j := JoinedText(init);
      assert JoinedText(fs) == j + " " + fs[n - 1];
      if k < n - 1 {
        JoinedTextFragment(init, k);
        assert init[..k] == fs[..k];
        assert Offset(init, k) == Offset(fs, k);
      } else {
        assert fs[..k] == init;
        assert Offset(fs, k) == |j| + 1;
      }
    }
  }

  /** The fold read from the front: `t1 + " " + (t2 + " " + ... + tn)`. */
  lemma {:induction false} JoinedTextCons(a: string, rest: seq<string>)
    requires |rest| > 0
    ensures JoinedText([a] + rest) == a + " " + JoinedText(rest)
    decreases |rest|
  {
    var s := [a] + rest;
    var n := |s|;
    assert s[n - 1] == rest[|rest| - 1];
    if |rest| == 1 {
      assert s[..n - 1] == [a];
    } else {
      var init := rest[..|rest| - 1];
      assert s[..n - 1] == [a] + init;
      JoinedTextCons(a, init);
    }
  }

  /** Two fragments are joined by one space; one fragment is kept as it is. */
  lemma JoinedTextExamples()
    ensures JoinedText(["Foo", "Bar"]) == "Foo Bar"
    ensures JoinedText(["Foo"]) == "Foo"
  {
    assert ["Foo", "Bar"][..1] == ["Foo"];
  }

  /** `join_text`: a loop that appends `" " + fragment` to an accumulator
      that starts as the first fragment. */
  method JoinText(fs: seq<string>) returns (s: string)
    ensures s == JoinedText(fs)
  {
    if |fs| == 0 {
      return "";
    }
    s := fs[0];
    assert fs[..1] == [fs[0]];
    var i := 1;
    while i < |fs|
      invariant 1 <= i <= |fs|
      invariant s == JoinedText(fs[..i])
    {
      assert fs[..i + 1][..i] == fs[..i];
      s := s + " " + fs[i];
      i := i + 1;
    }
    assert fs[..i] == fs;
  }

  /** Index of the first `c` in `s`, or `|s|` when there is none. */
  function IndexOf(s: string, c: char): (i: nat)
    ensures i <= |s|
    ensures forall j | 0 <= j < i :: s[j] != c
    ensures i < |s| ==> s[i] == c
  {
    if |s| == 0 || s[0] == c then 0 else 1 + IndexOf(s[1..], c)
  }

  lemma IndexOfFirst(l: string, c: char, rest: string)
    requires c !in l
    ensures IndexOf(l + [c] + rest, c) == |l|
  {
    var s := l + [c] + rest;
    assert s[|l|] == c;
    assert forall j | 0 <= j < |l| :: s[j] == l[j];
  }

  /** Newline-terminated lines joined into one text. */
  function Unlines(ls: seq<string>): (r: string)
  {
    if |ls| == 0 then "" else ls[0] + "\n" + Unlines(ls[1..])
  }

  /** Splits text at every newline; a trailing piece without a newline is
      kept as a last line. */
  function Lines(s: string): (ls: seq<string>)
    decreases |s|
  {
    if |s| == 0 then []
    else
      var i := IndexOf(s, '\n');
      if i == |s| then [s] else [s[..i]] + Lines(s[i + 1..])
  }

  lemma {:induction false} UnlinesAppend(a: seq<string>, b: seq<string>)
    ensures Unlines(a + b) == Unlines(a) + Unlines(b)
    decreases |a|
  {
    if |a| > 0 {
      assert (a + b)[1..] == a[1..] + b;
      UnlinesAppend(a[1..], b);
    } else {
      assert a + b == b;
    }
  }

  /** Splitting undoes joining when no line holds a newline of its own. */
  lemma {:induction false} LinesOfUnlines(ls: seq<string>)
    requires forall i | 0 <= i < |ls| :: '\n' !in ls[i]
    ensures Lines(Unlines(ls)) == ls
    decreases |ls|
  {
    if |ls| > 0 {
      var rest := Unlines(ls[1..]);
      var s := ls[0] + "\n" + rest;
      assert s == ls[0] + ['\n'] + rest;
      IndexOfFirst(ls[0], '\n', rest);
      assert s[..|ls[0]|] == ls[0];
      assert s[|ls[0]| + 1..] == rest;
      LinesOfUnlines(ls[1..]);
    }
  }
}
