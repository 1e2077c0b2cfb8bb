/** Splitting and joining text at newlines, as `strings.Split` and `strings.Join` do. */
module Text {
  predicate OneLine(s: string) {
    '\n' !in s
  }

  /** The pieces between newlines; there is always at least one. */
  function Split(s: string): (r: seq<string>)
    ensures |r| >= 1 && forall i :: 0 <= i < |r| ==> OneLine(r[i])
  {
    if s == "" then [""]
    else
      var rest := Split(s[1..]);
      if s[0] == '\n' then [""] + rest else [[s[0]] + rest[0]] + rest[1..]
  }

  function Join(ls: seq<string>): string {
    if ls == [] then ""
    else if |ls| == 1 then ls[0]
    else ls[0] + "\n" + Join(ls[1..])
  }

  lemma {:induction false} SplitOneLine(s: string)
    ensures OneLine(s) <==> |Split(s)| == 1
    ensures OneLine(s) ==> Split(s) == [s]
  {
    if s != "" {
      SplitOneLine(s[1..]);
      assert s == [s[0]] + s[1..];
    }
  }

  /** A newline separates: splitting around it splits the two sides. */
  lemma {:induction false} SplitAt(a: string, b: string)
    ensures Split(a + "\n" + b) == Split(a) + Split(b)
  {
    var s := a + "\n" + b;
    if a == "" {
      assert s[0] == '\n' && s[1..] == b;
    } else {
      SplitAt(a[1..], b);
      assert s[0] == a[0] && s[1..] == a[1..] + "\n" + b;
    }
  }

  /** A prefix without newlines joins the first piece. */
  lemma {:induction false} SplitPrefix(a: string, b: string)
    requires OneLine(a)
    ensures Split(a + b) == [a + Split(b)[0]] + Split(b)[1..]
  {
    if a == "" {
      assert a + b == b && a + Split(b)[0] == Split(b)[0];
    } else {
      SplitPrefix(a[1..], b);
      assert a[0] in a && (a + b)[0] == a[0] && (a + b)[1..] == a[1..] + b;
      assert [a[0]] + (a[1..] + Split(b)[0]) == a + Split(b)[0];
    }
  }

  lemma {:induction false} SplitJoin(ls: seq<string>)
    requires ls != [] && forall i :: 0 <= i < |ls| ==> OneLine(ls[i])
    ensures Split(Join(ls)) == ls
  {
    SplitOneLine(ls[0]);
    if |ls| > 1 {
      SplitJoin(ls[1..]);
      SplitAt(ls[0], Join(ls[1..]));
      assert ls == [ls[0]] + ls[1..];
    }
  }
}
