/** `strings.TrimSpace` on text of Unicode code points. */
module Trimming {
  import opened Text

  /** `unicode.IsSpace`. */
  predicate IsSpace(c: char) {
    || '\U{9}' <= c <= '\U{d}' || c == ' ' || c == '\U{85}' || c == '\U{a0}' || c == '\U{1680}'
    || '\U{2000}' <= c <= '\U{200a}' || c == '\U{2028}' || c == '\U{2029}' || c == '\U{202f}'
    || c == '\U{205f}' || c == '\U{3000}'
  }

  /** Without white space at either end. */
  predicate Trimmed(s: string) {
    s == "" || (!IsSpace(s[0]) && !IsSpace(s[|s| - 1]))
  }

  function TrimLeft(s: string): (r: string)
    ensures r == "" || !IsSpace(r[0])
    ensures forall c :: c in r ==> c in s
  {
    if s != "" && IsSpace(s[0]) then TrimLeft(s[1..]) else s
  }

  function TrimRight(s: string): (r: string)
    ensures r <= s
    ensures r == "" || !IsSpace(r[|r| - 1])
  {
    if s != "" && IsSpace(s[|s| - 1]) then TrimRight(s[..|s| - 1]) else s
  }

  function Trim(s: string): (r: string)
    ensures Trimmed(r)
    ensures forall c :: c in r ==> c in s
    ensures Trimmed(s) ==> r == s
  {
    TrimRight(TrimLeft(s))
  }

  lemma {:induction false} TrimLeftExtended(s: string, c: char)
    requires IsSpace(c)
    ensures TrimLeft(s + [c]) == if TrimLeft(s) == "" then "" else TrimLeft(s) + [c]
  {
    if s == "" {
      assert s + [c] == [c];
    } else if IsSpace(s[0]) {
      TrimLeftExtended(s[1..], c);
      assert (s + [c])[1..] == s[1..] + [c];
    }
  }

  /** White space added at the end is trimmed away. */
  lemma TrimExtended(s: string, c: char)
    requires IsSpace(c)
    ensures Trim(s + [c]) == Trim(s)
  {
    TrimLeftExtended(s, c);
    var t := TrimLeft(s);
    if t != "" {
      assert (t + [c])[..|t + [c]| - 1] == t;
    }
  }

  ghost predicate SpaceAround(s: string, i: nat, j: nat)
    requires i <= j <= |s|
  {
    forall k :: 0 <= k < i || j <= k < |s| ==> IsSpace(s[k])
  }

  lemma {:induction false} TrimLeftDrops(s: string)
    ensures exists i: nat :: i <= |s| && TrimLeft(s) == s[i..] && forall k :: 0 <= k < i ==> IsSpace(s[k])
  {
    if s != "" && IsSpace(s[0]) {
      TrimLeftDrops(s[1..]);
      var i: nat :| i <= |s[1..]| && TrimLeft(s[1..]) == s[1..][i..] && forall k :: 0 <= k < i ==> IsSpace(s[1..][k]);
      assert s[1..][i..] == s[i + 1..];
      assert forall k :: 0 < k < i + 1 ==> s[k] == s[1..][k - 1];
    } else {
      assert s[0..] == s;
    }
  }

  lemma {:induction false} TrimRightDrops(s: string)
    ensures forall k :: |TrimRight(s)| <= k < |s| ==> IsSpace(s[k])
  {
    if s != "" && IsSpace(s[|s| - 1]) {
      TrimRightDrops(s[..|s| - 1]);
    }
  }

  lemma PrefixOfRest(s: string, i: nat, r: string)
    requires i <= |s| && r <= s[i..] && forall k :: 0 <= k < i ==> IsSpace(s[k])
    requires forall k :: |r| <= k < |s[i..]| ==> IsSpace(s[i..][k])
    ensures r == s[i..i + |r|] && SpaceAround(s, i, i + |r|)
  {
    forall k | i + |r| <= k < |s| ensures IsSpace(s[k]) {
      assert s[k] == s[i..][k - i];
    }
  }

  /** Only white space is trimmed: the rest is one stretch of the text. */
  lemma TrimDropsSpace(s: string)
    ensures exists i: nat, j: nat :: i <= j <= |s| && Trim(s) == s[i..j] && SpaceAround(s, i, j)
  {
    TrimLeftDrops(s);
    var i: nat :| i <= |s| && TrimLeft(s) == s[i..] && forall k :: 0 <= k < i ==> IsSpace(s[k]);
    TrimRightDrops(s[i..]);
    PrefixOfRest(s, i, Trim(s));
  }
}
