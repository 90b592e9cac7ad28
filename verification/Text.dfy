/** The string operations the parsers use: find, split, join and trim. */
module Text {

  /** Index of the first `c` in `s`, or the length when there is none. */
  function Find(s: string, c: char): (i: nat)
    ensures i <= |s|
    ensures c !in s[..i]
    ensures i < |s| ==> s[i] == c
  {
    if s == [] || s[0] == c then 0
    else
      var rest := Find(s[1..], c);
      assert s[..1 + rest] == [s[0]] + s[1..][..rest];
      1 + rest
  }

  /** The position `Find` reports is the only one with its two properties. */
  lemma {:induction false} FindIsUnique(s: string, c: char, i: nat)
    requires i < |s| && s[i] == c && c !in s[..i]
    ensures Find(s, c) == i
  {
  }

  lemma {:induction false} FindAbsent(s: string, c: char)
    requires c !in s
    ensures Find(s, c) == |s|
  {
  }

  /** `str::split(c)`: never empty, and the parts never contain the separator. */
  function Split(s: string, c: char): (parts: seq<string>)
    ensures |parts| >= 1
    ensures forall p | p in parts :: c !in p
    decreases |s|
  {
    var i := Find(s, c);
    if i == |s| then
      assert s[..i] == s;
      [s]
    else [s[..i]] + Split(s[i + 1..], c)
  }

  /** `str::splitn(n, c)`: at most `n` parts, the last one left uncut. */
  function SplitN(s: string, c: char, n: nat): (parts: seq<string>)
    requires n >= 1
    ensures 1 <= |parts| <= n
    decreases n
  {
    var i := Find(s, c);
    if n == 1 || i == |s| then [s]
    else [s[..i]] + SplitN(s[i + 1..], c, n - 1)
  }

  function Join(parts: seq<string>, c: char): (s: string)
  {
    if parts == [] then ""
    else if |parts| == 1 then parts[0]
    else parts[0] + [c] + Join(parts[1..], c)
  }

  /** Joining separator-free parts loses nothing: splitting gives them back. */
  lemma {:induction false} SplitJoin(parts: seq<string>, c: char)
    requires |parts| >= 1
    requires forall p | p in parts :: c !in p
    ensures Split(Join(parts, c), c) == parts
  {
    var s := Join(parts, c);
    if |parts| == 1 {
      FindAbsent(s, c);
      assert s[..|s|] == s;
    } else {
      var i := |parts[0]|;
      assert s[..i] == parts[0];
      FindIsUnique(s, c, i);
      assert s[i + 1..] == Join(parts[1..], c);
      SplitJoin(parts[1..], c);
    }
  }

  lemma {:induction false} JoinCons(first: string, rest: seq<string>, c: char)
    requires rest != []
    ensures Join([first] + rest, c) == first + [c] + Join(rest, c)
  {
    assert ([first] + rest)[1..] == rest;
  }

  /** Splitting loses nothing: joining the parts gives the string back. */
  lemma {:induction false} JoinSplit(s: string, c: char)
    ensures Join(Split(s, c), c) == s
    decreases |s|
  {
    var i := Find(s, c);
    if i < |s| {
      JoinSplit(s[i + 1..], c);
      var rest := Split(s[i + 1..], c);
      assert Split(s, c) == [s[..i]] + rest;
      JoinCons(s[..i], rest, c);
      assert s == s[..i] + [c] + s[i + 1..];
    } else {
      assert Split(s, c) == [s];
    }
  }

  /** Cutting after a separator-free head. */
  lemma {:induction false} SplitNHead(head: string, tail: string, c: char, n: nat)
    requires n >= 2 && c !in head
    ensures SplitN(head + [c] + tail, c, n) == [head] + SplitN(tail, c, n - 1)
  {
    var s := head + [c] + tail;
    assert s[..|head|] == head;
    FindIsUnique(s, c, |head|);
    assert s[|head| + 1..] == tail;
  }

  /** The Unicode White_Space property, which is what `str::trim` strips. */
  predicate IsWhitespace(c: char) {
    || '\U{0009}' <= c <= '\U{000D}'
    || c == '\U{0020}'
    || c == '\U{0085}'
    || c == '\U{00A0}'
    || c == '\U{1680}'
    || '\U{2000}' <= c <= '\U{200A}'
    || c == '\U{2028}'
    || c == '\U{2029}'
    || c == '\U{202F}'
    || c == '\U{205F}'
    || c == '\U{3000}'
  }

  function TrimStart(s: string): (r: string)
    ensures r != "" ==> !IsWhitespace(r[0])
  {
    if s != "" && IsWhitespace(s[0]) then TrimStart(s[1..]) else s
  }

  function TrimEnd(s: string): (r: string)
    ensures r <= s
    ensures r != "" ==> !IsWhitespace(r[|r| - 1])
  {
    if s != "" && IsWhitespace(s[|s| - 1]) then TrimEnd(s[..|s| - 1]) else s
  }

  function Trim(s: string): (r: string)
    ensures r != "" ==> !IsWhitespace(r[0]) && !IsWhitespace(r[|r| - 1])
  {
    TrimEnd(TrimStart(s))
  }

  predicate Blank(s: string) {
    forall i | 0 <= i < |s| :: IsWhitespace(s[i])
  }

  lemma {:induction false} TrimStartSplits(s: string)
    ensures exists before :: Blank(before) && s == before + TrimStart(s)
    decreases |s|
  {
    if s != "" && IsWhitespace(s[0]) {
      TrimStartSplits(s[1..]);
      var before :| Blank(before) && s[1..] == before + TrimStart(s[1..]);
      assert Blank([s[0]] + before) && s == [s[0]] + before + TrimStart(s);
    } else {
      assert Blank("") && s == "" + TrimStart(s);
    }
  }

  lemma {:induction false} TrimEndSplits(s: string)
    ensures exists after :: Blank(after) && s == TrimEnd(s) + after
    decreases |s|
  {
    if s != "" && IsWhitespace(s[|s| - 1]) {
      var n := |s| - 1;
      TrimEndSplits(s[..n]);
      var after :| Blank(after) && s[..n] == TrimEnd(s[..n]) + after;
      assert Blank(after + [s[n]]) && s == TrimEnd(s) + (after + [s[n]]);
    } else {
      assert Blank("") && s == TrimEnd(s) + "";
    }
  }

  /** A string is white space, then its trimming, then white space; with the contract of `Trim` that determines it. */
  lemma {:induction false} TrimSplits(s: string)
    ensures exists before, after :: Blank(before) && Blank(after) && s == before + Trim(s) + after
  {
    TrimStartSplits(s);
    TrimEndSplits(TrimStart(s));
    var before :| Blank(before) && s == before + TrimStart(s);
    var after :| Blank(after) && TrimStart(s) == Trim(s) + after;
    assert s == before + Trim(s) + after;
  }

  lemma {:induction false} TrimStartPadded(before: string, s: string)
    requires Blank(before)
    ensures TrimStart(before + s) == TrimStart(s)
    decreases |before|
  {
    if before == "" {
      assert before + s == s;
    } else {
      TrimStartPadded(before[1..], s);
      assert (before + s)[1..] == before[1..] + s;
    }
  }

  lemma {:induction false} TrimEndPadded(s: string, after: string)
    requires Blank(after)
    ensures TrimEnd(s + after) == TrimEnd(s)
    decreases |after|
  {
    if after == "" {
      assert s + after == s;
    } else {
      var n := |after| - 1;
      TrimEndPadded(s, after[..n]);
      assert (s + after)[..|s + after| - 1] == s + after[..n];
    }
  }

  lemma {:induction false} TrimStartOfPadded(s: string, after: string)
    requires Blank(after)
    ensures TrimEnd(TrimStart(s + after)) == TrimEnd(TrimStart(s))
    decreases |s|
  {
    if s == "" {
      assert s + after == after;
      TrimStartPadded(after, "");
      assert after + "" == after;
    } else if IsWhitespace(s[0]) {
      TrimStartOfPadded(s[1..], after);
      assert (s + after)[1..] == s[1..] + after;
    } else {
      TrimEndPadded(s, after);
    }
  }

  /** White space around a string does not change its trimming. */
  lemma {:induction false} TrimPadded(before: string, s: string, after: string)
    requires Blank(before) && Blank(after)
    ensures Trim(before + s + after) == Trim(s)
  {
    assert before + s + after == before + (s + after);
    TrimStartPadded(before, s + after);
    TrimStartOfPadded(s, after);
  }

  /** A string with no whitespace at either end is its own trimming. */
  lemma {:induction false} TrimFixed(s: string)
    requires s != "" ==> !IsWhitespace(s[0]) && !IsWhitespace(s[|s| - 1])
    ensures Trim(s) == s
  {
  }
}
