/**
 DNS-1123 names. The server checks them byte by byte; the custom resource definition
 states the same rules as regular expressions. Both are modelled here, the regular
 expressions through their usual language semantics, and proved to admit the same names.
 */
module Dns {
  import opened Text

  predicate IsLowerOrDigit(c: char) {
    'a' <= c <= 'z' || '0' <= c <= '9'
  }

  predicate IsLabelChar(c: char) {
    IsLowerOrDigit(c) || c == '-'
  }

  /** The byte test for alphanumerics also admits upper case. */
  predicate IsAsciiAlphanumeric(c: char) {
    IsLowerOrDigit(c) || 'A' <= c <= 'Z'
  }

  predicate MatchesLabel(s: string) {
    && (forall i | 0 <= i < |s| :: IsLabelChar(s[i]))
    && |s| > 0
    && IsAsciiAlphanumeric(s[0])
    && IsAsciiAlphanumeric(s[|s| - 1])
  }

  predicate IsLabel(s: string) {
    |s| <= 63 && MatchesLabel(s)
  }

  predicate IsSubdomain(s: string) {
    |s| <= 253 && forall part | part in Split(s, '.') :: MatchesLabel(part)
  }

  // ----- The regular expressions of the custom resource definition

  datatype CharClass = LowerOrDigit | LowerDigitOrDash | Dot {
    predicate Has(c: char) {
      match this
      case LowerOrDigit => 'a' <= c <= 'z' || '0' <= c <= '9'
      case LowerDigitOrDash => c == '-' || 'a' <= c <= 'z' || '0' <= c <= '9'
      case Dot => c == '.'
    }
  }

  datatype Regex =
    | Class(cc: CharClass)
    | Then(first: Regex, second: Regex)
    | Optional(body: Regex)
    | Star(body: Regex)

  /** Membership of a string in the language of a regular expression. */
  ghost predicate Matches(r: Regex, s: string)
    decreases r, |s|
  {
    match r
    case Class(cc) => |s| == 1 && cc.Has(s[0])
    case Then(first, second) =>
      exists i | 0 <= i <= |s| :: Matches(first, s[..i]) && Matches(second, s[i..])
    case Optional(body) => s == "" || Matches(body, s)
    case Star(body) =>
      || s == ""
      || exists i | 0 < i <= |s| :: Matches(body, s[..i]) && Matches(r, s[i..])
  }

  /** `[a-z0-9]([-a-z0-9]*[a-z0-9])?` */
  const LABEL_TAIL := Then(Star(Class(LowerDigitOrDash)), Class(LowerOrDigit))
  const LABEL_REGEX := Then(Class(LowerOrDigit), Optional(LABEL_TAIL))

  /** `[.]` followed by a label. */
  const DOT_LABEL := Then(Class(Dot), LABEL_REGEX)

  /** The label pattern followed by any number of dotted labels. */
  const SUBDOMAIN_REGEX := Then(LABEL_REGEX, Star(DOT_LABEL))

  lemma {:induction false} StarOfClass(cc: CharClass, s: string)
    ensures Matches(Star(Class(cc)), s) <==> forall i | 0 <= i < |s| :: cc.Has(s[i])
    decreases |s|
  {
    var r := Star(Class(cc));
    if s != "" {
      StarOfClass(cc, s[1..]);
      if Matches(r, s) {
        var i :| 0 < i <= |s| && Matches(Class(cc), s[..i]) && Matches(r, s[i..]);
        assert i == 1;
        forall k | 0 <= k < |s| ensures cc.Has(s[k]) {
          if k > 0 { assert s[k] == s[1..][k - 1]; }
        }
      }
      if forall i | 0 <= i < |s| :: cc.Has(s[i]) {
        assert Matches(Class(cc), s[..1]) && Matches(r, s[1..]);
      }
    }
  }

  lemma {:induction false} LabelTail(s: string)
    ensures Matches(LABEL_TAIL, s) <==>
            |s| > 0 && IsLowerOrDigit(s[|s| - 1]) && forall i | 0 <= i < |s| :: IsLabelChar(s[i])
  {
    var star, last := Star(Class(LowerDigitOrDash)), Class(LowerOrDigit);
    if Matches(LABEL_TAIL, s) {
      var i :| 0 <= i <= |s| && Matches(star, s[..i]) && Matches(last, s[i..]);
      assert i == |s| - 1;
      StarOfClass(LowerDigitOrDash, s[..i]);
      forall k | 0 <= k < |s| ensures IsLabelChar(s[k]) {
        if k < i { assert s[k] == s[..i][k]; }
      }
    }
    if |s| > 0 && IsLowerOrDigit(s[|s| - 1]) && forall i | 0 <= i < |s| :: IsLabelChar(s[i]) {
      var i := |s| - 1;
      StarOfClass(LowerDigitOrDash, s[..i]);
      assert Matches(star, s[..i]) && Matches(last, s[i..]);
    }
  }

  /** The server's label check accepts exactly the language of the label pattern. */
  lemma {:induction false} LabelCheckIsLabelRegex(s: string)
    ensures MatchesLabel(s) <==> Matches(LABEL_REGEX, s)
  {
    var head, tail := Class(LowerOrDigit), Optional(LABEL_TAIL);
    if MatchesLabel(s) {
      LabelTail(s[1..]);
      assert Matches(head, s[..1]) && Matches(tail, s[1..]);
    }
    if Matches(LABEL_REGEX, s) {
      var i :| 0 <= i <= |s| && Matches(head, s[..i]) && Matches(tail, s[i..]);
      assert i == 1;
      LabelTail(s[1..]);
      forall k | 0 <= k < |s| ensures IsLabelChar(s[k]) {
        if k > 0 { assert s[k] == s[1..][k - 1]; }
      }
    }
  }

  lemma {:induction false} DotLabel(s: string)
    ensures Matches(DOT_LABEL, s) <==> |s| > 0 && s[0] == '.' && MatchesLabel(s[1..])
  {
    if Matches(DOT_LABEL, s) {
      var i :| 0 <= i <= |s| && Matches(Class(Dot), s[..i]) && Matches(LABEL_REGEX, s[i..]);
      assert i == 1;
      LabelCheckIsLabelRegex(s[1..]);
    }
    if |s| > 0 && s[0] == '.' && MatchesLabel(s[1..]) {
      LabelCheckIsLabelRegex(s[1..]);
      assert Matches(Class(Dot), s[..1]) && Matches(LABEL_REGEX, s[1..]);
    }
  }

  ghost predicate AllLabels(parts: seq<string>) {
    forall part | part in parts :: MatchesLabel(part)
  }

  /** A leading label and then more labels, cut at the first dot. */
  lemma {:induction false} SplitAtFirstDot(head: string, tail: string)
    requires '.' !in head
    ensures Split(head + ['.'] + tail, '.') == [head] + Split(tail, '.')
  {
    var s := head + ['.'] + tail;
    assert s[..|head|] == head;
    FindIsUnique(s, '.', |head|);
    assert s[|head| + 1..] == tail;
  }

  lemma {:induction false} DottedLabelsSplit(s: string)
    requires s != "" && Matches(Star(DOT_LABEL), s)
    ensures s[0] == '.' && AllLabels(Split(s[1..], '.'))
    decreases |s|
  {
    var i :| 0 < i <= |s| && Matches(DOT_LABEL, s[..i]) && Matches(Star(DOT_LABEL), s[i..]);
    DotLabel(s[..i]);
    var head := s[..i][1..];
    if i == |s| {
      assert head == s[1..];
      FindAbsent(head, '.');
    } else {
      DottedLabelsSplit(s[i..]);
      assert s[1..] == head + ['.'] + s[i..][1..];
      SplitAtFirstDot(head, s[i..][1..]);
    }
  }

  lemma {:induction false} SplitDottedLabels(s: string)
    requires s != "" && s[0] == '.' && AllLabels(Split(s[1..], '.'))
    ensures Matches(Star(DOT_LABEL), s)
    decreases |s|
  {
    var parts := Split(s[1..], '.');
    var i := 1 + Find(s[1..], '.');
    assert s[..i][1..] == s[1..][..i - 1] == parts[0];
    DotLabel(s[..i]);
    if i < |s| {
      assert s[1..][i..] == s[i..][1..];
      assert parts[1..] == Split(s[i..][1..], '.');
      SplitDottedLabels(s[i..]);
    }
    assert Matches(DOT_LABEL, s[..i]) && Matches(Star(DOT_LABEL), s[i..]);
  }

  /** Dotted labels after a label are exactly the remaining parts of the split. */
  lemma {:induction false} DottedLabels(s: string)
    ensures Matches(Star(DOT_LABEL), s) <==> s == "" || (s[0] == '.' && AllLabels(Split(s[1..], '.')))
  {
    if s != "" && Matches(Star(DOT_LABEL), s) {
      DottedLabelsSplit(s);
    }
    if s != "" && s[0] == '.' && AllLabels(Split(s[1..], '.')) {
      SplitDottedLabels(s);
    }
  }

  lemma {:induction false} SubdomainMatches(s: string)
    requires AllLabels(Split(s, '.'))
    ensures Matches(SUBDOMAIN_REGEX, s)
  {
    var first, rest := LABEL_REGEX, Star(DOT_LABEL);
    var i := Find(s, '.');
    assert Split(s, '.')[0] == s[..i];
    LabelCheckIsLabelRegex(s[..i]);
    DottedLabels(s[i..]);
    if i < |s| {
      assert s[i..][1..] == s[i + 1..];
    }
    assert Matches(first, s[..i]) && Matches(rest, s[i..]);
  }

  lemma {:induction false} MatchIsSubdomain(s: string, i: nat)
    requires i <= |s| && Matches(LABEL_REGEX, s[..i]) && Matches(Star(DOT_LABEL), s[i..])
    ensures AllLabels(Split(s, '.'))
  {
    LabelCheckIsLabelRegex(s[..i]);
    DottedLabels(s[i..]);
    if i < |s| {
      assert s == s[..i] + ['.'] + s[i..][1..];
      SplitAtFirstDot(s[..i], s[i..][1..]);
    } else {
      assert s == s[..i];
      FindAbsent(s, '.');
    }
  }

  /** The server's split-and-check accepts exactly the language of the subdomain pattern. */
  lemma {:induction false} SubdomainCheckIsSubdomainRegex(s: string)
    ensures AllLabels(Split(s, '.')) <==> Matches(SUBDOMAIN_REGEX, s)
  {
    if AllLabels(Split(s, '.')) {
      SubdomainMatches(s);
    }
    if Matches(SUBDOMAIN_REGEX, s) {
      var first, rest := LABEL_REGEX, Star(DOT_LABEL);
      var i :| 0 <= i <= |s| && Matches(first, s[..i]) && Matches(rest, s[i..]);
      MatchIsSubdomain(s, i);
    }
  }
}
