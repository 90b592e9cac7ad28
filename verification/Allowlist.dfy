/**
 The service-account allowlist on its way from the custom resource, through the
 operator's environment rendering, into the server's parsed configuration.
 */
module Allowlist {
  import opened Prelude
  import opened Text
  import opened Dns

  // ----- Server side

  datatype AccountMatch = Any | Named(name: string)

  datatype AccountRef = AccountRef(namespace: string, account: AccountMatch)

  datatype ParseError = MissingColon | BadNamespace | BadAccount

  predicate AccountAdmits(account: AccountMatch, serviceAccount: string) {
    account.Any? || account.name == serviceAccount
  }

  predicate Admits(r: AccountRef, namespace: string, serviceAccount: string) {
    r.namespace == namespace && AccountAdmits(r.account, serviceAccount)
  }

  function ParseAccount(value: string): Result<AccountMatch, ParseError> {
    if value == "*" then Ok(Any)
    else if IsSubdomain(value) then Ok(Named(value))
    else Err(BadAccount)
  }

  function NewRef(namespace: string, account: string): Result<AccountRef, ParseError> {
    if !IsLabel(namespace) then Err(BadNamespace)
    else match ParseAccount(account)
      case Err(e) => Err(e)
      case Ok(a) => Ok(AccountRef(namespace, a))
  }

  function ParseRef(s: string): Result<AccountRef, ParseError> {
    var i := Find(s, ':');
    if i == |s| then Err(MissingColon)
    else NewRef(Trim(s[..i]), Trim(s[i + 1..]))
  }

  /** Trim each part, skip the blank ones, and stop at the first that does not parse. */
  function ParseParts(parts: seq<string>): Result<seq<AccountRef>, ParseError> {
    if parts == [] then Ok([])
    else if Trim(parts[0]) == "" then ParseParts(parts[1..])
    else match ParseRef(Trim(parts[0]))
      case Err(e) => Err(e)
      case Ok(r) =>
        match ParseParts(parts[1..])
        case Err(e) => Err(e)
        case Ok(rest) => Ok([r] + rest)
  }

  function ParseList(s: string): Result<seq<AccountRef>, ParseError> {
    ParseParts(Split(s, ','))
  }

  function PrintAccount(account: AccountMatch): string {
    match account
    case Any => "*"
    case Named(name) => name
  }

  function PrintRef(r: AccountRef): string {
    r.namespace + ":" + PrintAccount(r.account)
  }

  /** What every reference the server holds satisfies. */
  predicate ValidRef(r: AccountRef) {
    IsLabel(r.namespace) && (r.account.Any? || (r.account.name != "*" && IsSubdomain(r.account.name)))
  }

  // ----- Operator side

  datatype Entry = Entry(namespace: string, serviceAccount: string)

  /** The admission rules of the custom resource definition. */
  ghost predicate Admitted(e: Entry) {
    && |e.namespace| <= 63 && Matches(LABEL_REGEX, e.namespace)
    && |e.serviceAccount| <= 253
    && (e.serviceAccount == "*" || Matches(SUBDOMAIN_REGEX, e.serviceAccount))
  }

  function RenderEntry(e: Entry): string {
    e.namespace + ":" + e.serviceAccount
  }

  function Rendered(entries: seq<Entry>): seq<string> {
    seq(|entries|, i requires 0 <= i < |entries| => RenderEntry(entries[i]))
  }

  function RenderEnv(entries: seq<Entry>): string {
    Join(Rendered(entries), ',')
  }

  function ToRef(e: Entry): AccountRef {
    AccountRef(e.namespace, if e.serviceAccount == "*" then Any else Named(e.serviceAccount))
  }

  function ToRefs(entries: seq<Entry>): seq<AccountRef> {
    seq(|entries|, i requires 0 <= i < |entries| => ToRef(entries[i]))
  }

  /** Who an entry of the custom resource is written to let in. */
  predicate Intends(e: Entry, namespace: string, serviceAccount: string) {
    e.namespace == namespace && (e.serviceAccount == "*" || e.serviceAccount == serviceAccount)
  }

  // ----- Proofs

  /** Characters a name may hold; none is a separator or white space. */
  predicate Plain(c: char) {
    IsLabelChar(c) || c == '.' || c == '*'
  }

  predicate IsPlain(s: string) {
    forall i | 0 <= i < |s| :: Plain(s[i])
  }

  lemma {:induction false} PlainTrims(s: string)
    requires IsPlain(s)
    ensures Trim(s) == s && ',' !in s && ':' !in s
  {
  }

  lemma {:induction false} SubdomainIsPlain(s: string)
    requires AllLabels(Split(s, '.'))
    ensures IsPlain(s) && s != ""
    decreases |s|
  {
    var i := Find(s, '.');
    var parts := Split(s, '.');
    assert MatchesLabel(s[..i]) by { assert parts[0] == s[..i]; }
    if i == |s| {
      assert s[..i] == s;
    } else {
      assert parts[1..] == Split(s[i + 1..], '.');
      SubdomainIsPlain(s[i + 1..]);
      forall k | 0 <= k < |s| ensures Plain(s[k]) {
        if k < i { assert s[k] == s[..i][k]; }
        if k > i { assert s[k] == s[i + 1..][k - i - 1]; }
      }
    }
  }

  /** The definition's rules and the server's rules agree, entry by entry. */
  lemma {:induction false} AdmittedIsValid(e: Entry)
    ensures Admitted(e) <==> ValidRef(ToRef(e))
  {
    LabelCheckIsLabelRegex(e.namespace);
    SubdomainCheckIsSubdomainRegex(e.serviceAccount);
  }

  lemma {:induction false} ValidRefIsPlain(r: AccountRef)
    requires ValidRef(r)
    ensures IsPlain(r.namespace) && IsPlain(PrintAccount(r.account))
  {
    if r.account.Named? {
      SubdomainIsPlain(r.account.name);
    }
  }

  /** Printing a reference and parsing it again gives the reference, even inside a list. */
  lemma {:induction false} RefRoundTrip(r: AccountRef)
    requires ValidRef(r)
    ensures ParseRef(PrintRef(r)) == Ok(r)
    ensures ',' !in PrintRef(r) && Trim(PrintRef(r)) == PrintRef(r) != ""
  {
    ValidRefIsPlain(r);
    var ns, account := r.namespace, PrintAccount(r.account);
    PlainTrims(ns);
    PlainTrims(account);
    var s := PrintRef(r);
    assert s[..|ns|] == ns;
    FindIsUnique(s, ':', |ns|);
    assert s[|ns| + 1..] == account;
    TrimFixed(s);
  }

  /** Whatever the server parses out of a string is a list of valid references. */
  lemma {:induction false} ParsedRefsAreValid(parts: seq<string>)
    ensures ParseParts(parts).Ok? ==> forall r | r in ParseParts(parts).value :: ValidRef(r)
  {
    if parts != [] {
      ParsedRefsAreValid(parts[1..]);
    }
  }

  lemma {:induction false} ParseEachPart(parts: seq<string>, refs: seq<AccountRef>)
    requires |parts| == |refs|
    requires forall i | 0 <= i < |parts| :: Trim(parts[i]) == parts[i] != "" && ParseRef(parts[i]) == Ok(refs[i])
    ensures ParseParts(parts) == Ok(refs)
  {
    if parts != [] {
      ParseEachPart(parts[1..], refs[1..]);
      assert refs == [refs[0]] + refs[1..];
    }
  }

  lemma {:induction false} ParseRenderedEntries(entries: seq<Entry>)
    requires forall e | e in entries :: ValidRef(ToRef(e))
    ensures ParseParts(Rendered(entries)) == Ok(ToRefs(entries))
  {
    var parts, refs := Rendered(entries), ToRefs(entries);
    forall i | 0 <= i < |parts|
      ensures Trim(parts[i]) == parts[i] != "" && ParseRef(parts[i]) == Ok(refs[i])
    {
      assert entries[i] in entries;
      RefRoundTrip(refs[i]);
      assert PrintRef(refs[i]) == parts[i];
    }
    ParseEachPart(parts, refs);
  }

  lemma {:induction false} RenderedHasNoComma(entries: seq<Entry>)
    requires forall e | e in entries :: ValidRef(ToRef(e))
    ensures forall p | p in Rendered(entries) :: ',' !in p
  {
    forall i | 0 <= i < |entries| ensures ',' !in RenderEntry(entries[i]) {
      RefRoundTrip(ToRef(entries[i]));
      assert PrintRef(ToRef(entries[i])) == RenderEntry(entries[i]);
    }
  }

  /**
   The server reads back exactly the list the operator rendered if and only if every
   entry satisfies the admission rules of the custom resource definition.
   */
  lemma {:induction false} AllowlistRoundTrip(entries: seq<Entry>)
    ensures ParseList(RenderEnv(entries)) == Ok(ToRefs(entries)) <==> forall e | e in entries :: Admitted(e)
  {
    forall e | e in entries {
      AdmittedIsValid(e);
    }
    if forall e | e in entries :: Admitted(e) {
      ParseRenderedEntries(entries);
      if entries == [] {
        assert RenderEnv(entries) == "";
        assert Split("", ',') == [""];
        assert ParseParts([""]) == Ok([]);
      } else {
        RenderedHasNoComma(entries);
        SplitJoin(Rendered(entries), ',');
      }
    }
    if ParseList(RenderEnv(entries)) == Ok(ToRefs(entries)) {
      ParsedRefsAreValid(Split(RenderEnv(entries), ','));
      forall e | e in entries ensures Admitted(e) {
        var i :| 0 <= i < |entries| && entries[i] == e;
        assert ToRefs(entries)[i] == ToRef(e);
      }
    }
  }

  /** The callers the server lets in are the callers the custom resource names. */
  lemma {:induction false} AllowlistMeaningPreserved(entries: seq<Entry>, namespace: string, serviceAccount: string)
    requires forall e | e in entries :: Admitted(e)
    ensures ParseList(RenderEnv(entries)).Ok?
    ensures (exists r | r in ParseList(RenderEnv(entries)).value :: Admits(r, namespace, serviceAccount))
            <==> (exists e | e in entries :: Intends(e, namespace, serviceAccount))
  {
    AllowlistRoundTrip(entries);
    var refs := ToRefs(entries);
    if e :| e in entries && Intends(e, namespace, serviceAccount) {
      var i :| 0 <= i < |entries| && entries[i] == e;
      assert refs[i] in refs && Admits(refs[i], namespace, serviceAccount);
    }
    if r :| r in refs && Admits(r, namespace, serviceAccount) {
      var i :| 0 <= i < |refs| && refs[i] == r;
      assert entries[i] in entries && Intends(entries[i], namespace, serviceAccount);
    }
  }

  // ----- What the server makes of any text

  /** A reference parses if and only if there is a colon, the text before the first is, trimmed, its namespace and the text after it, trimmed, spells its account, and both are valid. */
  lemma {:induction false} ParseRefIff(s: string, r: AccountRef)
    ensures ParseRef(s) == Ok(r) <==>
            && ValidRef(r)
            && exists i :: 0 <= i < |s| && s[i] == ':' && ':' !in s[..i]
                           && Trim(s[..i]) == r.namespace && Trim(s[i + 1..]) == PrintAccount(r.account)
  {
    hide IsLabel, IsSubdomain, Trim;
    var first := Find(s, ':');
    if i :| 0 <= i < |s| && s[i] == ':' && ':' !in s[..i] && Trim(s[..i]) == r.namespace && Trim(s[i + 1..]) == PrintAccount(r.account) {
      FindIsUnique(s, ':', i);
    }
    if ParseRef(s) == Ok(r) {
      assert s[first] == ':' && ':' !in s[..first];
    }
  }

  /** White space around the parts of a list changes nothing. */
  lemma {:induction false} PartsAreTrimmed(a: seq<string>, b: seq<string>)
    requires |a| == |b| && forall i | 0 <= i < |a| :: Trim(a[i]) == Trim(b[i])
    ensures ParseParts(a) == ParseParts(b)
  {
    hide ParseRef, Trim;
    if a != [] {
      PartsAreTrimmed(a[1..], b[1..]);
    }
  }

  /** Blank parts of a list change nothing, wherever they stand. */
  lemma {:induction false} BlankPartsAreSkipped(a: seq<string>, blank: string, b: seq<string>)
    requires Trim(blank) == ""
    ensures ParseParts(a + [blank] + b) == ParseParts(a + b)
    decreases |a|
  {
    hide ParseRef, Trim;
    if a == [] {
      assert a + [blank] + b == [blank] + b && ([blank] + b)[1..] == b && a + b == b;
    } else {
      BlankPartsAreSkipped(a[1..], blank, b);
      assert (a + [blank] + b)[1..] == a[1..] + [blank] + b && (a + b)[1..] == a[1..] + b;
    }
  }

  /** The first part that does not parse decides the error. */
  lemma {:induction false} FirstBadPartDecides(good: seq<string>, bad: string, rest: seq<string>)
    requires forall i | 0 <= i < |good| :: Trim(good[i]) != "" && ParseRef(Trim(good[i])).Ok?
    requires Trim(bad) != "" && ParseRef(Trim(bad)).Err?
    ensures ParseParts(good + [bad] + rest) == Err(ParseRef(Trim(bad)).error)
    decreases |good|
  {
    hide ParseRef, Trim;
    if good == [] {
      assert good + [bad] + rest == [bad] + rest;
    } else {
      FirstBadPartDecides(good[1..], bad, rest);
      assert (good + [bad] + rest)[1..] == good[1..] + [bad] + rest;
    }
  }
}
