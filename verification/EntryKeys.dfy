/**
 Identity of a registry entry: tenant, model, revision and weight mode folded into the one
 string every registry backend keys on, and parsed back by cache eviction.
 */
module EntryKeys {
  import opened Prelude
  import opened Text
  import opened Dns

  const STRUCTURED_PREFIX := "mx1:"
  const TENANT_PREFIX := "mxt1:"
  const METADATA_FLAG := "m"
  const FULL_WEIGHT_FLAG := "-"

  /** A namespace that passed the label check. */
  type Tenant = s: string | IsLabel(s) witness "a"

  datatype EntryKey = EntryKey(
    tenant: Option<Tenant>,
    modelName: string,
    revision: Option<string>,
    metadataOnly: bool)

  function Bare(modelName: string): EntryKey {
    EntryKey(None, modelName, None, false)
  }

  predicate NeedsStructuredForm(k: EntryKey) {
    || k.revision.Some?
    || k.metadataOnly
    || STRUCTURED_PREFIX <= k.modelName
    || TENANT_PREFIX <= k.modelName
  }

  function RevisionField(revision: Option<string>): string {
    if revision.Some? then revision.value else ""
  }

  function Flags(metadataOnly: bool): string {
    if metadataOnly then METADATA_FLAG else FULL_WEIGHT_FLAG
  }

  /** Revision, flags and model name, which goes last because it is unrestricted. */
  function Fields(k: EntryKey): string {
    RevisionField(k.revision) + ":" + (Flags(k.metadataOnly) + ":" + k.modelName)
  }

  function Print(k: EntryKey): string {
    if k.tenant.Some? then TENANT_PREFIX + (k.tenant.value + ":" + Fields(k))
    else if NeedsStructuredForm(k) then STRUCTURED_PREFIX + Fields(k)
    else k.modelName
  }

  function FromFields(tenant: Option<Tenant>, revision: string, flags: string, modelName: string): EntryKey {
    EntryKey(tenant, modelName, if revision == "" then None else Some(revision), flags == METADATA_FLAG)
  }

  function Parse(key: string): EntryKey {
    if TENANT_PREFIX <= key then
      var parts := SplitN(key[|TENANT_PREFIX|..], ':', 4);
      if |parts| == 4 && IsLabel(parts[0]) then FromFields(Some(parts[0]), parts[1], parts[2], parts[3])
      else Bare(key)
    else if STRUCTURED_PREFIX <= key then
      var parts := SplitN(key[|STRUCTURED_PREFIX|..], ':', 3);
      if |parts| == 3 then FromFields(None, parts[0], parts[1], parts[2])
      else Bare(key)
    else Bare(key)
  }

  predicate BelongsTo(k: EntryKey, tenant: Option<Tenant>, modelName: string) {
    k.tenant == tenant && k.modelName == modelName
  }

  /** A revision the encoding can carry: not the empty string, and without the separator. */
  predicate Encodable(revision: Option<string>) {
    revision.Some? ==> revision.value != "" && ':' !in revision.value
  }

  // ----- Revision validation

  predicate EndsWith(s: string, suffix: string) {
    |suffix| <= |s| && s[|s| - |suffix|..] == suffix
  }

  predicate Contains(s: string, sub: string) {
    exists i | 0 <= i <= |s| :: sub <= s[i..]
  }

  predicate ForbiddenInRevision(c: char) {
    || c < ' ' || c == '\U{007F}'
    || c == ' ' || c == '~' || c == '^' || c == ':' || c == '?' || c == '*' || c == '[' || c == '\\'
  }

  predicate ValidRevision(r: string) {
    && r != "@"
    && !EndsWith(r, ".")
    && !Contains(r, "..")
    && !Contains(r, "@{")
    && (forall i | 0 <= i < |r| :: !ForbiddenInRevision(r[i]))
    && (forall part | part in Split(r, '/') :: part != "" && part[0] != '.' && !EndsWith(part, ".lock"))
  }

  // ----- Proofs

  lemma {:induction false} SplitThree(a: string, b: string, c: string)
    requires ':' !in a && ':' !in b
    ensures SplitN(a + ":" + (b + ":" + c), ':', 3) == [a, b, c]
  {
    SplitNHead(a, b + ":" + c, ':', 3);
    SplitNHead(b, c, ':', 2);
  }

  lemma {:induction false} SplitFour(a: string, b: string, c: string, d: string)
    requires ':' !in a && ':' !in b && ':' !in c
    ensures SplitN(a + ":" + (b + ":" + (c + ":" + d)), ':', 4) == [a, b, c, d]
  {
    SplitNHead(a, b + ":" + (c + ":" + d), ':', 4);
    SplitThree(b, c, d);
  }

  lemma {:induction false} LabelHasNoColon(s: string)
    requires IsLabel(s)
    ensures ':' !in s
  {
  }

  lemma {:induction false} ParseTenantKey(tenant: Tenant, body: string)
    ensures var parts := SplitN(tenant + ":" + body, ':', 4);
            Parse(TENANT_PREFIX + (tenant + ":" + body))
            == if |parts| == 4 then FromFields(Some(tenant), parts[1], parts[2], parts[3])
               else Bare(TENANT_PREFIX + (tenant + ":" + body))
  {
    LabelHasNoColon(tenant);
    SplitNHead(tenant, body, ':', 4);
    assert (TENANT_PREFIX + (tenant + ":" + body))[|TENANT_PREFIX|..] == tenant + ":" + body;
  }

  lemma {:induction false} ParseStructuredKey(body: string)
    ensures var parts := SplitN(body, ':', 3);
            Parse(STRUCTURED_PREFIX + body)
            == if |parts| == 3 then FromFields(None, parts[0], parts[1], parts[2])
               else Bare(STRUCTURED_PREFIX + body)
  {
    var key := STRUCTURED_PREFIX + body;
    assert key[|STRUCTURED_PREFIX|..] == body;
    assert key[2] != TENANT_PREFIX[2];
  }

  lemma {:induction false} EncodableRoundTrips(k: EntryKey)
    requires Encodable(k.revision)
    ensures Parse(Print(k)) == k
  {
    var revision, flags := RevisionField(k.revision), Flags(k.metadataOnly);
    if k.tenant.Some? {
      ParseTenantKey(k.tenant.value, Fields(k));
      LabelHasNoColon(k.tenant.value);
      SplitFour(k.tenant.value, revision, flags, k.modelName);
    } else if NeedsStructuredForm(k) {
      ParseStructuredKey(Fields(k));
      SplitThree(revision, flags, k.modelName);
    }
  }

  lemma {:induction false} UnencodableIsMisread(k: EntryKey)
    requires !Encodable(k.revision)
    ensures Parse(Print(k)).revision != k.revision
  {
  }

  /**
   The key string round-trips for every tenant, model name and weight mode, exactly when
   the revision is absent or is non-empty and free of the separator.
   */
  lemma {:induction false} KeyRoundTrip(k: EntryKey)
    ensures Parse(Print(k)) == k <==> Encodable(k.revision)
  {
    if Encodable(k.revision) { EncodableRoundTrips(k); } else { UnencodableIsMisread(k); }
  }

  /** Two entries never share a registry key: no name can impersonate another encoding. */
  lemma {:induction false} KeysNeverCollide(a: EntryKey, b: EntryKey)
    requires Encodable(a.revision) && Encodable(b.revision)
    ensures Print(a) == Print(b) <==> a == b
  {
    EncodableRoundTrips(a);
    EncodableRoundTrips(b);
  }

  /** Every revision a request may name can be carried by the encoding. */
  lemma {:induction false} ValidRevisionIsEncodable(r: string)
    requires ValidRevision(r)
    ensures Encodable(Some(r))
  {
    if r == "" {
      assert "" in Split(r, '/') by { assert Split(r, '/') == [""]; }
    }
  }

  /** The spelling of keys: the bare name for an unpinned full-weight entry, else prefix, tenant, revision, weight mode and name between colons; a name that begins like a prefix is never bare. */
  lemma {:induction false} KeySpelling(k: EntryKey)
    ensures var revision := if k.revision.Some? then k.revision.value else "";
            var mode := if k.metadataOnly then "m" else "-";
            var fields := revision + ":" + mode + ":" + k.modelName;
            Print(k) ==
              if k.tenant.Some? then "mxt1:" + k.tenant.value + ":" + fields
              else if k.revision.None? && !k.metadataOnly && !("mx1:" <= k.modelName) && !("mxt1:" <= k.modelName) then k.modelName
              else "mx1:" + fields
  {
    hide IsLabel;
    var revision := if k.revision.Some? then k.revision.value else "";
    var mode := if k.metadataOnly then "m" else "-";
    Reassociate(revision, mode, k.modelName);
    if k.tenant.Some? {
      assert TENANT_PREFIX + (k.tenant.value + ":" + Fields(k)) == TENANT_PREFIX + k.tenant.value + ":" + Fields(k);
    }
  }

  lemma {:induction false} Reassociate(a: string, b: string, c: string)
    ensures a + ":" + (b + ":" + c) == a + ":" + b + ":" + c
  {
  }

  lemma {:induction false} ContainsMiddle(a: string, sub: string, b: string)
    ensures Contains(a + sub + b, sub)
  {
    var s := a + sub + b;
    assert s[|a|..] == sub + b;
    assert sub <= s[|a|..];
  }

  lemma {:induction false} NoSlashIsOnePart(s: string)
    requires '/' !in s
    ensures Split(s, '/') == [s] && s in Split(s, '/')
  {
    FindAbsent(s, '/');
  }

  /** What no revision may be or contain, whatever stands around it. */
  lemma {:induction false} RefusedRevisions(a: string, c: char, b: string)
    ensures !ValidRevision("@") && !ValidRevision("") && !ValidRevision(a + ".")
    ensures !ValidRevision(a + ".." + b) && !ValidRevision(a + "@{" + b)
    ensures c < ' ' || c == '\U{007F}' || c in " ~^:?*[\\" ==> !ValidRevision(a + [c] + b)
  {
    ContainsMiddle(a, "..", b);
    ContainsMiddle(a, "@{", b);
    assert (a + ".")[|a|..] == ".";
    assert (a + [c] + b)[|a|] == c;
    NoSlashIsOnePart("");
  }

  /** No part between slashes may be empty, begin with a dot or end in ".lock". */
  lemma {:induction false} RefusedParts(parts: seq<string>, i: nat, rest: string)
    requires i < |parts| && forall part | part in parts :: '/' !in part
    requires parts[i] == "" || parts[i] == "." + rest || parts[i] == rest + ".lock"
    ensures !ValidRevision(Join(parts, '/'))
  {
    SplitJoin(parts, '/');
    assert parts[i] in Split(Join(parts, '/'), '/');
    assert (rest + ".lock")[|rest|..] == ".lock";
  }

  lemma {:induction false} NotThere(s: string, sub: string)
    requires sub != "" && sub[0] !in s
    ensures !Contains(s, sub) && !EndsWith(s, sub)
  {
  }

  /** Every commit hash, and every plain word, is a revision. */
  lemma {:induction false} PlainRevisions(r: string)
    requires r != "" && forall i | 0 <= i < |r| :: 'a' <= r[i] <= 'z' || '0' <= r[i] <= '9'
    ensures ValidRevision(r)
  {
    assert '/' !in r && '.' !in r && '@' !in r;
    NoSlashIsOnePart(r);
    NotThere(r, ".");
    NotThere(r, "..");
    NotThere(r, "@{");
    NotThere(r, ".lock");
  }

  lemma {:induction false} FewFields(a: string, b: string)
    requires ':' !in a && ':' !in b
    ensures SplitN(a, ':', 3) == [a] && SplitN(a, ':', 4) == [a]
    ensures SplitN(a + ":" + b, ':', 3) == [a, b]
  {
    FindAbsent(a, ':');
    FindAbsent(b, ':');
    SplitNHead(a, b, ':', 3);
  }

  /** A key without all the fields of the encoding it begins like, or with a tenant that is none, is read as a bare model name, as is every key that begins like neither. */
  lemma {:induction false} MalformedKeysAreNames(a: string, b: string, rest: string)
    requires ':' !in a && ':' !in b
    ensures Parse(STRUCTURED_PREFIX + a) == Bare(STRUCTURED_PREFIX + a)
    ensures Parse(STRUCTURED_PREFIX + (a + ":" + b)) == Bare(STRUCTURED_PREFIX + (a + ":" + b))
    ensures Parse(TENANT_PREFIX + a) == Bare(TENANT_PREFIX + a)
    ensures !IsLabel(a) ==> Parse(TENANT_PREFIX + (a + ":" + rest)) == Bare(TENANT_PREFIX + (a + ":" + rest))
    ensures !(STRUCTURED_PREFIX <= rest) && !(TENANT_PREFIX <= rest) ==> Parse(rest) == Bare(rest)
  {
    hide IsLabel;
    FewFields(a, b);
    StructuredBody(a);
    StructuredBody(a + ":" + b);
    TenantBody(a);
    TenantBody(a + ":" + rest);
    SplitNHead(a, rest, ':', 4);
  }

  lemma {:induction false} StructuredBody(s: string)
    ensures !(TENANT_PREFIX <= STRUCTURED_PREFIX + s) && (STRUCTURED_PREFIX + s)[|STRUCTURED_PREFIX|..] == s
  {
    assert (STRUCTURED_PREFIX + s)[2] == '1' && TENANT_PREFIX[2] == 't';
  }

  lemma {:induction false} TenantBody(s: string)
    ensures TENANT_PREFIX <= TENANT_PREFIX + s && (TENANT_PREFIX + s)[|TENANT_PREFIX|..] == s
  {
  }
}
