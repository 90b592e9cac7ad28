/** The LRU policy: which downloaded models an eviction cycle selects, and why. */
module Lru {
  import opened Prelude

  datatype ModelStatus = DOWNLOADING | DOWNLOADED | ERROR

  datatype ModelRecord = ModelRecord(modelName: string, status: ModelStatus, lastUsedAt: int)

  datatype EvictionReason = TimeThreshold | CountLimit

  datatype EvictionCandidate = EvictionCandidate(modelName: string, reason: EvictionReason)

  /** `cutoff` is the instant before which an unused model counts as expired. */
  datatype LruConfig = LruConfig(cutoff: int, maxModels: Option<nat>)

  predicate IsTimeExpired(m: ModelRecord, cutoff: int) {
    m.lastUsedAt < cutoff
  }

  ghost predicate DistinctNames(models: seq<ModelRecord>) {
    forall i, j | 0 <= i < j < |models| :: models[i].modelName != models[j].modelName
  }

  // ----- Filtering and sorting

  function DownloadedOf(models: seq<ModelRecord>): seq<ModelRecord> {
    if models == [] then []
    else
      var m := models[|models| - 1];
      DownloadedOf(models[..|models| - 1]) + if m.status == DOWNLOADED then [m] else []
  }

  function ExpiredOf(models: seq<ModelRecord>, cutoff: int): seq<ModelRecord> {
    if models == [] then []
    else
      var m := models[|models| - 1];
      ExpiredOf(models[..|models| - 1], cutoff) + if IsTimeExpired(m, cutoff) then [m] else []
  }

  /** Insert after every record at most as recent, so equal times keep their order. */
  function Insert(s: seq<ModelRecord>, m: ModelRecord): seq<ModelRecord> {
    if s == [] || s[|s| - 1].lastUsedAt <= m.lastUsedAt then s + [m]
    else Insert(s[..|s| - 1], m) + [s[|s| - 1]]
  }

  /** The stable sort by last use, oldest first. */
  function SortByLastUsed(models: seq<ModelRecord>): seq<ModelRecord> {
    if models == [] then []
    else Insert(SortByLastUsed(models[..|models| - 1]), models[|models| - 1])
  }

  ghost predicate Sorted(s: seq<ModelRecord>) {
    forall i, j | 0 <= i < j < |s| :: s[i].lastUsedAt <= s[j].lastUsedAt
  }

  lemma {:induction false} InsertBelow(s: seq<ModelRecord>, m: ModelRecord, bound: int)
    requires m.lastUsedAt <= bound && forall i | 0 <= i < |s| :: s[i].lastUsedAt <= bound
    ensures forall i | 0 <= i < |Insert(s, m)| :: Insert(s, m)[i].lastUsedAt <= bound
  {
    if s != [] && s[|s| - 1].lastUsedAt > m.lastUsedAt {
      InsertBelow(s[..|s| - 1], m, bound);
    }
  }

  lemma {:induction false} SortedSnoc(s: seq<ModelRecord>, m: ModelRecord)
    requires Sorted(s) && forall i | 0 <= i < |s| :: s[i].lastUsedAt <= m.lastUsedAt
    ensures Sorted(s + [m])
  {
  }

  lemma {:induction false} InsertSorts(s: seq<ModelRecord>, m: ModelRecord)
    requires Sorted(s)
    ensures Sorted(Insert(s, m))
  {
    if s != [] && s[|s| - 1].lastUsedAt > m.lastUsedAt {
      var init, last := s[..|s| - 1], s[|s| - 1];
      InsertSorts(init, m);
      InsertBelow(init, m, last.lastUsedAt);
      SortedSnoc(Insert(init, m), last);
    } else {
      SortedSnoc(s, m);
    }
  }

  lemma {:induction false} InsertPermutes(s: seq<ModelRecord>, m: ModelRecord)
    ensures multiset(Insert(s, m)) == multiset(s) + multiset{m}
  {
    if s != [] && s[|s| - 1].lastUsedAt > m.lastUsedAt {
      var init, last := s[..|s| - 1], s[|s| - 1];
      InsertPermutes(init, m);
      assert s == init + [last];
    }
  }

  lemma {:induction false} SortSorts(models: seq<ModelRecord>)
    ensures Sorted(SortByLastUsed(models))
    ensures multiset(SortByLastUsed(models)) == multiset(models)
  {
    if models != [] {
      var n := |models| - 1;
      SortSorts(models[..n]);
      InsertSorts(SortByLastUsed(models[..n]), models[n]);
      InsertPermutes(SortByLastUsed(models[..n]), models[n]);
      assert models == models[..n] + [models[n]];
    }
  }

  /** Sorting a list that is already in order changes nothing. */
  lemma {:induction false} SortFixed(models: seq<ModelRecord>)
    requires Sorted(models)
    ensures SortByLastUsed(models) == models
  {
    if models != [] {
      var n := |models| - 1;
      SortFixed(models[..n]);
      assert models == models[..n] + [models[n]];
    }
  }

  lemma {:induction false} ExpiredOfInsert(s: seq<ModelRecord>, m: ModelRecord, cutoff: int)
    ensures multiset(ExpiredOf(Insert(s, m), cutoff)) ==
            multiset(ExpiredOf(s, cutoff)) + (if IsTimeExpired(m, cutoff) then multiset{m} else multiset{})
  {
    if s == [] || s[|s| - 1].lastUsedAt <= m.lastUsedAt {
      assert (s + [m])[..|s|] == s;
    } else {
      var n := |s| - 1;
      ExpiredOfInsert(s[..n], m, cutoff);
      var rest := Insert(s[..n], m);
      assert (rest + [s[n]])[..|rest|] == rest;
    }
  }

  lemma {:induction false} ExpiredOfSort(models: seq<ModelRecord>, cutoff: int)
    ensures multiset(ExpiredOf(SortByLastUsed(models), cutoff)) == multiset(ExpiredOf(models, cutoff))
  {
    if models != [] {
      var n := |models| - 1;
      ExpiredOfSort(models[..n], cutoff);
      ExpiredOfInsert(SortByLastUsed(models[..n]), models[n], cutoff);
    }
  }

  /** In last-used order the expired models come first. */
  lemma {:induction false} ExpiredIsPrefix(s: seq<ModelRecord>, cutoff: int)
    requires Sorted(s)
    ensures |ExpiredOf(s, cutoff)| <= |s|
    ensures ExpiredOf(s, cutoff) == s[..|ExpiredOf(s, cutoff)|]
    ensures forall i | 0 <= i < |s| :: IsTimeExpired(s[i], cutoff) <==> i < |ExpiredOf(s, cutoff)|
  {
    if s != [] {
      var n := |s| - 1;
      ExpiredIsPrefix(s[..n], cutoff);
      var e := ExpiredOf(s[..n], cutoff);
      if IsTimeExpired(s[n], cutoff) {
        assert forall i | 0 <= i < n :: IsTimeExpired(s[..n][i], cutoff);
        assert s[..n] + [s[n]] == s[..n + 1];
      } else {
        assert s[..n][..|e|] == s[..|e|];
      }
      forall i | 0 <= i < |s| ensures IsTimeExpired(s[i], cutoff) <==> i < |ExpiredOf(s, cutoff)| {
        if i < n { assert s[i] == s[..n][i]; }
      }
    }
  }

  lemma {:induction false} ExpiredMembers(models: seq<ModelRecord>, cutoff: int)
    ensures forall m :: m in ExpiredOf(models, cutoff) <==> m in models && IsTimeExpired(m, cutoff)
  {
    if models != [] {
      var n := |models| - 1;
      ExpiredMembers(models[..n], cutoff);
      assert models == models[..n] + [models[n]];
    }
  }

  lemma {:induction false} DownloadedMembers(models: seq<ModelRecord>)
    ensures forall m :: m in DownloadedOf(models) <==> m in models && m.status == DOWNLOADED
    ensures |DownloadedOf(models)| <= |models|
  {
    if models != [] {
      var n := |models| - 1;
      DownloadedMembers(models[..n]);
      assert models == models[..n] + [models[n]];
    }
  }

  function UsedAt(models: seq<ModelRecord>, t: int): seq<ModelRecord> {
    if models == [] then []
    else
      var m := models[|models| - 1];
      UsedAt(models[..|models| - 1], t) + if m.lastUsedAt == t then [m] else []
  }

  lemma {:induction false} UsedAtSnoc(s: seq<ModelRecord>, m: ModelRecord, t: int)
    ensures UsedAt(s + [m], t) == if m.lastUsedAt == t then UsedAt(s, t) + [m] else UsedAt(s, t)
  {
  }

  lemma {:induction false} InsertIsStable(s: seq<ModelRecord>, m: ModelRecord, t: int)
    requires Sorted(s)
    ensures UsedAt(Insert(s, m), t) == if m.lastUsedAt == t then UsedAt(s, t) + [m] else UsedAt(s, t)
  {
    if s == [] || s[|s| - 1].lastUsedAt <= m.lastUsedAt {
      UsedAtSnoc(s, m, t);
    } else {
      var init, last := s[..|s| - 1], s[|s| - 1];
      assert s == init + [last];
      InsertIsStable(init, m, t);
      UsedAtSnoc(init, last, t);
      UsedAtSnoc(Insert(init, m), last, t);
    }
  }

  /** Records last used at the same instant keep their listing order. */
  lemma {:induction false} SortIsStable(models: seq<ModelRecord>, t: int)
    ensures UsedAt(SortByLastUsed(models), t) == UsedAt(models, t)
  {
    if models != [] {
      var init, last := models[..|models| - 1], models[|models| - 1];
      SortIsStable(init, t);
      assert Sorted(SortByLastUsed(init)) by { SortSorts(init); }
      InsertIsStable(SortByLastUsed(init), last, t);
    }
  }

  // ----- Selection

  function Names(models: seq<ModelRecord>): set<string> {
    set m | m in models :: m.modelName
  }

  function CandidateNames(candidates: seq<EvictionCandidate>): set<string> {
    set c | c in candidates :: c.modelName
  }

  function Labelled(models: seq<ModelRecord>, reason: EvictionReason): seq<EvictionCandidate> {
    seq(|models|, i requires 0 <= i < |models| => EvictionCandidate(models[i].modelName, reason))
  }

  /** How many models the count limit asks to remove. */
  function Excess(n: nat, maxModels: Option<nat>): nat {
    if maxModels.Some? then Max(0, n - maxModels.value) else 0
  }

  /** How many models a cycle removes: the expired ones, or more if there are still too many. */
  function EvictionCount(models: seq<ModelRecord>, config: LruConfig): nat {
    var downloaded := DownloadedOf(models);
    Max(|ExpiredOf(downloaded, config.cutoff)|, Excess(|downloaded|, config.maxModels))
  }

  /** The downloaded models in last-used order. */
  function Queue(models: seq<ModelRecord>): seq<ModelRecord> {
    SortByLastUsed(DownloadedOf(models))
  }

  function Picked(expired: seq<ModelRecord>, queue: seq<ModelRecord>, k: nat): seq<EvictionCandidate>
    requires |expired| <= k <= |queue|
  {
    Labelled(expired, TimeThreshold) + Labelled(queue[|expired|..k], CountLimit)
  }

  /** The expired models in listing order, then the oldest of the rest. */
  function Selected(models: seq<ModelRecord>, config: LruConfig): seq<EvictionCandidate>
    requires |ExpiredOf(DownloadedOf(models), config.cutoff)| <= EvictionCount(models, config) <= |Queue(models)|
  {
    Picked(ExpiredOf(DownloadedOf(models), config.cutoff), Queue(models), EvictionCount(models, config))
  }

  lemma {:induction false} MultisetMembers<T>(a: seq<T>, b: seq<T>)
    requires multiset(a) == multiset(b)
    ensures |a| == |b| && forall x :: x in a <==> x in b
  {
    assert |multiset(a)| == |a| && |multiset(b)| == |b|;
    forall x ensures x in a <==> x in b {
      assert x in a <==> x in multiset(a);
      assert x in b <==> x in multiset(b);
    }
  }

  lemma {:induction false} QueueFacts(models: seq<ModelRecord>, config: LruConfig)
    ensures Sorted(Queue(models)) && |Queue(models)| == |DownloadedOf(models)|
    ensures forall m :: m in Queue(models) <==> m in DownloadedOf(models)
    ensures var e := |ExpiredOf(DownloadedOf(models), config.cutoff)|;
            && e <= EvictionCount(models, config) <= |Queue(models)|
            && (forall i | 0 <= i < |Queue(models)| :: IsTimeExpired(Queue(models)[i], config.cutoff) <==> i < e)
            && (forall m :: m in ExpiredOf(DownloadedOf(models), config.cutoff) <==> m in Queue(models)[..e])
  {
    var d := DownloadedOf(models);
    SortSorts(d);
    MultisetMembers(Queue(models), d);
    ExpiredOfSort(d, config.cutoff);
    MultisetMembers(ExpiredOf(Queue(models), config.cutoff), ExpiredOf(d, config.cutoff));
    ExpiredIsPrefix(Queue(models), config.cutoff);
  }

  // ----- Distinct names survive filtering and sorting

  lemma {:induction false} DistinctSnoc(s: seq<ModelRecord>, m: ModelRecord)
    ensures DistinctNames(s + [m]) <==> DistinctNames(s) && m.modelName !in Names(s)
  {
    var all := s + [m];
    if DistinctNames(all) {
      forall i, j | 0 <= i < j < |s| ensures s[i].modelName != s[j].modelName {
        assert all[i].modelName != all[j].modelName;
      }
      forall i | 0 <= i < |s| ensures s[i].modelName != m.modelName {
        assert all[i].modelName != all[|s|].modelName;
      }
    }
    if DistinctNames(s) && m.modelName !in Names(s) {
      assert forall i | 0 <= i < |s| :: s[i].modelName in Names(s);
    }
  }

  lemma {:induction false} DistinctDownloaded(models: seq<ModelRecord>)
    requires DistinctNames(models)
    ensures DistinctNames(DownloadedOf(models))
    ensures Names(DownloadedOf(models)) <= Names(models)
  {
    DownloadedMembers(models);
    if models != [] {
      var n := |models| - 1;
      DistinctDownloaded(models[..n]);
      assert models == models[..n] + [models[n]];
      DistinctSnoc(models[..n], models[n]);
      DistinctSnoc(DownloadedOf(models[..n]), models[n]);
    }
  }

  lemma {:induction false} DistinctExpired(models: seq<ModelRecord>, cutoff: int)
    requires DistinctNames(models)
    ensures DistinctNames(ExpiredOf(models, cutoff))
    ensures Names(ExpiredOf(models, cutoff)) <= Names(models)
  {
    ExpiredMembers(models, cutoff);
    if models != [] {
      var n := |models| - 1;
      DistinctExpired(models[..n], cutoff);
      assert models == models[..n] + [models[n]];
      DistinctSnoc(models[..n], models[n]);
      DistinctSnoc(ExpiredOf(models[..n], cutoff), models[n]);
    }
  }

  lemma {:induction false} InsertNames(s: seq<ModelRecord>, m: ModelRecord)
    ensures Names(Insert(s, m)) == Names(s) + {m.modelName}
  {
    NamesSnoc(s, m);
    if s != [] && s[|s| - 1].lastUsedAt > m.lastUsedAt {
      var init, last := s[..|s| - 1], s[|s| - 1];
      InsertNames(init, m);
      assert s == init + [last];
      NamesSnoc(init, last);
      NamesSnoc(Insert(init, m), last);
    }
  }

  lemma {:induction false} InsertKeepsDistinct(s: seq<ModelRecord>, m: ModelRecord)
    requires DistinctNames(s) && m.modelName !in Names(s)
    ensures DistinctNames(Insert(s, m))
  {
    if s != [] && s[|s| - 1].lastUsedAt > m.lastUsedAt {
      var init, last := s[..|s| - 1], s[|s| - 1];
      assert s == init + [last];
      NamesSnoc(init, last);
      DistinctSnoc(init, last);
      InsertKeepsDistinct(init, m);
      InsertNames(init, m);
      DistinctSnoc(Insert(init, m), last);
    } else {
      DistinctSnoc(s, m);
    }
  }

  lemma {:induction false} NamesSnoc(s: seq<ModelRecord>, m: ModelRecord)
    ensures Names(s + [m]) == Names(s) + {m.modelName}
  {
  }

  lemma {:induction false} SortNames(models: seq<ModelRecord>)
    ensures Names(SortByLastUsed(models)) == Names(models)
    ensures DistinctNames(models) ==> DistinctNames(SortByLastUsed(models))
  {
    if models != [] {
      var init, last := models[..|models| - 1], models[|models| - 1];
      SortNames(init);
      assert models == init + [last];
      NamesSnoc(init, last);
      DistinctSnoc(init, last);
      InsertNames(SortByLastUsed(init), last);
      if DistinctNames(models) {
        InsertKeepsDistinct(SortByLastUsed(init), last);
      }
    }
  }

  lemma {:induction false} QueueDistinct(models: seq<ModelRecord>)
    requires DistinctNames(models)
    ensures DistinctNames(Queue(models))
  {
    DistinctDownloaded(models);
    SortNames(DownloadedOf(models));
  }

  // ----- What the selection means

  ghost predicate NoDuplicates(candidates: seq<EvictionCandidate>) {
    forall i, j | 0 <= i < j < |candidates| :: candidates[i].modelName != candidates[j].modelName
  }

  /** Every candidate's reason says truly whether its model is expired. */
  ghost predicate HonestReasons(candidates: seq<EvictionCandidate>, models: seq<ModelRecord>, cutoff: int) {
    forall c, m | c in candidates && m in models && c.modelName == m.modelName ::
      c.reason == TimeThreshold <==> IsTimeExpired(m, cutoff)
  }

  lemma {:induction false} LabelledNames(models: seq<ModelRecord>, reason: EvictionReason)
    ensures CandidateNames(Labelled(models, reason)) == Names(models)
  {
    var labelled := Labelled(models, reason);
    forall name | name in Names(models) ensures name in CandidateNames(labelled) {
      var i :| 0 <= i < |models| && models[i].modelName == name;
      assert labelled[i].modelName == name;
    }
    forall name | name in CandidateNames(labelled) ensures name in Names(models) {
      var i :| 0 <= i < |labelled| && labelled[i].modelName == name;
      assert models[i].modelName == name;
    }
  }

  lemma {:induction false} NamesConcat(a: seq<ModelRecord>, b: seq<ModelRecord>)
    ensures Names(a + b) == Names(a) + Names(b)
  {
  }

  lemma {:induction false} SelectedNames(models: seq<ModelRecord>, config: LruConfig)
    ensures |ExpiredOf(DownloadedOf(models), config.cutoff)| <= EvictionCount(models, config) <= |Queue(models)|
    ensures CandidateNames(Selected(models, config)) == Names(Queue(models)[..EvictionCount(models, config)])
    ensures |Selected(models, config)| == EvictionCount(models, config)
  {
    QueueFacts(models, config);
    var expired := ExpiredOf(DownloadedOf(models), config.cutoff);
    var q, e, k := Queue(models), |expired|, EvictionCount(models, config);
    LabelledNames(expired, TimeThreshold);
    LabelledNames(q[e..k], CountLimit);
    assert q[..k] == q[..e] + q[e..k];
    NamesConcat(q[..e], q[e..k]);
    assert Names(expired) == Names(q[..e]);
  }

  /** As many candidates as distinct names leave no room for a repetition. */
  lemma {:induction false} CountedNamesAreDistinct(candidates: seq<EvictionCandidate>)
    ensures |CandidateNames(candidates)| <= |candidates|
    ensures |CandidateNames(candidates)| == |candidates| ==> NoDuplicates(candidates)
  {
    if candidates != [] {
      var n := |candidates| - 1;
      var init := candidates[..n];
      CountedNamesAreDistinct(init);
      assert candidates == init + [candidates[n]];
      assert CandidateNames(candidates) == CandidateNames(init) + {candidates[n].modelName};
      if |CandidateNames(candidates)| == |candidates| {
        assert candidates[n].modelName !in CandidateNames(init);
        forall i | 0 <= i < n ensures candidates[i].modelName != candidates[n].modelName {
          assert init[i].modelName in CandidateNames(init);
        }
      }
    }
  }

  lemma {:induction false} DistinctNamesCounted(s: seq<ModelRecord>)
    requires DistinctNames(s)
    ensures |Names(s)| == |s|
  {
    if s != [] {
      var init, last := s[..|s| - 1], s[|s| - 1];
      assert s == init + [last];
      DistinctSnoc(init, last);
      NamesSnoc(init, last);
      DistinctNamesCounted(init);
    }
  }

  lemma {:induction false} SelectedHasNoDuplicates(models: seq<ModelRecord>, config: LruConfig)
    requires DistinctNames(models)
    ensures |ExpiredOf(DownloadedOf(models), config.cutoff)| <= EvictionCount(models, config) <= |Queue(models)|
    ensures NoDuplicates(Selected(models, config))
  {
    SelectedNames(models, config);
    QueueDistinct(models);
    DistinctNamesCounted(Queue(models)[..EvictionCount(models, config)]);
    CountedNamesAreDistinct(Selected(models, config));
  }

  lemma {:induction false} UniqueRecord(models: seq<ModelRecord>, a: ModelRecord, b: ModelRecord)
    requires DistinctNames(models) && a in models && b in models && a.modelName == b.modelName
    ensures a == b
  {
  }

  lemma {:induction false} PickedReasons(expired: seq<ModelRecord>, queue: seq<ModelRecord>, k: nat, models: seq<ModelRecord>, cutoff: int)
    requires |expired| <= k <= |queue| && DistinctNames(models)
    requires forall m | m in expired :: m in models && IsTimeExpired(m, cutoff)
    requires forall i | |expired| <= i < |queue| :: queue[i] in models && !IsTimeExpired(queue[i], cutoff)
    ensures HonestReasons(Picked(expired, queue, k), models, cutoff)
  {
    var picked := Picked(expired, queue, k);
    forall c, m | c in picked && m in models && c.modelName == m.modelName
      ensures c.reason == TimeThreshold <==> IsTimeExpired(m, cutoff)
    {
      var i :| 0 <= i < |picked| && picked[i] == c;
      var source := if i < |expired| then expired[i] else queue[i];
      assert source.modelName == c.modelName && source in models;
      UniqueRecord(models, source, m);
    }
  }

  lemma {:induction false} SelectedReasons(models: seq<ModelRecord>, config: LruConfig)
    requires DistinctNames(models)
    ensures |ExpiredOf(DownloadedOf(models), config.cutoff)| <= EvictionCount(models, config) <= |Queue(models)|
    ensures HonestReasons(Selected(models, config), models, config.cutoff)
  {
    QueueFacts(models, config);
    DownloadedMembers(models);
    ExpiredMembers(DownloadedOf(models), config.cutoff);
    var expired, queue := ExpiredOf(DownloadedOf(models), config.cutoff), Queue(models);
    forall i | |expired| <= i < |queue| ensures queue[i] in models && !IsTimeExpired(queue[i], config.cutoff) {
      assert queue[i] in queue;
    }
    PickedReasons(expired, queue, EvictionCount(models, config), models, config.cutoff);
  }

  lemma {:induction false} PickedPrefix(queue: seq<ModelRecord>, e: nat, k: nat)
    requires e <= k <= |queue|
    ensures forall i | 0 <= i < k :: Picked(queue[..e], queue, k)[i].modelName == queue[i].modelName
  {
  }

  /** On a listing in last-used order the candidates are its downloaded prefix, in order. */
  lemma {:induction false} SelectedIsPrefix(models: seq<ModelRecord>, config: LruConfig)
    requires Sorted(models)
    ensures |ExpiredOf(DownloadedOf(models), config.cutoff)| <= EvictionCount(models, config) <= |Queue(models)|
    ensures |Selected(models, config)| == EvictionCount(models, config) <= |DownloadedOf(models)|
    ensures forall i | 0 <= i < |Selected(models, config)| ::
              Selected(models, config)[i].modelName == DownloadedOf(models)[i].modelName
  {
    var d := DownloadedOf(models);
    DownloadedKeepsOrder(models);
    QueueFacts(models, config);
    SortFixed(d);
    ExpiredIsPrefix(d, config.cutoff);
    PickedPrefix(d, |ExpiredOf(d, config.cutoff)|, EvictionCount(models, config));
  }

  lemma {:induction false} DownloadedKeepsOrder(models: seq<ModelRecord>)
    requires Sorted(models)
    ensures Sorted(DownloadedOf(models))
  {
    if models != [] {
      var n := |models| - 1;
      DownloadedKeepsOrder(models[..n]);
      DownloadedMembers(models[..n]);
      forall m | m in DownloadedOf(models[..n]) ensures m.lastUsedAt <= models[n].lastUsedAt {
        assert m in models[..n];
      }
    }
  }

  // ----- The policy

  /**
   The selection loops. The candidates are exactly the first `EvictionCount` downloaded
   models in last-used order, each once, with a truthful reason.
   */
  method SelectForEviction(models: seq<ModelRecord>, config: LruConfig) returns (candidates: seq<EvictionCandidate>)
    requires DistinctNames(models)
    ensures |candidates| == EvictionCount(models, config) <= |Queue(models)|
    ensures CandidateNames(candidates) == Names(Queue(models)[..EvictionCount(models, config)])
    ensures NoDuplicates(candidates)
    ensures HonestReasons(candidates, models, config.cutoff)
    ensures Sorted(models) ==> |candidates| <= |DownloadedOf(models)|
    ensures Sorted(models) ==>
              forall i | 0 <= i < |candidates| :: candidates[i].modelName == DownloadedOf(models)[i].modelName
  {
    SelectedNames(models, config);
    candidates := SelectCandidates(models, config);
    SelectedHasNoDuplicates(models, config);
    SelectedReasons(models, config);
    if Sorted(models) { SelectedIsPrefix(models, config); }
  }

  /** Rule one: every downloaded model not used since the cutoff. */
  method SelectExpired(downloaded: seq<ModelRecord>, cutoff: int) returns (candidates: seq<EvictionCandidate>)
    ensures candidates == Labelled(ExpiredOf(downloaded, cutoff), TimeThreshold)
  {
    candidates := [];
    for i := 0 to |downloaded|
      invariant candidates == Labelled(ExpiredOf(downloaded[..i], cutoff), TimeThreshold)
    {
      assert downloaded[..i + 1][..i] == downloaded[..i];
      if IsTimeExpired(downloaded[i], cutoff) {
        candidates := candidates + [EvictionCandidate(downloaded[i].modelName, TimeThreshold)];
      }
    }
    assert downloaded[..|downloaded|] == downloaded;
  }

  /** Rule two: the oldest models over the limit, skipping those already selected. */
  method SelectOverLimit(sorted: seq<ModelRecord>, toRemove: nat, ghost expired: seq<ModelRecord>,
                         sofar: seq<EvictionCandidate>)
    returns (candidates: seq<EvictionCandidate>)
    requires toRemove <= |sorted| && |expired| <= |sorted| && DistinctNames(sorted)
    requires sofar == Labelled(expired, TimeThreshold) && Names(expired) == Names(sorted[..|expired|])
    ensures candidates == Picked(expired, sorted, Max(|expired|, toRemove))
  {
    candidates := sofar;
    ghost var e := |expired|;
    for i := 0 to toRemove
      invariant candidates == Picked(expired, sorted, Max(e, i))
    {
      CandidatesSoFar(sorted, e, i, candidates, expired);
      if !(exists c | c in candidates :: c.modelName == sorted[i].modelName) {
        candidates := candidates + [EvictionCandidate(sorted[i].modelName, CountLimit)];
      }
    }
  }

  method SelectCandidates(models: seq<ModelRecord>, config: LruConfig) returns (candidates: seq<EvictionCandidate>)
    requires DistinctNames(models)
    requires |ExpiredOf(DownloadedOf(models), config.cutoff)| <= EvictionCount(models, config) <= |Queue(models)|
    ensures candidates == Selected(models, config)
  {
    var downloaded := DownloadedOf(models);
    ghost var expired := ExpiredOf(downloaded, config.cutoff);
    candidates := SelectExpired(downloaded, config.cutoff);
    if config.maxModels.Some? {
      var toRemove := Excess(|downloaded|, config.maxModels);
      if toRemove > 0 {
        QueueFacts(models, config);
        QueueDistinct(models);
        var sorted := SortByLastUsed(downloaded);
        assert Names(expired) == Names(sorted[..|expired|]);
        candidates := SelectOverLimit(sorted, toRemove, expired, candidates);
      }
    }
  }

  /** The duplicate check of the count rule skips exactly the expired models. */
  lemma {:induction false} CandidatesSoFar(sorted: seq<ModelRecord>, e: nat, i: nat, candidates: seq<EvictionCandidate>, expired: seq<ModelRecord>)
    requires e <= |sorted| && i < |sorted| && DistinctNames(sorted)
    requires e == |expired| && candidates == Picked(expired, sorted, Max(e, i))
    requires Names(expired) == Names(sorted[..e])
    ensures (exists c | c in candidates :: c.modelName == sorted[i].modelName) <==> i < e
    ensures i >= e ==> Labelled(sorted[e..i + 1], CountLimit)
                       == Labelled(sorted[e..i], CountLimit) + [EvictionCandidate(sorted[i].modelName, CountLimit)]
  {
    var upto := Max(e, i);
    LabelledNames(expired, TimeThreshold);
    LabelledNames(sorted[e..upto], CountLimit);
    assert CandidateNames(candidates) == Names(expired) + Names(sorted[e..upto]);
    NamesConcat(sorted[..e], sorted[e..upto]);
    assert sorted[..e] + sorted[e..upto] == sorted[..upto];
    assert CandidateNames(candidates) == Names(sorted[..upto]);
    if i < e {
      assert sorted[..upto][i].modelName in Names(sorted[..upto]);
      assert sorted[i].modelName in CandidateNames(candidates);
    } else {
      assert sorted[i].modelName !in Names(sorted[..i]);
      assert sorted[e..i + 1] == sorted[e..i] + [sorted[i]];
    }
  }
}
