/**
 The client's bearer-token cache: a token file that other processes rewrite, and callers that
 share one cached copy under a lock, checking age, then modification time, then contents.
 */
module TokenCache {
  import opened Prelude
  import opened Text

  type Time = int

  datatype Cache = Cache(token: Option<string>, readAt: Option<Time>, mtime: Option<int>, warnedMissing: bool)

  const EMPTY_CACHE := Cache(None, None, None, false)

  /** The token in a file: its contents without surrounding white space, if anything is left; none if it cannot be read. */
  function TokenIn(contents: Option<string>): Option<string> {
    if contents.None? || Trim(contents.value) == "" then None else Some(Trim(contents.value))
  }

  // ----- The three checks

  /** The elapsed time saturates at zero, for a caller whose clock reading is older than the cache's. */
  predicate Fresh(cache: Cache, now: Time, ttl: nat) {
    cache.readAt.Some? && Max(0, now - cache.readAt.value) < ttl
  }

  /** The cached copy is known to be current. */
  predicate Unchanged(cache: Cache, mtime: int) {
    cache.token.Some? && cache.mtime == Some(mtime)
  }

  function Missing(cache: Cache): Cache {
    cache.(token := None, mtime := None, warnedMissing := true)
  }

  function Reread(now: Time, mtime: int, contents: string): Cache {
    Cache(TokenIn(Some(contents)), Some(now), Some(mtime), false)
  }

  /** What one call makes of the cache and answers, given what the file system says if asked. */
  function Answer(cache: Cache, now: Time, ttl: nat, stat: Option<int>, read: Option<string>): (Cache, Option<string>) {
    if Fresh(cache, now, ttl) then (cache, cache.token)
    else match stat
      case None => (Missing(cache), None)
      case Some(mtime) =>
        if Unchanged(cache, mtime) then (cache.(readAt := Some(now)), cache.token)
        else match read
          case None => (cache.(warnedMissing := true), None)
          case Some(contents) => (Reread(now, mtime, contents), TokenIn(Some(contents)))
  }

  class TokenProvider {
    const ttl: nat
    var token: Option<string>
    var readAt: Option<Time>
    var mtime: Option<int>
    var warnedMissing: bool

    function Cached(): Cache
      reads this
    {
      Cache(token, readAt, mtime, warnedMissing)
    }

    constructor (ttl: nat)
      ensures this.ttl == ttl && Cached() == EMPTY_CACHE
    {
      this.ttl := ttl;
      token, readAt, mtime, warnedMissing := None, None, None, false;
    }

    /** One call under the lock: `stat` and `read` are what the file system answers, if it is asked. */
    method Token(now: Time, stat: Option<int>, read: Option<string>) returns (result: Option<string>, warned: bool)
      modifies this
      ensures Fresh(old(Cached()), now, ttl) ==> Cached() == old(Cached()) && result == old(token)
      ensures !Fresh(old(Cached()), now, ttl) && stat.None? ==> Cached() == Missing(old(Cached())) && result == None
      ensures !Fresh(old(Cached()), now, ttl) && stat.Some? && Unchanged(old(Cached()), stat.value) ==>
                Cached() == old(Cached()).(readAt := Some(now)) && result == old(token)
      ensures !Fresh(old(Cached()), now, ttl) && stat.Some? && !Unchanged(old(Cached()), stat.value) && read.Some? ==>
                Cached() == Reread(now, stat.value, read.value) && result == TokenIn(read)
      ensures !Fresh(old(Cached()), now, ttl) && stat.Some? && !Unchanged(old(Cached()), stat.value) && read.None? ==>
                Cached() == old(Cached()).(warnedMissing := true) && result == None
      ensures (Cached(), result) == Answer(old(Cached()), now, ttl, stat, read)
      ensures warned <==> !old(warnedMissing) && warnedMissing
    {
      warned := false;
      if readAt.Some? && Max(0, now - readAt.value) < ttl {
        return token, false;
      }
      match stat
      case Some(modified) =>
        if token.Some? && mtime == Some(modified) {
          readAt := Some(now);
          return token, false;
        }
        match read {
          case Some(contents) =>
            var trimmed := Trim(contents);
            token := if trimmed == "" then None else Some(trimmed);
            readAt := Some(now);
            mtime := Some(modified);
            warnedMissing := false;
            return token, false;
          case None =>
            warned := WarnOnce();
            return None, warned;
        }
      case None =>
        warned := WarnOnce();
        token := None;
        mtime := None;
        return None, warned;
    }

    method WarnOnce() returns (warned: bool)
      modifies `warnedMissing
      ensures warnedMissing && warned == !old(warnedMissing)
    {
      warned := !warnedMissing;
      warnedMissing := true;
    }
  }

  // ----- Callers and file writers, interleaved

  datatype File = File(contents: string, mtime: int)

  /** What could be read from the file at some instant. */
  datatype Instant = Instant(time: Time, view: Option<string>)

  /** Who holds the lock, and what it does next. */
  datatype Holder = NeedStat(caller: nat, now: Time) | NeedRead(caller: nat, now: Time, mtime: int)

  datatype State = State(
    clock: Time, file: Option<File>, cache: Cache, waiting: map<nat, Time>, holder: Option<Holder>,
    history: seq<Instant>)

  datatype Action =
    | Tick(elapsed: nat)
    | WriteFile(contents: string, mtime: int)
    | RemoveFile
    | Enter(caller: nat)
    | Lock(caller: nat)
    | Stat(ok: bool)
    | Read(ok: bool)

  datatype Returned = Returned(now: Time, token: Option<string>)

  function View(s: State, ok: bool): Option<string> {
    if ok && s.file.Some? then Some(s.file.value.contents) else None
  }

  /** The view at this instant joins the history: the file's contents, or nothing if it is missing or the access fails. */
  function Seen(s: State, ok: bool): State {
    s.(history := s.history + [Instant(s.clock, View(s, ok))])
  }

  function Apply(s: State, a: Action, ttl: nat): State {
    match a
    case Tick(elapsed) => s.(clock := s.clock + elapsed)
    case WriteFile(contents, mtime) => Seen(s.(file := Some(File(contents, mtime))), true)
    case RemoveFile => Seen(s.(file := None), true)
    case Enter(caller) => s.(waiting := s.waiting[caller := s.clock])
    case Lock(caller) =>
      if caller !in s.waiting || s.holder.Some? then s
      else if Fresh(s.cache, s.waiting[caller], ttl) then s.(waiting := s.waiting - {caller})
      else s.(waiting := s.waiting - {caller}, holder := Some(NeedStat(caller, s.waiting[caller])))
    case Stat(ok) =>
      if s.holder.None? || !s.holder.value.NeedStat? then s
      else
        var h, seen := s.holder.value, Seen(s, ok);
        if !ok || s.file.None? then seen.(cache := Missing(s.cache), holder := None)
        else if Unchanged(s.cache, s.file.value.mtime) then seen.(cache := s.cache.(readAt := Some(h.now)), holder := None)
        else seen.(holder := Some(NeedRead(h.caller, h.now, s.file.value.mtime)))
    case Read(ok) =>
      if s.holder.None? || !s.holder.value.NeedRead? then s
      else
        var h, seen := s.holder.value, Seen(s, ok);
        if !ok || s.file.None? then seen.(cache := s.cache.(warnedMissing := true), holder := None)
        else seen.(cache := Reread(h.now, h.mtime, s.file.value.contents), holder := None)
  }

  /** The token a step hands back, with the clock reading its caller began from. */
  function Return(s: State, a: Action, ttl: nat): Option<Returned> {
    match a
    case Lock(caller) =>
      if caller in s.waiting && s.holder.None? && Fresh(s.cache, s.waiting[caller], ttl)
      then Some(Returned(s.waiting[caller], s.cache.token)) else None
    case Stat(ok) =>
      if s.holder.None? || !s.holder.value.NeedStat? then None
      else if !ok || s.file.None? then Some(Returned(s.holder.value.now, None))
      else if Unchanged(s.cache, s.file.value.mtime) then Some(Returned(s.holder.value.now, s.cache.token))
      else None
    case Read(ok) =>
      if s.holder.None? || !s.holder.value.NeedRead? then None
      else if !ok || s.file.None? then Some(Returned(s.holder.value.now, None))
      else Some(Returned(s.holder.value.now, TokenIn(Some(s.file.value.contents))))
    case _ => None
  }

  function ApplyAll(s: State, actions: seq<Action>, ttl: nat): State {
    if actions == [] then s else Apply(ApplyAll(s, actions[..|actions| - 1], ttl), actions[|actions| - 1], ttl)
  }

  function Start(clock: Time, file: Option<File>): State {
    State(clock, file, EMPTY_CACHE, map[], None, [Instant(clock, if file.Some? then Some(file.value.contents) else None)])
  }

  /** The cache can tell this write: it does not put a different token under the modification time that the cache remembers. */
  predicate Noticeable(s: State, contents: string, mtime: int) {
    Unchanged(s.cache, mtime) ==> TokenIn(Some(contents)) == s.cache.token
  }

  /** Every write of the run is noticeable; modification times may go back as well as forward. */
  ghost predicate WritesNoticeable(s: State, actions: seq<Action>, ttl: nat) {
    forall i | 0 <= i < |actions| && actions[i].WriteFile? ::
      Noticeable(ApplyAll(s, actions[..i], ttl), actions[i].contents, actions[i].mtime)
  }

  /** Some instant at `from` or later at which the file's token was this one. */
  ghost predicate SeenSince(history: seq<Instant>, from: Time, token: Option<string>) {
    exists k :: 0 <= k < |history| && history[k].time >= from && TokenIn(history[k].view) == token
  }

  /** The steps of the interleavings are those of the call: taken one after the other they leave the cache that the call leaves, and return what it answers. */
  lemma {:induction false} StepsAreOneCall(s: State, caller: nat, ttl: nat, statOk: bool, readOk: bool)
    requires s.holder.None? && caller in s.waiting
    ensures var now := s.waiting[caller];
            var stat := if statOk && s.file.Some? then Some(s.file.value.mtime) else None;
            var (cache, token) := Answer(s.cache, now, ttl, stat, View(s, readOk));
            var locked := Apply(s, Lock(caller), ttl);
            var statted := Apply(locked, Stat(statOk), ttl);
            var done := Apply(statted, Read(readOk), ttl);
            && done.cache == cache && done.holder == None && done.file == s.file
            && Some(Returned(now, token)) ==
                 if Fresh(s.cache, now, ttl) then Return(s, Lock(caller), ttl)
                 else if Return(locked, Stat(statOk), ttl).Some? then Return(locked, Stat(statOk), ttl)
                 else Return(statted, Read(readOk), ttl)
  {
  }

  // ----- Bounded staleness

  /** If the cache would be taken for current, it is. */
  predicate Aligned(s: State) {
    s.file.Some? && Unchanged(s.cache, s.file.value.mtime) ==> TokenIn(Some(s.file.value.contents)) == s.cache.token
  }

  ghost predicate CacheInv(s: State) {
    s.cache.readAt.Some? ==> s.cache.readAt.value <= s.clock && SeenSince(s.history, s.cache.readAt.value, s.cache.token)
  }

  /** What holds whatever is written: nothing is dated in the future. */
  ghost predicate Timely(s: State) {
    && (forall c | c in s.waiting :: s.waiting[c] <= s.clock)
    && (s.holder.Some? ==> s.holder.value.now <= s.clock)
    && (forall k | 0 <= k < |s.history| :: s.history[k].time <= s.clock)
  }

  ghost predicate Inv(s: State) {
    CacheInv(s) && Aligned(s) && Timely(s)
  }

  lemma {:induction false} SeenStays(history: seq<Instant>, more: Instant, from: Time, token: Option<string>)
    requires SeenSince(history, from, token)
    ensures SeenSince(history + [more], from, token)
  {
    var k :| 0 <= k < |history| && history[k].time >= from && TokenIn(history[k].view) == token;
    assert (history + [more])[k] == history[k];
  }

  lemma {:induction false} SeenNow(history: seq<Instant>, now: Instant, from: Time)
    requires now.time >= from
    ensures SeenSince(history + [now], from, TokenIn(now.view))
  {
    assert (history + [now])[|history|] == now;
  }

  lemma {:induction false} SeenKeepsCacheInv(s: State, ok: bool)
    requires CacheInv(s)
    ensures CacheInv(Seen(s, ok))
  {
    if s.cache.readAt.Some? {
      SeenStays(s.history, Instant(s.clock, View(s, ok)), s.cache.readAt.value, s.cache.token);
    }
  }

  lemma {:induction false} FileChangeKeepsInv(s: State, a: Action, ttl: nat)
    requires Inv(s) && (a.RemoveFile? || (a.WriteFile? && Noticeable(s, a.contents, a.mtime)))
    ensures Inv(Apply(s, a, ttl))
  {
    SeenKeepsCacheInv(if a.RemoveFile? then s.(file := None) else s.(file := Some(File(a.contents, a.mtime))), true);
  }

  lemma {:induction false} StatKeepsInv(s: State, ok: bool, ttl: nat)
    requires Inv(s)
    ensures Inv(Apply(s, Stat(ok), ttl))
  {
    if s.holder.Some? && s.holder.value.NeedStat? {
      var h, seen := s.holder.value, Instant(s.clock, View(s, ok));
      SeenKeepsCacheInv(s, ok);
      if !ok || s.file.None? {
        if s.cache.readAt.Some? {
          SeenNow(s.history, seen, s.cache.readAt.value);
        }
      } else if Unchanged(s.cache, s.file.value.mtime) {
        SeenNow(s.history, seen, h.now);
      }
    }
  }

  lemma {:induction false} ReadKeepsInv(s: State, ok: bool, ttl: nat)
    requires Inv(s)
    ensures Inv(Apply(s, Read(ok), ttl))
  {
    if s.holder.Some? && s.holder.value.NeedRead? {
      var h, seen := s.holder.value, Instant(s.clock, View(s, ok));
      SeenKeepsCacheInv(s, ok);
      if ok && s.file.Some? {
        SeenNow(s.history, seen, h.now);
      }
    }
  }

  lemma {:induction false} ApplyKeepsInv(s: State, a: Action, ttl: nat)
    requires Inv(s) && (a.WriteFile? ==> Noticeable(s, a.contents, a.mtime))
    ensures Inv(Apply(s, a, ttl))
  {
    match a
    case WriteFile(_, _) => FileChangeKeepsInv(s, a, ttl);
    case RemoveFile => FileChangeKeepsInv(s, a, ttl);
    case Stat(ok) => StatKeepsInv(s, ok, ttl);
    case Read(ok) => ReadKeepsInv(s, ok, ttl);
    case _ =>
  }

  lemma {:induction false} RunsKeepInv(s: State, actions: seq<Action>, ttl: nat)
    requires Inv(s) && WritesNoticeable(s, actions, ttl)
    ensures Inv(ApplyAll(s, actions, ttl))
    decreases |actions|
  {
    if actions != [] {
      var n := |actions| - 1;
      var init := actions[..n];
      forall i | 0 <= i < |init| && init[i].WriteFile?
        ensures Noticeable(ApplyAll(s, init[..i], ttl), init[i].contents, init[i].mtime)
      {
        assert init[..i] == actions[..i];
      }
      RunsKeepInv(s, init, ttl);
      ApplyKeepsInv(ApplyAll(s, init, ttl), actions[n], ttl);
    }
  }

  lemma {:induction false} StartInv(clock: Time, file: Option<File>)
    ensures Inv(Start(clock, file))
  {
  }

  lemma {:induction false} ReturnIsFresh(s: State, a: Action, ttl: nat)
    requires Inv(s) && Return(s, a, ttl).Some?
    ensures var r := Return(s, a, ttl).value;
            r.now <= s.clock && SeenSince(Apply(s, a, ttl).history, r.now - ttl, r.token)
  {
    var r := Return(s, a, ttl).value;
    match a
    case Lock(caller) =>
      var k :| 0 <= k < |s.history| && s.history[k].time >= s.cache.readAt.value && TokenIn(s.history[k].view) == r.token;
      assert s.history[k].time >= r.now - ttl;
    case Stat(ok) => SeenNow(s.history, Instant(s.clock, View(s, ok)), r.now - ttl);
    case Read(ok) => SeenNow(s.history, Instant(s.clock, View(s, ok)), r.now - ttl);
  }

  /** In every interleaving of callers and file changes, a returned token was the file's token at some instant no earlier than the caller's clock reading less the time to live. */
  lemma {:induction false} ReturnedTokensAreFresh(clock: Time, file: Option<File>, actions: seq<Action>, a: Action, ttl: nat)
    requires WritesNoticeable(Start(clock, file), actions, ttl)
    requires Return(ApplyAll(Start(clock, file), actions, ttl), a, ttl).Some?
    ensures var s := ApplyAll(Start(clock, file), actions, ttl);
            var r := Return(s, a, ttl).value;
            SeenSince(Apply(s, a, ttl).history, r.now - ttl, r.token)
  {
    StartInv(clock, file);
    RunsKeepInv(Start(clock, file), actions, ttl);
    ReturnIsFresh(ApplyAll(Start(clock, file), actions, ttl), a, ttl);
  }

  /** The modification times the file has had. */
  function Used(file: Option<File>, actions: seq<Action>): set<int> {
    if actions == [] then if file.Some? then {file.value.mtime} else {}
    else
      var last := actions[|actions| - 1];
      Used(file, actions[..|actions| - 1]) + if last.WriteFile? then {last.mtime} else {}
  }

  /** No write reuses a modification time, as when each is later than the ones before. */
  ghost predicate MtimesNeverRepeat(file: Option<File>, actions: seq<Action>) {
    forall i | 0 <= i < |actions| && actions[i].WriteFile? :: actions[i].mtime !in Used(file, actions[..i])
  }

  lemma {:induction false} OnlyUsedMtimesAreKnown(clock: Time, file: Option<File>, actions: seq<Action>, ttl: nat)
    ensures var s := ApplyAll(Start(clock, file), actions, ttl);
            && (s.file.Some? ==> s.file.value.mtime in Used(file, actions))
            && (s.cache.mtime.Some? ==> s.cache.mtime.value in Used(file, actions))
            && (s.holder.Some? && s.holder.value.NeedRead? ==> s.holder.value.mtime in Used(file, actions))
  {
    if actions != [] {
      OnlyUsedMtimesAreKnown(clock, file, actions[..|actions| - 1], ttl);
    }
  }

  /** Modification times that never repeat make every write noticeable, so the bound holds of every such run. */
  lemma {:induction false} FreshMtimesAreNoticeable(clock: Time, file: Option<File>, actions: seq<Action>, ttl: nat)
    requires MtimesNeverRepeat(file, actions)
    ensures WritesNoticeable(Start(clock, file), actions, ttl)
  {
    forall i | 0 <= i < |actions| && actions[i].WriteFile?
      ensures Noticeable(ApplyAll(Start(clock, file), actions[..i], ttl), actions[i].contents, actions[i].mtime)
    {
      OnlyUsedMtimesAreKnown(clock, file, actions[..i], ttl);
    }
  }

  // ----- Exactly when the bound fails

  /** The state in which the next caller stats the file, once the cache's time to live is over. */
  function NextStat(s: State, caller: nat, ttl: nat): State {
    Apply(Apply(Apply(s, Tick(ttl + 1), ttl), Enter(caller), ttl), Lock(caller), ttl)
  }

  lemma {:induction false} NextStatIsReached(s: State, caller: nat, ttl: nat)
    requires s.holder.None? && (s.cache.readAt.Some? ==> s.cache.readAt.value <= s.clock)
    ensures var now := s.clock + ttl + 1;
            NextStat(s, caller, ttl)
            == s.(clock := now, waiting := s.waiting - {caller}, holder := Some(NeedStat(caller, now)))
  {
    assert s.waiting[caller := s.clock + ttl + 1] - {caller} == s.waiting - {caller};
  }

  /** After a rewrite with another token, the next caller past the time to live is served the old token, out of bounds, exactly when the new modification time equals the cached one; otherwise it reads the new token. */
  lemma {:induction false} RewriteServedStaleIff(s: State, contents: string, mtime: int, caller: nat, ttl: nat)
    requires Timely(s) && s.holder.None? && (s.cache.readAt.Some? ==> s.cache.readAt.value <= s.clock)
    requires s.cache.token.Some? && TokenIn(Some(contents)) != s.cache.token
    ensures var now := s.clock + ttl + 1;
            var locked := NextStat(Apply(s, WriteFile(contents, mtime), ttl), caller, ttl);
            var statted := Apply(locked, Stat(true), ttl);
            if s.cache.mtime == Some(mtime) then
              && Return(locked, Stat(true), ttl) == Some(Returned(now, s.cache.token))
              && !SeenSince(statted.history, now - ttl, s.cache.token)
            else
              && Return(locked, Stat(true), ttl) == None
              && Return(statted, Read(true), ttl) == Some(Returned(now, TokenIn(Some(contents))))
  {
    NextStatIsReached(Apply(s, WriteFile(contents, mtime), ttl), caller, ttl);
  }

  ghost predicate NoWrites(actions: seq<Action>) {
    forall i | 0 <= i < |actions| :: !actions[i].WriteFile?
  }

  /** Whatever callers do from here on, as long as nothing is written, they get fresh tokens. */
  ghost predicate FreshWhileUnwritten(s: State, ttl: nat) {
    forall actions: seq<Action>, a: Action | NoWrites(actions) && Return(ApplyAll(s, actions, ttl), a, ttl).Some? ::
      var r := Return(ApplyAll(s, actions, ttl), a, ttl).value;
      SeenSince(Apply(ApplyAll(s, actions, ttl), a, ttl).history, r.now - ttl, r.token)
  }

  lemma {:induction false} AlignedStaysFresh(s: State, ttl: nat)
    requires Inv(s)
    ensures FreshWhileUnwritten(s, ttl)
  {
    forall actions: seq<Action>, a: Action | NoWrites(actions) && Return(ApplyAll(s, actions, ttl), a, ttl).Some?
      ensures var r := Return(ApplyAll(s, actions, ttl), a, ttl).value;
              SeenSince(Apply(ApplyAll(s, actions, ttl), a, ttl).history, r.now - ttl, r.token)
    {
      RunsKeepInv(s, actions, ttl);
      ReturnIsFresh(ApplyAll(s, actions, ttl), a, ttl);
    }
  }

  lemma {:induction false} ApplyThree(s: State, a: Action, b: Action, c: Action, ttl: nat)
    ensures ApplyAll(s, [a, b, c], ttl) == Apply(Apply(Apply(s, a, ttl), b, ttl), c, ttl)
  {
    assert [a, b, c][..2] == [a, b] && [a, b][..1] == [a] && [a][..0] == [];
    assert ApplyAll(s, [a], ttl) == Apply(ApplyAll(s, [], ttl), a, ttl);
    assert ApplyAll(s, [a, b], ttl) == Apply(ApplyAll(s, [a], ttl), b, ttl);
  }

  lemma {:induction false} MisalignedStatIsStale(s: State, ttl: nat)
    requires CacheInv(s) && Timely(s) && s.holder.None? && !Aligned(s)
    ensures var now := s.clock + ttl + 1;
            && Return(NextStat(s, 0, ttl), Stat(true), ttl) == Some(Returned(now, s.cache.token))
            && !SeenSince(Apply(NextStat(s, 0, ttl), Stat(true), ttl).history, now - ttl, s.cache.token)
  {
    NextStatIsReached(s, 0, ttl);
  }

  lemma {:induction false} MisalignedGoesStale(s: State, ttl: nat)
    requires CacheInv(s) && Timely(s) && s.holder.None? && !Aligned(s)
    ensures !FreshWhileUnwritten(s, ttl)
  {
    var run := [Tick(ttl + 1), Enter(0), Lock(0)];
    ApplyThree(s, run[0], run[1], run[2], ttl);
    MisalignedStatIsStale(s, ttl);
    assert ApplyAll(s, run, ttl) == NextStat(s, 0, ttl);
    assert NoWrites(run) && Return(ApplyAll(s, run, ttl), Stat(true), ttl).Some?;
  }

  /** The condition is exact: between calls, everything served until the next write is fresh if and only if the cache is aligned with the file. */
  lemma {:induction false} FreshWhileUnwrittenIff(s: State, ttl: nat)
    requires CacheInv(s) && Timely(s) && s.holder.None?
    ensures FreshWhileUnwritten(s, ttl) <==> Aligned(s)
  {
    if Aligned(s) {
      AlignedStaysFresh(s, ttl);
    } else {
      MisalignedGoesStale(s, ttl);
    }
  }

  /** So a write is harmless if and only if it is noticeable. */
  lemma {:induction false} WriteIsHarmlessIff(s: State, contents: string, mtime: int, ttl: nat)
    requires CacheInv(s) && Timely(s) && s.holder.None?
    ensures FreshWhileUnwritten(Apply(s, WriteFile(contents, mtime), ttl), ttl) <==> Noticeable(s, contents, mtime)
  {
    SeenKeepsCacheInv(s.(file := Some(File(contents, mtime))), true);
    FreshWhileUnwrittenIff(Apply(s, WriteFile(contents, mtime), ttl), ttl);
  }
}
