/** The console's readiness tracker: a few counters that stand for the whole history of
    observations since the last one that settled the matter.  */
module Readiness {
  import opened Options

  const ATTENTION_AFTER_CHECKS: nat := 6
  const WINDOW: int := 75_000
  const UNREACHABLE_AFTER: int := 600
  const U32_MAX: nat := 0xffff_ffff

  datatype Units = Units(failed: seq<string>, inactive: seq<string>, firstBootActive: bool)

  /** One observation; times are in milliseconds. */
  datatype Observation = Observation(
    now: int, units: Option<Units>, healthReady: bool, contactedThisBoot: bool,
    observingSince: int, lastContact: Option<int>)

  datatype Stage = FirstBoot | Enrolling | Services
  datatype Code = ServiceFailed | NotReady
  datatype Key = Key(code: Code, subject: string)
  datatype Status = Healthy | Starting(stage: Stage) | Unreachable | NeedsAttention(key: Key, since: int)

  function UnitsOf(o: Observation): Units {
    if o.units.Some? then o.units.value else Units([], [], true)
  }

  /** Whole seconds, truncated as `num_seconds` does. */
  function Seconds(milliseconds: int): int {
    if milliseconds >= 0 then milliseconds / 1000 else -(-milliseconds / 1000)
  }

  function Silence(o: Observation): int {
    var reference := match o.lastContact
      case None => o.observingSince
      case Some(contact) => if contact > o.observingSince then contact else o.observingSince;
    Seconds(o.now - reference)
  }

  // ---- what one observation means ----

  predicate Fails(o: Observation) {
    UnitsOf(o).failed != []
  }

  /** The observation settles the matter, one way or the other, and the memory starts afresh. */
  predicate Resets(o: Observation) {
    && !Fails(o)
    && (|| !UnitsOf(o).firstBootActive
        || Silence(o) > UNREACHABLE_AFTER
        || (o.units.Some? && UnitsOf(o).inactive == [] && (o.healthReady || !o.contactedThisBoot)))
  }

  predicate IsNonReady(o: Observation) {
    !Fails(o) && !Resets(o)
  }

  // ---- the history behind the counters ----

  type History = seq<Observation>

  /** Where the history since the last reset begins. */
  function Since(h: History): (r: nat)
    ensures r <= |h|
    ensures forall i :: r <= i < |h| ==> !Resets(h[i])
    ensures r > 0 ==> Resets(h[r - 1])
  {
    if h == [] then 0 else if Resets(h[|h| - 1]) then |h| else Since(h[..|h| - 1])
  }

  /** The non-ready observations of a history, oldest first. */
  function NonReady(h: History): History {
    if h == [] then []
    else NonReady(h[..|h| - 1]) + if IsNonReady(h[|h| - 1]) then [h[|h| - 1]] else []
  }

  /** The non-ready observations since the last reset. */
  function Streak(h: History): History {
    NonReady(h[Since(h)..])
  }

  lemma {:induction false} SinceSnoc(h: History, o: Observation)
    ensures Since(h + [o]) == if Resets(o) then |h| + 1 else Since(h)
  {
    assert (h + [o])[..|h|] == h;
  }

  lemma NonReadySnoc(h: History, o: Observation)
    ensures NonReady(h + [o]) == NonReady(h) + if IsNonReady(o) then [o] else []
  {
    assert (h + [o])[..|h|] == h;
  }

  lemma StreakSnoc(h: History, o: Observation)
    ensures Streak(h + [o]) == if Resets(o) then [] else Streak(h) + if IsNonReady(o) then [o] else []
  {
    SinceSnoc(h, o);
    if !Resets(o) {
      assert (h + [o])[Since(h)..] == h[Since(h)..] + [o];
      NonReadySnoc(h[Since(h)..], o);
    }
  }

  // ---- attention ----

  type Labels = string -> string

  function NotReadySubject(labels: Labels, o: Observation): string {
    if UnitsOf(o).inactive != [] then labels(UnitsOf(o).inactive[0])
    else if o.units.None? then "Service status"
    else "Boot services"
  }

  /** At least six non-ready checks since the last reset, the first at least the window ago. */
  predicate Overdue(streak: History, now: int) {
    |streak| >= ATTENTION_AFTER_CHECKS && now - streak[0].now >= WINDOW
  }

  /** The attention the last observation of a history calls for. */
  function Alert(labels: Labels, h: History): Option<Key>
    requires h != []
  {
    var o := h[|h| - 1];
    if Fails(o) then Some(Key(ServiceFailed, UnitsOf(o).failed[0]))
    else if IsNonReady(o) && Overdue(Streak(h), o.now) then Some(Key(NotReady, NotReadySubject(labels, o)))
    else None
  }

  ghost predicate Undisturbed(labels: Labels, h: History, i: nat, key: Key)
    requires i < |h|
  {
    !Resets(h[i]) && Alert(labels, h[..i + 1]) in {None, Some(key)}
  }

  /** Since observation `j` the attention has been `key`: it was called for there, and nothing reset
      it or called for another.  */
  ghost predicate Continues(labels: Labels, h: History, j: nat, key: Key) {
    && j < |h| && Alert(labels, h[..j + 1]) == Some(key)
    && forall i :: j < i < |h| ==> Undisturbed(labels, h, i, key)
  }

  /** The attention in force and the observation it began with. */
  ghost function InForce(labels: Labels, h: History): Option<(Key, nat)> {
    if h == [] || Resets(h[|h| - 1]) then None
    else
      var before := InForce(labels, h[..|h| - 1]);
      match Alert(labels, h)
      case None => before
      case Some(key) => if before.Some? && before.value.0 == key then before else Some((key, |h| - 1))
  }

  lemma SameBefore(labels: Labels, h: History, o: Observation, i: nat, key: Key)
    requires i < |h|
    ensures (h + [o])[..i + 1] == h[..i + 1]
    ensures Undisturbed(labels, h + [o], i, key) <==> Undisturbed(labels, h, i, key)
  {
    assert (h + [o])[..i + 1] == h[..i + 1];
  }

  lemma ContinuedUntilNow(labels: Labels, h: History, o: Observation, j: nat, key: Key)
    requires j < |h| && Continues(labels, h + [o], j, key)
    ensures Continues(labels, h, j, key) && !Resets(o) && Alert(labels, h + [o]) in {None, Some(key)}
  {
    SameBefore(labels, h, o, j, key);
    assert (h + [o])[..|h| + 1] == h + [o];
    assert Undisturbed(labels, h + [o], |h|, key);
    forall i | j < i < |h| ensures Undisturbed(labels, h, i, key) { SameBefore(labels, h, o, i, key); }
  }

  lemma ContinuesNow(labels: Labels, h: History, o: Observation, j: nat, key: Key)
    requires Continues(labels, h, j, key) && !Resets(o) && Alert(labels, h + [o]) in {None, Some(key)}
    ensures Continues(labels, h + [o], j, key)
  {
    SameBefore(labels, h, o, j, key);
    assert (h + [o])[..|h| + 1] == h + [o];
    forall i | j < i < |h + [o]| ensures Undisturbed(labels, h + [o], i, key) {
      if i < |h| { SameBefore(labels, h, o, i, key); }
    }
  }

  lemma ContinuesSnoc(labels: Labels, h: History, o: Observation, j: nat, key: Key)
    ensures Continues(labels, h + [o], j, key) <==>
              if j < |h| then Continues(labels, h, j, key) && !Resets(o) && Alert(labels, h + [o]) in {None, Some(key)}
              else j == |h| && Alert(labels, h + [o]) == Some(key)
  {
    assert (h + [o])[..|h| + 1] == h + [o];
    if j < |h| {
      if Continues(labels, h + [o], j, key) { ContinuedUntilNow(labels, h, o, j, key); }
      if Continues(labels, h, j, key) && !Resets(o) && Alert(labels, h + [o]) in {None, Some(key)} {
        ContinuesNow(labels, h, o, j, key);
      }
    }
  }

  lemma OneAttention(labels: Labels, h: History, i: nat, k: Key, j: nat, l: Key)
    requires Continues(labels, h, i, k) && Continues(labels, h, j, l)
    ensures k == l
  {
    if i < j {
      assert Undisturbed(labels, h, j, k);
    } else if j < i {
      assert Undisturbed(labels, h, i, l);
    }
  }

  /** The attention in force continues since the observation recorded, and since no earlier one. */
  lemma {:induction false} InForceIsLongest(labels: Labels, h: History, i: nat, key: Key)
    ensures match InForce(labels, h)
            case None => !Continues(labels, h, i, key)
            case Some(p) => Continues(labels, h, p.1, p.0) && (i < p.1 ==> !Continues(labels, h, i, p.0))
  {
    if h == [] {
    } else {
      var p, o := h[..|h| - 1], h[|h| - 1];
      assert h == p + [o];
      InForceIsLongest(labels, p, i, key);
      ContinuesSnoc(labels, p, o, i, key);
      var now := InForce(labels, h);
      if now.Some? {
        ContinuesSnoc(labels, p, o, now.value.1, now.value.0);
        ContinuesSnoc(labels, p, o, i, now.value.0);
        InForceIsLongest(labels, p, i, now.value.0);
        var before := InForce(labels, p);
        if before.Some? && Continues(labels, p, i, now.value.0) {
          OneAttention(labels, p, i, now.value.0, before.value.1, before.value.0);
        }
      }
    }
  }

  // ---- the same, without counters ----

  predicate HasFailure(o: Observation) {
    o.units.Some? && o.units.value.failed != []
  }

  predicate BootsFirst(o: Observation) {
    o.units.Some? && !o.units.value.firstBootActive
  }

  /** No contact for more than ten whole minutes, of which the daemon has been up. */
  predicate IsLongSilent(o: Observation) {
    o.now - o.observingSince >= 601_000 && (o.lastContact.Some? ==> o.now - o.lastContact.value >= 601_000)
  }

  /** Every required unit is seen to run. */
  predicate UnitsRun(o: Observation) {
    o.units.Some? && o.units.value.inactive == []
  }

  predicate Settles(o: Observation) {
    && !HasFailure(o)
    && (BootsFirst(o) || IsLongSilent(o) || (UnitsRun(o) && (o.contactedThisBoot ==> o.healthReady)))
  }

  predicate IsWaiting(o: Observation) {
    !HasFailure(o) && !Settles(o)
  }

  lemma ObservationMeans(o: Observation)
    ensures Fails(o) <==> HasFailure(o)
    ensures Silence(o) > UNREACHABLE_AFTER <==> IsLongSilent(o)
    ensures Resets(o) <==> Settles(o)
    ensures IsNonReady(o) <==> IsWaiting(o)
  {
  }

  ghost predicate SettledBetween(h: History, i: int, k: int) {
    exists j :: i < j < k && 0 <= j < |h| && Settles(h[j])
  }

  /** What waits before observation `k` was settled before it. */
  ghost predicate SettledBefore(h: History, k: int) {
    forall i :: 0 <= i < k && i < |h| && IsWaiting(h[i]) ==> SettledBetween(h, i, k)
  }

  /** `at` are positions of waiting observations, the last of them the latest, with nothing settled since
      the first; before it nothing waits that was not settled since.  */
  ghost predicate IsWait(h: History, at: seq<nat>) {
    && at != [] && at[|at| - 1] == |h| - 1 && (forall i, j :: 0 <= i < j < |at| ==> at[i] < at[j])
    && (forall i :: 0 <= i < |at| ==> at[i] < |h| && IsWaiting(h[at[i]]))
    && (forall i :: at[0] <= i < |h| ==> !Settles(h[i]))
    && SettledBefore(h, at[0])
  }

  /** Six waiting observations or more, the first of them at least 75 seconds ago. */
  ghost predicate IsOverdue(h: History) {
    exists at :: IsWait(h, at) && |at| >= 6 && h[|h| - 1].now - h[at[0]].now >= 75_000
  }

  /** The attention the latest observation calls for. */
  ghost function CalledFor(labels: Labels, h: History): Option<Key>
    requires h != []
  {
    var o := h[|h| - 1];
    if HasFailure(o) then Some(Key(ServiceFailed, o.units.value.failed[0]))
    else if !IsOverdue(h) then None
    else if o.units.None? then Some(Key(NotReady, "Service status"))
    else if o.units.value.inactive == [] then Some(Key(NotReady, "Boot services"))
    else Some(Key(NotReady, labels(o.units.value.inactive[0])))
  }

  lemma {:induction false} CountsAll(t: History, at: seq<nat>)
    requires forall i, j :: 0 <= i < j < |at| ==> at[i] < at[j]
    requires forall i :: 0 <= i < |at| ==> at[i] < |t| && IsNonReady(t[at[i]])
    ensures |NonReady(t)| >= |at|
  {
    if at == [] {
    } else if at[|at| - 1] == |t| - 1 {
      CountsAll(t[..|t| - 1], at[..|at| - 1]);
    } else {
      forall i | 0 <= i < |at| ensures at[i] < |t| - 1 { assert i == |at| - 1 || at[i] < at[|at| - 1]; }
      CountsAll(t[..|t| - 1], at);
    }
  }

  lemma {:induction false} NoneNonReady(t: History)
    requires forall i :: 0 <= i < |t| ==> !IsNonReady(t[i])
    ensures NonReady(t) == []
  {
    if t == [] {
    } else {
      NoneNonReady(t[..|t| - 1]);
    }
  }

  lemma {:induction false} FirstNonReady(t: History, k: nat)
    requires k < |t| && IsNonReady(t[k]) && forall i :: 0 <= i < k ==> !IsNonReady(t[i])
    ensures NonReady(t) != [] && NonReady(t)[0] == t[k]
  {
    if k == |t| - 1 {
      NoneNonReady(t[..k]);
    } else {
      FirstNonReady(t[..|t| - 1], k);
    }
  }

  lemma NothingWaits(h: History, k: nat, i: nat)
    requires k < |h| && SettledBefore(h, k) && Since(h) <= i < k
    ensures !IsNonReady(h[i])
  {
    ObservationMeans(h[i]);
    if IsWaiting(h[i]) {
      var j :| i < j < k && 0 <= j < |h| && Settles(h[j]);
      ObservationMeans(h[j]);
    }
  }

  lemma WaitIsStreak(h: History, at: seq<nat>)
    requires h != [] && IsWait(h, at)
    ensures |Streak(h)| >= |at| && Streak(h)[0] == h[at[0]]
  {
    forall i | 0 <= i < |h| { ObservationMeans(h[i]); }
    var r := Since(h);
    assert r <= at[0];
    forall i | r <= i < at[0] ensures !IsNonReady(h[i]) { NothingWaits(h, at[0], i); }
    var t := h[r..];
    var inTail := seq(|at|, i requires 0 <= i < |at| => (if at[i] >= r then at[i] - r else 0) as nat);
    forall i | 0 <= i < |at| ensures at[i] >= at[0] { assert i == 0 || at[0] < at[i]; }
    forall i | 0 <= i < |at| ensures inTail[i] < |t| && t[inTail[i]] == h[at[i]] {}
    CountsAll(t, inTail);
    FirstNonReady(t, at[0] - r);
  }

  /** These are positions of non-ready observations, in order from the first. */
  ghost predicate ArePositions(h: History, at: seq<nat>) {
    && (forall i, j :: 0 <= i < j < |at| ==> at[i] < at[j])
    && (forall i :: 0 <= i < |at| ==> at[i] < |h| && IsNonReady(h[at[i]]))
    && (forall i :: 0 <= i < |h| && (at == [] || i < at[0]) ==> !IsNonReady(h[i]))
  }

  ghost predicate Reads(h: History, at: seq<nat>, xs: History) {
    |at| == |xs| && forall i :: 0 <= i < |at| ==> at[i] < |h| && h[at[i]] == xs[i]
  }

  lemma OneMoreRead(h: History, at: seq<nat>, xs: History, o: Observation)
    requires Reads(h, at, xs)
    ensures Reads(h + [o], at, xs) && Reads(h + [o], at + [|h|], xs + [o])
  {
  }

  lemma OneMorePosition(h: History, at: seq<nat>, o: Observation)
    requires ArePositions(h, at)
    ensures IsNonReady(o) ==> ArePositions(h + [o], at + [|h|])
    ensures !IsNonReady(o) ==> ArePositions(h + [o], at)
  {
  }

  ghost predicate Locates(h: History, at: seq<nat>, xs: History) {
    ArePositions(h, at) && Reads(h, at, xs)
  }

  ghost function Positions(h: History): seq<nat> {
    if h == [] then []
    else Positions(h[..|h| - 1]) + if IsNonReady(h[|h| - 1]) then [|h| - 1] else []
  }

  lemma PositionsSnoc(h: History, o: Observation)
    ensures Positions(h + [o]) == if IsNonReady(o) then Positions(h) + [|h|] else Positions(h)
    ensures NonReady(h + [o]) == if IsNonReady(o) then NonReady(h) + [o] else NonReady(h)
  {
    assert (h + [o])[..|h|] == h;
  }

  lemma LocatesSnoc(h: History, o: Observation)
    requires Locates(h, Positions(h), NonReady(h))
    ensures Locates(h + [o], Positions(h + [o]), NonReady(h + [o]))
  {
    PositionsSnoc(h, o);
    OneMorePosition(h, Positions(h), o);
    OneMoreRead(h, Positions(h), NonReady(h), o);
  }

  lemma {:induction false} PositionsMean(h: History)
    ensures Locates(h, Positions(h), NonReady(h))
  {
    if h == [] {
    } else {
      PositionsMean(h[..|h| - 1]);
      LocatesSnoc(h[..|h| - 1], h[|h| - 1]);
      assert h[..|h| - 1] + [h[|h| - 1]] == h;
    }
  }

  lemma ShiftedBy(h: History, r: nat, inTail: seq<nat>) returns (at: seq<nat>)
    requires r <= |h| && ArePositions(h[r..], inTail)
    ensures |at| == |inTail| && forall i, j :: 0 <= i < j < |at| ==> at[i] < at[j]
    ensures forall i :: 0 <= i < |at| ==>
              at[i] == r + inTail[i] < |h| && IsNonReady(h[at[i]]) && h[at[i]] == h[r..][inTail[i]]
  {
    at := seq(|inTail|, i requires 0 <= i < |inTail| => r + inTail[i]);
  }

  lemma NoneBefore(h: History, r: nat, inTail: seq<nat>, i: nat)
    requires r <= |h| && ArePositions(h[r..], inTail) && inTail != [] && r <= i < r + inTail[0]
    ensures i < |h| && !IsNonReady(h[i])
  {
    assert inTail[0] < |h[r..]|;
    assert h[r..][i - r] == h[i];
  }

  /** What waits before the first non-ready observation since the last reset was settled by the reset. */
  lemma ResetSettles(h: History, inTail: seq<nat>, k: nat)
    requires ArePositions(h[Since(h)..], inTail) && inTail != [] && k == Since(h) + inTail[0]
    ensures SettledBefore(h, k)
  {
    var r := Since(h);
    forall i | r <= i < k ensures i < |h| && !IsNonReady(h[i]) { NoneBefore(h, r, inTail, i); }
    forall i | 0 <= i < k && i < |h| && IsWaiting(h[i]) ensures SettledBetween(h, i, k) {
      ObservationMeans(h[i]);
      assert i < r;
      ObservationMeans(h[r - 1]);
      assert i < r - 1;
    }
  }

  lemma WaitingSince(h: History, at: seq<nat>)
    requires at != [] && at[|at| - 1] == |h| - 1 && forall i, j :: 0 <= i < j < |at| ==> at[i] < at[j]
    requires forall i :: 0 <= i < |at| ==> at[i] < |h| && IsNonReady(h[at[i]])
    requires (forall i :: at[0] <= i < |h| ==> !Resets(h[i])) && SettledBefore(h, at[0])
    ensures IsWait(h, at)
  {
    forall i | 0 <= i < |at| ensures IsWaiting(h[at[i]]) { ObservationMeans(h[at[i]]); }
    forall i | at[0] <= i < |h| ensures !Settles(h[i]) { ObservationMeans(h[i]); }
  }

  /** The non-ready observations since the last reset are a wait. */
  lemma StreakIsWait(h: History) returns (at: seq<nat>)
    requires h != [] && IsNonReady(h[|h| - 1])
    ensures IsWait(h, at) && |at| == |Streak(h)| && h[at[0]] == Streak(h)[0]
  {
    var r := Since(h);
    var inTail := Positions(h[r..]);
    PositionsMean(h[r..]);
    at := ShiftedBy(h, r, inTail);
    assert h[r..][|h| - r - 1] == h[|h| - 1];
    ResetSettles(h, inTail, at[0]);
    WaitingSince(h, at);
  }

  /** NotReady is called for exactly when the wait is overdue. */
  lemma OverdueMeans(h: History)
    requires h != []
    ensures IsNonReady(h[|h| - 1]) && Overdue(Streak(h), h[|h| - 1].now) <==> IsOverdue(h)
  {
    ObservationMeans(h[|h| - 1]);
    if IsNonReady(h[|h| - 1]) { var at := StreakIsWait(h); }
    if at :| IsWait(h, at) && |at| >= 6 && h[|h| - 1].now - h[at[0]].now >= 75_000 { WaitIsStreak(h, at); }
  }

  /** NotReady is reported only after at least six waiting evaluations, the last of them this one, with
      no settling evaluation since the first, which is at least 75 seconds old.  */
  lemma NotReadyIsEarned(labels: Labels, h: History) returns (at: seq<nat>)
    requires h != [] && Alert(labels, h).Some? && Alert(labels, h).value.code == NotReady
    ensures IsWait(h, at) && |at| >= 6 && h[|h| - 1].now - h[at[0]].now >= 75_000
  {
    at := StreakIsWait(h);
  }

  lemma AlertMeans(labels: Labels, h: History)
    requires h != []
    ensures Alert(labels, h) == CalledFor(labels, h)
  {
    ObservationMeans(h[|h| - 1]);
    OverdueMeans(h);
  }

  ghost predicate StaysCalled(labels: Labels, h: History, i: nat, key: Key)
    requires i < |h|
  {
    !Settles(h[i]) && CalledFor(labels, h[..i + 1]) in {None, Some(key)}
  }

  /** `key` was called for at observation `j`, and since then nothing settled the matter or called for
      another attention.  */
  ghost predicate HasLasted(labels: Labels, h: History, j: nat, key: Key) {
    && j < |h| && CalledFor(labels, h[..j + 1]) == Some(key)
    && forall i :: j < i < |h| ==> StaysCalled(labels, h, i, key)
  }

  /** The attention began at the first observation since which it has lasted. */
  ghost predicate BeganAt(labels: Labels, h: History, key: Key, since: int) {
    exists j: nat :: HasLasted(labels, h, j, key) && h[j].now == since
      && forall i: nat :: i < j ==> !HasLasted(labels, h, i, key)
  }

  lemma UndisturbedMeans(labels: Labels, h: History, i: nat, key: Key)
    requires i < |h|
    ensures Undisturbed(labels, h, i, key) <==> StaysCalled(labels, h, i, key)
    ensures Alert(labels, h[..i + 1]) == CalledFor(labels, h[..i + 1])
  {
    ObservationMeans(h[i]);
    AlertMeans(labels, h[..i + 1]);
  }

  lemma ContinuesMeans(labels: Labels, h: History, j: nat, key: Key)
    ensures Continues(labels, h, j, key) <==> HasLasted(labels, h, j, key)
  {
    if j < |h| { UndisturbedMeans(labels, h, j, key); }
    forall i | j < i < |h| ensures Undisturbed(labels, h, i, key) <==> StaysCalled(labels, h, i, key) {
      UndisturbedMeans(labels, h, i, key);
    }
  }

  lemma InForceBegan(labels: Labels, h: History)
    requires InForce(labels, h).Some?
    ensures var p := InForce(labels, h).value; p.1 < |h| && BeganAt(labels, h, p.0, h[p.1].now)
  {
    var p := InForce(labels, h).value;
    InForceIsLongest(labels, h, 0, p.0);
    ContinuesMeans(labels, h, p.1, p.0);
    forall i: nat | i < p.1 ensures !HasLasted(labels, h, i, p.0) {
      InForceIsLongest(labels, h, i, p.0);
      ContinuesMeans(labels, h, i, p.0);
    }
  }

  /** The status the latest observation of a history gives. */
  ghost predicate IsStatusOf(labels: Labels, h: History, status: Status)
    requires h != []
  {
    var o := h[|h| - 1];
    if CalledFor(labels, h).Some? then
      status.NeedsAttention? && Some(status.key) == CalledFor(labels, h) && BeganAt(labels, h, status.key, status.since)
    else if BootsFirst(o) then status == Starting(FirstBoot)
    else if IsLongSilent(o) then status == Unreachable
    else if o.contactedThisBoot then status == if UnitsRun(o) && o.healthReady then Healthy else Starting(Services)
    else status == Starting(Enrolling)
  }

  // ---- the tracker ----

  function Saturated(n: nat): nat {
    if n < U32_MAX then n else U32_MAX
  }

  predicate IsReady(o: Observation) {
    o.units.Some? && UnitsOf(o).inactive == [] && o.healthReady
  }

  ghost predicate AttentionAgrees(labels: Labels, h: History, attention: Option<(Key, int)>) {
    match InForce(labels, h)
    case None => attention == None
    case Some(p) => p.1 < |h| && attention == Some((p.0, h[p.1].now))
  }

  lemma InForceSnoc(labels: Labels, h: History, o: Observation)
    ensures InForce(labels, h + [o]) ==
              if Resets(o) then None
              else match Alert(labels, h + [o])
                   case None => InForce(labels, h)
                   case Some(key) =>
                     if InForce(labels, h).Some? && InForce(labels, h).value.0 == key then InForce(labels, h)
                     else Some((key, |h|))
  {
    assert (h + [o])[..|h|] == h;
  }

  /** What the tracker's three fields must be after a history. */
  ghost predicate Remembers(labels: Labels, h: History, checks: nat, since: Option<int>,
                            attention: Option<(Key, int)>)
  {
    && checks == Saturated(|Streak(h)|)
    && since == (if Streak(h) == [] then None else Some(Streak(h)[0].now))
    && AttentionAgrees(labels, h, attention)
  }

  /** A continuing attention keeps the time it began. */
  function Noted(attention: Option<(Key, int)>, key: Key, now: int): Option<(Key, int)> {
    if attention.Some? && attention.value.0 == key then attention else Some((key, now))
  }

  function NextChecks(checks: nat): nat {
    if checks < U32_MAX then checks + 1 else U32_MAX
  }

  function NextSince(since: Option<int>, now: int): Option<int> {
    if since.None? then Some(now) else since
  }

  lemma ResetForgets(labels: Labels, h: History, o: Observation)
    requires Resets(o)
    ensures Remembers(labels, h + [o], 0, None, None) && Alert(labels, h + [o]).None?
  {
    StreakSnoc(h, o);
    InForceSnoc(labels, h, o);
  }

  /** An observation that calls for an attention puts it in force, since now or since before. */
  lemma AlertIsNoted(labels: Labels, h: History, o: Observation, attention: Option<(Key, int)>, key: Key)
    requires AttentionAgrees(labels, h, attention) && !Resets(o) && Alert(labels, h + [o]) == Some(key)
    ensures AttentionAgrees(labels, h + [o], Noted(attention, key, o.now))
    ensures var p := InForce(labels, h + [o]);
            p.Some? && p.value.0 == key && p.value.1 < |h + [o]|
            && (h + [o])[p.value.1].now == Noted(attention, key, o.now).value.1
  {
    InForceSnoc(labels, h, o);
  }

  lemma FailureIsNoted(labels: Labels, h: History, o: Observation, checks: nat, since: Option<int>,
                       attention: Option<(Key, int)>)
    requires Remembers(labels, h, checks, since, attention) && Fails(o)
    ensures var key := Key(ServiceFailed, UnitsOf(o).failed[0]);
            && Alert(labels, h + [o]) == Some(key)
            && Remembers(labels, h + [o], checks, since, Noted(attention, key, o.now))
  {
    StreakSnoc(h, o);
    AlertIsNoted(labels, h, o, attention, Key(ServiceFailed, UnitsOf(o).failed[0]));
  }

  lemma NonReadyCounts(h: History, o: Observation, checks: nat, since: Option<int>)
    requires IsNonReady(o) && checks == Saturated(|Streak(h)|)
    requires since == if Streak(h) == [] then None else Some(Streak(h)[0].now)
    ensures NextChecks(checks) == Saturated(|Streak(h + [o])|)
    ensures Streak(h + [o]) != [] && NextSince(since, o.now) == Some(Streak(h + [o])[0].now)
    ensures Overdue(Streak(h + [o]), o.now)
            <==> NextChecks(checks) >= ATTENTION_AFTER_CHECKS && o.now - NextSince(since, o.now).value >= WINDOW
  {
    StreakSnoc(h, o);
  }

  lemma NonReadyIsNoted(labels: Labels, h: History, o: Observation, checks: nat, since: Option<int>,
                        attention: Option<(Key, int)>)
    requires Remembers(labels, h, checks, since, attention) && IsNonReady(o)
    ensures var key := Key(NotReady, NotReadySubject(labels, o));
            var c, s := NextChecks(checks), NextSince(since, o.now);
            if c < ATTENTION_AFTER_CHECKS || o.now - s.value < WINDOW
            then Alert(labels, h + [o]).None? && Remembers(labels, h + [o], c, s, attention)
            else Alert(labels, h + [o]) == Some(key) && Remembers(labels, h + [o], c, s, Noted(attention, key, o.now))
  {
    NonReadyCounts(h, o, checks, since);
    if Overdue(Streak(h + [o]), o.now) {
      AlertIsNoted(labels, h, o, attention, Key(NotReady, NotReadySubject(labels, o)));
    } else {
      InForceSnoc(labels, h, o);
    }
  }

  /** The status as the tracker decides it. */
  ghost predicate IsDecided(labels: Labels, h: History, status: Status)
    requires h != []
  {
    var o := h[|h| - 1];
    && (status.NeedsAttention? <==> Alert(labels, h).Some?)
    && (status.NeedsAttention? ==>
          && Alert(labels, h) == Some(status.key)
          && InForce(labels, h).Some? && InForce(labels, h).value.0 == status.key
          && InForce(labels, h).value.1 < |h| && status.since == h[InForce(labels, h).value.1].now)
    && (status == Unreachable <==> !Fails(o) && UnitsOf(o).firstBootActive && Silence(o) > UNREACHABLE_AFTER)
    && (status == Starting(FirstBoot) <==> !Fails(o) && !UnitsOf(o).firstBootActive)
    && (status == Healthy <==>
          && !Fails(o) && UnitsOf(o).firstBootActive && Silence(o) <= UNREACHABLE_AFTER && IsReady(o)
          && o.contactedThisBoot)
    && (status == Starting(Services) <==> IsNonReady(o) && o.contactedThisBoot && Alert(labels, h).None?)
  }

  lemma DecidedMeans(labels: Labels, h: History, status: Status)
    requires h != [] && IsDecided(labels, h, status)
    ensures IsStatusOf(labels, h, status)
  {
    ObservationMeans(h[|h| - 1]);
    AlertMeans(labels, h);
    if status.NeedsAttention? {
      InForceBegan(labels, h);
    } else if status.Starting? {
      match status.stage { case FirstBoot => case Enrolling => case Services => }
    }
  }

  class Tracker {
    const labels: Labels
    var nonReadyChecks: nat
    var nonReadySince: Option<int>
    var attention: Option<(Key, int)>
    ghost var history: History

    /** The three fields say exactly what the history says. */
    ghost predicate Valid()
      reads this
    {
      Remembers(labels, history, nonReadyChecks, nonReadySince, attention)
    }

    constructor (labels: Labels)
      ensures Valid() && history == []
    {
      this.labels, nonReadyChecks, nonReadySince, attention, history := labels, 0, None, None, [];
    }

    /** The observation settles the matter: the memory starts afresh. */
    method Reset(ghost o: Observation)
      modifies this
      ensures nonReadyChecks == 0 && nonReadySince == None && attention == None && history == old(history) + [o]
    {
      nonReadyChecks, nonReadySince, attention := 0, None, None;
      history := history + [o];
    }

    /** A continuing attention keeps the time it began. */
    method AttentionSince(key: Key, now: int) returns (since: int)
      modifies `attention
      ensures attention == Some((key, since)) == Noted(old(attention), key, now)
    {
      if attention.Some? && attention.value.0 == key {
        return attention.value.1;
      }
      attention := Some((key, now));
      return now;
    }

    /** A check that settles nothing: attention after six of them that span the window. */
    method CountCheck(o: Observation) returns (status: Status)
      requires Valid() && IsNonReady(o)
      modifies this
      ensures Valid() && history == old(history) + [o]
      ensures IsDecided(labels, history, status)
    {
      NonReadyIsNoted(labels, history, o, nonReadyChecks, nonReadySince, attention);
      if Alert(labels, history + [o]).Some? {
        AlertIsNoted(labels, history, o, attention, Key(NotReady, NotReadySubject(labels, o)));
      }
      history := history + [o];
      nonReadyChecks, nonReadySince := NextChecks(nonReadyChecks), NextSince(nonReadySince, o.now);
      if nonReadyChecks < ATTENTION_AFTER_CHECKS || o.now - nonReadySince.value < WINDOW {
        return Starting(if o.contactedThisBoot then Services else Enrolling);
      }
      var subject := NotReadySubject(labels, o);
      var since := AttentionSince(Key(NotReady, subject), o.now);
      return NeedsAttention(Key(NotReady, subject), since);
    }

    method Decide(o: Observation) returns (status: Status)
      requires Valid()
      modifies this
      ensures Valid() && history == old(history) + [o]
      ensures IsDecided(labels, history, status)
    {
      var units := UnitsOf(o);
      if units.failed != [] {
        FailureIsNoted(labels, history, o, nonReadyChecks, nonReadySince, attention);
        AlertIsNoted(labels, history, o, attention, Key(ServiceFailed, units.failed[0]));
        history := history + [o];
        var since := AttentionSince(Key(ServiceFailed, units.failed[0]), o.now);
        return NeedsAttention(Key(ServiceFailed, units.failed[0]), since);
      }
      if Resets(o) { ResetForgets(labels, history, o); }
      if !units.firstBootActive {
        Reset(o);
        return Starting(FirstBoot);
      }
      if Silence(o) > UNREACHABLE_AFTER {
        Reset(o);
        return Unreachable;
      }
      if o.units.Some? && units.inactive == [] && o.healthReady {
        Reset(o);
        return if o.contactedThisBoot then Healthy else Starting(Enrolling);
      }
      if !o.contactedThisBoot && o.units.Some? && units.inactive == [] {
        Reset(o);
        return Starting(Enrolling);
      }
      status := CountCheck(o);
    }

    /** `ReadinessTracker::evaluate`. */
    method Evaluate(o: Observation) returns (status: Status)
      requires Valid()
      modifies this
      ensures Valid() && history == old(history) + [o]
      ensures IsDecided(labels, history, status) && IsStatusOf(labels, history, status)
    {
      status := Decide(o);
      DecidedMeans(labels, history, status);
    }
  }
}
