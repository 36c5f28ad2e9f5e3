/** System tick alarms: a wrapping 32-bit counter and one rollover bit against deadlines in unbounded time. */
module Alarms {
  import opened Bytes

  /** The fields of an alarm that decide when it fires. */
  datatype Armed = Armed(time: dword, rollover: bool)

  /** alt_alarm_start at counter value `nticks`. */
  function Arm(nticks: dword, ticks: dword): Armed {
    var time: dword := (ticks + nticks + 1) % WRAP;
    Armed(time, time < nticks)
  }

  datatype Outcome = Outcome(fired: bool, next: Next)
  datatype Next = Stopped | Running(a: Armed)

  /** What alt_tick does to one alarm once the counter reads `nticks`; `ret` is what its callback returns if called. */
  function TickOne(nticks: dword, a: Armed, ret: dword): Outcome {
    var rollover := a.rollover && nticks != 0;
    if a.time <= nticks && !rollover then
      if ret == 0 then Outcome(true, Stopped)
      else
        var time: dword := (a.time + ret) % WRAP;
        Outcome(true, Running(Armed(time, rollover || time < nticks)))
    else Outcome(false, Running(Armed(a.time, rollover)))
  }

  // ---------------------------------------------------------------- exact time

  /** At absolute tick `now` the alarm stands for the deadline `d`, at most one full turn of the counter ahead. */
  ghost predicate Encodes(now: nat, a: Armed, d: nat) {
    now < d < now + WRAP && a.time == d % WRAP && a.rollover == (d / WRAP > now / WRAP)
  }

  /** The same, or the alarm has the longest interval and was started when the counter was at its maximum. */
  ghost predicate Stands(now: nat, a: Armed, d: nat) {
    Encodes(now, a, d) || (now % WRAP == WRAP - 1 && d == now + WRAP && a == Armed(WRAP - 1, false))
  }

  lemma EncodesStands(now: nat, a: Armed, d: nat)
    ensures Encodes(now, a, d) ==> Stands(now, a, d)
  {
  }

  /** alt_alarm_start stands for the exact deadline if and only if the interval leaves room in the counter, or the
      counter is at its maximum. */
  lemma ArmIsExact(now: nat, ticks: dword)
    ensures Stands(now, Arm(now % WRAP, ticks), now + ticks + 1) <==> ticks < WRAP - 1 || now % WRAP == WRAP - 1
  {
    var c, k := now % WRAP, now / WRAP;
    if ticks + c + 1 < WRAP {
      Remainder(now + ticks + 1, WRAP, k, ticks + c + 1);
    } else if ticks + c + 1 < 2 * WRAP {
      Remainder(now + ticks + 1, WRAP, k + 1, ticks + c + 1 - WRAP);
      Remainder(ticks + c + 1, WRAP, 1, ticks + c + 1 - WRAP);
    }
  }

  /** One tick: the alarm fires exactly when its deadline has come, and then stands for the deadline one period
      later. */
  lemma TickIsExact(now: nat, a: Armed, d: nat, ret: dword)
    requires Stands(now, a, d)
    ensures var o := TickOne((now + 1) % WRAP, a, ret);
      (o.fired <==> d == now + 1) &&
      (d != now + 1 ==> o.next.Running? && Encodes(now + 1, o.next.a, d)) &&
      (d == now + 1 && ret == 0 ==> o.next == Stopped) &&
      (d == now + 1 && ret != 0 ==> o.next.Running? && Encodes(now + 1, o.next.a, d + ret))
  {
    var n := now + 1;
    var c, k := n % WRAP, n / WRAP;
    if !Encodes(now, a, d) {
      Remainder(n, WRAP, now / WRAP + 1, 0);
      Remainder(d, WRAP, now / WRAP + 1, WRAP - 1);
      return;
    }
    assert now / WRAP == if c == 0 then k - 1 else k;
    assert k <= d / WRAP <= k + 1;
    if d == n && ret != 0 {
      if c + ret < WRAP {
        Remainder(d + ret, WRAP, k, c + ret);
      } else {
        Remainder(d + ret, WRAP, k + 1, c + ret - WRAP);
        Remainder(c + ret, WRAP, 1, c + ret - WRAP);
      }
    }
  }

  /** The alarm in unbounded time: its next deadline, or none. */
  datatype Deadline = Never | At(d: nat)

  function ExactTick(now: nat, x: Deadline, ret: dword): Deadline {
    if x == At(now) then if ret == 0 then Never else At(now + ret) else x
  }

  /** The exact deadline `k` ticks after `now`; `rets[i]` is what the callback returns at tick `now + i + 1`. */
  function ExactAfter(now: nat, x: Deadline, rets: seq<dword>): Deadline {
    if rets == [] then x
    else ExactTick(now + |rets|, ExactAfter(now, x, rets[..|rets| - 1]), rets[|rets| - 1])
  }

  /** The alarm the driver keeps, `|rets|` ticks after `now`. */
  function After(now: nat, a: Armed, rets: seq<dword>): Next {
    if rets == [] then Running(a)
    else
      match After(now, a, rets[..|rets| - 1])
      case Stopped => Stopped
      case Running(b) => TickOne((now + |rets|) % WRAP, b, rets[|rets| - 1]).next
  }

  /** Whether the alarm fires at tick `now + |rets|`, the last of the run. */
  function FiresLast(now: nat, a: Armed, rets: seq<dword>): bool
    requires rets != []
  {
    match After(now, a, rets[..|rets| - 1])
    case Stopped => false
    case Running(b) => TickOne((now + |rets|) % WRAP, b, rets[|rets| - 1]).fired
  }

  /** The driver's alarm stands for the exact deadline after any number of ticks, and so of counter wraps. */
  lemma {:induction false} StaysExact(now: nat, a: Armed, d: nat, rets: seq<dword>)
    requires Stands(now, a, d)
    ensures match After(now, a, rets)
      case Stopped => ExactAfter(now, At(d), rets) == Never
      case Running(b) => ExactAfter(now, At(d), rets).At? && Stands(now + |rets|, b, ExactAfter(now, At(d), rets).d)
  {
    hide Stands, TickOne;
    if rets != [] {
      var front, ret := rets[..|rets| - 1], rets[|rets| - 1];
      StaysExact(now, a, d, front);
      match After(now, a, front) {
        case Stopped =>
        case Running(b) =>
          var x := ExactAfter(now, At(d), front).d;
          TickIsExact(now + |front|, b, x, ret);
          EncodesStands(now + |rets|, b, x);
          var o := TickOne((now + |rets|) % WRAP, b, ret);
          if o.next.Running? {
            EncodesStands(now + |rets|, o.next.a, if x == now + |rets| then x + ret else x);
          }
      }
    }
  }

  /** Over the run `rets`, the alarm fires at the last tick if and only if that tick is its exact deadline. */
  ghost predicate FiresAsDue(now: nat, ticks: dword, rets: seq<dword>)
    requires rets != []
  {
    FiresLast(now, Arm(now % WRAP, ticks), rets) <==> ExactAfter(now, At(now + ticks + 1), rets[..|rets| - 1]) == At(now + |rets|)
  }

  /** An alarm started at tick `now` fires first at `now + ticks + 1`, then after each returned period, never early,
      late or missed, in every run: if and only if its interval is below 2^32 - 1 or the counter is at its maximum. */
  lemma FiresExactly(now: nat, ticks: dword)
    ensures (forall rets: seq<dword> :: rets != [] ==> FiresAsDue(now, ticks, rets)) <==>
      ticks < WRAP - 1 || now % WRAP == WRAP - 1
  {
    if ticks < WRAP - 1 || now % WRAP == WRAP - 1 {
      forall rets: seq<dword> | rets != [] ensures FiresAsDue(now, ticks, rets) {
        FiresIfExact(now, ticks, rets);
      }
    } else {
      LongestIntervalFiresAtOnce(now, 0);
      assert FiresLast(now, Arm(now % WRAP, ticks), [0]);
      assert !FiresAsDue(now, ticks, [0]);
    }
  }

  lemma FiresIfExact(now: nat, ticks: dword, rets: seq<dword>)
    requires (ticks < WRAP - 1 || now % WRAP == WRAP - 1) && rets != []
    ensures FiresAsDue(now, ticks, rets)
  {
    hide Arm, Stands, TickOne;
    var front := rets[..|rets| - 1];
    var a := Arm(now % WRAP, ticks);
    ArmIsExact(now, ticks);
    StaysExact(now, a, now + ticks + 1, front);
    match After(now, a, front) {
      case Stopped =>
      case Running(b) =>
        TickIsExact(now + |front|, b, ExactAfter(now, At(now + ticks + 1), front).d, rets[|rets| - 1]);
    }
  }

  /** The longest interval does not fit: unless the counter is at its maximum, the alarm fires on the very next tick. */
  lemma LongestIntervalFiresAtOnce(now: nat, ret: dword)
    ensures TickOne((now + 1) % WRAP, Arm(now % WRAP, WRAP - 1), ret).fired <==> now % WRAP != WRAP - 1
  {
    var c := now % WRAP;
    Remainder(WRAP - 1 + c + 1, WRAP, 1, c);
    if c == WRAP - 1 {
      Remainder(now + 1, WRAP, now / WRAP + 1, 0);
    } else {
      Remainder(now + 1, WRAP, now / WRAP, c + 1);
    }
  }

  /** The alarm is taken for due although its interval has not begun: its time is that of the counter, without the
      rollover bit. */
  ghost predicate Overdue(now: nat, a: Armed) {
    a == Armed(now % WRAP, false) && now % WRAP != WRAP - 1
  }

  /** That is how the longest interval leaves the alarm, and no other does. */
  lemma ArmIsOverdue(now: nat, ticks: dword)
    ensures Overdue(now, Arm(now % WRAP, ticks)) <==> ticks == WRAP - 1 && now % WRAP != WRAP - 1
  {
    var c := now % WRAP;
    if ticks + c + 1 < WRAP {
      Remainder(ticks + c + 1, WRAP, 0, ticks + c + 1);
    } else {
      Remainder(ticks + c + 1, WRAP, 1, ticks + c + 1 - WRAP);
    }
  }

  /** An overdue alarm fires on the next tick. Its next period comes out one tick short; if it is a single tick, the
      alarm is overdue again, or, with the counter at its maximum, misses a whole turn of the counter. */
  lemma OverdueTick(now: nat, a: Armed, ret: dword)
    requires Overdue(now, a)
    ensures var n, o := now + 1, TickOne((now + 1) % WRAP, a, ret);
      o.fired && (o.next.Running? <==> ret != 0) &&
      (ret > 1 ==> Stands(n, o.next.a, n + ret - 1)) &&
      (ret == 1 ==> if n % WRAP != WRAP - 1 then Overdue(n, o.next.a) else Stands(n, o.next.a, n + WRAP))
  {
    var c, k := now % WRAP, now / WRAP;
    Remainder(now + 1, WRAP, k, c + 1);
    if c + ret < WRAP {
      Remainder(now + ret, WRAP, k, c + ret);
    } else {
      Remainder(now + ret, WRAP, k + 1, c + ret - WRAP);
      Remainder(c + ret, WRAP, 1, c + ret - WRAP);
    }
  }

  // ---------------------------------------------------------------- the driver

  /** An alarm structure, owned by its user and linked into the clock's list while it runs. */
  class Alarm {
    var time: dword
    var rollover: bool

    constructor () {
      time, rollover := 0, false;
    }

    ghost function State(): Armed
      reads `time, `rollover
    {
      Armed(time, rollover)
    }

    /** alt_tick, loop body: one alarm at counter value `nticks`; `ret` is what its callback returns if called. */
    method Carry(nticks: dword, ret: dword) returns (fired: bool, stopped: bool)
      modifies `time, `rollover
      ensures fired == TickOne(nticks, old(State()), ret).fired
      ensures stopped == TickOne(nticks, old(State()), ret).next.Stopped?
      ensures !stopped ==> State() == TickOne(nticks, old(State()), ret).next.a
    {
      if rollover && nticks == 0 {
        rollover := false;
      }
      fired, stopped := false, false;
      if time <= nticks && !rollover {
        fired := true;
        if ret == 0 {
          stopped := true;
        } else {
          time := (time + ret) % WRAP;
          if time < nticks {
            rollover := true;
          }
        }
      }
    }
  }

  ghost predicate Distinct(l: seq<Alarm>) {
    forall i, j :: 0 <= i < j < |l| ==> l[i] != l[j]
  }

  /** The alarms of `l` that run on after a tick, in order; `was[i]` is the state of `l[i]` before it. */
  ghost function Survivors(l: seq<Alarm>, was: seq<Armed>, nticks: dword, callback: Alarm -> dword): seq<Alarm>
    requires |l| == |was|
  {
    if l == [] then []
    else
      var n := |l| - 1;
      Survivors(l[..n], was[..n], nticks, callback) +
      if TickOne(nticks, was[n], callback(l[n])).next.Running? then [l[n]] else []
  }

  /** The alarms whose callback a tick calls, in order. */
  ghost function Called(l: seq<Alarm>, was: seq<Armed>, nticks: dword, callback: Alarm -> dword): seq<Alarm>
    requires |l| == |was|
  {
    if l == [] then []
    else
      var n := |l| - 1;
      Called(l[..n], was[..n], nticks, callback) + if TickOne(nticks, was[n], callback(l[n])).fired then [l[n]] else []
  }

  ghost function AllOf(l: seq<Alarm>): set<Alarm> {
    set a | a in l
  }

  /** The alarms of `l` that are in `which`, in order. */
  ghost function Chosen(l: seq<Alarm>, which: set<Alarm>): seq<Alarm> {
    if l == [] then []
    else
      var n := |l| - 1;
      Chosen(l[..n], which) + if l[n] in which then [l[n]] else []
  }

  /** They are exactly those alarms, none of them twice if `l` has none twice. */
  lemma {:induction false} ChosenAre(l: seq<Alarm>, which: set<Alarm>)
    ensures forall a :: a in Chosen(l, which) ==> a in l && a in which
    ensures forall a :: a in l && a in which ==> a in Chosen(l, which)
    ensures Distinct(l) ==> Distinct(Chosen(l, which))
  {
    if l != [] {
      var n := |l| - 1;
      ChosenAre(l[..n], which);
      assert Distinct(l) ==> l[n] !in l[..n];
    }
  }

  ghost predicate Before(l: seq<Alarm>, a: Alarm, b: Alarm) {
    exists p, q :: 0 <= p < q < |l| && l[p] == a && l[q] == b
  }

  /** And they are in the order of `l`. */
  lemma {:induction false} ChosenInOrder(l: seq<Alarm>, which: set<Alarm>, i: nat, j: nat)
    requires i < j < |Chosen(l, which)|
    ensures Before(l, Chosen(l, which)[i], Chosen(l, which)[j])
  {
    var n := |l| - 1;
    var c := Chosen(l[..n], which);
    if j < |c| {
      ChosenInOrder(l[..n], which, i, j);
      var p, q :| 0 <= p < q < n && l[..n][p] == c[i] && l[..n][q] == c[j];
      assert l[p] == c[i] && l[q] == c[j];
    } else {
      ChosenAre(l[..n], which);
      var a := c[i];
      assert a in c && a in l[..n];
      var p :| 0 <= p < n && l[..n][p] == a;
      assert l[p] == a && l[n] == Chosen(l, which)[j];
    }
  }

  /** The alarms that are due at `now`: at their deadline, or, for want of one, overdue. */
  ghost function Due(l: seq<Alarm>, deadline: map<Alarm, nat>, now: nat): set<Alarm> {
    set a | a in l && (a !in deadline || deadline[a] == now)
  }

  /** Those of the alarms whose callback asks for no more calls. */
  ghost function Ended(due: set<Alarm>, callback: Alarm -> dword): set<Alarm> {
    set a | a in due && callback(a) == 0
  }

  /** The deadline of an alarm that has been called at `now`, if it has one. */
  ghost function NextDeadline(now: nat, overdue: bool, ret: dword): Option<nat> {
    if !overdue then Some(now + ret)
    else if ret == 0 then None
    else if ret > 1 then Some(now + ret - 1)
    else if now % WRAP == WRAP - 1 then Some(now + WRAP)
    else None
  }

  ghost function Later(deadline: map<Alarm, nat>, due: set<Alarm>, now: nat, callback: Alarm -> dword): map<Alarm, nat> {
    map a | a in deadline.Keys + due && (a in due ==> NextDeadline(now, a !in deadline, callback(a)).Some?) ::
      if a in due then NextDeadline(now, a !in deadline, callback(a)).value else deadline[a]
  }

  datatype StartResult = Started | NotSupported | Invalid

  class Clock {
    var tickRate: dword      // 0 while there is no system clock
    var nticks: dword
    var list: seq<Alarm>     // registered alarms
    ghost var now: nat                    // ticks since the start, never wrapping
    ghost var deadline: map<Alarm, nat>   // exact deadlines; a listed alarm without one is overdue

    constructor (rate: dword)
      ensures tickRate == rate && nticks == 0 && list == [] && Valid() && now == 0
    {
      tickRate, nticks, list := rate, 0, [];
      now, deadline := 0, map[];
    }

    /** The counter is the time modulo 2^32, and every listed alarm stands for its deadline or is overdue. */
    ghost predicate Valid()
      reads this, list
    {
      nticks == now % WRAP && Distinct(list) && forall a :: a in list ==> Kept(a.State(), a)
    }

    ghost predicate Kept(s: Armed, a: Alarm)
      reads `now, `deadline
    {
      if a in deadline then Stands(now, s, deadline[a]) else Overdue(now, s)
    }

    /** alt_alarm_start: the alarm gets its exact deadline, unless its interval is the longest one and the counter is
        not at its maximum. */
    method Start(alarm: Alarm?, ticks: dword) returns (r: StartResult)
      requires Valid() && (alarm == null || alarm !in list)
      modifies `list, `deadline, alarm
      ensures Valid()
      ensures r == Started && alarm != null && (ticks < WRAP - 1 || now % WRAP == WRAP - 1) ==>
        deadline == old(deadline)[alarm := now + ticks + 1]
      ensures r == Started && !(ticks < WRAP - 1 || now % WRAP == WRAP - 1) ==> deadline == old(deadline) - {alarm}
      ensures r != Started ==> deadline == old(deadline)
      ensures r == if tickRate == 0 then NotSupported else if alarm == null then Invalid else Started
      ensures r == Started ==> list == [alarm] + old(list) && alarm.State() == Arm(nticks, ticks)
      ensures r != Started ==> list == old(list) && (alarm != null ==> alarm.State() == old(alarm.State()))
    {
      hide Stands, Overdue;
      if tickRate == 0 {
        return NotSupported;
      }
      if alarm == null {
        return Invalid;
      }
      var current := nticks;
      alarm.time := (ticks + current + 1) % WRAP;
      if alarm.time < current {
        alarm.rollover := true;
      } else {
        alarm.rollover := false;
      }
      ArmIsExact(now, ticks);
      ArmIsOverdue(now, ticks);
      list := [alarm] + list;
      deadline := if ticks < WRAP - 1 || now % WRAP == WRAP - 1 then deadline[alarm := now + ticks + 1] else deadline - {alarm};
      r := Started;
    }

    /** alt_tick: the callbacks called are those of the alarms that are due now, each once and in the order of the list.
        Such an alarm leaves the list if its callback returns 0, and otherwise is due again exactly that many ticks
        later, unless it was overdue. */
    method Tick(callback: Alarm -> dword) returns (called: seq<Alarm>)
      requires Valid()
      modifies `nticks, `list, `now, `deadline, list
      ensures Valid() && now == old(now) + 1
      ensures forall a :: a in called <==> a in old(list) && (a !in old(deadline) || old(deadline)[a] == now)
      ensures called == Chosen(old(list), AllOf(called)) && Distinct(called)
      ensures list == Chosen(old(list), AllOf(old(list)) - Ended(AllOf(called), callback))
      ensures deadline == Later(old(deadline), AllOf(called), now, callback)
    {
      hide Stands, Overdue, TickOne, Survivors, Called, Chosen;
      ghost var l, t0, was := list, now, seq(|list|, i requires 0 <= i < |list| reads this, list => list[i].State());
      ghost var was0 := deadline;
      called := Walk(callback, was);
      now := now + 1;
      Remainder(now, WRAP, if t0 % WRAP == WRAP - 1 then t0 / WRAP + 1 else t0 / WRAP, nticks);
      ghost var due := Due(l, was0, now);
      deadline := Later(deadline, due, now, callback);
      SurvivorsDistinct(l, was, nticks, callback);
      forall i {:trigger l[i]} | 0 <= i < |l|
        ensures var o := TickOne(nticks, was[i], callback(l[i]));
          (o.fired <==> l[i] in due) && (o.next.Running? <==> l[i] !in due || callback(l[i]) != 0)
      {
        TickDue(t0, was[i], if l[i] in was0 then Some(was0[l[i]]) else None, callback(l[i]));
      }
      CalledAreChosen(l, was, nticks, callback, due, AllOf(l) - Ended(due, callback));
      ChosenAre(l, due);
      assert AllOf(called) == due;
      ChosenAre(l, AllOf(l) - Ended(due, callback));
      forall i {:trigger l[i]} | 0 <= i < |l| && l[i] in list ensures Kept(l[i].State(), l[i]) {
        TickDue(t0, was[i], if l[i] in was0 then Some(was0[l[i]]) else None, callback(l[i]));
      }
    }

    /** alt_tick, the work: the counter moves on and every registered alarm, in place, is carried one tick further.
        Alarms whose callback returns 0 leave the list, as alt_alarm_stop does it. */
    method Walk(callback: Alarm -> dword, ghost was: seq<Armed>) returns (called: seq<Alarm>)
      requires Distinct(list) && |was| == |list| && forall i :: 0 <= i < |list| ==> was[i] == list[i].State()
      modifies `nticks, `list, list
      ensures nticks == (old(nticks) + 1) % WRAP && Distinct(list)
      ensures list == Survivors(old(list), was, nticks, callback)
      ensures called == Called(old(list), was, nticks, callback)
      ensures forall i {:trigger old(list)[i]} :: 0 <= i < |was| ==>
        var o := TickOne(nticks, was[i], callback(old(list)[i])); o.next.Running? ==> old(list)[i].State() == o.next.a
    {
      hide Survivors, Called, TickOne, Halfway;
      var l, j, kept := list, 0, 0;
      nticks := (nticks + 1) % WRAP;
      called := [];
      WalkStarts(l, was, callback);
      while j < |l|
        invariant nticks == (old(nticks) + 1) % WRAP && j <= |l| && Halfway(l, was, j, kept, called, callback)
      {
        kept, called := Pass(l, was, j, kept, called, callback);
        j := j + 1;
      }
      WalkEnds(l, was, kept, called, callback);
    }

    /** The walk over the list `l` is at its alarm `j`; the ones before are carried, `kept` of them are still listed. */
    ghost predicate Halfway(l: seq<Alarm>, was: seq<Armed>, j: nat, kept: nat, called: seq<Alarm>,
                            callback: Alarm -> dword)
      reads `list, `nticks, l
    {
      && |l| == |was| && j <= |l| && kept <= |list|
      && list[..kept] == Survivors(l[..j], was[..j], nticks, callback) && list[kept..] == l[j..]
      && called == Called(l[..j], was[..j], nticks, callback)
      && (forall i {:trigger l[i]} :: j <= i < |l| ==> l[i].State() == was[i])
      && forall i {:trigger l[i]} :: 0 <= i < j ==>
           var o := TickOne(nticks, was[i], callback(l[i])); o.next.Running? ==> l[i].State() == o.next.a
    }

    lemma WalkStarts(l: seq<Alarm>, was: seq<Armed>, callback: Alarm -> dword)
      requires l == list && |was| == |l| && forall i :: 0 <= i < |l| ==> was[i] == l[i].State()
      ensures Halfway(l, was, 0, 0, [], callback)
    {
      NoSurvivors(l, was, nticks, callback);
    }

    lemma WalkEnds(l: seq<Alarm>, was: seq<Armed>, kept: nat, called: seq<Alarm>, callback: Alarm -> dword)
      requires Halfway(l, was, |l|, kept, called, callback) && Distinct(l)
      ensures Distinct(list) && list == Survivors(l, was, nticks, callback)
      ensures called == Called(l, was, nticks, callback)
      ensures forall i {:trigger l[i]} :: 0 <= i < |l| ==>
        var o := TickOne(nticks, was[i], callback(l[i])); o.next.Running? ==> l[i].State() == o.next.a
    {
      assert l[..|l|] == l && was[..|l|] == was && list == list[..kept] + list[kept..];
      SurvivorsDistinct(l, was, nticks, callback);
    }

    /** alt_tick, loop body. */
    method Pass(ghost l: seq<Alarm>, ghost was: seq<Armed>, ghost j: nat, kept0: nat, called0: seq<Alarm>,
                callback: Alarm -> dword)
      returns (kept: nat, called: seq<Alarm>)
      requires Halfway(l, was, j, kept0, called0, callback) && j < |l| && Distinct(l)
      modifies `list, l[j]
      ensures Halfway(l, was, j + 1, kept, called, callback)
    {
      hide Survivors, Called, TickOne;
      SurvivorsNext(l, was, nticks, callback, j);
      PassOne(list, kept0, l, j);
      kept, called := kept0, called0;
      var alarm := list[kept];
      var fired, stopped := Visit(kept, callback);
      if fired {
        called := called + [alarm];
      }
      if !stopped {
        kept := kept + 1;
      }
    }

    /** alt_tick, loop body: carries the alarm at position `k` and unlinks it if its callback wants no more calls. */
    method Visit(k: nat, callback: Alarm -> dword) returns (fired: bool, stopped: bool)
      requires k < |list|
      modifies `list, list[k]
      ensures fired == TickOne(nticks, old(list[k].State()), callback(old(list)[k])).fired
      ensures stopped == TickOne(nticks, old(list[k].State()), callback(old(list)[k])).next.Stopped?
      ensures !stopped ==> old(list)[k].State() == TickOne(nticks, old(list[k].State()), callback(old(list)[k])).next.a
      ensures list == if stopped then old(list)[..k] + old(list)[k + 1..] else old(list)
    {
      fired, stopped := list[k].Carry(nticks, callback(list[k]));
      if stopped {
        list := list[..k] + list[k + 1..];
      }
    }
  }

  lemma PassOne(s: seq<Alarm>, k: nat, l: seq<Alarm>, j: nat)
    requires j < |l| && k <= |s| && s[k..] == l[j..]
    ensures k < |s| && s[k] == l[j] && s[k + 1..] == l[j + 1..] && s[..k + 1] == s[..k] + [l[j]]
    ensures (s[..k] + s[k + 1..])[..k] == s[..k] && (s[..k] + s[k + 1..])[k..] == l[j + 1..]
  {
    assert s[k..][0] == l[j..][0];
    assert s[k + 1..] == s[k..][1..];
  }

  lemma NoSurvivors(l: seq<Alarm>, was: seq<Armed>, nticks: dword, callback: Alarm -> dword)
    requires |l| == |was|
    ensures Survivors(l[..0], was[..0], nticks, callback) == [] && Called(l[..0], was[..0], nticks, callback) == []
  {
  }

  lemma SurvivorsNext(l: seq<Alarm>, was: seq<Armed>, nticks: dword, callback: Alarm -> dword, j: nat)
    requires |l| == |was| && j < |l|
    ensures var o := TickOne(nticks, was[j], callback(l[j]));
      Survivors(l[..j + 1], was[..j + 1], nticks, callback) ==
        Survivors(l[..j], was[..j], nticks, callback) + (if o.next.Running? then [l[j]] else []) &&
      Called(l[..j + 1], was[..j + 1], nticks, callback) ==
        Called(l[..j], was[..j], nticks, callback) + (if o.fired then [l[j]] else [])
  {
    assert l[..j + 1][..j] == l[..j] && was[..j + 1][..j] == was[..j];
  }

  lemma SurvivorsDistinct(l: seq<Alarm>, was: seq<Armed>, nticks: dword, callback: Alarm -> dword)
    requires |l| == |was| && Distinct(l)
    ensures Distinct(Survivors(l, was, nticks, callback))
    ensures forall a :: a in Survivors(l, was, nticks, callback) ==> a in l
  {
    if l != [] {
      var n := |l| - 1;
      SurvivorsDistinct(l[..n], was[..n], nticks, callback);
      assert l[n] !in l[..n];
    }
  }

  /** A tick keeps exactly the alarms that are to fire again, and calls exactly those that fire. */
  lemma {:induction false} SurvivorsAre(l: seq<Alarm>, was: seq<Armed>, nticks: dword, callback: Alarm -> dword, i: nat)
    requires |l| == |was| && Distinct(l) && i < |l|
    ensures l[i] in Survivors(l, was, nticks, callback) <==> TickOne(nticks, was[i], callback(l[i])).next.Running?
    ensures l[i] in Called(l, was, nticks, callback) <==> TickOne(nticks, was[i], callback(l[i])).fired
    ensures forall a :: a in Called(l, was, nticks, callback) ==> a in l
  {
    var n := |l| - 1;
    SurvivorsDistinct(l[..n], was[..n], nticks, callback);
    CalledAreListed(l, was, nticks, callback);
    CalledAreListed(l[..n], was[..n], nticks, callback);
    if i < n {
      SurvivorsAre(l[..n], was[..n], nticks, callback, i);
      assert l[..n][i] == l[i] != l[n];
    }
  }

  /** The alarms a tick calls and keeps, chosen by name. */
  lemma {:induction false} CalledAreChosen(l: seq<Alarm>, was: seq<Armed>, nticks: dword, callback: Alarm -> dword,
                                           due: set<Alarm>, kept: set<Alarm>)
    requires |l| == |was|
    requires forall i {:trigger l[i]} :: 0 <= i < |l| ==>
      var o := TickOne(nticks, was[i], callback(l[i])); (o.fired <==> l[i] in due) && (o.next.Running? <==> l[i] in kept)
    ensures Called(l, was, nticks, callback) == Chosen(l, due) && Survivors(l, was, nticks, callback) == Chosen(l, kept)
  {
    hide TickOne;
    if l != [] {
      CalledAreChosen(l[..|l| - 1], was[..|l| - 1], nticks, callback, due, kept);
    }
  }

  /** One tick of an alarm with the deadline `d`, or of an overdue one. */
  lemma TickDue(now: nat, a: Armed, d: Option<nat>, ret: dword)
    requires if d.Some? then Stands(now, a, d.value) else Overdue(now, a)
    ensures var o, due := TickOne((now + 1) % WRAP, a, ret), d.None? || d.value == now + 1;
      (o.fired <==> due) && (o.next.Running? <==> !due || ret != 0) &&
      (o.next.Running? ==>
        var d' := if due then NextDeadline(now + 1, d.None?, ret) else d;
        if d'.Some? then Stands(now + 1, o.next.a, d'.value) else Overdue(now + 1, o.next.a))
  {
    hide TickOne, Overdue;
    if d.Some? {
      TickIsExact(now, a, d.value, ret);
    } else {
      OverdueTick(now, a, ret);
    }
  }

  lemma CalledAreListed(l: seq<Alarm>, was: seq<Armed>, nticks: dword, callback: Alarm -> dword)
    requires |l| == |was|
    ensures forall a :: a in Called(l, was, nticks, callback) ==> a in l
  {
    if l != [] {
      CalledAreListed(l[..|l| - 1], was[..|l| - 1], nticks, callback);
    }
  }
}
