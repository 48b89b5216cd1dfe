// Timers on a heap, and the loop that fires those that are due.
module Timers {
  import opened Options
  import opened Ordering
  import opened HeapModel
  import opened Heaps

  const MILLION := 1000000

  datatype Time = Time(sec: int, usec: int)

  function Compare(a: Time, b: Time): int {
    if a.sec > b.sec then 1 else if a.sec < b.sec then -1
    else if a.usec > b.usec then 1 else if a.usec < b.usec then -1 else 0
  }

  // Carries as long as there is more than a million.
  function Carry(t: Time): (r: Time)
    decreases t.usec
  {
    if t.usec > MILLION then Carry(Time(t.sec + 1, t.usec - MILLION)) else t
  }

  method AddTimes(a: Time, b: Time) returns (sum: Time)
    ensures sum == Carry(Time(a.sec + b.sec, a.usec + b.usec))
  {
    sum := Time(a.sec + b.sec, a.usec + b.usec);
    while sum.usec > MILLION
      invariant Carry(sum) == Carry(Time(a.sec + b.sec, a.usec + b.usec))
      decreases sum.usec
    {
      sum := Time(sum.sec + 1, sum.usec - MILLION);
    }
  }

  // The moment a time stands for, in microseconds.
  function Moment(t: Time): int { t.sec * 1000000 + t.usec }

  lemma {:induction false} CarryMoment(t: Time)
    ensures Moment(Carry(t)) == Moment(t)
    decreases t.usec
  {
    if t.usec > MILLION { CarryMoment(Time(t.sec + 1, t.usec - MILLION)); }
  }

  // The sum is the right moment, but its microseconds may be a full million:
  // just when there is a carry to make and nothing behind it.
  lemma {:induction false} CarryKeeps(t: Time)
    requires t.usec >= 0
    ensures var r := Carry(t);
            && Moment(r) == Moment(t) && 0 <= r.usec <= MILLION
            && (r.usec == MILLION <==> t.usec > 0 && t.usec % MILLION == 0)
    decreases t.usec
  {
    if t.usec > MILLION { CarryKeeps(Time(t.sec + 1, t.usec - MILLION)); }
  }

  // A time as a sum leaves it.
  predicate Nearly(t: Time) { 0 <= t.usec <= MILLION }

  predicate Normal(t: Time) { 0 <= t.usec < MILLION }

  // On such times the comparison goes with the moments.
  lemma CompareMoments(a: Time, b: Time)
    requires Nearly(a) && Nearly(b)
    ensures Compare(a, b) <= 0 ==> Moment(a) <= Moment(b)
    ensures Moment(a) < Moment(b) ==> Compare(a, b) < 0
  {
  }

  // A timer fires early, by nothing, just when its time has a full million of
  // microseconds and now is that moment written as a whole second.
  lemma EarlyFiring(e: Time, now: Time)
    requires Nearly(e) && Normal(now)
    ensures Compare(e, now) < 0 && Moment(e) >= Moment(now) <==> e.usec == MILLION && now == Time(e.sec + 1, 0)
    ensures Compare(e, now) < 0 ==> Moment(e) <= Moment(now)
  {
  }

  // Any positive interval leads past now.
  lemma {:induction false} CarryGrows(now: Time, t: Time)
    requires Compare(t, now) > 0
    ensures Compare(Carry(t), now) > 0
    decreases t.usec
  {
    if t.usec > MILLION { CarryGrows(now, Time(t.sec + 1, t.usec - MILLION)); }
  }

  // What a timer does when it fires is left to the caller of the poll.
  datatype Timer = Timer(id: int, expire: Time, interval: Time)

  function TimerCompare(a: Timer, b: Timer): int { Compare(a.expire, b.expire) }

  lemma TimerOrder()
    ensures IsComparator(TimerCompare)
  {
  }

  predicate Due(t: Timer, now: Time) { Compare(t.expire, now) < 0 }

  predicate Repeats(t: Timer, ret: int) { ret >= 0 && (t.interval.sec > 0 || t.interval.usec > 0) }

  function Rearmed(t: Timer, now: Time): Timer {
    t.(expire := Carry(Time(now.sec + t.interval.sec, now.usec + t.interval.usec)))
  }

  lemma RearmedIsLater(t: Timer, now: Time, ret: int)
    requires Repeats(t, ret) && t.interval.sec >= 0 && t.interval.usec >= 0
    ensures Compare(Rearmed(t, now).expire, now) > 0
  {
    CarryGrows(now, Time(now.sec + t.interval.sec, now.usec + t.interval.usec));
  }

  // The same timer, one interval after now.
  ghost predicate SetAnew(t: Timer, t': Timer, now: Time) {
    t'.id == t.id && t'.interval == t.interval && Moment(t'.expire) == Moment(now) + Moment(t.interval)
  }

  lemma RearmedAnew(t: Timer, now: Time)
    ensures SetAnew(t, Rearmed(t, now), now)
  {
    CarryMoment(Time(now.sec + t.interval.sec, now.usec + t.interval.usec));
  }

  // The timers once those with the given ids have fired.
  ghost function Progress(c: map<int, Timer>, fired: set<int>, now: Time, call: Timer -> int): map<int, Timer> {
    map k | k in c && (k in fired ==> Repeats(c[k], call(c[k]))) :: if k in fired then Rearmed(c[k], now) else c[k]
  }

  ghost function DueIds(c: map<int, Timer>, now: Time): set<int> { set k | k in c && Due(c[k], now) }

  ghost predicate TimersOk(c: map<int, Timer>) {
    forall k :: k in c ==> c[k].id == k && c[k].interval.sec >= 0 && c[k].interval.usec >= 0
  }

  // Nobody that has fired was due after somebody that has not.
  ghost predicate FiredFirst(fired: seq<Timer>, c: map<int, Timer>) {
    forall i, k :: 0 <= i < |fired| && k in c ==> TimerCompare(fired[i], c[k]) <= 0
  }

  // Those fired are timers of c with the given ids, each once and in order.
  ghost predicate FiredOk(fired: seq<Timer>, ids: set<int>, c: map<int, Timer>, now: Time) {
    && ids <= DueIds(c, now) && Sorted(TimerCompare, fired)
    && (forall i, j :: 0 <= i < j < |fired| ==> fired[i].id != fired[j].id)
    && (forall i :: 0 <= i < |fired| ==> fired[i].id in ids && fired[i] == c[fired[i].id] && Due(fired[i], now))
    && (forall k :: k in ids ==> c[k] in fired)
  }

  // Timers that are not due stay as they are. Of those that are, the ones that want
  // to go on and have an interval are set anew, and the others are gone.
  ghost predicate LeftByPoll(c: map<int, Timer>, left: map<int, Timer>, now: Time, call: Timer -> int) {
    left.Keys <= c.Keys &&
    forall k :: k in c ==>
      if Compare(c[k].expire, now) >= 0 then k in left && left[k] == c[k]
      else (k in left <==> call(c[k]) >= 0 && Moment(c[k].interval) > 0) && (k in left ==> SetAnew(c[k], left[k], now))
  }

  lemma ProgressLeaves(c: map<int, Timer>, now: Time, call: Timer -> int)
    requires TimersOk(c)
    ensures LeftByPoll(c, Progress(c, DueIds(c, now), now, call), now, call)
  {
    forall k | k in c
      ensures SetAnew(c[k], Rearmed(c[k], now), now)
    {
      RearmedAnew(c[k], now);
    }
  }

  ghost predicate AllNearly(c: map<int, Timer>) {
    forall k :: k in c ==> Nearly(c[k].expire)
  }

  // Told by moments: those fired were in order and not later than now, and none that
  // was before now is left.
  ghost predicate FiredByMoment(fired: seq<Timer>, c: map<int, Timer>, left: map<int, Timer>, now: Time) {
    && (forall i, j :: 0 <= i < j < |fired| ==> Moment(fired[i].expire) <= Moment(fired[j].expire))
    && (forall i :: 0 <= i < |fired| ==> Moment(fired[i].expire) <= Moment(now))
    && (forall k :: k in c && Moment(c[k].expire) < Moment(now) ==> c[k] in fired)
    && (forall k :: k in left ==> Moment(left[k].expire) >= Moment(now))
  }

  lemma RearmedNearly(t: Timer, now: Time)
    requires t.interval.usec >= 0 && now.usec >= 0
    ensures Nearly(Rearmed(t, now).expire)
  {
    CarryKeeps(Time(now.sec + t.interval.sec, now.usec + t.interval.usec));
  }

  lemma PollByMoment(fired: seq<Timer>, c: map<int, Timer>, now: Time, call: Timer -> int)
    requires TimersOk(c) && AllNearly(c) && Normal(now) && FiredOk(fired, DueIds(c, now), c, now)
    requires DueIds(Progress(c, DueIds(c, now), now, call), now) == {}
    ensures var left := Progress(c, DueIds(c, now), now, call); AllNearly(left) && FiredByMoment(fired, c, left, now)
  {
    var ids := DueIds(c, now);
    var left := Progress(c, ids, now, call);
    forall k | k in left
      ensures Nearly(left[k].expire) && Moment(left[k].expire) >= Moment(now)
    {
      if k in ids { RearmedNearly(c[k], now); }
      CompareMoments(left[k].expire, now);
      assert k !in DueIds(left, now);
    }
    forall k | k in c && Moment(c[k].expire) < Moment(now)
      ensures c[k] in fired
    {
      CompareMoments(c[k].expire, now);
      assert k in ids;
    }
    FiredMoments(fired, ids, c, now);
  }

  lemma FiredMoments(fired: seq<Timer>, ids: set<int>, c: map<int, Timer>, now: Time)
    requires AllNearly(c) && Normal(now) && FiredOk(fired, ids, c, now)
    ensures forall i, j :: 0 <= i < j < |fired| ==> Moment(fired[i].expire) <= Moment(fired[j].expire)
    ensures forall i :: 0 <= i < |fired| ==> Moment(fired[i].expire) <= Moment(now)
  {
    forall i | 0 <= i < |fired|
      ensures Nearly(fired[i].expire) && Moment(fired[i].expire) <= Moment(now)
    {
      assert fired[i].id in DueIds(c, now);
      EarlyFiring(fired[i].expire, now);
    }
    forall i, j | 0 <= i < j < |fired|
      ensures Moment(fired[i].expire) <= Moment(fired[j].expire)
    {
      CompareMoments(fired[i].expire, fired[j].expire);
    }
  }

  // The least of the timers is not due: then none is.
  ghost predicate Front(c: map<int, Timer>, t: Timer) {
    t.id in c && c[t.id] == t && forall k :: k in c ==> TimerCompare(t, c[k]) <= 0
  }

  lemma FrontIsFront(s: State<Timer>)
    requires KeysOk(s) && s.size > 0 && Ordered(TimerCompare, s)
    requires forall k :: k in Contents(s) ==> Contents(s)[k].id == k
    ensures Front(Contents(s), s.a[0].data.value) && s.table[s.a[0].data.value.id] == 0
  {
    TimerOrder();
    var c := Contents(s);
    assert KeyOk(s, 0);
    assert s.a[0].key in c && c[s.a[0].key] == s.a[0].data.value;
    forall k | k in c
      ensures TimerCompare(s.a[0].data.value, c[k]) <= 0
    {
      FrontIsLeast(TimerCompare, s, s.table[k]);
    }
  }

  // Nobody is due any more: all that were have fired.
  lemma AllFired(c: map<int, Timer>, ids: set<int>, now: Time, call: Timer -> int)
    requires ids <= DueIds(c, now)
    requires forall k :: k in Progress(c, ids, now, call) ==> !Due(Progress(c, ids, now, call)[k], now)
    ensures ids == DueIds(c, now) && DueIds(Progress(c, ids, now, call), now) == {}
  {
    forall k | k in DueIds(c, now)
      ensures k in ids
    {
      assert k !in ids ==> k in Progress(c, ids, now, call);
    }
    assert forall k :: k in Progress(c, ids, now, call) ==> k !in DueIds(Progress(c, ids, now, call), now);
    assert DueIds(Progress(c, ids, now, call), now) <= {};
  }

  lemma FrontIsNew(c: map<int, Timer>, ids: set<int>, now: Time, call: Timer -> int, t: Timer)
    requires TimersOk(c) && Front(Progress(c, ids, now, call), t) && Due(t, now)
    ensures t.id in c && c[t.id] == t && t.id !in ids
  {
    if t.id in ids { RearmedIsLater(c[t.id], now, call(c[t.id])); }
  }

  lemma FiredMore(c: map<int, Timer>, ids: set<int>, fired: seq<Timer>, now: Time, t: Timer)
    requires FiredOk(fired, ids, c, now) && t.id in c && c[t.id] == t && t.id !in ids && Due(t, now)
    requires forall i :: 0 <= i < |fired| ==> TimerCompare(fired[i], t) <= 0
    ensures FiredOk(fired + [t], ids + {t.id}, c, now)
  {
    var fired' := fired + [t];
    forall k | k in ids + {t.id}
      ensures c[k] in fired'
    {
      if k == t.id { assert fired'[|fired|] == t; } else { assert c[k] in fired; }
    }
  }

  // One more timer has fired.
  lemma FireStep(c: map<int, Timer>, ids: set<int>, fired: seq<Timer>, now: Time, call: Timer -> int, t: Timer)
    requires TimersOk(c) && FiredOk(fired, ids, c, now) && FiredFirst(fired, Progress(c, ids, now, call))
    requires Front(Progress(c, ids, now, call), t) && Due(t, now)
    ensures FiredOk(fired + [t], ids + {t.id}, c, now)
    ensures var p := Progress(c, ids, now, call);
            && Progress(c, ids + {t.id}, now, call)
               == (if Repeats(t, call(t)) then p[t.id := Rearmed(t, now)] else p - {t.id})
            && FiredFirst(fired + [t], Progress(c, ids + {t.id}, now, call))
            && DueIds(c, now) - (ids + {t.id}) < DueIds(c, now) - ids
  {
    var p, p' := Progress(c, ids, now, call), Progress(c, ids + {t.id}, now, call);
    FrontIsNew(c, ids, now, call, t);
    FiredMore(c, ids, fired, now, t);
    if Repeats(t, call(t)) { RearmedIsLater(t, now, call(t)); }
    forall i, k | 0 <= i < |fired + [t]| && k in p'
      ensures TimerCompare((fired + [t])[i], p'[k]) <= 0
    {
      if k != t.id { assert k in p && p'[k] == p[k]; }
    }
    assert t.id in DueIds(c, now) - ids;
  }

  lemma TimersChange(c: map<int, Timer>, t: Timer)
    requires TimersOk(c)
    ensures t.interval.sec >= 0 && t.interval.usec >= 0 ==> TimersOk(c[t.id := t])
    ensures TimersOk(c - {t.id})
  {
  }

  class TimerHeap {
    const heap: Heap<Timer>

    ghost function C(): map<int, Timer>
      reads heap, heap.slots, heap.keyTable
      requires heap.Valid()
    {
      Contents(heap.S())
    }

    ghost predicate Valid()
      reads heap, heap.slots, heap.keyTable
    {
      heap.Valid() && heap.cmp == TimerCompare && Ordered(heap.cmp, heap.S()) && TimersOk(C())
    }

    constructor ()
      ensures Valid() && heap.Full() && C() == map[] && fresh(heap) && fresh(heap.slots) && fresh(heap.keyTable)
    {
      TimerOrder();
      heap := new Heap<Timer>(TimerCompare);
    }

    method AddTimer(expire: Time, every: Time) returns (id: int)
      requires Valid() && heap.Sound() && heap.Room() && every.sec >= 0 && every.usec >= 0
      modifies heap, heap.slots, heap.keyTable
      ensures Valid() && heap.Sound() && (old(heap.Full()) ==> heap.Full()) && id !in old(C())
      ensures C() == old(C())[id := Timer(id, expire, every)] && heap.Counts() == After(old(heap.Counts()), Put)
      ensures (heap.slots == old(heap.slots) || fresh(heap.slots))
              && (heap.keyTable == old(heap.keyTable) || fresh(heap.keyTable))
    {
      ghost var c := C();
      TimerOrder();
      id := heap.Insert(Timer(-1, expire, every));
      TimersChange(c, Timer(id, expire, every));
      heap.SetDatum(id, Timer(id, expire, every));
      assert C() == c[id := Timer(id, expire, every)];
    }

    // The new timer's id, which nobody had. No interval means once.
    method Register(now: Time, delay: Time, interval: Option<Time>) returns (id: int)
      requires Valid() && heap.Sound() && heap.Room()
               && (interval.Some? ==> interval.value.sec >= 0 && interval.value.usec >= 0)
      modifies heap, heap.slots, heap.keyTable
      ensures Valid() && heap.Sound() && (old(heap.Full()) ==> heap.Full()) && id !in old(C())
      ensures C() == old(C())[id := Timer(id, Carry(Time(now.sec + delay.sec, now.usec + delay.usec)),
                                          if interval.Some? then interval.value else Time(0, 0))]
      ensures Moment(C()[id].expire) == Moment(now) + Moment(delay)
      ensures heap.Counts() == After(old(heap.Counts()), Put)
      ensures now.usec >= 0 && delay.usec >= 0 && old(AllNearly(C())) ==> AllNearly(C())
      ensures (heap.slots == old(heap.slots) || fresh(heap.slots))
              && (heap.keyTable == old(heap.keyTable) || fresh(heap.keyTable))
    {
      var every := if interval.Some? then interval.value else Time(0, 0);
      var expire := AddTimes(now, delay);
      CarryMoment(Time(now.sec + delay.sec, now.usec + delay.usec));
      id := AddTimer(expire, every);
      if now.usec >= 0 && delay.usec >= 0 {
        CarryKeeps(Time(now.sec + delay.sec, now.usec + delay.usec));
      }
    }

    // So far the timers with these ids have fired.
    ghost predicate Polling(fired: seq<Timer>, ids: set<int>, c: map<int, Timer>, now: Time, call: Timer -> int)
      reads heap, heap.slots, heap.keyTable
    {
      && Valid() && TimersOk(c) && C() == Progress(c, ids, now, call)
      && FiredOk(fired, ids, c, now) && FiredFirst(fired, C())
    }

    // One round of the poll: the timer in front fires if it is due.
    method FireFront(now: Time, call: Timer -> int,
                     ghost fired: seq<Timer>, ghost ids: set<int>, ghost c: map<int, Timer>)
      returns (top: Option<Timer>)
      requires Polling(fired, ids, c, now, call)
      modifies heap`size, heap.slots, heap.keyTable
      ensures (old(heap.Sound()) ==> heap.Sound()) && heap.Counts().taken == old(heap.Counts().taken)
      ensures top.None? ==> Polling(fired, ids, c, now, call) && DueIds(C(), now) == {}
      ensures top.Some? ==>
                && Polling(fired + [top.value], ids + {top.value.id}, c, now, call)
                && DueIds(c, now) - (ids + {top.value.id}) < DueIds(c, now) - ids
    {
      top := heap.Top();
      if top.None? {
        return;
      }
      FrontIsFront(heap.S());
      if Compare(top.value.expire, now) < 0 {
        FireStep(c, ids, fired, now, call, top.value);
        Fire(top.value, now, call);
      } else {
        top := None;
      }
    }

    // All timers that are due fire, in the order of their times and each once;
    // those that repeat are set anew, the others are gone, and none is due. No id is
    // given back, not even those of the timers that are gone. Times
    // are compared field by field; where they are normal that is by moments.
    method Poll(now: Time, call: Timer -> int) returns (fired: seq<Timer>)
      requires Valid()
      modifies heap`size, heap.slots, heap.keyTable
      ensures Valid() && (old(heap.Sound()) ==> heap.Sound()) && heap.Counts().taken == old(heap.Counts().taken)
      ensures FiredOk(fired, DueIds(old(C()), now), old(C()), now)
      ensures C() == Progress(old(C()), DueIds(old(C()), now), now, call) && LeftByPoll(old(C()), C(), now, call)
      ensures DueIds(C(), now) == {}
      ensures old(AllNearly(C())) && Normal(now) ==> AllNearly(C()) && FiredByMoment(fired, old(C()), C(), now)
    {
      fired := [];
      ghost var c, ids: set<int> := C(), {};
      assert Progress(c, {}, now, call) == c;
      var top := FireFront(now, call, fired, ids, c);
      while top.Some?
        invariant (old(heap.Sound()) ==> heap.Sound()) && heap.Counts().taken == old(heap.Counts().taken)
        invariant if top.Some?
                  then Polling(fired + [top.value], ids + {top.value.id}, c, now, call)
                       && DueIds(c, now) - (ids + {top.value.id}) < DueIds(c, now) - ids
                  else Polling(fired, ids, c, now, call) && DueIds(C(), now) == {}
        decreases DueIds(c, now) - ids
      {
        fired, ids := fired + [top.value], ids + {top.value.id};
        top := FireFront(now, call, fired, ids, c);
      }
      AllFired(c, ids, now, call);
      ProgressLeaves(c, now, call);
      if AllNearly(c) && Normal(now) { PollByMoment(fired, c, now, call); }
    }

    // The timer in front is set anew.
    method Rearm(top: Timer, now: Time)
      requires Valid() && Front(C(), top) && heap.keyTable[top.id] == 0
      requires top.interval.sec >= 0 && top.interval.usec >= 0
      modifies heap.slots, heap.keyTable
      ensures (old(heap.Sound()) ==> heap.Sound()) && Valid() && C() == old(C())[top.id := Rearmed(top, now)]
      ensures heap.Counts().taken == old(heap.Counts().taken)
    {
      TimersChange(C(), Rearmed(top, now));
      var expire := AddTimes(now, top.interval);
      heap.Update(top.id, top.(expire := expire));
    }

    // The timer in front fires.
    method Fire(top: Timer, now: Time, call: Timer -> int)
      requires Valid() && Front(C(), top) && heap.size > 0 && heap.slots[0].data == Some(top)
               && heap.keyTable[top.id] == 0
      modifies heap`size, heap.slots, heap.keyTable
      ensures (old(heap.Sound()) ==> heap.Sound()) && heap.Counts().taken == old(heap.Counts().taken) && Valid()
              && C() == if Repeats(top, call(top)) then old(C())[top.id := Rearmed(top, now)] else old(C()) - {top.id}
    {
      var ret := call(top);
      ghost var c := C();
      TimersChange(c, top);
      assert c[top.id] == top;
      if ret >= 0 && (top.interval.sec > 0 || top.interval.usec > 0) {
        Rearm(top, now);
      } else {
        var gone := heap.Pop();
      }
    }
  }
}
