/** What a client has learned: the trusted times and the licences it adopted, in order. */
module History {
  import opened JsonTokenizer
  import opened License

  /** A trusted time, or the adoption of a licence with the time and status of its evaluation. */
  datatype Event = Trusted(t: int) | Adopted(token: Text, lic: License, at: int, status: Status)

  function Max(a: int, b: int): int {
    if a >= b then a else b
  }

  /** The times an event vouches for. */
  function Stamp(time: int, floor: int): int {
    if time != TIME_NONE && time > floor then time else floor
  }

  /** The floor after one more event. */
  function Raise(floor: int, e: Event): int {
    if e.Trusted? then Max(floor, e.t) else Stamp(e.lic.updated, Stamp(e.lic.created, floor))
  }

  /** The floor after the events: the highest trusted time or server stamp, and 0. */
  function Floor(events: seq<Event>): int {
    if |events| == 0 then 0 else Raise(Floor(events[..|events| - 1]), events[|events| - 1])
  }

  lemma FloorSnoc(events: seq<Event>, e: Event)
    ensures Floor(events + [e]) == Raise(Floor(events), e)
  {
    assert (events + [e])[..|events|] == events;
  }

  /** t is one of the times the events vouch for. */
  ghost predicate Source(events: seq<Event>, t: int, i: nat) {
    && i < |events|
    && (if events[i].Trusted? then t == events[i].t
        else t != TIME_NONE && (t == events[i].lic.created || t == events[i].lic.updated))
  }

  /** The floor is the maximum of 0 and all trusted times and adopted server stamps. */
  lemma {:induction false} FloorIsMax(events: seq<Event>)
    ensures Floor(events) >= 0
    ensures forall t, i :: Source(events, t, i) ==> t <= Floor(events)
    ensures Floor(events) == 0 || exists i :: Source(events, Floor(events), i)
  {
    if |events| > 0 {
      var n := |events| - 1;
      var rest := events[..n];
      FloorIsMax(rest);
      forall t, i: nat | Source(events, t, i)
        ensures t <= Floor(events)
      {
        if i < n {
          assert Source(rest, t, i);
        }
      }
      if Floor(events) == Floor(rest) && Floor(rest) != 0 {
        var i :| Source(rest, Floor(rest), i);
        assert Source(events, Floor(events), i);
      } else if Floor(events) != Floor(rest) {
        assert Source(events, Floor(events), n);
      }
    }
  }

  lemma {:induction false} FloorRises(events: seq<Event>, i: nat, j: nat)
    requires i <= j <= |events|
    ensures Floor(events[..i]) <= Floor(events[..j])
    decreases j - i
  {
    if i < j {
      FloorRises(events, i, j - 1);
      assert events[..j] == events[..j - 1] + [events[j - 1]];
      FloorSnoc(events[..j - 1], events[j - 1]);
    }
  }

  /** Event i, if an adoption, was of a licence the policy accepts, evaluated no earlier than the floor it led to. */
  ghost predicate HonestAt(policy: Policy, events: seq<Event>, i: nat)
    requires i < |events|
  {
    events[i].Adopted? ==>
      && CheckMachine(policy, events[i].token) == Accepted(events[i].lic)
      && events[i].at >= Floor(events[..i + 1])
      && events[i].status == StatusAt(events[i].lic, events[i].at)
  }

  ghost predicate Honest(policy: Policy, events: seq<Event>) {
    forall i :: 0 <= i < |events| ==> HonestAt(policy, events, i)
  }

  lemma HonestSnoc(policy: Policy, events: seq<Event>, e: Event)
    requires Honest(policy, events) && HonestAt(policy, events + [e], |events|)
    ensures Honest(policy, events + [e])
  {
    var all := events + [e];
    hide CheckMachine, Floor, StatusAt;
    forall i | 0 <= i < |all|
      ensures HonestAt(policy, all, i)
    {
      if i < |events| {
        assert HonestAt(policy, events, i);
        assert all[..i + 1] == events[..i + 1];
      }
    }
  }

  /** Event i is an adoption at `now`, or at the floor it led to where that lies above. */
  ghost predicate AdoptedAt(events: seq<Event>, i: nat, now: int)
    requires i < |events|
  {
    events[i].Adopted? && events[i].at == Max(now, Floor(events[..i + 1]))
  }

  ghost predicate AllAdoptedAt(events: seq<Event>, from: nat, now: int) {
    forall i :: from <= i < |events| ==> AdoptedAt(events, i, now)
  }

  lemma NoneAdopted(events: seq<Event>, now: int)
    ensures AllAdoptedAt(events, |events|, now)
  {}

  /** One more adoption, at a time that at most earlier adoptions have raised. */
  lemma AdoptedSnoc(events: seq<Event>, from: nat, now: int, e: Event, current: int)
    requires from <= |events| && AllAdoptedAt(events, from, now) && now <= current <= Max(now, Floor(events))
    requires e.Adopted? && e.at == Max(current, Floor(events + [e]))
    ensures AllAdoptedAt(events + [e], from, now)
  {
    var all := events + [e];
    hide Floor;
    FloorRises(all, |events|, |all|);
    assert all[..|events|] == events && all[..|all|] == all;
    forall i | from <= i < |all|
      ensures AdoptedAt(all, i, now)
    {
      if i < |events| {
        assert AdoptedAt(events, i, now);
        assert all[..i + 1] == events[..i + 1];
      }
    }
  }

  lemma AdoptedMore(before: seq<Event>, events: seq<Event>, from: nat, now: int, current: int)
    requires from <= |before| && before <= events && AllAdoptedAt(before, from, now) && AllAdoptedAt(events, |before|, current)
    requires now <= current <= Max(now, Floor(before))
    ensures AllAdoptedAt(events, from, now) && Floor(before) <= Floor(events)
  {
    hide Floor;
    assert events[..|before|] == before && events[..|events|] == events;
    FloorRises(events, |before|, |events|);
    forall i | from <= i < |events|
      ensures AdoptedAt(events, i, now)
    {
      if i < |before| {
        assert AdoptedAt(before, i, now);
        assert events[..i + 1] == before[..i + 1];
      } else {
        assert AdoptedAt(events, i, current);
        assert events[..|before|] == before;
        FloorRises(events, |before|, i + 1);
      }
    }
  }

  /** The licence of the last adoption. */
  function LastAdopted(events: seq<Event>): (e: Event)
    ensures e.Adopted? ==> e in events
  {
    if |events| == 0 then Trusted(0)
    else if events[|events| - 1].Adopted? then events[|events| - 1]
    else LastAdopted(events[..|events| - 1])
  }

  lemma LastSnoc(events: seq<Event>, e: Event)
    ensures LastAdopted(events + [e]) == if e.Adopted? then e else LastAdopted(events)
  {
    assert (events + [e])[..|events|] == events;
  }

  lemma HonestEvent(policy: Policy, events: seq<Event>, i: nat)
    requires Honest(policy, events) && i < |events| && events[i].Adopted?
    ensures events[i].at >= Floor(events[..i + 1]) && events[i].status == StatusAt(events[i].lic, events[i].at)
  {
    hide Floor, CheckMachine, StatusAt;
    assert HonestAt(policy, events, i);
  }

  /** Once the floor has reached a licence's expiry, every later adoption of it is Expired. */
  lemma ExpiredForever(policy: Policy, events: seq<Event>, j: nat, i: nat)
    requires Honest(policy, events) && j <= i < |events| && events[i].Adopted?
    requires events[i].lic.expires != TIME_NONE && Floor(events[..j]) >= events[i].lic.expires
    ensures events[i].status == Expired
  {
    hide Floor, CheckMachine;
    FloorRises(events, j, i + 1);
    HonestEvent(policy, events, i);
  }

  /** A usable status was only ever given before every trusted time and server stamp reached the licence's expiry. */
  lemma UsableBeforeExpiry(policy: Policy, events: seq<Event>, i: nat, t: int, k: nat)
    requires Honest(policy, events) && i < |events| && events[i].Adopted? && Usable(events[i].status)
    requires Source(events[..i + 1], t, k) && events[i].lic.expires != TIME_NONE
    ensures t < events[i].lic.expires
  {
    hide Floor, CheckMachine;
    FloorIsMax(events[..i + 1]);
    HonestEvent(policy, events, i);
  }
}
