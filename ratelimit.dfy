/** The login rate limiter of main.c: a fixed table of at most 1000 client
    addresses, each with the start of its current one-minute window and the
    number of attempts made in it. The clock is the parameter `now`. */
module RateLimit {
  import opened Common

  const WindowSecs: int := 60
  const MaxAttempts: int := 5
  const MaxIps: nat := 1000
  /** The address field holds 63 characters and a terminator. */
  const IpChars: nat := 63

  datatype Entry = Entry(ip: string, windowStart: int, attempts: int)

  /** The verdict of one check and the entry it leaves behind. */
  datatype Outcome = Outcome(allowed: bool, entry: Entry)

  /** One check against the address's entry: a window that has run its full
      minute restarts with this attempt; otherwise the attempt is refused once
      the window holds `MaxAttempts`, and counted if not. */
  function Charge(e: Entry, now: int): (r: Outcome)
    ensures r.entry.ip == e.ip
    ensures r.allowed <==> now - e.windowStart >= WindowSecs || e.attempts < MaxAttempts
    ensures !r.allowed ==> r.entry == e
    ensures now - e.windowStart >= WindowSecs ==> r.entry == Entry(e.ip, now, 1)
    ensures now - e.windowStart < WindowSecs && r.allowed ==>
      r.entry == e.(attempts := e.attempts + 1)
  {
    if now - e.windowStart >= WindowSecs then Outcome(true, Entry(e.ip, now, 1))
    else if e.attempts >= MaxAttempts then Outcome(false, e)
    else Outcome(true, e.(attempts := e.attempts + 1))
  }

  /** A stored entry: a truncated address and a count within the limit. */
  predicate EntryOk(e: Entry) {
    |e.ip| <= IpChars && 1 <= e.attempts <= MaxAttempts
  }

  lemma ChargeKeepsOk(e: Entry, now: int)
    requires EntryOk(e)
    ensures EntryOk(Charge(e, now).entry)
  {
  }

  /** The first entry for the address, as the linear scan finds it. */
  function FirstMatch(es: seq<Entry>, ip: string): (r: Option<nat>)
    ensures r.Some? ==> r.value < |es| && es[r.value].ip == ip
    ensures r.Some? ==> forall j :: 0 <= j < r.value ==> es[j].ip != ip
    ensures r.None? ==> forall j :: 0 <= j < |es| ==> es[j].ip != ip
  {
    if es == [] then None
    else if es[0].ip == ip then Some(0)
    else
      var r := FirstMatch(es[1..], ip);
      if r.Some? then Some(r.value + 1) else None
  }

  /** How many of a run of checks at the given times one address is allowed. */
  function AllowedCount(e: Entry, times: seq<int>): (n: nat)
    ensures n <= |times|
    decreases |times|
  {
    if times == [] then 0
    else
      var o := Charge(e, times[0]);
      (if o.allowed then 1 else 0) + AllowedCount(o.entry, times[1..])
  }

  /** Within one window (and at any earlier clock reading) an address gets at
      most `MaxAttempts` attempts in all: those already counted plus those
      still allowed. */
  lemma {:induction false} WindowBound(e: Entry, times: seq<int>)
    requires e.attempts <= MaxAttempts
    requires forall k :: 0 <= k < |times| ==> times[k] < e.windowStart + WindowSecs
    ensures e.attempts + AllowedCount(e, times) <= MaxAttempts
    decreases |times|
  {
    if times != [] {
      var o := Charge(e, times[0]);
      assert forall k :: 0 <= k < |times[1..]| ==> times[1..][k] < o.entry.windowStart + WindowSecs by {
        forall k | 0 <= k < |times[1..]| ensures times[1..][k] < o.entry.windowStart + WindowSecs {
          assert times[1..][k] == times[k + 1];
        }
      }
      WindowBound(o.entry, times[1..]);
    }
  }

  /** Once refused, an address stays refused until its window has run out. */
  lemma {:induction false} RefusedUntilWindowEnds(e: Entry, times: seq<int>)
    requires e.attempts >= MaxAttempts
    requires forall k :: 0 <= k < |times| ==> times[k] < e.windowStart + WindowSecs
    ensures AllowedCount(e, times) == 0
    decreases |times|
  {
    if times != [] {
      assert times[0] < e.windowStart + WindowSecs;
      assert forall k :: 0 <= k < |times[1..]| ==> times[1..][k] < e.windowStart + WindowSecs by {
        forall k | 0 <= k < |times[1..]| ensures times[1..][k] < e.windowStart + WindowSecs {
          assert times[1..][k] == times[k + 1];
        }
      }
      RefusedUntilWindowEnds(e, times[1..]);
    }
  }

  /** The table of `main.c`: `table[..count]` are the addresses seen so far;
      entries are never evicted. */
  class RateLimiter {
    const table: array<Entry>
    var count: nat

    ghost predicate Valid()
      reads this, table
    {
      table.Length == MaxIps && count <= MaxIps && forall i :: 0 <= i < count ==> EntryOk(table[i])
    }

    constructor()
      ensures Valid() && count == 0 && fresh(table)
    {
      table := new Entry[MaxIps](_ => Entry([], 0, 0));
      count := 0;
    }

    /** Checks and counts one attempt from `ip`. A known address is charged
        against its entry; an unknown one gets a fresh entry while there is
        room, and is let through unrecorded once the table is full. */
    method Check(ip: string, now: int) returns (allowed: bool)
      requires Valid()
      modifies this, table
      ensures Valid()
      ensures var m := FirstMatch(old(table[..count]), ip);
        (m.Some? ==>
          var o := Charge(old(table[m.value]), now);
          allowed == o.allowed && count == old(count) && table[..] == old(table[..])[m.value := o.entry]) &&
        (m.None? && old(count) < MaxIps ==>
          allowed && count == old(count) + 1 && table[..] == old(table[..])[old(count) := Entry(Truncate(ip, IpChars), now, 1)]) &&
        (m.None? && old(count) == MaxIps ==>
          allowed && count == old(count) && table[..] == old(table[..]))
    {
      ghost var es := table[..count];
      var i := 0;
      while i < count
        invariant 0 <= i <= count
        invariant forall j :: 0 <= j < i ==> table[j].ip != ip
      {
        if table[i].ip == ip {
          assert FirstMatch(es, ip) == Some(i) by {
            MatchAt(es, ip, i);
          }
          var o := Charge(table[i], now);
          ChargeKeepsOk(table[i], now);
          table[i] := o.entry;
          return o.allowed;
        }
        i := i + 1;
      }
      if count < MaxIps {
        table[count] := Entry(Truncate(ip, IpChars), now, 1);
        count := count + 1;
      }
      return true;
    }
  }

  lemma {:induction false} MatchAt(es: seq<Entry>, ip: string, i: nat)
    requires i < |es| && es[i].ip == ip && forall j :: 0 <= j < i ==> es[j].ip != ip
    ensures FirstMatch(es, ip) == Some(i)
  {
    if i > 0 {
      MatchAt(es[1..], ip, i - 1);
    }
  }
}
