/** The expiring capability registry of `src/forge/git_session.rs`, against its event history. */
module GitSession {
  import opened Types

  /** Seconds. */
  const FORGE_PUSH_CAP_TTL: nat := 60 * 60

  datatype Entry = Entry(upstreamUrl: string, token: string, expiresAt: int)

  datatype SessionEvent = Registered(cap: string, entry: Entry) | Revoked(cap: string)

  /** The entry the last event on `cap` left, found by reading the history backwards. */
  function Current(history: seq<SessionEvent>, cap: string): Option<Entry> {
    if history == [] then None
    else
      var last := history[|history| - 1];
      if last.cap != cap then Current(history[..|history| - 1], cap)
      else if last.Registered? then Some(last.entry)
      else None
  }

  function Resolve(history: seq<SessionEvent>, cap: string, now: int): Option<(string, string)> {
    match Current(history, cap)
    case None => None
    case Some(entry) => if entry.expiresAt < now then None else Some((entry.upstreamUrl, entry.token))
  }

  class GitSessions {
    var table: map<string, Entry>
    ghost var history: seq<SessionEvent>

    /** The table is the history, folded. */
    ghost predicate Valid()
      reads this
    {
      forall cap :: Current(history, cap) == if cap in table then Some(table[cap]) else None
    }

    constructor ()
      ensures Valid() && history == []
    {
      table, history := map[], [];
    }

    method Register(cap: string, entry: Entry)
      requires Valid()
      modifies this
      ensures Valid() && history == old(history) + [Registered(cap, entry)]
    {
      table := table[cap := entry];
      history := history + [Registered(cap, entry)];
    }

    method Revoke(cap: string)
      requires Valid()
      modifies this
      ensures Valid() && history == old(history) + [Revoked(cap)]
    {
      table := table - {cap};
      history := history + [Revoked(cap)];
    }

    method Lookup(cap: string, now: int) returns (r: Option<(string, string)>)
      requires Valid()
      ensures r == Resolve(history, cap, now)
    {
      if cap !in table { return None; }
      var entry := table[cap];
      if entry.expiresAt < now { return None; }
      return Some((entry.upstreamUrl, entry.token));
    }
  }

  /** No event in `events` touches `cap`. */
  ghost predicate Untouched(events: seq<SessionEvent>, cap: string) {
    forall e :: e in events ==> e.cap != cap
  }

  lemma {:induction false} LaterEventsOnOtherCaps(history: seq<SessionEvent>, later: seq<SessionEvent>, cap: string)
    requires Untouched(later, cap)
    ensures Current(history + later, cap) == Current(history, cap)
  {
    var all := history + later;
    if later == [] {
      assert all == history;
    } else {
      assert all[|all| - 1] == later[|later| - 1];
      assert all[..|all| - 1] == history + later[..|later| - 1];
      LaterEventsOnOtherCaps(history, later[..|later| - 1], cap);
    }
  }

  lemma CurrentAfter(before: seq<SessionEvent>, e: SessionEvent, later: seq<SessionEvent>, cap: string)
    requires e.cap == cap && Untouched(later, cap)
    ensures Current(before + [e] + later, cap) == if e.Registered? then Some(e.entry) else None
  {
    LaterEventsOnOtherCaps(before + [e], later, cap);
  }

  lemma {:induction false} CurrentHasSource(history: seq<SessionEvent>, cap: string) returns (i: nat)
    requires Current(history, cap).Some?
    ensures i < |history| && history[i] == Registered(cap, Current(history, cap).value)
    ensures Untouched(history[i + 1..], cap)
  {
    var n := |history| - 1;
    if history[n].cap == cap {
      i := n;
    } else {
      i := CurrentHasSource(history[..n], cap);
      assert history[i + 1..] == history[..n][i + 1..] + [history[n]];
    }
  }

  /**
   A cap resolves to a pair at a time exactly when the last event on it registered that pair with
   an expiry not yet past.
   */
  lemma ResolvesExactly(history: seq<SessionEvent>, cap: string, now: int, url: string, token: string)
    ensures Resolve(history, cap, now) == Some((url, token))
            <==> exists i: nat, expiry: int ::
                   i < |history| && history[i] == Registered(cap, Entry(url, token, expiry)) && now <= expiry
                   && Untouched(history[i + 1..], cap)
  {
    if Resolve(history, cap, now) == Some((url, token)) {
      var i := CurrentHasSource(history, cap);
      var expiry := Current(history, cap).value.expiresAt;
      assert history[i] == Registered(cap, Entry(url, token, expiry));
    }
    if i: nat, expiry: int :| i < |history| && history[i] == Registered(cap, Entry(url, token, expiry))
                              && now <= expiry && Untouched(history[i + 1..], cap)
    {
      assert history == history[..i] + [history[i]] + history[i + 1..];
      CurrentAfter(history[..i], history[i], history[i + 1..], cap);
    }
  }

  /** Once absent, a cap stays absent as time passes, until it is registered again. */
  lemma {:induction false} AbsentUntilRegistered(history: seq<SessionEvent>, later: seq<SessionEvent>, cap: string, t1: int, t2: int)
    requires Resolve(history, cap, t1) == None && t1 <= t2
    requires forall e :: e in later && e.Registered? ==> e.cap != cap
    ensures Resolve(history + later, cap, t2) == None
  {
    var all := history + later;
    if later == [] {
      assert all == history;
    } else {
      assert all[|all| - 1] == later[|later| - 1];
      assert all[..|all| - 1] == history + later[..|later| - 1];
      AbsentUntilRegistered(history, later[..|later| - 1], cap, t1, t2);
    }
  }

  /** The events on one cap alone. */
  function Only(history: seq<SessionEvent>, cap: string): seq<SessionEvent> {
    if history == [] then []
    else
      var last := history[|history| - 1];
      Only(history[..|history| - 1], cap) + (if last.cap == cap then [last] else [])
  }

  /** What a cap resolves to depends on its own events only. */
  lemma {:induction false} CapsAreIndependent(h1: seq<SessionEvent>, h2: seq<SessionEvent>, cap: string, now: int)
    requires Only(h1, cap) == Only(h2, cap)
    ensures Resolve(h1, cap, now) == Resolve(h2, cap, now)
  {
    CurrentIsLastOwn(h1, cap);
    CurrentIsLastOwn(h2, cap);
  }

  lemma {:induction false} CurrentIsLastOwn(history: seq<SessionEvent>, cap: string)
    ensures var own := Only(history, cap);
            Current(history, cap)
            == if own != [] && own[|own| - 1].Registered? then Some(own[|own| - 1].entry) else None
  {
    if history != [] { CurrentIsLastOwn(history[..|history| - 1], cap); }
  }
}
