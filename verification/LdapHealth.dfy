/** Failover across LDAP servers: three consecutive failures take a server down, two consecutive
    successes bring it back, and servers that are down are tried last. */
module LdapHealth {
  import opened Octets

  const FAILURES_BEFORE_DOWN: nat := 3
  const SUCCESSES_BEFORE_UP: nat := 2

  type Url = string

  datatype Info = Info(down: bool, failures: nat, successes: nat)

  const HEALTHY: Info := Info(false, 0, 0)

  function Record(i: Info, success: bool): Info {
    if success then Info(i.down && i.successes + 1 < SUCCESSES_BEFORE_UP, 0, i.successes + 1)
    else Info(i.down || i.failures + 1 >= FAILURES_BEFORE_DOWN, i.failures + 1, 0)
  }

  /** A server's state after its attempts, `true` for a success. */
  function After(attempts: seq<bool>): Info {
    if attempts == [] then HEALTHY else Record(After(attempts[..|attempts| - 1]), attempts[|attempts| - 1])
  }

  /** `n` attempts from `i` on all went the same way. */
  predicate Streak(attempts: seq<bool>, i: nat, n: nat, success: bool) {
    i + n <= |attempts| && forall k :: i <= k < i + n ==> attempts[k] == success
  }

  predicate Recovers(attempts: seq<bool>, i: nat) {
    exists j :: i <= j <= |attempts| && Streak(attempts, j, SUCCESSES_BEFORE_UP, true)
  }

  predicate Fell(attempts: seq<bool>, i: nat) {
    Streak(attempts, i, FAILURES_BEFORE_DOWN, false) && !Recovers(attempts, i + FAILURES_BEFORE_DOWN)
  }

  /** Three consecutive failures, not followed by two consecutive successes. */
  predicate DownByHistory(attempts: seq<bool>) {
    exists i :: 0 <= i <= |attempts| && Fell(attempts, i)
  }

  /** The counters are the lengths of the streak that ends the history. */
  lemma {:induction false} Counters(attempts: seq<bool>)
    ensures var i := After(attempts);
            && i.failures <= |attempts| && Streak(attempts, |attempts| - i.failures, i.failures, false)
            && i.successes <= |attempts| && Streak(attempts, |attempts| - i.successes, i.successes, true)
            && (attempts != [] ==> if attempts[|attempts| - 1] then i.failures == 0 < i.successes
                else i.successes == 0 < i.failures)
            && (i.failures < |attempts| ==> attempts[|attempts| - 1 - i.failures])
            && (i.successes < |attempts| ==> !attempts[|attempts| - 1 - i.successes])
  {
    if attempts != [] {
      Counters(attempts[..|attempts| - 1]);
    }
  }

  /** A streak that does not reach the last attempt was there before it. */
  lemma StreakBefore(attempts: seq<bool>, i: nat, n: nat, success: bool)
    requires attempts != [] && i + n < |attempts|
    ensures Streak(attempts, i, n, success) <==> Streak(attempts[..|attempts| - 1], i, n, success)
  {
  }

  lemma FailureKeepsFallen(attempts: seq<bool>, i: nat)
    requires attempts != [] && i + FAILURES_BEFORE_DOWN < |attempts| && !attempts[|attempts| - 1]
    ensures Fell(attempts, i) <==> Fell(attempts[..|attempts| - 1], i)
  {
    var before, from := attempts[..|attempts| - 1], i + FAILURES_BEFORE_DOWN;
    StreakBefore(attempts, i, FAILURES_BEFORE_DOWN, false);
    if Recovers(attempts, from) {
      var j :| from <= j <= |attempts| && Streak(attempts, j, SUCCESSES_BEFORE_UP, true);
      assert attempts[j + 1];
      assert Streak(before, j, SUCCESSES_BEFORE_UP, true);
    }
    if Recovers(before, from) {
      var j :| from <= j <= |before| && Streak(before, j, SUCCESSES_BEFORE_UP, true);
      assert Streak(attempts, j, SUCCESSES_BEFORE_UP, true);
    }
  }

  /** A failure: down already, or the third in a row. */
  lemma AfterFailure(attempts: seq<bool>)
    requires attempts != [] && !attempts[|attempts| - 1]
    requires After(attempts[..|attempts| - 1]).down <==> DownByHistory(attempts[..|attempts| - 1])
    ensures After(attempts).down <==> DownByHistory(attempts)
  {
    var before := attempts[..|attempts| - 1];
    Counters(attempts);
    if After(before).down {
      var i :| 0 <= i <= |before| && Fell(before, i);
      FailureKeepsFallen(attempts, i);
    } else if After(attempts).down {
      var i := |attempts| - FAILURES_BEFORE_DOWN;
      assert Streak(attempts, i, FAILURES_BEFORE_DOWN, false);
      assert Fell(attempts, i);
    } else if DownByHistory(attempts) {
      var i :| 0 <= i <= |attempts| && Fell(attempts, i);
      if i + FAILURES_BEFORE_DOWN < |attempts| {
        FailureKeepsFallen(attempts, i);
      } else {
        ThreeFailures(attempts, i);
      }
    }
  }

  lemma ThreeFailures(attempts: seq<bool>, i: nat)
    requires i + FAILURES_BEFORE_DOWN == |attempts| && Streak(attempts, i, FAILURES_BEFORE_DOWN, false)
    ensures After(attempts).failures >= FAILURES_BEFORE_DOWN
  {
    Counters(attempts);
  }

  /** A success: up, unless down before and this is the first in a row. */
  lemma AfterSuccess(attempts: seq<bool>)
    requires attempts != [] && attempts[|attempts| - 1]
    requires After(attempts[..|attempts| - 1]).down <==> DownByHistory(attempts[..|attempts| - 1])
    ensures After(attempts).down <==> DownByHistory(attempts)
  {
    var before, n := attempts[..|attempts| - 1], |attempts|;
    Counters(attempts);
    Counters(before);
    if After(attempts).down {
      var i :| 0 <= i <= |before| && Fell(before, i);
      StreakBefore(attempts, i, FAILURES_BEFORE_DOWN, false);
      forall j | i + FAILURES_BEFORE_DOWN <= j <= n ensures !Streak(attempts, j, SUCCESSES_BEFORE_UP, true) {
        if j + SUCCESSES_BEFORE_UP < n {
          StreakBefore(attempts, j, SUCCESSES_BEFORE_UP, true);
        } else if j + SUCCESSES_BEFORE_UP == n {
          assert !attempts[n - 2];
        }
      }
      assert Fell(attempts, i);
    } else if DownByHistory(attempts) {
      var i :| 0 <= i <= n && Fell(attempts, i);
      assert attempts[i + 2] == false;
      StreakBefore(attempts, i, FAILURES_BEFORE_DOWN, false);
      forall j | i + FAILURES_BEFORE_DOWN <= j <= |before| ensures !Streak(before, j, SUCCESSES_BEFORE_UP, true) {
        if j + SUCCESSES_BEFORE_UP < n {
          StreakBefore(attempts, j, SUCCESSES_BEFORE_UP, true);
        }
      }
      assert Fell(before, i);
    }
  }

  /** A server is down exactly when its history has three consecutive failures not followed by two
      consecutive successes. */
  lemma {:induction false} DownExactly(attempts: seq<bool>)
    ensures After(attempts).down <==> DownByHistory(attempts)
  {
    if attempts == [] {
      forall i | 0 <= i <= |attempts| ensures !Fell(attempts, i) {
      }
    } else {
      DownExactly(attempts[..|attempts| - 1]);
      if attempts[|attempts| - 1] {
        AfterSuccess(attempts);
      } else {
        AfterFailure(attempts);
      }
    }
  }

  // ----- many servers -----

  /** One attempt at one server. */
  datatype Attempt = Attempt(url: Url, success: bool)

  function InfoOf(health: map<Url, Info>, url: Url): Info { if url in health then health[url] else HEALTHY }

  function Pool(urls: seq<Url>): map<Url, Info> { map url | url in urls :: HEALTHY }

  function Recorded(health: map<Url, Info>, a: Attempt): map<Url, Info> {
    health[a.url := Record(InfoOf(health, a.url), a.success)]
  }

  function PoolAfter(urls: seq<Url>, history: seq<Attempt>): map<Url, Info> {
    if history == [] then Pool(urls) else Recorded(PoolAfter(urls, history[..|history| - 1]), history[|history| - 1])
  }

  /** The attempts at one server. */
  function Of(history: seq<Attempt>, url: Url): seq<bool> {
    if history == [] then []
    else
      var last := history[|history| - 1];
      Of(history[..|history| - 1], url) + if last.url == url then [last.success] else []
  }

  /** Servers are tracked apart: each one's state follows from its own attempts. */
  lemma {:induction false} TrackedApart(urls: seq<Url>, history: seq<Attempt>, url: Url)
    ensures InfoOf(PoolAfter(urls, history), url) == After(Of(history, url))
  {
    if history != [] {
      var before, last := history[..|history| - 1], history[|history| - 1];
      TrackedApart(urls, before, url);
      var attempts := Of(before, url);
      if last.url == url {
        assert (attempts + [last.success])[..|attempts|] == attempts;
      } else {
        assert attempts + [] == attempts;
      }
    }
  }

  predicate IsHealthy(health: map<Url, Info>, url: Url) { url in health ==> !health[url].down }

  /** In every run, a server counts as healthy exactly unless its history takes it down. */
  lemma HealthyExactly(urls: seq<Url>, history: seq<Attempt>, url: Url)
    ensures IsHealthy(PoolAfter(urls, history), url) <==> !DownByHistory(Of(history, url))
  {
    TrackedApart(urls, history, url);
    DownExactly(Of(history, url));
  }

  // ----- the order servers are tried in -----

  /** The urls that are healthy (or not), in order. */
  function Only(urls: seq<Url>, health: map<Url, Info>, healthy: bool): seq<Url> {
    if urls == [] then []
    else
      var last := urls[|urls| - 1];
      Only(urls[..|urls| - 1], health, healthy) + if IsHealthy(health, last) == healthy then [last] else []
  }

  lemma {:induction false} OnlyMeaning(urls: seq<Url>, health: map<Url, Info>, healthy: bool)
    ensures var only := Only(urls, health, healthy);
            && (forall i :: 0 <= i < |only| ==> IsHealthy(health, only[i]) == healthy)
            && Only(only, health, healthy) == only && Only(only, health, !healthy) == []
  {
    if urls != [] {
      var before, last := Only(urls[..|urls| - 1], health, healthy), urls[|urls| - 1];
      OnlyMeaning(urls[..|urls| - 1], health, healthy);
      if IsHealthy(health, last) == healthy {
        assert (before + [last])[..|before|] == before;
      } else {
        assert before + [] == before;
      }
    }
  }

  lemma {:induction false} OnlyConcat(a: seq<Url>, b: seq<Url>, health: map<Url, Info>, healthy: bool)
    ensures Only(a + b, health, healthy) == Only(a, health, healthy) + Only(b, health, healthy)
  {
    if b == [] {
      assert a + b == a;
    } else {
      var init, last := b[..|b| - 1], b[|b| - 1];
      assert (a + b)[..|a + b| - 1] == a + init;
      OnlyConcat(a, init, health, healthy);
      Associative(Only(a, health, healthy), Only(init, health, healthy),
                  if IsHealthy(health, last) == healthy then [last] else []);
    }
  }

  lemma PartitionSnoc(up: seq<Url>, down: seq<Url>, last: Url)
    ensures multiset(up + [last] + (down + [])) == multiset(up + down) + multiset{last}
    ensures multiset(up + [] + (down + [last])) == multiset(up + down) + multiset{last}
  {
  }

  lemma {:induction false} OnlyPartitions(urls: seq<Url>, health: map<Url, Info>)
    ensures multiset(Only(urls, health, true) + Only(urls, health, false)) == multiset(urls)
  {
    if urls != [] {
      hide IsHealthy;
      var init, last := urls[..|urls| - 1], urls[|urls| - 1];
      OnlyPartitions(init, health);
      PartitionSnoc(Only(init, health, true), Only(init, health, false), last);
      assert urls == init + [last];
    }
  }

  /** A stable permutation with the healthy servers first. */
  predicate Prioritized(urls: seq<Url>, health: map<Url, Info>, r: seq<Url>) {
    && multiset(r) == multiset(urls)
    && (forall i, j :: 0 <= i < j < |r| && IsHealthy(health, r[j]) ==> IsHealthy(health, r[i]))
    && Only(r, health, true) == Only(urls, health, true)
    && Only(r, health, false) == Only(urls, health, false)
  }

  lemma HealthyFirst(urls: seq<Url>, health: map<Url, Info>)
    ensures Prioritized(urls, health, Only(urls, health, true) + Only(urls, health, false))
  {
    hide Only, IsHealthy;
    var up, down := Only(urls, health, true), Only(urls, health, false);
    OnlyMeaning(urls, health, true);
    OnlyMeaning(urls, health, false);
    OnlyConcat(up, down, health, true);
    OnlyConcat(up, down, health, false);
    OnlyPartitions(urls, health);
  }

  /** `get_server_urls` */
  function ServerUrls(urls: seq<Url>, url: Url): seq<Url> {
    if urls != [] then urls else if url != "" then [url] else []
  }

  /** The list of servers counts if there is one; otherwise the single server, if there is one. */
  lemma ServerUrlsMeaning(urls: seq<Url>, url: Url)
    ensures urls != [] ==> ServerUrls(urls, url) == urls
    ensures |ServerUrls([], url)| == (if url == "" then 0 else 1)
    ensures forall u :: u in ServerUrls([], url) ==> u == url
  {
  }

  class LdapPool {
    const urls: seq<Url>
    const url: Url
    var health: map<Url, Info>

    constructor (urls: seq<Url>, url: Url)
      ensures this.urls == urls && this.url == url && health == Pool(ServerUrls(urls, url))
    {
      this.urls, this.url := urls, url;
      var servers := ServerUrls(urls, url);
      var tracked: map<Url, Info> := map[];
      for i := 0 to |servers|
        invariant tracked == map u | u in servers[..i] :: HEALTHY
      {
        tracked := tracked[servers[i] := HEALTHY];
      }
      assert servers[..|servers|] == servers;
      health := tracked;
    }

    method RecordSuccess(url: Url)
      modifies this
      ensures health == Recorded(old(health), Attempt(url, true))
    {
      var entry := InfoOf(health, url);
      entry := entry.(successes := entry.successes + 1, failures := 0);
      if entry.down && entry.successes >= SUCCESSES_BEFORE_UP {
        entry := entry.(down := false);
      }
      health := health[url := entry];
    }

    method RecordFailure(url: Url)
      modifies this
      ensures health == Recorded(old(health), Attempt(url, false))
    {
      var entry := InfoOf(health, url);
      entry := entry.(failures := entry.failures + 1, successes := 0);
      if !entry.down && entry.failures >= FAILURES_BEFORE_DOWN {
        entry := entry.(down := true);
      }
      health := health[url := entry];
    }

    /** The order in which the servers are tried. */
    method GetPrioritizedServers() returns (r: seq<Url>)
      ensures Prioritized(ServerUrls(urls, url), health, r)
    {
      var all := ServerUrls(urls, url);
      var up, down: seq<Url> := [], [];
      for i := 0 to |all|
        invariant up == Only(all[..i], health, true) && down == Only(all[..i], health, false)
      {
        assert all[..i + 1][..i] == all[..i];
        if IsHealthy(health, all[i]) {
          up := up + [all[i]];
        } else {
          down := down + [all[i]];
        }
      }
      assert all[..|all|] == all;
      HealthyFirst(all, health);
      r := up + down;
    }
  }
}
