/** The configuration shared by all connections and its reloads (src/main.rs). */
module Reloads {
  import opened ByteStrings
  import opened Configs

  /** What reading the configuration file again gives the monitor loop. */
  datatype Attempt = LoadFailed | Loads(config: Config, fipsPasses: bool)

  /** A new configuration takes effect only if its environment check passes and
      it listens where the daemon listens. */
  function Reloaded(active: Config, attempt: Attempt): Config {
    if attempt.Loads? && attempt.fipsPasses && attempt.config.listen == active.listen
    then attempt.config else active
  }

  function ReloadedAll(active: Config, attempts: seq<Attempt>): Config
    decreases |attempts|
  {
    if attempts == [] then active else ReloadedAll(Reloaded(active, attempts[0]), attempts[1..])
  }

  class Active {
    var config: Config

    constructor (initial: Config)
      ensures config == initial
    {
      config := initial;
    }

    /** One round of the monitor loop after a reload was requested. */
    method TryReload(attempt: Attempt)
      modifies this
      ensures config == Reloaded(old(config), attempt)
    {
      match attempt
      case LoadFailed =>
      case Loads(loaded, fipsPasses) =>
        var oldListen := config.listen;
        if !fipsPasses {
          return;
        }
        if oldListen != loaded.listen {
          return;
        }
        config := loaded;
    }

    method TryReloads(attempts: seq<Attempt>)
      modifies this
      ensures config == ReloadedAll(old(config), attempts)
    {
      for i := 0 to |attempts|
        invariant ReloadedAll(config, attempts[i..]) == ReloadedAll(old(config), attempts)
      {
        assert attempts[i..][1..] == attempts[i + 1..];
        TryReload(attempts[i]);
      }
    }
  }

  /** Whatever is reloaded, the listener stays, and what is active is the start
      configuration or one that was loaded and passed its checks. */
  lemma {:induction false} ReloadsKeepListen(active: Config, attempts: seq<Attempt>)
    ensures var now := ReloadedAll(active, attempts);
            && now.listen == active.listen
            && (now == active || Loads(now, true) in attempts)
    decreases |attempts|
  {
    if attempts != [] {
      ReloadsKeepListen(Reloaded(active, attempts[0]), attempts[1..]);
      assert forall a :: a in attempts[1..] ==> a in attempts;
    }
  }

  predicate Acceptable(listen: Bytes, attempt: Attempt) {
    attempt.Loads? && attempt.fipsPasses && attempt.config.listen == listen
  }

  /** `k` is the last reload that a daemon listening at `listen` accepts. */
  predicate LastAccepted(listen: Bytes, attempts: seq<Attempt>, k: nat) {
    && k < |attempts| && Acceptable(listen, attempts[k])
    && forall j :: k < j < |attempts| ==> !Acceptable(listen, attempts[j])
  }

  /** Rejected reloads leave no trace: without an acceptable one nothing changes,
      and otherwise the last acceptable one is active, whatever came after it. */
  lemma {:induction false} LastAcceptedIsActive(active: Config, attempts: seq<Attempt>, k: nat)
    ensures (forall i :: 0 <= i < |attempts| ==> !Acceptable(active.listen, attempts[i])) ==>
              ReloadedAll(active, attempts) == active
    ensures LastAccepted(active.listen, attempts, k) ==> ReloadedAll(active, attempts) == attempts[k].config
    decreases |attempts|
  {
    if attempts != [] {
      var next, rest := Reloaded(active, attempts[0]), attempts[1..];
      assert forall i :: 0 <= i < |rest| ==> rest[i] == attempts[i + 1];
      LastAcceptedIsActive(next, rest, if k > 0 then k - 1 else 0);
    }
  }
}
