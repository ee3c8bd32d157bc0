/** Which server a file is compiled on (internal/client/daemon.go, internal/client/remote-connection.go):
    the one its name hashes to, or the next one after it that can take the file. */
module Routing {
  const TWO_TO_THE_32 := 0x1_0000_0000

  // ---------------------------------------------------------------- specification

  /** How far the walk has gone when it gets from server `home` to server i. */
  function Distance(n: nat, home: nat, i: nat): nat
    requires home < n && i < n
  {
    if i >= home then i - home else i + n - home
  }

  /** Server i can take the file, and no server is closer behind home. */
  predicate IsChoice(capable: seq<bool>, home: nat, i: nat)
    requires home < |capable|
  {
    && i < |capable| && capable[i]
    && forall j :: 0 <= j < |capable| && capable[j] ==> Distance(|capable|, home, i) <= Distance(|capable|, home, j)
  }

  /** It is what has to be added to home, around the end of the list. */
  lemma DistanceIsSteps(n: nat, home: nat, i: nat)
    requires home < n && i < n
    ensures var d := Distance(n, home, i); d < n && (home + d == i || home + d == i + n)
  {
  }

  lemma DistanceInjective(n: nat, home: nat, i: nat, j: nat)
    requires home < n && i < n && j < n && Distance(n, home, i) == Distance(n, home, j)
    ensures i == j
  {
  }

  lemma ChoiceIsUnique(capable: seq<bool>, home: nat, i: nat, j: nat)
    requires home < |capable| && IsChoice(capable, home, i) && IsChoice(capable, home, j)
    ensures i == j
  {
    DistanceInjective(|capable|, home, i, j);
  }

  /** Servers only lose capabilities: over a run without reconnects. */
  predicate Shrinks(before: seq<bool>, after: seq<bool>) {
    |before| == |after| && forall i :: 0 <= i < |before| && after[i] ==> before[i]
  }

  /** A file leaves its server exactly when that server became unusable for it, and then moves forward only. */
  lemma MovesOnlyIfLost(before: seq<bool>, after: seq<bool>, home: nat, i: nat)
    requires home < |before| && Shrinks(before, after) && IsChoice(before, home, i)
    ensures IsChoice(after, home, i) <==> after[i]
    ensures forall j :: IsChoice(after, home, j) ==> Distance(|before|, home, i) <= Distance(|before|, home, j)
    ensures forall j :: IsChoice(after, home, j) && j != i ==> !after[i]
  {
    forall j | IsChoice(after, home, j) && j != i ensures !after[i] {
      if after[i] { ChoiceIsUnique(after, home, i, j); }
    }
  }

  predicate OnlyShrinks(run: seq<seq<bool>>) {
    forall t :: 0 <= t < |run| - 1 ==> Shrinks(run[t], run[t + 1])
  }

  /** Over a whole run: as long as the server a file was given first stays usable for it, the file stays there,
      whatever happens to the other servers. */
  lemma {:induction false} StaysOverRun(run: seq<seq<bool>>, home: nat, i: nat, t: nat)
    requires t < |run| && OnlyShrinks(run) && home < |run[0]| && IsChoice(run[0], home, i)
    requires |run[t]| == |run[0]| && run[t][i]
    ensures IsChoice(run[t], home, i)
  {
    if t > 0 {
      assert Shrinks(run[t - 1], run[t]);
      StaysOverRun(run, home, i, t - 1);
      MovesOnlyIfLost(run[t - 1], run[t], home, i);
    }
  }

  // ---------------------------------------------------------------- the program

  function CoverageCapabilityName(cxxName: string): string { cxxName + " --coverage" }

  class RemoteConnection {
    const remoteHostPort: string
    const supportsCoverage: bool
    var isUnavailable: bool
    var incapableCxxNames: set<string>

    constructor (remoteHostPort: string, supportsCoverage: bool, connected: bool)
      ensures this.remoteHostPort == remoteHostPort && this.supportsCoverage == supportsCoverage
      ensures isUnavailable == !connected && incapableCxxNames == {}
    {
      this.remoteHostPort, this.supportsCoverage := remoteHostPort, supportsCoverage;
      isUnavailable, incapableCxxNames := !connected, {};
    }

    /** A refusal is never forgotten while the connection lives. */
    method MarkIncapableOfCxx(cxxName: string)
      modifies this`incapableCxxNames
      ensures incapableCxxNames == old(incapableCxxNames) + {cxxName}
      ensures forall name, coverage :: CanCompileWithCxx(name, coverage) <==>
                && old(CanCompileWithCxx(name, coverage)) && name != cxxName
                && (coverage ==> name + " --coverage" != cxxName)
    {
      if cxxName !in incapableCxxNames { incapableCxxNames := incapableCxxNames + {cxxName}; }
    }

    predicate CanCompileWithCxx(cxxName: string, coverage: bool)
      reads this
    {
      && !isUnavailable && cxxName !in incapableCxxNames
      && (coverage ==> supportsCoverage && CoverageCapabilityName(cxxName) !in incapableCxxNames)
    }
  }

  function Capable(remotes: seq<RemoteConnection>, cxxName: string, coverage: bool): (r: seq<bool>)
    reads remotes
    ensures |r| == |remotes|
    ensures forall i :: 0 <= i < |remotes| ==> r[i] == remotes[i].CanCompileWithCxx(cxxName, coverage)
  {
    seq(|remotes|, i requires 0 <= i < |remotes| reads remotes => remotes[i].CanCompileWithCxx(cxxName, coverage))
  }

  class Daemon {
    var remoteConnections: seq<RemoteConnection>

    /** chooseRemoteConnectionForCppCompilation, for a file whose name has this FNV hash; sums are of 32 bits. */
    method ChooseRemoteConnection(hash: nat, cxxName: string, coverage: bool) returns (r: RemoteConnection?)
      requires 0 < |remoteConnections| <= 0x8000_0000
      ensures var capable := Capable(remoteConnections, cxxName, coverage);
              var home := hash % |remoteConnections|;
              if r == null then forall i :: 0 <= i < |capable| ==> !capable[i]
              else exists i :: 0 <= i < |capable| && r == remoteConnections[i] && IsChoice(capable, home, i)
      ensures r != null ==> !r.isUnavailable && cxxName !in r.incapableCxxNames
      ensures r != null && coverage ==> r.supportsCoverage && cxxName + " --coverage" !in r.incapableCxxNames
      ensures r == null ==> forall i :: 0 <= i < |remoteConnections| ==>
                var remote := remoteConnections[i];
                || remote.isUnavailable || cxxName in remote.incapableCxxNames
                || (coverage && (!remote.supportsCoverage || cxxName + " --coverage" in remote.incapableCxxNames))
    {
      var n := |remoteConnections|;
      var home := hash % n;
      for offset := 0 to n
        invariant forall i :: 0 <= i < n && Distance(n, home, i) < offset ==>
                    !remoteConnections[i].CanCompileWithCxx(cxxName, coverage)
      {
        var i := (home + offset) % TWO_TO_THE_32 % n;
        Walk(n, home, offset);
        if remoteConnections[i].CanCompileWithCxx(cxxName, coverage) {
          assert IsChoice(Capable(remoteConnections, cxxName, coverage), home, i);
          return remoteConnections[i];
        }
        forall j | 0 <= j < n && Distance(n, home, j) < offset + 1
          ensures !remoteConnections[j].CanCompileWithCxx(cxxName, coverage)
        {
          if Distance(n, home, j) == offset { DistanceInjective(n, home, i, j); }
        }
      }
      return null;
    }

    /** reconnectUnavailableRemotes: `tooSoon` are the places whose last attempt was under a second ago,
        `answers` those whose server answers, and the ones among them that support coverage. */
    method ReconnectUnavailableRemotes(tooSoon: set<nat>, answers: set<nat>, coverage: set<nat>)
      modifies this`remoteConnections
      ensures |remoteConnections| == |old(remoteConnections)|
      ensures forall i :: 0 <= i < |remoteConnections| ==>
                var before, now := old(remoteConnections[i]), remoteConnections[i];
                && now.remoteHostPort == before.remoteHostPort
                && (if old(remoteConnections[i].isUnavailable) && i !in tooSoon
                    then fresh(now) && now.isUnavailable == (i !in answers) && now.incapableCxxNames == {}
                    else now == before)
    {
      var remotes := remoteConnections;
      var updated := remotes;
      for index := 0 to |remotes|
        invariant |updated| == |remotes|
        invariant forall i :: index <= i < |remotes| ==> updated[i] == remotes[i]
        invariant forall i :: 0 <= i < index ==>
                    && updated[i].remoteHostPort == remotes[i].remoteHostPort
                    && (if old(remotes[i].isUnavailable) && i !in tooSoon
                        then fresh(updated[i]) && updated[i].isUnavailable == (i !in answers)
                             && updated[i].incapableCxxNames == {}
                        else updated[i] == remotes[i])
      {
        var old' := remotes[index];
        if old'.isUnavailable && index !in tooSoon {
          var remote := new RemoteConnection(old'.remoteHostPort, index in coverage, index in answers);
          updated := updated[index := remote];
        }
      }
      remoteConnections := updated;
    }
  }

  /** The walk meets every server, at its distance. */
  lemma Walk(n: nat, home: nat, offset: nat)
    requires 0 < n <= 0x8000_0000 && home < n && offset < n
    ensures var i := (home + offset) % TWO_TO_THE_32 % n; i < n && Distance(n, home, i) == offset
  {
    var sum := home + offset;
    Remainder(sum, TWO_TO_THE_32);
    Remainder(sum, n);
  }

  /** The remainder of a number below twice the divisor. */
  lemma Remainder(a: nat, n: nat)
    requires 0 < n && a < 2 * n
    ensures a % n == if a < n then a else a - n
  {
    var q, r := a / n, a % n;
    assert a == n * q + r && 0 <= r < n;
    if q == 0 {
      assert n * q == 0;
    } else if q == 1 {
      assert n * q == n;
    } else {
      AtLeastTwice(n, q);
    }
  }

  lemma AtLeastTwice(n: int, q: int)
    requires n > 0 && (q < 0 || q >= 2)
    ensures if q < 0 then n * q <= -n else n * q >= 2 * n
  {
  }
}
