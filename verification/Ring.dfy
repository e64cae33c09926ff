/** Key placement in GTStore: the hash, the replica ring of the manager and the client's failover along it. */
module Ring {
  import opened Options

  /** A `char` of the key as the compiler's signed type. */
  function SignedChar(c: char): int {
    if c as int < 128 then c as int else c as int - 256
  }

  function AsciiSum(key: string): int {
    if key == "" then 0 else AsciiSum(key[..|key| - 1]) + SignedChar(key[|key| - 1])
  }

  /** ADD-ASCII: the sum is converted to an unsigned 64-bit number before the remainder is taken. */
  function Home(key: string, n: nat): (h: nat)
    requires n > 0
    ensures h < n
  {
    (AsciiSum(key) % 0x1_0000_0000_0000_0000) % n
  }

  /** A sum the code's `int` can hold, and that stays the same when it is converted to an unsigned number. */
  predicate PlainSum(key: string) {
    0 <= AsciiSum(key) < 0x8000_0000
  }

  /** The hash through the characters: the empty key is at node 0, and each further character moves the node by its
      value around the ring. */
  lemma HomeMoves(key: string, c: char, n: nat)
    requires n > 0
    ensures Home("", n) == 0
    ensures PlainSum(key) && PlainSum(key + [c]) ==> Home(key + [c], n) == (Home(key, n) + SignedChar(c)) % n
  {
    assert (key + [c])[..|key|] == key;
    if PlainSum(key) && PlainSum(key + [c]) {
      SmallRemainder(AsciiSum(key), 0x1_0000_0000_0000_0000);
      SmallRemainder(AsciiSum(key + [c]), 0x1_0000_0000_0000_0000);
      AddRemainder(AsciiSum(key), SignedChar(c), n);
    }
    SmallRemainder(0, n);
  }

  lemma SmallRemainder(a: nat, n: nat)
    requires a < n
    ensures a % n == a
  {}

  lemma AddRemainder(a: nat, d: int, n: nat)
    requires n > 0
    ensures (a + d) % n == (a % n + d) % n
  {
    var q, p := a / n, (a % n + d) / n;
    assert a + d == (q + p) * n + (a % n + d) % n by {
      assert (q + p) * n == q * n + p * n;
    }
    UniqueRemainder(a + d, q + p, (a % n + d) % n, n);
  }

  lemma UniqueRemainder(x: int, q: int, t: nat, n: int)
    requires n > 0 && x == q * n + t && t < n
    ensures x % n == t
  {
    var e, r := x / n - q, x % n;
    assert x == (q + e) * n + r;
    ByDistribution(q, e, n);
    MultipleIsFar(e, n);
  }

  lemma ByDistribution(q: int, e: int, n: int)
    ensures (q + e) * n == q * n + e * n
  {}

  lemma MultipleIsFar(e: int, n: int)
    requires n > 0
    ensures e >= 1 ==> e * n >= n
    ensures e <= -1 ==> e * n <= -n
  {}

  method HashKey(key: string, n: nat) returns (nodeId: nat)
    requires n > 0
    ensures nodeId == Home(key, n)
  {
    var sum := 0;
    for i := 0 to |key|
      invariant sum == AsciiSum(key[..i])
    {
      assert key[..i + 1][..i] == key[..i];
      sum := sum + SignedChar(key[i]);
    }
    assert key[..|key|] == key;
    nodeId := (sum % 0x1_0000_0000_0000_0000) % n;
  }

  /** The node after `i` on a ring of `n`. */
  function Succ(i: nat, n: nat): (j: nat)
    requires i < n
    ensures j < n
  {
    if i + 1 == n then 0 else i + 1
  }

  /** How many steps lead from `a` to `b`. */
  function Dist(a: nat, b: nat, n: nat): (d: nat)
    requires a < n && b < n
    ensures d < n
  {
    if b >= a then b - a else b + n - a
  }

  /** The first live node among `r` nodes from `p` on: what the replica assignment makes responsible. */
  function FirstLive(p: nat, r: nat, n: nat, alive: set<nat>): (f: Option<nat>)
    requires p < n
    ensures f.Some? ==> f.value < n && f.value in alive
    decreases r
  {
    if r == 0 then None
    else if p in alive then Some(p)
    else FirstLive(Succ(p, n), r - 1, n, alive)
  }

  /** For a window no larger than the ring: it is the live node of the window at the least distance. */
  lemma {:induction false} FirstLiveIsNearest(p: nat, r: nat, n: nat, alive: set<nat>, i: nat)
    requires p < n && r <= n && i < n
    ensures match FirstLive(p, r, n, alive)
            case None => i in alive ==> Dist(p, i, n) >= r
            case Some(f) => Dist(p, f, n) < r && (i in alive ==> Dist(p, f, n) <= Dist(p, i, n))
    decreases r
  {
    if r > 0 && p !in alive {
      FirstLiveIsNearest(Succ(p, n), r - 1, n, alive, i);
    }
  }

  lemma {:induction false} LargerWindow(p: nat, r: nat, s: nat, n: nat, alive: set<nat>)
    requires p < n && r <= s && FirstLive(p, r, n, alive).Some?
    ensures FirstLive(p, s, n, alive) == FirstLive(p, r, n, alive)
    decreases r
  {
    if p !in alive {
      LargerWindow(Succ(p, n), r - 1, s - 1, n, alive);
    }
  }

  /** When the first live node `x` of a window fails, the next one is the first live node behind `x`. */
  lemma {:induction false} NextInLine(p: nat, r: nat, n: nat, alive: set<nat>, x: nat)
    requires p < n && FirstLive(p, r, n, alive) == Some(x)
    ensures FirstLive(p, r, n, alive - {x}).Some? ==>
              FirstLive(Succ(x, n), r - 1, n, alive - {x}) == FirstLive(p, r, n, alive - {x})
    decreases r
  {
    if p !in alive {
      NextInLine(Succ(p, n), r - 1, n, alive, x);
      if FirstLive(p, r, n, alive - {x}).Some? {
        LargerWindow(Succ(x, n), r - 2, r - 1, n, alive - {x});
      }
    }
  }

  /** Failures of other nodes do not change the first live node. */
  lemma {:induction false} FirstLiveStays(p: nat, r: nat, n: nat, alive: set<nat>, x: nat)
    requires p < n && FirstLive(p, r, n, alive) != Some(x)
    ensures FirstLive(p, r, n, alive - {x}) == FirstLive(p, r, n, alive)
    decreases r
  {
    if r > 0 && p !in alive {
      FirstLiveStays(Succ(p, n), r - 1, n, alive, x);
    }
  }

  /** The dead-node skip and the connection loop shared by `get` and `put`.  The skip looks the current node up in the
      list of known dead nodes but stops after the first hit; the connection loop then tries the rest of the window. */
  method Route(home: nat, r: nat, n: nat, deadNodeIds: seq<nat>, alive: set<nat>)
    returns (target: Option<nat>, deadNodes: seq<nat>)
    requires home < n
    requires forall d | d in deadNodeIds :: d !in alive
    ensures target == FirstLive(home, r, n, alive)
    ensures forall d | d in deadNodes :: d < n && d !in alive
  {
    var nodeId: nat, replicas: nat, isDead := home, r, false;
    deadNodes := [];
    while !isDead && replicas > 0
      invariant nodeId < n
      invariant FirstLive(nodeId, replicas, n, alive) == FirstLive(home, r, n, alive)
      decreases if isDead then 0 else 1
    {
      for i := 0 to |deadNodeIds|
        invariant !isDead && nodeId < n && replicas > 0
        invariant FirstLive(nodeId, replicas, n, alive) == FirstLive(home, r, n, alive)
      {
        if deadNodeIds[i] == nodeId {
          nodeId := Succ(nodeId, n);
          isDead := true;
          replicas := replicas - 1;
          break;
        }
      }
      if !isDead {
        break;
      }
    }
    if replicas == 0 {
      return None, deadNodes;
    }
    var attempts := 0;
    while attempts < replicas
      invariant nodeId < n && attempts <= replicas
      invariant FirstLive(nodeId, replicas - attempts, n, alive) == FirstLive(home, r, n, alive)
      invariant forall d | d in deadNodes :: d < n && d !in alive
    {
      if nodeId in alive {
        return Some(nodeId), deadNodes;
      }
      deadNodes := deadNodes + [nodeId];
      nodeId := Succ(nodeId, n);
      attempts := attempts + 1;
    }
    target := None;
  }

  /** `send_node_replica_node_fds`: the nodes that node `i` forwards its puts to.  As long as there are no more replicas
      than nodes, these are the other nodes of its window, each once. */
  method ReplicaRing(i: nat, r: nat, n: nat) returns (replicas: seq<nat>)
    requires i < n && 1 <= r
    ensures |replicas| == r - 1
    ensures forall k | 0 <= k < r - 1 :: replicas[k] == (n + i + (k + 1)) % n
    ensures r <= n ==> forall x | 0 <= x < n :: x in replicas <==> 1 <= Dist(i, x, n) < r
    ensures r <= n ==> forall j, k | 0 <= j < k < |replicas| :: replicas[j] != replicas[k]
  {
    replicas := [];
    var j := 1;
    while j <= r - 1
      invariant 1 <= j <= r && |replicas| == j - 1
      invariant forall k | 0 <= k < j - 1 :: replicas[k] == (n + i + (k + 1)) % n
    {
      replicas := replicas + [(n + i + j) % n];
      j := j + 1;
    }
    if r <= n {
      forall k | 0 <= k < r - 1 ensures replicas[k] < n && Dist(i, replicas[k], n) == k + 1 {
        Around(i, k + 1, n);
      }
      forall x | 0 <= x < n && 1 <= Dist(i, x, n) < r ensures x in replicas {
        Around(i, Dist(i, x, n), n);
        assert replicas[Dist(i, x, n) - 1] == x;
      }
    }
  }

  /** The `j`-th node on the replica list of node `i`. */
  function ReplicaAt(i: nat, j: nat, n: nat): nat
    requires n > 0
  {
    (n + i + j) % n
  }

  /** Node `x` is on the replica list of node `i`. */
  ghost predicate IsReplica(i: nat, r: nat, n: nat, x: nat)
    requires n > 0
  {
    exists j: nat :: 1 <= j < r && ReplicaAt(i, j, n) == x
  }

  /** The list holds the following nodes on the ring. */
  lemma ReplicaIff(i: nat, r: nat, n: nat, x: nat)
    requires i < n && x < n && r <= n
    ensures IsReplica(i, r, n, x) <==> 1 <= Dist(i, x, n) < r
  {
    if IsReplica(i, r, n, x) {
      var j: nat :| 1 <= j < r && ReplicaAt(i, j, n) == x;
      Around(i, j, n);
    }
    if 1 <= Dist(i, x, n) < r {
      Around(i, Dist(i, x, n), n);
      assert ReplicaAt(i, Dist(i, x, n), n) == x;
    }
  }

  lemma Around(i: nat, j: nat, n: nat)
    requires i < n && j < n
    ensures (n + i + j) % n == if i + j < n then i + j else i + j - n
  {
    var k := if i + j < n then i + j else i + j - n;
    var q := if i + j < n then 1 else 2;
    assert n + i + j == q * n + k;
    UniqueRemainder(n + i + j, q, k, n);
  }
}
