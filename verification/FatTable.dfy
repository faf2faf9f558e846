// The FAT16 table: following a cluster chain, and finding free clusters.
module FatTable {
  import opened Bytes

  type Fat = seq<ushort>

  const END_OF_CHAIN: ushort := 0xFFF8
  const END_OF_CHAIN_ALT: ushort := 0xFFFF
  const BAD_CLUSTER: ushort := 0xFFF7
  const MAX_CLUSTER: ushort := 0xFFF0

  predicate IsEnd(next: ushort) {
    next == END_OF_CHAIN_ALT || next == END_OF_CHAIN
  }

  // ---------------------------------------------------------------- following

  // Why the cluster loop of fsLoadFile stops.
  datatype Stop =
    | EndOfChain   // an end marker was read
    | BadCluster   // 0xFFF7 was read: panic
    | OutOfRange   // the next cluster number is 0 or above 0xFFF0: panic
    | BeyondTable  // a number the range test accepts, but past the table
    | Endless      // not within the given number of reads

  datatype Trail = Trail(clusters: seq<ushort>, stop: Stop)

  // The clusters the loop reads, starting at c, in at most `fuel` rounds.
  function Follow(fat: Fat, c: ushort, fuel: nat): Trail
    decreases fuel
  {
    if fuel == 0 then Trail([], Endless)
    else if c == 0 || c > MAX_CLUSTER then Trail([], OutOfRange)
    else if c >= |fat| then Trail([], BeyondTable)
    else if fat[c] == BAD_CLUSTER then Trail([c], BadCluster)
    else if IsEnd(fat[c]) then Trail([c], EndOfChain)
    else
      var rest := Follow(fat, fat[c], fuel - 1);
      Trail([c] + rest.clusters, rest.stop)
  }

  // A table of n entries has n clusters, so n + 1 rounds decide whether the loop ends.
  function TrailOf(fat: Fat, c: ushort): Trail {
    Follow(fat, c, |fat| + 1)
  }

  // The table links cluster i of w to cluster i + 1.
  ghost predicate LinkedAt(fat: Fat, w: seq<ushort>, i: nat) {
    i + 1 < |w| && w[i] < |fat| && fat[w[i]] == w[i + 1]
  }

  // w is a complete chain: linked cluster by cluster and closed by an end marker.
  ghost predicate IsChain(fat: Fat, w: seq<ushort>) {
    && |w| > 0
    && (forall i :: 0 <= i < |w| ==> 1 <= w[i] <= MAX_CLUSTER && w[i] < |fat|)
    && (forall i :: 0 <= i < |w| - 1 ==> LinkedAt(fat, w, i))
    && IsEnd(fat[w[|w| - 1]])
  }

  lemma {:induction false} FollowChain(fat: Fat, w: seq<ushort>, fuel: nat)
    requires IsChain(fat, w)
    requires |w| <= fuel
    ensures Follow(fat, w[0], fuel) == Trail(w, EndOfChain)
  {
    if |w| == 1 {
      assert w == [w[0]];
    } else {
      var rest := w[1..];
      assert LinkedAt(fat, w, 0);
      forall i | 0 <= i < |rest| - 1
        ensures LinkedAt(fat, rest, i)
      {
        assert LinkedAt(fat, w, i + 1);
      }
      FollowChain(fat, rest, fuel - 1);
      assert w == [w[0]] + rest;
    }
  }

  lemma {:induction false} FollowedIsChain(fat: Fat, c: ushort, fuel: nat)
    requires Follow(fat, c, fuel).stop == EndOfChain
    ensures IsChain(fat, Follow(fat, c, fuel).clusters)
    ensures Follow(fat, c, fuel).clusters[0] == c
    decreases fuel
  {
    if !IsEnd(fat[c]) {
      FollowedIsChain(fat, fat[c], fuel - 1);
      var w := Follow(fat, c, fuel).clusters;
      var rest := Follow(fat, fat[c], fuel - 1).clusters;
      assert forall i :: 1 <= i < |w| ==> w[i] == rest[i - 1];
      forall i | 0 <= i < |w| - 1
        ensures LinkedAt(fat, w, i)
      {
        assert i > 0 ==> LinkedAt(fat, rest, i - 1);
      }
    }
  }

  // Every cluster a trail reads lies in the table.
  lemma {:induction false} FollowInTable(fat: Fat, c: ushort, fuel: nat, i: nat)
    requires i < |Follow(fat, c, fuel).clusters|
    ensures 1 <= Follow(fat, c, fuel).clusters[i] <= MAX_CLUSTER
    ensures Follow(fat, c, fuel).clusters[i] < |fat|
    decreases fuel
  {
    if i > 0 {
      FollowInTable(fat, fat[c], fuel - 1, i - 1);
    }
  }

  // More rounds than the loop needs change nothing.
  lemma {:induction false} FollowMoreFuel(fat: Fat, c: ushort, fuel: nat, more: nat)
    requires Follow(fat, c, fuel).stop != Endless
    requires fuel <= more
    ensures Follow(fat, c, more) == Follow(fat, c, fuel)
    decreases fuel
  {
    if 1 <= c <= MAX_CLUSTER && c < |fat| && fat[c] != BAD_CLUSTER && !IsEnd(fat[c]) {
      FollowMoreFuel(fat, fat[c], fuel - 1, more - 1);
    }
  }

  // The rest of a trail is the trail of its later clusters.
  lemma {:induction false} FollowSuffix(fat: Fat, c: ushort, fuel: nat, i: nat)
    requires i < |Follow(fat, c, fuel).clusters|
    ensures i < fuel
    ensures var t := Follow(fat, c, fuel);
            Follow(fat, t.clusters[i], fuel - i) == Trail(t.clusters[i..], t.stop)
    decreases fuel
  {
    if i > 0 {
      FollowSuffix(fat, fat[c], fuel - 1, i - 1);
      var t := Follow(fat, c, fuel);
      var rest := Follow(fat, fat[c], fuel - 1);
      assert t.clusters[i..] == rest.clusters[i - 1..];
    }
  }

  // A trail that stops never meets a cluster twice: from equal clusters the loop would go on alike.
  lemma TrailIsDistinct(fat: Fat, c: ushort, fuel: nat)
    requires Follow(fat, c, fuel).stop != Endless
    ensures Distinct(Follow(fat, c, fuel).clusters)
  {
    var t := Follow(fat, c, fuel);
    forall i, j | 0 <= i < j < |t.clusters|
      ensures t.clusters[i] != t.clusters[j]
    {
      if t.clusters[i] == t.clusters[j] {
        FollowSuffix(fat, c, fuel, i);
        FollowSuffix(fat, c, fuel, j);
        FollowMoreFuel(fat, t.clusters[j], fuel - j, fuel - i);
      }
    }
  }

  lemma TrailLength(fat: Fat, c: ushort, fuel: nat)
    requires Follow(fat, c, fuel).stop != Endless
    ensures |Follow(fat, c, fuel).clusters| <= |fat|
  {
    var w := Follow(fat, c, fuel).clusters;
    TrailIsDistinct(fat, c, fuel);
    forall i | 0 <= i < |w|
      ensures 0 <= w[i] < |fat|
    {
      FollowInTable(fat, c, fuel, i);
    }
    Pigeonhole(w, |fat|);
  }

  // A trail that stops needs one round more than it reads clusters.
  lemma {:induction false} FollowLessFuel(fat: Fat, c: ushort, fuel: nat, less: nat)
    requires Follow(fat, c, fuel).stop != Endless
    requires less > |Follow(fat, c, fuel).clusters|
    ensures Follow(fat, c, less) == Follow(fat, c, fuel)
    decreases fuel
  {
    if 1 <= c <= MAX_CLUSTER && c < |fat| && fat[c] != BAD_CLUSTER && !IsEnd(fat[c]) {
      FollowLessFuel(fat, fat[c], fuel - 1, less - 1);
    }
  }

  // The cluster loop ends at all if and only if it ends within |fat| + 1 rounds.
  lemma LoopEndsWithinTable(fat: Fat, c: ushort)
    ensures TrailOf(fat, c).stop != Endless <==> exists fuel: nat :: Follow(fat, c, fuel).stop != Endless
  {
    if fuel: nat :| Follow(fat, c, fuel).stop != Endless {
      TrailLength(fat, c, fuel);
      FollowLessFuel(fat, c, fuel, |fat| + 1);
    }
  }

  lemma ChainTrail(fat: Fat, w: seq<ushort>)
    requires IsChain(fat, w)
    ensures TrailOf(fat, w[0]) == Trail(w, EndOfChain)
    ensures Distinct(w)
    ensures |w| <= |fat|
  {
    FollowChain(fat, w, |w|);
    TrailIsDistinct(fat, w[0], |w|);
    TrailLength(fat, w[0], |w|);
    FollowChain(fat, w, |fat| + 1);
  }

  // A chain depends only on its own table entries, and those are never 0.
  lemma ChainFrame(fat: Fat, fat': Fat, w: seq<ushort>)
    requires IsChain(fat, w)
    requires |fat'| == |fat|
    requires forall c :: 0 <= c < |fat| && fat[c] != 0 ==> fat'[c] == fat[c]
    ensures IsChain(fat', w)
    ensures forall i :: 0 <= i < |w| ==> fat[w[i]] != 0
  {
    forall i | 0 <= i < |w|
      ensures fat[w[i]] != 0
    {
      if i < |w| - 1 {
        assert LinkedAt(fat, w, i);
      }
    }
    forall i | 0 <= i < |w| - 1
      ensures LinkedAt(fat', w, i)
    {
      assert LinkedAt(fat, w, i);
    }
  }

  // ---------------------------------------------------------------- free clusters

  // The free clusters of [lo, hi), lowest first.
  function FreeClusters(fat: Fat, lo: nat, hi: nat): seq<ushort>
    requires lo <= hi <= |fat| && hi <= 0x1_0000
    decreases hi
  {
    if lo == hi then []
    else FreeClusters(fat, lo, hi - 1) + (if fat[hi - 1] == 0 then [hi - 1] else [])
  }

  ghost function FreeSet(fat: Fat, lo: nat, hi: nat): set<int>
    requires lo <= hi <= |fat|
  {
    set c | lo <= c < hi && fat[c] == 0
  }

  ghost predicate Ascending(f: seq<ushort>) {
    forall i, j :: 0 <= i < j < |f| ==> f[i] < f[j]
  }

  ghost predicate AllFree(fat: Fat, f: seq<ushort>, lo: nat, hi: nat)
    requires hi <= |fat|
  {
    forall i :: 0 <= i < |f| ==> lo <= f[i] < hi && fat[f[i]] == 0
  }

  lemma AppendFree(fat: Fat, f: seq<ushort>, lo: nat, c: ushort)
    requires lo <= c < |fat| && fat[c] == 0
    requires AllFree(fat, f, lo, c) && Ascending(f)
    ensures AllFree(fat, f + [c], lo, c + 1) && Ascending(f + [c])
  {
  }

  // The list holds exactly the free clusters of the window, in ascending order.
  lemma {:induction false} FreeClustersSound(fat: Fat, lo: nat, hi: nat)
    requires lo <= hi <= |fat| && hi <= 0x1_0000
    ensures AllFree(fat, FreeClusters(fat, lo, hi), lo, hi)
    ensures Ascending(FreeClusters(fat, lo, hi))
    decreases hi
  {
    if lo == hi {
    } else {
      FreeClustersSound(fat, lo, hi - 1);
      if fat[hi - 1] == 0 {
        AppendFree(fat, FreeClusters(fat, lo, hi - 1), lo, hi - 1);
      }
    }
  }

  lemma {:induction false} FreeClustersComplete(fat: Fat, lo: nat, hi: nat)
    requires lo <= hi <= |fat| && hi <= 0x1_0000
    ensures ToSet(FreeClusters(fat, lo, hi)) == FreeSet(fat, lo, hi)
    decreases hi
  {
    if lo == hi {
    } else {
      FreeClustersComplete(fat, lo, hi - 1);
      var front := FreeClusters(fat, lo, hi - 1);
      if fat[hi - 1] == 0 {
        assert FreeSet(fat, lo, hi) == FreeSet(fat, lo, hi - 1) + {hi - 1};
        assert ToSet(front + [hi - 1]) == ToSet(front) + {hi - 1};
      } else {
        assert FreeSet(fat, lo, hi) == FreeSet(fat, lo, hi - 1);
      }
    }
  }

  lemma FreeClustersCount(fat: Fat, lo: nat, hi: nat)
    requires lo <= hi <= |fat| && hi <= 0x1_0000
    ensures |FreeClusters(fat, lo, hi)| == |FreeSet(fat, lo, hi)|
  {
    FreeClustersSound(fat, lo, hi);
    FreeClustersComplete(fat, lo, hi);
    DistinctCardinality(FreeClusters(fat, lo, hi));
  }

  lemma {:induction false} FreeClustersPrefix(fat: Fat, lo: nat, mid: nat, hi: nat)
    requires lo <= mid <= hi <= |fat| && hi <= 0x1_0000
    ensures FreeClusters(fat, lo, mid) <= FreeClusters(fat, lo, hi)
    decreases hi
  {
    if mid == hi {
    } else {
      FreeClustersPrefix(fat, lo, mid, hi - 1);
    }
  }
}
