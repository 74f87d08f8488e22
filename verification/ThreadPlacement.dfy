/**
 Choosing CPUs for threads: pass after pass over all cores, first threads before siblings, and
 round again when every CPU has been used; a pass that would not fit is left unpinned.
 */
module ThreadPlacement {
  import opened Options
  import opened Alignment

  /** A physical core is the list of its virtual cores' CPU ids; a socket is a list of cores. */
  type Core = seq<nat>
  type Socket = seq<Core>

  const NO_AFFINITY: nat := 0xFFFF_FFFF_FFFF_FFFF

  function Cores(sockets: seq<Socket>): seq<Core> {
    if sockets == [] then [] else sockets[0] + Cores(sockets[1..])
  }

  /** The virtual cores with index `k`, over all cores in order. */
  function Pass(cores: seq<Core>, k: nat): seq<nat> {
    if cores == [] then []
    else (if k < |cores[0]| then [cores[0][k]] else []) + Pass(cores[1..], k)
  }

  /** The largest number of virtual cores on one core. */
  function Depth(cores: seq<Core>): nat {
    if cores == [] then 0
    else
      var rest := Depth(cores[1..]);
      if |cores[0]| > rest then |cores[0]| else rest
  }

  lemma {:induction false} PassNonEmpty(cores: seq<Core>, k: nat)
    ensures Pass(cores, k) != [] <==> k < Depth(cores)
    decreases |cores|
  {
    if cores != [] {
      PassNonEmpty(cores[1..], k);
    }
  }

  /** The first `m` passes, going round the indices below the depth. */
  function Passes(cores: seq<Core>, m: nat): seq<nat>
    requires m > 0 ==> Depth(cores) > 0
  {
    if m == 0 then [] else Passes(cores, m - 1) + Pass(cores, (m - 1) % Depth(cores))
  }

  function Unpinned(n: nat): (r: seq<nat>)
    ensures |r| == n
  {
    seq(n, _ => NO_AFFINITY)
  }

  /** Whole passes as long as they fit, then fewer unpinned threads than the next pass has CPUs. */
  ghost predicate WholePasses(cores: seq<Core>, numThreads: nat, m: nat, ids: seq<nat>) {
    && (m > 0 ==> Depth(cores) > 0)
    && |Passes(cores, m)| <= numThreads
    && ids == Passes(cores, m) + Unpinned(numThreads - |Passes(cores, m)|)
    && (|Passes(cores, m)| < numThreads ==>
          Depth(cores) > 0 && numThreads - |Passes(cores, m)| < |Pass(cores, m % Depth(cores))|)
  }

  /** What placement returns: a part of the first pass if that is enough, otherwise whole passes. */
  ghost predicate IsPlacement(cores: seq<Core>, numThreads: nat, ids: seq<nat>) {
    if numThreads <= |Pass(cores, 0)| then ids == Pass(cores, 0)[..numThreads]
    else exists m: nat :: WholePasses(cores, numThreads, m, ids)
  }

  // ----- the inner loops -----

  /** One pass over the sockets, stopped at `cap` CPUs. */
  method CollectPass(sockets: seq<Socket>, k: nat, cap: nat) returns (pass: seq<nat>)
    ensures pass == Capped(Pass(Cores(sockets), k), cap)
  {
    hide Pass, Cores;
    pass := [];
    NoCores(k);
    for s := 0 to |sockets|
      invariant pass == Capped(Pass(Cores(sockets[..s]), k), cap)
    {
      ghost var before := Cores(sockets[..s]);
      assert sockets[..s + 1] == sockets[..s] + [sockets[s]];
      CoresAppend(sockets[..s], sockets[s]);
      var cores := sockets[s];
      assert before + cores[..0] == before;
      for c := 0 to |cores|
        invariant pass == Capped(Pass(before + cores[..c], k), cap)
      {
        assert before + cores[..c + 1] == (before + cores[..c]) + [cores[c]];
        PassAppend(before + cores[..c], cores[c], k);
        if k < |cores[c]| && |pass| < cap {
          pass := pass + [cores[c][k]];
        }
      }
      assert cores[..|cores|] == cores;
    }
    assert sockets[..|sockets|] == sockets;
  }

  lemma NoCores(k: nat)
    ensures Cores([]) == [] && Pass([], k) == []
  {
  }

  function Capped(s: seq<nat>, cap: nat): seq<nat> { if |s| <= cap then s else s[..cap] }

  lemma {:induction false} CoresAppend(sockets: seq<Socket>, s: Socket)
    ensures Cores(sockets + [s]) == Cores(sockets) + s
    decreases |sockets|
  {
    if sockets == [] {
      assert sockets + [s] == [s] && [s][1..] == [];
    } else {
      assert (sockets + [s])[1..] == sockets[1..] + [s];
      CoresAppend(sockets[1..], s);
    }
  }

  /** What one core adds to a pass. */
  function PassOf(c: Core, k: nat): seq<nat> { if k < |c| then [c[k]] else [] }

  lemma PassCons(c: Core, cores: seq<Core>, k: nat)
    ensures Pass([c] + cores, k) == PassOf(c, k) + Pass(cores, k)
  {
    assert ([c] + cores)[1..] == cores && ([c] + cores)[0] == c;
  }

  lemma {:induction false} PassAppend(cores: seq<Core>, c: Core, k: nat)
    ensures Pass(cores + [c], k) == Pass(cores, k) + if k < |c| then [c[k]] else []
    decreases |cores|
  {
    hide Pass;
    if cores == [] {
      NoCores(k);
      PassCons(c, [], k);
      assert cores + [c] == [c] + [] && PassOf(c, k) + [] == [] + PassOf(c, k);
    } else {
      var first, rest := cores[0], cores[1..];
      PassAppend(rest, c, k);
      PassCons(first, rest, k);
      PassCons(first, rest + [c], k);
      assert cores == [first] + rest && cores + [c] == [first] + (rest + [c]);
    }
  }

  /** The placement loop.  It needs a CPU to place on, unless there is nothing to place. */
  method GetPreferredCpuIDs(sockets: seq<Socket>, numThreads: nat) returns (cpuIDs: seq<nat>)
    requires numThreads == 0 || Depth(Cores(sockets)) > 0
    ensures |cpuIDs| == numThreads && IsPlacement(Cores(sockets), numThreads, cpuIDs)
  {
    hide Pass, Cores, Depth;
    ghost var cores := Cores(sockets);
    ghost var depth := Depth(cores);
    ghost var m, part := 0, false;
    cpuIDs := [];
    var index := 0;
    while true
      invariant numThreads == 0 || depth > 0
      invariant (m > 0 ==> depth > 0) && (m == 0 <==> cpuIDs == []) && !part
      invariant cpuIDs == Passes(cores, m) && (m > 0 ==> |Pass(cores, 0)| <= |cpuIDs| < numThreads)
      invariant depth > 0 ==> index <= depth && m % depth == (if index == depth then 0 else index)
      invariant depth == 0 ==> index == 0 && m == 0
      decreases numThreads - |cpuIDs|, if index == depth then 1 else 0
    {
      var currentPass := CollectPass(sockets, index, numThreads);
      PassNonEmpty(cores, index);
      if |currentPass| == 0 {
        index := 0;
      } else if |currentPass| + |cpuIDs| <= numThreads {
        part := |Pass(cores, index)| > numThreads;
        assert part ==> cpuIDs + currentPass == Pass(cores, 0)[..numThreads];
        cpuIDs := cpuIDs + currentPass;
        NextIndex(m, depth, index);
        index, m := index + 1, m + 1;
      } else {
        assert WholePasses(cores, numThreads, m, cpuIDs + Unpinned(numThreads - |cpuIDs|));
        cpuIDs := cpuIDs + Unpinned(numThreads - |cpuIDs|);
        return;
      }
      if |cpuIDs| == numThreads {
        assert cpuIDs + Unpinned(0) == cpuIDs;
        assert !part ==> WholePasses(cores, numThreads, m, cpuIDs);
        return;
      }
    }
  }

  lemma NextIndex(m: nat, depth: nat, index: nat)
    requires depth > 0 && index < depth && m % depth == index
    ensures (m + 1) % depth == if index + 1 == depth then 0 else index + 1
  {
    var q, r := DivMod(m, depth);
    if index + 1 == depth {
      assert depth * (q + 1) == depth * q + depth;
      DivModUnique(m + 1, depth, q + 1, 0);
    } else {
      DivModUnique(m + 1, depth, q, index + 1);
    }
  }

  // ----- without a CPU the loop goes nowhere -----

  /** One turn of the placement loop on its state; `None` when it returns. */
  function Turn(cores: seq<Core>, numThreads: nat, index: nat, ids: seq<nat>): Option<(nat, seq<nat>)> {
    var pass := Capped(Pass(cores, index), numThreads);
    var next :=
      if |pass| == 0 then (0, ids)
      else if |pass| + |ids| <= numThreads then (index + 1, ids + pass)
      else (index, ids + Unpinned(if |ids| <= numThreads then numThreads - |ids| else 0));
    if |next.1| == numThreads then None else Some(next)
  }

  /** With threads to place and no virtual core anywhere, a turn from the start leads back to the start. */
  lemma NoCpuNeverEnds(cores: seq<Core>, numThreads: nat)
    requires numThreads > 0 && Depth(cores) == 0
    ensures Turn(cores, numThreads, 0, []) == Some((0, []))
  {
    PassNonEmpty(cores, 0);
  }

  // ----- fairness -----

  /** No CPU id is listed twice. */
  predicate DistinctIds(cores: seq<Core>) {
    forall i, k, i', k' ::
      (&& 0 <= i < |cores| && 0 <= k < |cores[i]| && 0 <= i' < |cores| && 0 <= k' < |cores[i']|
       && cores[i][k] == cores[i'][k'])
      ==> i == i' && k == k'
  }

  function Count(s: seq<nat>, x: nat): nat {
    if s == [] then 0 else (if s[|s| - 1] == x then 1 else 0) + Count(s[..|s| - 1], x)
  }

  lemma {:induction false} CountAppend(a: seq<nat>, b: seq<nat>, x: nat)
    ensures Count(a + b, x) == Count(a, x) + Count(b, x)
    decreases |b|
  {
    if b == [] {
      assert a + b == a;
    } else {
      assert (a + b)[..|a + b| - 1] == a + b[..|b| - 1];
      CountAppend(a, b[..|b| - 1], x);
    }
  }

  /** Where an id of a pass comes from. */
  lemma {:induction false} PassMember(cores: seq<Core>, k: nat, x: nat) returns (i: nat)
    requires x in Pass(cores, k)
    ensures i < |cores| && k < |cores[i]| && cores[i][k] == x
    decreases |cores|
  {
    if k < |cores[0]| && cores[0][k] == x {
      i := 0;
    } else {
      i := PassMember(cores[1..], k, x);
      i := i + 1;
    }
  }

  lemma {:induction false} CountAbsent(s: seq<nat>, x: nat)
    requires x !in s
    ensures Count(s, x) == 0
    decreases |s|
  {
    if s != [] {
      CountAbsent(s[..|s| - 1], x);
    }
  }

  /** A CPU is in exactly the pass of its own index, once. */
  lemma {:induction false} PassCount(cores: seq<Core>, k: nat, i: nat, l: nat)
    requires DistinctIds(cores) && i < |cores| && l < |cores[i]|
    ensures Count(Pass(cores, k), cores[i][l]) == if k == l then 1 else 0
    decreases |cores|
  {
    var x, tail := cores[i][l], cores[1..];
    var head := if k < |cores[0]| then [cores[0][k]] else [];
    CountAppend(head, Pass(tail, k), x);
    CountOfHead(head, x);
    assert forall j :: 0 <= j < |tail| ==> tail[j] == cores[j + 1];
    if i == 0 {
      if x in Pass(tail, k) {
        var j := PassMember(tail, k, x);
      } else {
        CountAbsent(Pass(tail, k), x);
      }
    } else {
      assert DistinctIds(tail);
      PassCount(tail, k, i - 1, l);
    }
  }

  lemma CountOfHead(head: seq<nat>, x: nat)
    requires |head| <= 1
    ensures Count(head, x) == if head == [x] then 1 else 0
  {
    if |head| == 1 {
      assert head[..0] == [];
    }
  }

  /** After `m` passes a CPU of index `l` has been used once for every full round, and once more if its pass came. */
  lemma {:induction false} PassesCount(cores: seq<Core>, m: nat, i: nat, l: nat)
    requires DistinctIds(cores) && i < |cores| && l < |cores[i]| && Depth(cores) > 0
    ensures Count(Passes(cores, m), cores[i][l]) == m / Depth(cores) + if l < m % Depth(cores) then 1 else 0
    decreases m
  {
    hide Pass, Depth, DistinctIds, Count;
    var d, x := Depth(cores), cores[i][l];
    IndexBelowDepth(cores, i, l);
    if m == 0 {
      DivModUnique(0, d, 0, 0);
      CountAbsent([], x);
    } else {
      var k := (m - 1) % d;
      PassesCount(cores, m - 1, i, l);
      CountAppend(Passes(cores, m - 1), Pass(cores, k), x);
      PassCount(cores, k, i, l);
      NextRound(m - 1, d);
      assert (m - 1) + 1 == m;
    }
  }

  lemma NextRound(m: nat, d: nat)
    requires d > 0
    ensures var k := m % d;
            if k + 1 == d then (m + 1) / d == m / d + 1 && (m + 1) % d == 0
            else (m + 1) / d == m / d && (m + 1) % d == k + 1
  {
    var q, k := DivMod(m, d);
    if k + 1 == d {
      assert d * (q + 1) == d * q + d;
      DivModUnique(m + 1, d, q + 1, 0);
    } else {
      DivModUnique(m + 1, d, q, k + 1);
    }
  }

  lemma {:induction false} IndexBelowDepth(cores: seq<Core>, i: nat, l: nat)
    requires i < |cores| && l < |cores[i]|
    ensures l < Depth(cores)
    decreases |cores|
  {
    if i > 0 {
      IndexBelowDepth(cores[1..], i - 1, l);
    }
  }

  lemma {:induction false} CountPrefix(s: seq<nat>, n: nat, x: nat)
    requires n <= |s|
    ensures Count(s[..n], x) <= Count(s, x)
  {
    CountAppend(s[..n], s[n..], x);
    assert s[..n] + s[n..] == s;
  }

  /** Any two CPUs are used equally often, give or take one, however many threads are placed. */
  lemma PlacementIsFair(cores: seq<Core>, numThreads: nat, ids: seq<nat>, i: nat, l: nat, i': nat, l': nat)
    requires DistinctIds(cores) && IsPlacement(cores, numThreads, ids)
    requires i < |cores| && l < |cores[i]| && i' < |cores| && l' < |cores[i']|
    requires cores[i][l] != NO_AFFINITY && cores[i'][l'] != NO_AFFINITY
    ensures Count(ids, cores[i][l]) <= Count(ids, cores[i'][l']) + 1
  {
    var x, y := cores[i][l], cores[i'][l'];
    IndexBelowDepth(cores, i, l);
    if numThreads <= |Pass(cores, 0)| {
      PassCount(cores, 0, i, l);
      hide Pass, DistinctIds, Depth;
      CountPrefix(Pass(cores, 0), numThreads, x);
    } else {
      var m: nat :| WholePasses(cores, numThreads, m, ids);
      var pinned := Passes(cores, m);
      hide Pass, DistinctIds, Depth, Passes;
      PassesCount(cores, m, i, l);
      PassesCount(cores, m, i', l');
      var rest := Unpinned(numThreads - |pinned|);
      CountAppend(pinned, rest, x);
      CountAppend(pinned, rest, y);
      CountAbsent(rest, x);
      CountAbsent(rest, y);
    }
  }

  // ----- siblings wait -----

  lemma {:induction false} PassesPrefix(cores: seq<Core>, m: nat, n: nat)
    requires m <= n && (n > 0 ==> Depth(cores) > 0)
    ensures Passes(cores, m) <= Passes(cores, n)
    decreases n
  {
    hide Pass, Depth;
    if m < n {
      PassesPrefix(cores, m, n - 1);
    }
  }

  lemma {:induction false} CountPresent(s: seq<nat>, x: nat)
    requires Count(s, x) > 0
    ensures x in s
    decreases |s|
  {
    if s[|s| - 1] != x {
      CountPresent(s[..|s| - 1], x);
    }
  }

  lemma {:induction false} PresentCount(s: seq<nat>, x: nat)
    requires x in s
    ensures Count(s, x) > 0
    decreases |s|
  {
    if s[|s| - 1] != x {
      assert x in s[..|s| - 1];
      PresentCount(s[..|s| - 1], x);
    }
  }

  lemma SiblingsWaitInPasses(cores: seq<Core>, m: nat, n: nat, i: nat, l: nat, j: nat, l': nat)
    requires DistinctIds(cores) && Depth(cores) > 0 && n <= |Passes(cores, m)|
    requires i < |cores| && l < |cores[i]| && j < |cores| && l' < |cores[j]| && l' < l
    ensures cores[i][l] in Passes(cores, m)[..n] ==> cores[j][l'] in Passes(cores, m)[..n]
  {
    hide Pass, Depth, DistinctIds, Passes, Count;
    var x, y, d := cores[i][l], cores[j][l'], Depth(cores);
    var used := Passes(cores, m)[..n];
    IndexBelowDepth(cores, i, l);
    DivModUnique(l, d, 0, l);
    PassesCount(cores, l, i, l);
    PassesCount(cores, l, j, l');
    CountPresent(Passes(cores, l), y);
    if x in Passes(cores, l) { PresentCount(Passes(cores, l), x); }
    PassesPrefix(cores, if l <= m then l else m, if l <= m then m else l);
    assert forall k :: 0 <= k < n ==> used[k] == Passes(cores, m)[k];
    assert used <= Passes(cores, l) || Passes(cores, l) <= used;
  }

  /** Along every placement: by the time a virtual core of index `l` is used, every one of a smaller index has been. */
  lemma SiblingsWait(cores: seq<Core>, numThreads: nat, ids: seq<nat>, n: nat, i: nat, l: nat, j: nat, l': nat)
    requires DistinctIds(cores) && IsPlacement(cores, numThreads, ids) && n <= |ids|
    requires i < |cores| && l < |cores[i]| && j < |cores| && l' < |cores[j]| && l' < l
    ensures cores[i][l] != NO_AFFINITY && cores[i][l] in ids[..n] ==> cores[j][l'] in ids[..n]
  {
    var x := cores[i][l];
    if x != NO_AFFINITY && x in ids[..n] {
      if numThreads <= |Pass(cores, 0)| {
        var i' := PassMember(cores, 0, x);
      } else {
        IndexBelowDepth(cores, i, l);
        hide Pass, Depth, DistinctIds;
        var m: nat :| WholePasses(cores, numThreads, m, ids);
        var pinned := Passes(cores, m);
        var n' := if n <= |pinned| then n else |pinned|;
        assert ids[..n] == pinned[..n'] + Unpinned(n - n');
        SiblingsWaitInPasses(cores, m, n', i, l, j, l');
      }
    }
  }

  // ----- there is one placement -----

  /** A whole-pass placement stops at the only number of passes it can. */
  lemma NoEarlierStop(cores: seq<Core>, numThreads: nat, m: nat, m': nat, ids: seq<nat>, ids': seq<nat>)
    requires WholePasses(cores, numThreads, m, ids) && WholePasses(cores, numThreads, m', ids')
    ensures m >= m'
  {
    hide Pass, Depth;
    if m < m' {
      PassNonEmpty(cores, m % Depth(cores));
      PassesPrefix(cores, m + 1, m');
    }
  }

  /** The topology and the number of threads determine the placement. */
  lemma PlacementIsUnique(cores: seq<Core>, numThreads: nat, ids: seq<nat>, ids': seq<nat>)
    requires IsPlacement(cores, numThreads, ids) && IsPlacement(cores, numThreads, ids')
    ensures ids == ids'
  {
    hide WholePasses, Pass;
    if numThreads > |Pass(cores, 0)| {
      var m: nat :| WholePasses(cores, numThreads, m, ids);
      var m': nat :| WholePasses(cores, numThreads, m', ids');
      NoEarlierStop(cores, numThreads, m, m', ids, ids');
      NoEarlierStop(cores, numThreads, m', m, ids', ids);
      SamePasses(cores, numThreads, m, ids, ids');
    }
  }

  lemma SamePasses(cores: seq<Core>, numThreads: nat, m: nat, ids: seq<nat>, ids': seq<nat>)
    requires WholePasses(cores, numThreads, m, ids) && WholePasses(cores, numThreads, m, ids')
    ensures ids == ids'
  {
  }

  // ----- how many CPUs the passes take -----

  /** All CPUs. */
  function CpuCount(cores: seq<Core>): nat {
    if cores == [] then 0 else |cores[0]| + CpuCount(cores[1..])
  }

  /** The CPUs with an index below `k`. */
  function UpTo(cores: seq<Core>, k: nat): nat {
    if cores == [] then 0 else (if k <= |cores[0]| then k else |cores[0]|) + UpTo(cores[1..], k)
  }

  lemma {:induction false} PassLength(cores: seq<Core>, k: nat)
    ensures UpTo(cores, k + 1) == UpTo(cores, k) + |Pass(cores, k)|
    ensures UpTo(cores, 0) == 0 && UpTo(cores, k) <= CpuCount(cores)
    ensures k >= Depth(cores) ==> UpTo(cores, k) == CpuCount(cores)
    decreases |cores|
  {
    if cores != [] {
      PassLength(cores[1..], k);
    }
  }

  /** Below the depth not all CPUs have come up. */
  lemma NotAllYet(cores: seq<Core>, k: nat)
    requires k < Depth(cores)
    ensures UpTo(cores, k) < CpuCount(cores)
  {
    hide *;
    PassNonEmpty(cores, k);
    PassLength(cores, k);
    PassLength(cores, k + 1);
  }

  /** Whole rounds of all CPUs, and then those of the indices that have come up again. */
  lemma {:induction false} PassesLength(cores: seq<Core>, m: nat)
    requires Depth(cores) > 0
    ensures |Passes(cores, m)| == CpuCount(cores) * (m / Depth(cores)) + UpTo(cores, m % Depth(cores))
    decreases m
  {
    hide Pass, Depth, CpuCount, UpTo;
    var d, c := Depth(cores), CpuCount(cores);
    if m == 0 {
      DivModUnique(0, d, 0, 0);
      PassLength(cores, 0);
    } else {
      var k, q := (m - 1) % d, (m - 1) / d;
      PassesLength(cores, m - 1);
      NextRound(m - 1, d);
      PassLength(cores, k);
      PassLength(cores, 0);
      PassLength(cores, k + 1);
      assert c * (q + 1) == c * q + c;
    }
  }

  /** A number of threads that placement can pin: at most one for each core, or rounds of all CPUs and a few passes. */
  predicate Even(cores: seq<Core>, numThreads: nat) {
    numThreads <= |Pass(cores, 0)| || RoundsAndPasses(cores, numThreads)
  }

  predicate RoundsAndPasses(cores: seq<Core>, numThreads: nat) {
    CpuCount(cores) > 0 && exists k :: 0 <= k < Depth(cores) && numThreads % CpuCount(cores) == UpTo(cores, k)
  }

  lemma EvenIsWholePasses(cores: seq<Core>, numThreads: nat)
    requires Depth(cores) > 0
    ensures RoundsAndPasses(cores, numThreads) <==> exists m: nat :: |Passes(cores, m)| == numThreads
  {
    hide Pass, Depth, CpuCount, UpTo, Passes;
    var d, c := Depth(cores), CpuCount(cores);
    NotAllYet(cores, 0);
    if k: nat :| k < d && numThreads % c == UpTo(cores, k) {
      var q, r := DivMod(numThreads, c);
      var m := d * q + k;
      assert d * q >= 0;
      DivModUnique(m, d, q, k);
      PassesLength(cores, m);
    }
    if m: nat :| |Passes(cores, m)| == numThreads {
      var q, k := DivMod(m, d);
      PassesLength(cores, m);
      NotAllYet(cores, k);
      DivModUnique(numThreads, c, q, UpTo(cores, k));
    }
  }

  /**
   Every thread is pinned exactly for such a number.  The declaration promises repeated CPU ids for
   any number of threads above the number of CPUs; the code leaves an incomplete pass unpinned.
   */
  lemma AllPinnedIff(cores: seq<Core>, numThreads: nat, ids: seq<nat>)
    requires IsPlacement(cores, numThreads, ids)
    requires forall i, k :: 0 <= i < |cores| && 0 <= k < |cores[i]| ==> cores[i][k] != NO_AFFINITY
    ensures NO_AFFINITY !in ids <==> Even(cores, numThreads)
  {
    hide Pass, Depth, CpuCount, UpTo, RoundsAndPasses;
    if numThreads <= |Pass(cores, 0)| {
      if NO_AFFINITY in ids {
        var i := PassMember(cores, 0, NO_AFFINITY);
      }
    } else {
      var m: nat :| WholePasses(cores, numThreads, m, ids);
      var pinned := Passes(cores, m);
      EvenIsWholePasses(cores, numThreads);
      if |pinned| < numThreads {
        assert ids[|pinned|] == NO_AFFINITY;
        if m': nat :| |Passes(cores, m')| == numThreads {
          assert WholePasses(cores, numThreads, m', Passes(cores, m') + Unpinned(0));
          NoEarlierStop(cores, numThreads, m, m', ids, Passes(cores, m') + Unpinned(0));
          NoEarlierStop(cores, numThreads, m', m, Passes(cores, m') + Unpinned(0), ids);
        }
      } else {
        assert exists m': nat :: |Passes(cores, m')| == numThreads by { assert |Passes(cores, m)| == numThreads; }
        if NO_AFFINITY in ids {
          var i, k := PassesMember(cores, m, NO_AFFINITY);
        }
      }
    }
  }

  // ----- when ids are repeated -----

  ghost predicate Repeats(ids: seq<nat>) { exists x: nat :: x != NO_AFFINITY && Count(ids, x) >= 2 }

  /** Placement goes on past one round exactly when the first pass of the next one fits. */
  lemma SecondRoundIff(cores: seq<Core>, numThreads: nat, m: nat, ids: seq<nat>)
    requires Depth(cores) > 0 && WholePasses(cores, numThreads, m, ids)
    ensures m > Depth(cores) <==> numThreads >= CpuCount(cores) + |Pass(cores, 0)|
  {
    hide Pass, Depth, CpuCount, UpTo;
    var d := Depth(cores);
    DivModUnique(d, d, 1, 0);
    PassesLength(cores, d);
    PassLength(cores, 0);
    assert CpuCount(cores) * 1 == CpuCount(cores);
    assert |Passes(cores, d + 1)| == CpuCount(cores) + |Pass(cores, 0)|;
    if m > d {
      PassesPrefix(cores, d + 1, m);
    } else {
      PassNonEmpty(cores, m % d);
      PassesPrefix(cores, m + 1, d + 1);
    }
  }

  lemma RoundsCount(m: nat, d: nat, l: nat)
    requires d > 0 && l < d
    ensures m > d && l == 0 ==> m / d + (if l < m % d then 1 else 0) >= 2
    ensures m <= d ==> m / d + (if l < m % d then 1 else 0) <= 1
  {
    var q, r := DivMod(m, d);
    if m == d {
      DivModUnique(m, d, 1, 0);
    } else if m < d {
      DivModUnique(m, d, 0, m);
    } else if q < 1 {
      StepUp(d, q, 1);
    }
  }

  /** Some CPU is used twice if and only if a whole round and one more first pass fit. */
  lemma RepeatsIff(cores: seq<Core>, numThreads: nat, ids: seq<nat>)
    requires DistinctIds(cores) && Depth(cores) > 0 && IsPlacement(cores, numThreads, ids)
    requires forall i, k :: 0 <= i < |cores| && 0 <= k < |cores[i]| ==> cores[i][k] != NO_AFFINITY
    ensures Repeats(ids) <==> numThreads >= CpuCount(cores) + |Pass(cores, 0)|
  {
    PassNonEmpty(cores, 0);
    NotAllYet(cores, 0);
    if numThreads <= |Pass(cores, 0)| {
      if x: nat :| x != NO_AFFINITY && Count(ids, x) >= 2 {
        CountPresent(ids, x);
        var i := PassMember(cores, 0, x);
        PassCount(cores, 0, i, 0);
        CountPrefix(Pass(cores, 0), numThreads, x);
      }
    } else {
      var m: nat :| WholePasses(cores, numThreads, m, ids);
      SecondRoundIff(cores, numThreads, m, ids);
      hide Pass, Depth, CpuCount, UpTo, DistinctIds;
      if m > Depth(cores) {
        var i := PassMember(cores, 0, Pass(cores, 0)[0]);
        CountInPlacement(cores, numThreads, m, ids, i, 0);
      } else if x: nat :| x != NO_AFFINITY && Count(ids, x) >= 2 {
        CountPresent(ids, x);
        var i, k := PassesMember(cores, m, x);
        CountInPlacement(cores, numThreads, m, ids, i, k);
      }
    }
  }

  lemma CountInPlacement(cores: seq<Core>, numThreads: nat, m: nat, ids: seq<nat>, i: nat, l: nat)
    requires DistinctIds(cores) && Depth(cores) > 0 && WholePasses(cores, numThreads, m, ids)
    requires i < |cores| && l < |cores[i]| && cores[i][l] != NO_AFFINITY
    ensures m > Depth(cores) && l == 0 ==> Count(ids, cores[i][l]) >= 2
    ensures m <= Depth(cores) ==> Count(ids, cores[i][l]) <= 1
  {
    IndexBelowDepth(cores, i, l);
    hide Pass, Depth, DistinctIds;
    var x, pinned := cores[i][l], Passes(cores, m);
    PassesCount(cores, m, i, l);
    RoundsCount(m, Depth(cores), l);
    var rest := Unpinned(numThreads - |pinned|);
    CountAppend(pinned, rest, x);
    CountAbsent(rest, x);
  }

  /** Three threads on two single-threaded cores: the third is not pinned. */
  lemma ThirdThreadIsUnpinned(ids: seq<nat>)
    requires IsPlacement([[0], [1]], 3, ids)
    ensures ids == [0, 1, 0xFFFF_FFFF_FFFF_FFFF]
  {
    var cores: seq<Core> := [[0], [1]];
    assert cores[1..] == [[1]] && [[1]][1..] == [];
    assert Pass(cores, 0) == [0] + Pass([[1]], 0) && Pass([[1]], 0) == [1] + Pass([], 0);
    assert Depth(cores) == 1;
    assert Passes(cores, 1) == Passes(cores, 0) + Pass(cores, 0) == [0, 1];
    assert WholePasses(cores, 3, 1, [0, 1] + Unpinned(1));
    PlacementIsUnique(cores, 3, ids, [0, 1] + Unpinned(1));
  }

  /** Socket after socket, core after core: with two sockets of two cores, siblings come last. */
  lemma SocketsInOrder()
    ensures var sockets: seq<Socket> := [[[0, 4], [1, 5]], [[2, 6], [3, 7]]];
            && Cores(sockets) == [[0, 4], [1, 5], [2, 6], [3, 7]]
            && Pass(Cores(sockets), 0) == [0, 1, 2, 3] && Pass(Cores(sockets), 1) == [4, 5, 6, 7]
  {
    var a: Socket, b: Socket := [[0, 4], [1, 5]], [[2, 6], [3, 7]];
    assert [a, b][1..] == [b] && [b][1..] == [] && Cores([b]) == b + Cores([]) == b;
    var cores: seq<Core> := [[0, 4], [1, 5], [2, 6], [3, 7]];
    assert Cores([a, b]) == a + Cores([b]) == a + b == cores;
    FourCores([0, 4], [1, 5], [2, 6], [3, 7], 0);
    FourCores([0, 4], [1, 5], [2, 6], [3, 7], 1);
  }

  lemma FourCores(a: Core, b: Core, c: Core, d: Core, k: nat)
    requires k < |a| && k < |b| && k < |c| && k < |d|
    ensures Pass([a, b, c, d], k) == [a[k], b[k], c[k], d[k]]
  {
    assert [a, b, c, d][1..] == [b, c, d] && [b, c, d][1..] == [c, d] && [c, d][1..] == [d] && [d][1..] == [];
    assert Pass([d], k) == [d[k]] + Pass([], k) && Pass([c, d], k) == [c[k]] + Pass([d], k);
    assert Pass([b, c, d], k) == [b[k]] + Pass([c, d], k);
  }

  // ----- only listed CPUs -----

  lemma {:induction false} PassesMember(cores: seq<Core>, m: nat, x: nat) returns (i: nat, k: nat)
    requires (m > 0 ==> Depth(cores) > 0) && x in Passes(cores, m)
    ensures i < |cores| && k < |cores[i]| && cores[i][k] == x
    decreases m
  {
    hide Pass, Depth;
    k := (m - 1) % Depth(cores);
    if x in Pass(cores, k) {
      i := PassMember(cores, k, x);
    } else {
      i, k := PassesMember(cores, m - 1, x);
    }
  }

  /** Whatever is not "unpinned" is a CPU of the topology. */
  lemma PinnedCpusAreListed(cores: seq<Core>, numThreads: nat, ids: seq<nat>, x: nat) returns (i: nat, k: nat)
    requires IsPlacement(cores, numThreads, ids) && x in ids && x != NO_AFFINITY
    ensures i < |cores| && k < |cores[i]| && cores[i][k] == x
  {
    if numThreads <= |Pass(cores, 0)| {
      k := 0;
      i := PassMember(cores, 0, x);
    } else {
      var m: nat :| WholePasses(cores, numThreads, m, ids);
      i, k := PassesMember(cores, m, x);
    }
  }
}
