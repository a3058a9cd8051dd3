/** Bancor v2.1 conversion paths. A chain alternates tokens (even positions) and anchors (odd positions);
the two chains that lead a source and a target token to the network token are merged into one. */
module BancorPath {

  datatype Address = Address(hex: string)

  predicate Odd(n: int) {
    n % 2 == 1
  }

  lemma Parity(m: int, n: int)
    ensures Odd(m + n) <==> (Odd(m) != Odd(n))
    ensures Odd(m - n) <==> (Odd(m) != Odd(n))
    ensures !Odd(0) && Odd(1) && !Odd(2)
  {
  }

  /** Two neighbours of a chain, the first of them an anchor or a token: the token belongs to the anchor. */
  predicate Link(belongs: (Address, Address) -> bool, x: Address, y: Address, anchorFirst: bool) {
    if anchorFirst then belongs(y, x) else belongs(x, y)
  }

  predicate Linked(path: seq<Address>, belongs: (Address, Address) -> bool, anchorFirst: bool) {
    forall k :: 0 <= k < |path| - 1 ==> Link(belongs, path[k], path[k + 1], Odd(k) != anchorFirst)
  }

  /** An alternating chain: tokens at both ends, every hop between two tokens of its anchor. */
  predicate Chain(path: seq<Address>, belongs: (Address, Address) -> bool) {
    Odd(|path|) && Linked(path, belongs, false)
  }

  /** No token and no anchor is visited twice. */
  predicate VisitsOnce(path: seq<Address>) {
    forall i, j :: 0 <= i < j < |path| && Odd(i) == Odd(j) ==> path[i] != path[j]
  }

  // ----- joining two chains where they first meet

  function Reversed(s: seq<Address>): (r: seq<Address>)
    ensures |r| == |s|
    ensures forall k :: 0 <= k < |s| ==> r[k] == s[|s| - 1 - k]
  {
    if s == [] then [] else Reversed(s[1..]) + [s[0]]
  }

  /** How far the two chains agree, counted from their ends. */
  function CommonSuffix(s: seq<Address>, t: seq<Address>): (k: nat)
    ensures k <= |s| && k <= |t|
    ensures k < |s| && k < |t| ==> s[|s| - k - 1] != t[|t| - k - 1]
  {
    if s == [] || t == [] || s[|s| - 1] != t[|t| - 1] then 0
    else 1 + CommonSuffix(s[..|s| - 1], t[..|t| - 1])
  }

  lemma {:induction false} SuffixAgrees(s: seq<Address>, t: seq<Address>, k: nat)
    requires k < CommonSuffix(s, t)
    ensures s[|s| - 1 - k] == t[|t| - 1 - k]
  {
    if k > 0 {
      SuffixAgrees(s[..|s| - 1], t[..|t| - 1], k - 1);
    }
  }

  function Joined(s: seq<Address>, t: seq<Address>): (path: seq<Address>)
    requires CommonSuffix(s, t) > 0
  {
    var k := CommonSuffix(s, t);
    s[..|s| - k + 1] + Reversed(t[..|t| - k])
  }

  /** The join runs along the source chain up to the meeting point `i`, then back along the target chain. */
  lemma JoinedAt(s: seq<Address>, t: seq<Address>, m: nat)
    requires CommonSuffix(s, t) > 0
    ensures var i, j, path := |s| - CommonSuffix(s, t), |t| - CommonSuffix(s, t), Joined(s, t);
            |path| == i + j + 1 && (m <= i ==> path[m] == s[m]) && (i <= m < |path| ==> path[m] == t[i + j - m])
  {
    hide CommonSuffix;
    var k := CommonSuffix(s, t);
    SuffixAgrees(s, t, k - 1);
    if |s| - k < m < |Joined(s, t)| {
      var back := t[..|t| - k];
      assert Joined(s, t)[m] == Reversed(back)[m - (|s| - k + 1)];
    }
  }

  lemma LinkBack(belongs: (Address, Address) -> bool, x: Address, y: Address, anchorFirst: bool)
    requires Link(belongs, x, y, anchorFirst)
    ensures Link(belongs, y, x, !anchorFirst)
  {
  }

  lemma JoinedHop(s: seq<Address>, t: seq<Address>, belongs: (Address, Address) -> bool, m: nat)
    requires Linked(s, belongs, false) && Linked(t, belongs, false) && Odd(|s|) && Odd(|t|)
    requires CommonSuffix(s, t) > 0 && m + 1 < |Joined(s, t)|
    ensures Link(belongs, Joined(s, t)[m], Joined(s, t)[m + 1], Odd(m))
  {
    hide Joined, CommonSuffix, Odd, Link, Linked;
    var i, j := |s| - CommonSuffix(s, t), |t| - CommonSuffix(s, t);
    JoinedAt(s, t, m);
    JoinedAt(s, t, m + 1);
    if m < i {
      LinkAt(s, belongs, m);
    } else {
      var n := i + j - m;
      JoinParity(s, t);
      Parity(i + j, m);
      Parity(n, 1);
      LinkAt(t, belongs, n - 1);
      LinkBack(belongs, t[n - 1], t[n], Odd(n - 1));
    }
  }

  lemma JoinParity(s: seq<Address>, t: seq<Address>)
    requires Odd(|s|) && Odd(|t|)
    ensures !Odd(|s| - CommonSuffix(s, t) + (|t| - CommonSuffix(s, t)))
  {
    hide Odd, CommonSuffix;
    var k := CommonSuffix(s, t);
    Parity(|s|, k);
    Parity(|t|, k);
    Parity(|s| - k, |t| - k);
  }

  lemma JoinedIsLinked(s: seq<Address>, t: seq<Address>, belongs: (Address, Address) -> bool)
    requires Linked(s, belongs, false) && Linked(t, belongs, false) && Odd(|s|) && Odd(|t|) && CommonSuffix(s, t) > 0
    ensures Linked(Joined(s, t), belongs, false)
  {
    hide Joined, CommonSuffix, Odd, Link;
    var path := Joined(s, t);
    forall m | 0 <= m < |path| - 1
      ensures Link(belongs, path[m], path[m + 1], Odd(m) != false)
    {
      JoinedHop(s, t, belongs, m);
    }
  }

  /** The join is itself a chain, from the source token to the target token. */
  lemma JoinedIsChain(s: seq<Address>, t: seq<Address>, belongs: (Address, Address) -> bool)
    requires Chain(s, belongs) && Chain(t, belongs) && CommonSuffix(s, t) > 0
    ensures Chain(Joined(s, t), belongs)
    ensures Joined(s, t)[0] == s[0] && Joined(s, t)[|Joined(s, t)| - 1] == t[0]
  {
    hide Linked, Joined, CommonSuffix, Odd;
    JoinedIsLinked(s, t, belongs);
    var i, j := |s| - CommonSuffix(s, t), |t| - CommonSuffix(s, t);
    JoinedAt(s, t, 0);
    JoinedAt(s, t, i + j);
    JoinParity(s, t);
    Parity(i + j, 1);
  }

  // ----- cutting out the detours

  /** Where scanning on from `q`, two positions at a time, leaves a scan that stands at `p`. */
  function Jump(path: seq<Address>, p: nat, q: nat): (r: nat)
    requires p < q && p < |path| && Odd(q) == Odd(p)
    ensures p <= r < |path| && Odd(r) == Odd(p) && path[r] == path[p]
    decreases |path| - q
  {
    if q >= |path| - p % 2 then p else Jump(path, if path[p] == path[q] then q else p, q + 2)
  }

  lemma JumpStep(path: seq<Address>, p: nat, q: nat)
    requires p < q && p < |path| && Odd(q) == Odd(p)
    ensures Odd(q + 2) == Odd(q)
    ensures q >= |path| - p % 2 ==> Jump(path, p, q) == p
    ensures q < |path| - p % 2 ==> Jump(path, p, q) == Jump(path, if path[p] == path[q] then q else p, q + 2)
  {
  }

  /** On a path of odd length the scan ends at the last position of its parity with its value. */
  lemma {:induction false} JumpsToLast(path: seq<Address>, p: nat, q: nat, m: nat)
    requires Odd(|path|) && p < q && p < |path| && Odd(q) == Odd(p)
    requires Jump(path, p, q) < m < |path| && Odd(m) == Odd(p) && q <= m
    ensures path[m] != path[p]
    decreases |path| - q
  {
    hide Odd, Jump;
    JumpStep(path, p, q);
    NoRoom(|path|, p, q, m);
    if path[p] == path[q] {
      StaysAhead(path, q, q + 2);
    }
    if q < m {
      Skips(q, m);
      JumpsToLast(path, if path[p] == path[q] then q else p, q + 2, m);
    }
  }

  /** A position of the scan's parity at or past `q` is still to be looked at. */
  lemma NoRoom(n: nat, p: nat, q: nat, m: nat)
    requires Odd(n) && Odd(q) == Odd(p) && Odd(m) == Odd(p) && q <= m < n
    ensures q < n - p % 2
  {
  }

  lemma Skips(q: nat, m: nat)
    requires q < m && Odd(q) == Odd(m)
    ensures q + 2 <= m
  {
  }

  lemma StaysAhead(path: seq<Address>, p: nat, q: nat)
    requires p < q && p < |path| && Odd(q) == Odd(p)
    ensures p <= Jump(path, p, q)
  {
  }

  /** Each position's value, then on from that value's last occurrence. */
  function Pruned(path: seq<Address>, p: nat): (out: seq<Address>)
    requires p <= |path|
    decreases |path| - p
  {
    if p == |path| then [] else [path[p]] + Pruned(path, Jump(path, p, p + 2) + 1)
  }

  lemma LinkFront(x: Address, rest: seq<Address>, belongs: (Address, Address) -> bool, anchorFirst: bool)
    requires Linked(rest, belongs, !anchorFirst) && (rest != [] ==> Link(belongs, x, rest[0], anchorFirst))
    ensures Linked([x] + rest, belongs, anchorFirst)
  {
    hide Odd, Link;
    var path := [x] + rest;
    Parity(0, 0);
    forall k | 0 <= k < |path| - 1
      ensures Link(belongs, path[k], path[k + 1], Odd(k) != anchorFirst)
    {
      if k > 0 {
        Parity(k, 1);
        assert Link(belongs, rest[k - 1], rest[k - 1 + 1], Odd(k - 1) != !anchorFirst);
      }
    }
  }

  /** Pruning an odd-length chain from `p` on keeps its ends. */
  lemma {:induction false} PrunedEnds(path: seq<Address>, p: nat)
    requires Odd(|path|) && p < |path|
    ensures var out := Pruned(path, p);
            out != [] && out[0] == path[p] && out[|out| - 1] == path[|path| - 1] && Odd(|out|) != Odd(p)
    decreases |path| - p
  {
    hide Odd, Jump, Pruned;
    PrunedStep(path, p);
    Parity(1, 1);
    var r := Jump(path, p, p + 2);
    Parity(r, 1);
    if r + 1 < |path| {
      PrunedEnds(path, r + 1);
      Parity(|Pruned(path, r + 1)|, 1);
    } else {
      NothingPruned(path);
    }
  }

  /** Pruning keeps the links: what follows a kept entry followed its last occurrence. */
  lemma {:induction false} PrunedIsLinked(path: seq<Address>, belongs: (Address, Address) -> bool, p: nat)
    requires Chain(path, belongs) && p <= |path|
    ensures Linked(Pruned(path, p), belongs, Odd(p))
    decreases |path| - p
  {
    hide Odd, Link, Jump, Linked, Pruned;
    if p == |path| {
      NothingPruned(path);
      NothingLinks(belongs, Odd(p));
    } else {
      PrunedStep(path, p);
      var r := Jump(path, p, p + 2);
      Parity(r, 1);
      Parity(1, 1);
      PrunedIsLinked(path, belongs, r + 1);
      if r + 1 < |path| {
        PrunedEnds(path, r + 1);
        LinkAt(path, belongs, r);
      } else {
        NothingPruned(path);
      }
      LinkFront(path[p], Pruned(path, r + 1), belongs, Odd(p));
    }
  }

  lemma LinkAt(path: seq<Address>, belongs: (Address, Address) -> bool, k: nat)
    requires Linked(path, belongs, false) && k + 1 < |path|
    ensures Link(belongs, path[k], path[k + 1], Odd(k))
  {
    hide Link, Odd;
    assert Link(belongs, path[k], path[k + 1], Odd(k) != false);
  }

  lemma NothingLinks(belongs: (Address, Address) -> bool, anchorFirst: bool)
    ensures Linked([], belongs, anchorFirst)
  {
  }

  /** Everything pruned from `p` on stood at a position of its parity from `p` on. */
  lemma {:induction false} PrunedFrom(path: seq<Address>, p: nat, k: nat) returns (m: nat)
    requires Odd(|path|) && p <= |path| && k < |Pruned(path, p)|
    ensures p + k <= m < |path| && Odd(m) == Odd(p + k) && path[m] == Pruned(path, p)[k]
    decreases |path| - p
  {
    hide Odd, Jump;
    if k == 0 {
      m := p;
    } else {
      Parity(p, 2);
        var r := Jump(path, p, p + 2);
      m := PrunedFrom(path, r + 1, k - 1);
      Parity(r, k);
      Parity(p, k);
    }
  }

  lemma DifferAt(path: seq<Address>, i: nat, j: nat)
    requires VisitsOnce(path) && i < j < |path| && Odd(i) == Odd(j)
    ensures path[i] != path[j]
  {
  }

  lemma FrontDiffers(x: Address, rest: seq<Address>, i: nat, j: nat)
    requires VisitsOnce(rest) && i < j <= |rest| && Odd(i) == Odd(j)
    requires Odd(j - 1) ==> rest[j - 1] != x
    ensures ([x] + rest)[i] != ([x] + rest)[j]
  {
    hide Odd, VisitsOnce;
    Parity(i, 1);
    Parity(j, 1);
    Parity(0, 0);
    if i > 0 {
      DifferAt(rest, i - 1, j - 1);
    }
  }

  lemma FrontVisitsOnce(x: Address, rest: seq<Address>)
    requires VisitsOnce(rest) && forall k :: 0 <= k < |rest| && Odd(k) ==> rest[k] != x
    ensures VisitsOnce([x] + rest)
  {
    hide Odd;
    forall i, j | 0 <= i < j < |[x] + rest| && Odd(i) == Odd(j)
      ensures ([x] + rest)[i] != ([x] + rest)[j]
    {
      FrontDiffers(x, rest, i, j);
    }
  }

  lemma {:induction false} PrunedVisitsOnce(path: seq<Address>, p: nat)
    requires Odd(|path|) && p <= |path|
    ensures VisitsOnce(Pruned(path, p))
    decreases |path| - p
  {
    hide Odd, Jump, VisitsOnce;
    if p == |path| {
      NothingRepeats();
    } else {
      Parity(p, 2);
      var r := Jump(path, p, p + 2);
      var rest := Pruned(path, r + 1);
      PrunedVisitsOnce(path, r + 1);
      forall k | 0 <= k < |rest| && Odd(k)
        ensures rest[k] != path[p]
      {
        var m := PrunedFrom(path, r + 1, k);
        Parity(r + 1, k);
        Parity(r, 1);
        LaterDiffers(path, p, m);
      }
      FrontVisitsOnce(path[p], rest);
    }
  }

  lemma LaterDiffers(path: seq<Address>, p: nat, m: nat)
    requires Odd(|path|) && p < |path| && Odd(p + 2) == Odd(p)
    requires Jump(path, p, p + 2) < m < |path| && Odd(m) == Odd(p)
    ensures path[m] != path[p]
  {
    hide Jump;
    JumpsToLast(path, p, p + 2, m);
  }

  lemma NothingRepeats()
    ensures VisitsOnce([])
  {
  }

  /** A chain without repetitions is left as it is. */
  lemma {:induction false} PrunedKeeps(path: seq<Address>, p: nat)
    requires p <= |path| && VisitsOnce(path)
    ensures Pruned(path, p) == path[p..]
    decreases |path| - p
  {
    hide Odd, Jump, Pruned;
    if p < |path| {
      PrunedStep(path, p);
      var r := Jump(path, p, p + 2);
      assert r == p;
      PrunedKeeps(path, p + 1);
    } else {
      NothingPruned(path);
    }
  }

  // ----- the merged path

  function ShortestPath(s: seq<Address>, t: seq<Address>): seq<Address>
    requires s != [] && t != [] ==> s[|s| - 1] == t[|t| - 1]
  {
    if s == [] || t == [] then [] else Pruned(Joined(s, t), 0)
  }

  /** Merging two chains that end in the same token gives a chain from the first's start to the
  second's, every hop valid and nothing visited twice. */
  lemma PathConnects(s: seq<Address>, t: seq<Address>, belongs: (Address, Address) -> bool)
    requires Chain(s, belongs) && Chain(t, belongs) && s[|s| - 1] == t[|t| - 1]
    ensures var path := ShortestPath(s, t);
            Chain(path, belongs) && VisitsOnce(path) && path[0] == s[0] && path[|path| - 1] == t[0]
  {
    hide Joined, Pruned, VisitsOnce, Odd, Linked;
    Parity(0, 0);
    JoinedIsChain(s, t, belongs);
    PrunedEnds(Joined(s, t), 0);
    PrunedIsLinked(Joined(s, t), belongs, 0);
    PrunedVisitsOnce(Joined(s, t), 0);
  }

  /** Chains that meet only in their common end are joined unchanged. */
  lemma PathKeepsSimpleJoin(s: seq<Address>, t: seq<Address>)
    requires s != [] && t != [] && s[|s| - 1] == t[|t| - 1] && VisitsOnce(Joined(s, t))
    ensures ShortestPath(s, t) == Joined(s, t)
  {
    PrunedKeeps(Joined(s, t), 0);
  }

  method GetPartialArray(a: array<Address>, length: nat) returns (r: array<Address>)
    ensures r[..] == a[..if length > a.Length then a.Length else length]
  {
    var n := if length > a.Length then a.Length else length;
    r := new Address[n](_ => Address(""));
    for i := 0 to n
      invariant r[..i] == a[..i]
    {
      r[i] := a[i];
      assert r[..i + 1] == r[..i] + [r[i]];
    }
  }

  lemma SuffixStep(s: seq<Address>, t: seq<Address>, i: nat, j: nat)
    requires 0 < i <= |s| && 0 < j <= |t| && s[i - 1] == t[j - 1]
    ensures CommonSuffix(s[..i], t[..j]) == 1 + CommonSuffix(s[..i - 1], t[..j - 1])
  {
    assert s[..i][..i - 1] == s[..i - 1] && t[..j][..j - 1] == t[..j - 1];
  }

  lemma SuffixEnds(s: seq<Address>, t: seq<Address>, i: nat, j: nat)
    requires i <= |s| && j <= |t| && (i > 0 && j > 0 ==> s[i - 1] != t[j - 1])
    ensures CommonSuffix(s[..i], t[..j]) == 0
  {
  }

  lemma EndsShared(s: seq<Address>, t: seq<Address>)
    requires s != [] && t != [] && s[|s| - 1] == t[|t| - 1]
    ensures CommonSuffix(s, t) > 0
  {
  }

  /** Walks both chains back from their ends while they agree. */
  method MeetingPoint(sourcePath: seq<Address>, targetPath: seq<Address>) returns (i: nat, j: nat)
    ensures i == |sourcePath| - CommonSuffix(sourcePath, targetPath) &&
            j == |targetPath| - CommonSuffix(sourcePath, targetPath)
  {
    hide CommonSuffix;
    assert sourcePath[..|sourcePath|] == sourcePath && targetPath[..|targetPath|] == targetPath;
    i, j := |sourcePath|, |targetPath|;
    while i > 0 && j > 0 && sourcePath[i - 1] == targetPath[j - 1]
      invariant 0 <= i <= |sourcePath| && 0 <= j <= |targetPath| && |sourcePath| - i == |targetPath| - j
      invariant CommonSuffix(sourcePath, targetPath) ==
                |sourcePath| - i + CommonSuffix(sourcePath[..i], targetPath[..j])
    {
      SuffixStep(sourcePath, targetPath, i, j);
      i, j := i - 1, j - 1;
    }
    SuffixEnds(sourcePath, targetPath, i, j);
  }

  method GetShortestPath(sourcePath: seq<Address>, targetPath: seq<Address>) returns (r: array<Address>)
    requires sourcePath != [] && targetPath != [] ==> sourcePath[|sourcePath| - 1] == targetPath[|targetPath| - 1]
    ensures r[..] == ShortestPath(sourcePath, targetPath)
  {
    hide CommonSuffix, Joined, Pruned;
    if |sourcePath| > 0 && |targetPath| > 0 {
      EndsShared(sourcePath, targetPath);
      var i, j := MeetingPoint(sourcePath, targetPath);
      var path := new Address[i + j + 1](_ => Address(""));
      FillJoined(sourcePath, targetPath, i, j, path);
      var length := Prune(path);
      r := GetPartialArray(path, length);
    } else {
      r := new Address[0];
    }
  }

  /** Lays the two parts out around the meeting point. */
  method FillJoined(sourcePath: seq<Address>, targetPath: seq<Address>, i: nat, j: nat, path: array<Address>)
    requires CommonSuffix(sourcePath, targetPath) > 0
    requires i == |sourcePath| - CommonSuffix(sourcePath, targetPath) &&
             j == |targetPath| - CommonSuffix(sourcePath, targetPath)
    requires path.Length == i + j + 1
    modifies path
    ensures path[..] == Joined(sourcePath, targetPath)
  {
    hide CommonSuffix, Joined;
    ghost var joined := Joined(sourcePath, targetPath);
    JoinedAt(sourcePath, targetPath, 0);
    for m := 0 to i + 1
      invariant forall k :: 0 <= k < m ==> path[k] == joined[k]
    {
      JoinedAt(sourcePath, targetPath, m);
      path[m] := sourcePath[m];
    }
    for n := j downto 0
      invariant forall k :: 0 <= k < i + j + 1 - n ==> path[k] == joined[k]
    {
      JoinedAt(sourcePath, targetPath, path.Length - (n + 1));
      path[path.Length - (n + 1)] := targetPath[n];
    }
  }

  lemma PrunedStep(path: seq<Address>, p: nat)
    requires p < |path|
    ensures Odd(p + 2) == Odd(p) && Pruned(path, p) == [path[p]] + Pruned(path, Jump(path, p, p + 2) + 1)
  {
    Parity(p, 2);
  }

  /** Compacts the path towards its front while still scanning it. */
  method Prune(path: array<Address>) returns (length: nat)
    modifies path
    ensures length <= path.Length
    ensures path[..length] == Pruned(old(path[..]), 0)
  {
    hide Odd, Jump, Pruned;
    ghost var was := path[..];
    length := 0;
    var p := 0;
    while p < path.Length
      invariant length <= p <= path.Length && was == old(path[..])
      invariant path[p..] == was[p..]
      invariant path[..length] + Pruned(was, p) == Pruned(was, 0)
      decreases path.Length - p
    {
      ghost var start := p;
      PrunedStep(was, start);
      p := NextOccurrence(path, was, p);
      ghost var front := path[..length];
      path[length] := path[p];
      assert path[..length + 1] == front + [was[start]];
      length := length + 1;
      p := p + 1;
    }
    NothingPruned(was);
  }

  lemma NothingPruned(path: seq<Address>)
    ensures Pruned(path, |path|) == []
  {
  }

  /** The inner scan: moves on to every later position of the same parity that holds the same value. */
  method NextOccurrence(path: array<Address>, ghost was: seq<Address>, start: nat) returns (p: nat)
    requires start < path.Length == |was| && path[start..] == was[start..] && Odd(start + 2) == Odd(start)
    ensures p == Jump(was, start, start + 2)
    ensures start <= p < path.Length && path[p] == was[start]
  {
    hide Odd, Jump;
    p := start;
    var q := p + 2;
    while q < path.Length - p % 2
      invariant start <= p < q && p < path.Length && Odd(q) == Odd(p)
      invariant Jump(was, start, start + 2) == Jump(was, p, q)
    {
      JumpStep(was, p, q);
      assert path[p] == path[start..][p - start] && path[q] == path[start..][q - start];
      if path[p] == path[q] {
        p := q;
      }
      q := q + 2;
    }
    JumpStep(was, p, q);
    assert path[p] == path[start..][p - start];
  }
}
