/** The block visualizer page: the locally held list of blocks (newest
    first), its hash-filtered projection, the derived "recent transactions"
    strip, the poll that prepends newer blocks and the scroll step that
    appends one older block. Every server answer is an input. */
module BlockVisualizer {
  import opened Common
  import opened Seqs

  datatype Tx = Tx(transactionId: string, txType: string)

  datatype Block = Block(height: int, hash: string, transactions: seq<Tx>)

  /** The component's fields that the logic reads and writes. */
  datatype Visualizer = Visualizer(
    allBlocks: seq<Block>,
    filteredBlocks: seq<Block>,
    recentTransactions: seq<Tx>,
    searchHash: string,
    shouldAnimate: bool,
    shouldAnimateTx: bool,
    isLoading: bool)

  /** Cap on the recent-transactions strip. */
  const MaxTransactions := 10
  /** How many leading filtered blocks feed the recent-transactions strip. */
  const ScannedBlocks := 6

  const Initial := Visualizer([], [], [], "", false, false, false)

  function Height(b: Block): int {
    b.height
  }

  /** Newest first, as the page keeps it. */
  ghost predicate NonIncreasing(bs: seq<Block>) {
    SortedBy(bs, Height, false)
  }

  ghost predicate StrictlyDecreasing(bs: seq<Block>) {
    forall i, j :: 0 <= i < j < |bs| ==> bs[i].height > bs[j].height
  }

  // ---------------------------------------------------------------------
  // Hash filter

  /** The term `filterBlocks` searches for: trimmed, then lower-cased. */
  function SearchTerm(searchHash: string): string {
    Lower(Trim(searchHash))
  }

  predicate HashMatches(term: string, b: Block) {
    Contains(Lower(b.hash), term)
  }

  function MatchesTerm(term: string): Block -> bool {
    (b: Block) => HashMatches(term, b)
  }

  /** `filterBlocks`: a copy of all blocks for a blank term, otherwise the
      blocks whose lower-cased hash contains the term, in their order. */
  function FilterBlocks(all: seq<Block>, searchHash: string): (r: seq<Block>)
    ensures SearchTerm(searchHash) == "" ==> r == all
    ensures forall i :: 0 <= i < |r| ==> r[i] in all && HashMatches(SearchTerm(searchHash), r[i])
    ensures forall i :: 0 <= i < |all| && HashMatches(SearchTerm(searchHash), all[i]) ==> all[i] in r
    ensures forall b :: multiset(r)[b] == if HashMatches(SearchTerm(searchHash), b) then multiset(all)[b] else 0
  {
    var term := SearchTerm(searchHash);
    if term == "" then
      assert forall i :: 0 <= i < |all| ==> HashMatches(term, all[i]) by {
        forall i | 0 <= i < |all| ensures HashMatches(term, all[i]) {
          ContainsEmpty(Lower(all[i].hash));
        }
      }
      all
    else
      var r := Keep(all, MatchesTerm(term));
      assert forall b :: multiset(r)[b] == if HashMatches(term, b) then multiset(all)[b] else 0 by {
        forall b ensures multiset(r)[b] == if HashMatches(term, b) then multiset(all)[b] else 0 {
          KeepCount(all, MatchesTerm(term), b);
        }
      }
      assert forall i :: 0 <= i < |r| ==> r[i] in all && HashMatches(term, r[i]) by {
        KeepMembers(all, MatchesTerm(term));
      }
      assert forall i :: 0 <= i < |all| && HashMatches(term, all[i]) ==> all[i] in r by {
        KeepMembers(all, MatchesTerm(term));
      }
      r
  }

  /** The filtered list is an order-preserving sublist of all blocks. */
  lemma FilterBlocksSublist(all: seq<Block>, searchHash: string)
    ensures IsSublist(FilterBlocks(all, searchHash), all)
  {
    if SearchTerm(searchHash) == "" {
      var idx := seq(|all|, k requires 0 <= k < |all| => k);
      assert Embeds(idx, all, all);
    } else {
      KeepIsSublist(all, MatchesTerm(SearchTerm(searchHash)));
    }
  }

  /** Filtering the filtered list again with the same term changes nothing. */
  lemma FilterBlocksIdempotent(all: seq<Block>, searchHash: string)
    ensures FilterBlocks(FilterBlocks(all, searchHash), searchHash) == FilterBlocks(all, searchHash)
  {
    var term := SearchTerm(searchHash);
    if term != "" {
      KeepIdempotent(all, MatchesTerm(term));
    }
  }

  // ---------------------------------------------------------------------
  // Recent transactions

  function Min(a: int, b: int): int {
    if a < b then a else b
  }

  /** The transactions of `bs`, block after block. */
  function Flatten(bs: seq<Block>): (r: seq<Tx>)
    decreases |bs|
  {
    if |bs| == 0 then [] else Flatten(bs[..|bs| - 1]) + bs[|bs| - 1].transactions
  }

  lemma {:induction false} FlattenAppend(a: seq<Block>, b: seq<Block>)
    ensures Flatten(a + b) == Flatten(a) + Flatten(b)
    decreases |b|
  {
    if |b| == 0 {
      assert a + b == a;
    } else {
      var front, last := b[..|b| - 1], b[|b| - 1];
      assert (a + b)[..|a + b| - 1] == a + front && (a + b)[|a + b| - 1] == last;
      calc {
        Flatten(a + b);
        Flatten(a + front) + last.transactions;
        { FlattenAppend(a, front); }
        (Flatten(a) + Flatten(front)) + last.transactions;
        Flatten(a) + (Flatten(front) + last.transactions);
      }
    }
  }

  lemma FlattenMember(bs: seq<Block>, i: nat)
    requires i < |Flatten(bs)|
    ensures exists k, m :: 0 <= k < |bs| && 0 <= m < |bs[k].transactions| && Flatten(bs)[i] == bs[k].transactions[m]
    decreases |bs|
  {
    var front := Flatten(bs[..|bs| - 1]);
    if i >= |front| {
      assert Flatten(bs)[i] == bs[|bs| - 1].transactions[i - |front|];
    } else {
      FlattenMember(bs[..|bs| - 1], i);
      var k, m :| 0 <= k < |bs| - 1 && 0 <= m < |bs[..|bs| - 1][k].transactions|
        && front[i] == bs[..|bs| - 1][k].transactions[m];
      assert Flatten(bs)[i] == bs[k].transactions[m];
    }
  }

  /** The ids already collected. */
  function IdSet(txs: seq<Tx>): set<string> {
    set i | 0 <= i < |txs| :: txs[i].transactionId
  }

  lemma IdSetSnoc(txs: seq<Tx>, t: Tx)
    ensures IdSet(txs + [t]) == IdSet(txs) + {t.transactionId}
  {
    var a, b := IdSet(txs + [t]), IdSet(txs) + {t.transactionId};
    forall id | id in a ensures id in b {
      var i :| 0 <= i < |txs + [t]| && (txs + [t])[i].transactionId == id;
      if i < |txs| { assert txs[i].transactionId == id; }
    }
    forall id | id in b ensures id in a {
      if id == t.transactionId {
        assert (txs + [t])[|txs|].transactionId == id;
      } else {
        var i :| 0 <= i < |txs| && txs[i].transactionId == id;
        assert (txs + [t])[i].transactionId == id;
      }
    }
  }

  /** Counted by the strip: a truthy id not already collected. */
  predicate Collectable(t: Tx, acc: seq<Tx>) {
    t.transactionId != "" && t.transactionId !in IdSet(acc)
  }

  ghost predicate DistinctIds(txs: seq<Tx>) {
    forall i, j :: 0 <= i < j < |txs| ==> txs[i].transactionId != txs[j].transactionId
  }

  /** The first transaction for each truthy id of `s`, in stream order. */
  function Dedup(s: seq<Tx>): (r: seq<Tx>)
    decreases |s|
  {
    if |s| == 0 then []
    else
      var d := Dedup(s[..|s| - 1]);
      if Collectable(s[|s| - 1], d) then d + [s[|s| - 1]] else d
  }

  /** What `Dedup` keeps: distinct truthy ids, each taken from the stream,
      and every truthy id of the stream represented. */
  lemma {:induction false} DedupSpec(s: seq<Tx>)
    ensures |Dedup(s)| <= |s|
    ensures DistinctIds(Dedup(s))
    ensures forall i :: 0 <= i < |Dedup(s)| ==> Dedup(s)[i].transactionId != "" && Dedup(s)[i] in s
    ensures forall i :: 0 <= i < |s| && s[i].transactionId != "" ==> s[i].transactionId in IdSet(Dedup(s))
    decreases |s|
  {
    if |s| > 0 {
      var front := s[..|s| - 1];
      var last := s[|s| - 1];
      var d := Dedup(front);
      DedupSpec(front);
      assert forall i :: 0 <= i < |front| ==> front[i] == s[i];
      IdSetSnoc(d, last);
      if Collectable(last, d) {
        var r := d + [last];
        forall i, j | 0 <= i < j < |r| ensures r[i].transactionId != r[j].transactionId {
          if j == |d| {
            assert r[i] == d[i];
            assert d[i].transactionId in IdSet(d);
          }
        }
      }
    }
  }

  /** The order `Dedup` keeps: an order-preserving sublist of the stream
      that takes each id at its first occurrence. */
  lemma DedupFirstOccurrences(s: seq<Tx>)
    ensures IsSublist(Dedup(s), s)
    ensures exists idx :: FirstPositions(idx, Dedup(s), s)
    ensures forall i :: 0 <= i < |Dedup(s)| ==>
              exists j :: 0 <= j < |s| && s[j] == Dedup(s)[i]
                          && forall k :: 0 <= k < j ==> s[k].transactionId != Dedup(s)[i].transactionId
  {
    var idx := DedupPositions(s);
    forall i | 0 <= i < |Dedup(s)|
      ensures exists j :: 0 <= j < |s| && s[j] == Dedup(s)[i]
                          && forall k :: 0 <= k < j ==> s[k].transactionId != Dedup(s)[i].transactionId
    {
      var j := idx[i];
      assert s[j] == Dedup(s)[i];
    }
  }

  /** Positions `idx` of `s` spell out `d`, each the first with its id. */
  ghost predicate FirstPositions(idx: seq<nat>, d: seq<Tx>, s: seq<Tx>) {
    && Embeds(idx, d, s)
    && forall i, k :: 0 <= i < |idx| && 0 <= k < idx[i] ==> s[k].transactionId != d[i].transactionId
  }

  /** The stream positions `Dedup` takes, each the first with its id. */
  lemma {:induction false} DedupPositions(s: seq<Tx>) returns (idx: seq<nat>)
    ensures FirstPositions(idx, Dedup(s), s)
    decreases |s|
  {
    if |s| == 0 {
      idx := [];
    } else {
      var front, last := s[..|s| - 1], s[|s| - 1];
      var rest := DedupPositions(front);
      assert s == front + [last];
      if Collectable(last, Dedup(front)) {
        DedupSpec(front);
        idx := PositionsKeepLast(front, last, rest);
      } else {
        PositionsSkipLast(front, last, rest);
        idx := rest;
      }
    }
  }

  /** A collected transaction is the first with its id: no earlier one
      has it, since every earlier truthy id was already collected. */
  lemma PositionsKeepLast(front: seq<Tx>, last: Tx, rest: seq<nat>) returns (idx: seq<nat>)
    requires FirstPositions(rest, Dedup(front), front)
    requires Collectable(last, Dedup(front))
    requires forall i :: 0 <= i < |front| && front[i].transactionId != "" ==>
               front[i].transactionId in IdSet(Dedup(front))
    ensures FirstPositions(idx, Dedup(front + [last]), front + [last])
  {
    var s, d := front + [last], Dedup(front);
    assert s[..|s| - 1] == front;
    assert Dedup(s) == d + [last];
    idx := rest + [|front|];
    assert Embeds(idx, Dedup(s), s) by {
      forall i | 0 <= i < |idx| ensures idx[i] < |s| && Dedup(s)[i] == s[idx[i]] {
        if i < |rest| {
          assert Dedup(s)[i] == d[i] && d[i] == front[rest[i]];
        }
      }
    }
    forall k | 0 <= k < |front| ensures front[k].transactionId != last.transactionId {
      assert front[k].transactionId != "" ==> front[k].transactionId in IdSet(d);
    }
    forall i, k | 0 <= i < |idx| && 0 <= k < idx[i]
      ensures s[k].transactionId != Dedup(s)[i].transactionId
    {
      if i < |rest| {
        assert Dedup(s)[i] == d[i] && s[k] == front[k];
      }
    }
  }

  lemma PositionsSkipLast(front: seq<Tx>, last: Tx, rest: seq<nat>)
    requires FirstPositions(rest, Dedup(front), front)
    requires !Collectable(last, Dedup(front))
    ensures FirstPositions(rest, Dedup(front + [last]), front + [last])
  {
    var s := front + [last];
    assert s[..|s| - 1] == front;
    assert forall k :: 0 <= k < |front| ==> s[k] == front[k];
  }

  /** Collecting more of the stream only extends what was collected. */
  lemma {:induction false} DedupPrefix(p: seq<Tx>, q: seq<Tx>)
    ensures Dedup(p) <= Dedup(p + q)
    decreases |q|
  {
    if |q| == 0 {
      assert p + q == p;
    } else {
      assert (p + q)[..|p + q| - 1] == p + q[..|q| - 1];
      DedupPrefix(p, q[..|q| - 1]);
    }
  }

  /** One more transaction of the stream is collected exactly when it is
      collectable. */
  lemma DedupSnoc(s: seq<Tx>, t: Tx)
    ensures Dedup(s + [t]) == if Collectable(t, Dedup(s)) then Dedup(s) + [t] else Dedup(s)
  {
  }

  lemma FlattenSnoc(bs: seq<Block>, b: nat)
    requires b < |bs|
    ensures Flatten(bs[..b + 1]) == Flatten(bs[..b]) + bs[b].transactions
  {
    assert bs[..b + 1][..b] == bs[..b];
  }

  /** At most the first `MaxTransactions` entries. */
  function Cap(d: seq<Tx>): (r: seq<Tx>)
    ensures |r| == Min(|d|, MaxTransactions) && r <= d
  {
    if |d| <= MaxTransactions then d else d[..MaxTransactions]
  }

  /** The blocks `updateRecentTransactions` looks at. */
  function Scanned(filtered: seq<Block>): (r: seq<Block>)
    ensures |r| == Min(ScannedBlocks, |filtered|) && r <= filtered
  {
    filtered[..Min(ScannedBlocks, |filtered|)]
  }

  /** `updateRecentTransactions`, as a reference definition: the first ten
      distinct truthy ids of the first six filtered blocks' transactions. */
  function RecentTransactions(filtered: seq<Block>): (r: seq<Tx>)
    ensures |r| <= MaxTransactions
    ensures DistinctIds(r)
    ensures forall i :: 0 <= i < |r| ==> r[i].transactionId != ""
    ensures forall i :: 0 <= i < |r| ==>
      exists k, m :: (0 <= k < Min(ScannedBlocks, |filtered|) && 0 <= m < |filtered[k].transactions|
                      && r[i] == filtered[k].transactions[m])
  {
    var scanned := Scanned(filtered);
    var stream := Flatten(scanned);
    var r := Cap(Dedup(stream));
    DedupSpec(stream);
    forall i | 0 <= i < |r|
      ensures exists k, m :: (0 <= k < Min(ScannedBlocks, |filtered|) && 0 <= m < |filtered[k].transactions|
                              && r[i] == filtered[k].transactions[m])
    {
      assert r[i] == Dedup(stream)[i];
      assert r[i] in stream;
      var j :| 0 <= j < |stream| && stream[j] == r[i];
      FlattenMember(scanned, j);
      var k, m :| 0 <= k < |scanned| && 0 <= m < |scanned[k].transactions| && stream[j] == scanned[k].transactions[m];
      assert scanned[k] == filtered[k];
    }
    r
  }

  /** Once ten ids have been collected the rest of the stream is irrelevant. */
  lemma CapReached(p: seq<Tx>, q: seq<Tx>)
    requires |Dedup(p)| == MaxTransactions
    ensures Cap(Dedup(p + q)) == Dedup(p)
  {
    DedupPrefix(p, q);
  }

  /** The stream of transactions up to transaction `t` of block `b`, and the rest. */
  lemma StreamSplit(bs: seq<Block>, b: nat, t: nat)
    requires b < |bs| && t <= |bs[b].transactions|
    ensures Flatten(bs) == (Flatten(bs[..b]) + bs[b].transactions[..t])
                           + (bs[b].transactions[t..] + Flatten(bs[b + 1..]))
  {
    var front, txs, back := bs[..b], bs[b].transactions, bs[b + 1..];
    assert bs == (front + [bs[b]]) + back;
    assert (front + [bs[b]])[..b] == front;
    calc {
      Flatten(bs);
      { FlattenAppend(front + [bs[b]], back); }
      Flatten(front + [bs[b]]) + Flatten(back);
      (Flatten(front) + txs) + Flatten(back);
      { assert txs == txs[..t] + txs[t..]; }
      (Flatten(front) + (txs[..t] + txs[t..])) + Flatten(back);
      (Flatten(front) + txs[..t]) + (txs[t..] + Flatten(back));
    }
  }

  /** One step of the inner scan: the next transaction is collected exactly
      when it is collectable. */
  lemma CollectStep(seen: seq<Tx>, txs: seq<Tx>, t: nat)
    requires t < |txs|
    ensures Dedup(seen + txs[..t + 1])
         == if Collectable(txs[t], Dedup(seen + txs[..t])) then Dedup(seen + txs[..t]) + [txs[t]]
            else Dedup(seen + txs[..t])
  {
    assert seen + txs[..t + 1] == (seen + txs[..t]) + [txs[t]];
    DedupSnoc(seen + txs[..t], txs[t]);
  }

  /** Reaching the cap inside block `b` fixes the whole strip. */
  lemma StopAtCap(toCheck: seq<Block>, b: nat, t: nat)
    requires b < |toCheck| && t <= |toCheck[b].transactions|
    requires |Dedup(Flatten(toCheck[..b]) + toCheck[b].transactions[..t])| == MaxTransactions
    ensures Cap(Dedup(Flatten(toCheck))) == Dedup(Flatten(toCheck[..b]) + toCheck[b].transactions[..t])
  {
    var txs := toCheck[b].transactions;
    StreamSplit(toCheck, b, t);
    CapReached(Flatten(toCheck[..b]) + txs[..t], txs[t..] + Flatten(toCheck[b + 1..]));
  }

  /** The inner loop of `updateRecentTransactions` over one block's
      transactions: it stops after transaction `t` when the strip fills up,
      and otherwise scans them all. */
  method ScanBlock(seen: seq<Tx>, txs: seq<Tx>, recent0: seq<Tx>, included0: set<string>)
    returns (recent: seq<Tx>, included: set<string>, t: nat)
    requires recent0 == Dedup(seen) && included0 == IdSet(recent0) && |recent0| < MaxTransactions
    ensures t <= |txs| && recent == Dedup(seen + txs[..t]) && included == IdSet(recent)
    ensures |recent| <= MaxTransactions
    ensures |recent| < MaxTransactions ==> t == |txs|
    ensures |recent| == MaxTransactions ==> 0 < t && |Dedup(seen + txs[..t - 1])| < MaxTransactions
  {
    recent, included, t := recent0, included0, 0;
    assert seen + txs[..0] == seen;
    while t < |txs|
      invariant 0 <= t <= |txs|
      invariant recent == Dedup(seen + txs[..t])
      invariant included == IdSet(recent)
      invariant |recent| < MaxTransactions
    {
      var tx := txs[t];
      CollectStep(seen, txs, t);
      if tx.transactionId != "" && tx.transactionId !in included {
        IdSetSnoc(recent, tx);
        recent := recent + [tx];
        included := included + {tx.transactionId};
        if |recent| >= MaxTransactions {
          t := t + 1;
          return;
        }
      }
      t := t + 1;
    }
  }

  /** `updateRecentTransactions` as written: a scan of the first six
      filtered blocks with early exits once ten transactions are collected. */
  method UpdateRecentTransactions(filtered: seq<Block>) returns (recent: seq<Tx>)
    ensures recent == RecentTransactions(filtered)
  {
    var included: set<string> := {};
    recent := [];
    var toCheck := filtered[..Min(ScannedBlocks, |filtered|)];
    var b := 0;
    while b < |toCheck|
      invariant 0 <= b <= |toCheck|
      invariant recent == Dedup(Flatten(toCheck[..b]))
      invariant included == IdSet(recent)
      invariant |recent| < MaxTransactions
    {
      var txs := toCheck[b].transactions;
      var t;
      recent, included, t := ScanBlock(Flatten(toCheck[..b]), txs, recent, included);
      if |recent| >= MaxTransactions {
        StopAtCap(toCheck, b, t);
        return;
      }
      assert recent == Dedup(Flatten(toCheck[..b + 1])) by {
        assert txs[..t] == txs;
        FlattenSnoc(toCheck, b);
      }
      b := b + 1;
    }
    assert toCheck[..b] == toCheck;
  }

  // ---------------------------------------------------------------------
  // Opening the page

  /** `ngOnInit`: the fetched blocks sorted newest first, shown unfiltered;
      an absent answer counts as no blocks. A rejected fetch aborts
      initialisation (and polling never starts). */
  function Init(response: Fetch<Option<seq<Block>>>): (st: Visualizer)
    ensures response.Err? || response == Ok(None) ==> st.allBlocks == []
    ensures response.Ok? && response.value.Some? ==>
      && multiset(st.allBlocks) == multiset(response.value.value)
      && NonIncreasing(st.allBlocks)
      && forall h :: WithKey(st.allBlocks, Height, h) == WithKey(response.value.value, Height, h)
    ensures st.filteredBlocks == st.allBlocks
    ensures st.recentTransactions == RecentTransactions(st.filteredBlocks)
    ensures st.searchHash == "" && !st.shouldAnimate && !st.shouldAnimateTx && !st.isLoading
  {
    match response
    case Err => Initial
    case Ok(None) => Initial
    case Ok(Some(blocks)) =>
      var all := SortBy(blocks, Height, false);
      assert forall h :: WithKey(all, Height, h) == WithKey(blocks, Height, h) by {
        forall h ensures WithKey(all, Height, h) == WithKey(blocks, Height, h) {
          SortByStable(blocks, Height, false, h);
        }
      }
      Initial.(allBlocks := all, filteredBlocks := all, recentTransactions := RecentTransactions(all))
  }

  /** The derived fields agree with the held blocks and the search box. */
  ghost predicate Consistent(st: Visualizer) {
    && st.filteredBlocks == FilterBlocks(st.allBlocks, st.searchHash)
    && st.recentTransactions == RecentTransactions(st.filteredBlocks)
  }

  lemma InitConsistent(response: Fetch<Option<seq<Block>>>)
    ensures Consistent(Init(response))
  {
  }

  /** Typing in the search box: `searchHash` is bound, then `filterBlocks` runs. */
  function Search(st: Visualizer, searchHash: string): (r: Visualizer)
    ensures Consistent(r)
    ensures r.searchHash == searchHash && r.allBlocks == st.allBlocks
    ensures r.shouldAnimate == st.shouldAnimate && r.shouldAnimateTx == st.shouldAnimateTx
    ensures r.isLoading == st.isLoading
  {
    var filtered := FilterBlocks(st.allBlocks, searchHash);
    st.(searchHash := searchHash, filteredBlocks := filtered,
        recentTransactions := RecentTransactions(filtered))
  }

  // ---------------------------------------------------------------------
  // Polling for newer blocks

  /** Height of the newest held block, or -1 when none is held. */
  function Threshold(all: seq<Block>): int {
    if |all| == 0 then -1 else all[0].height
  }

  function Above(threshold: int): Block -> bool {
    (b: Block) => b.height > threshold
  }

  /** The fetched blocks taller than `threshold`, lowest first. */
  function Newer(latest: seq<Block>, threshold: int): seq<Block> {
    Keep(SortBy(latest, Height, true), Above(threshold))
  }

  /** What a poll puts in front: the new blocks, newest first, all taller
      than the old head, and exactly the batch's blocks above it. */
  lemma NewerFacts(latest: seq<Block>, threshold: int)
    ensures forall i :: 0 <= i < |Reverse(Newer(latest, threshold))| ==>
              Reverse(Newer(latest, threshold))[i].height > threshold
    ensures multiset(Reverse(Newer(latest, threshold))) == multiset(Keep(latest, Above(threshold)))
    ensures NonIncreasing(Reverse(Newer(latest, threshold)))
  {
    var sorted := SortBy(latest, Height, true);
    var newer := Newer(latest, threshold);
    KeepSorted(sorted, Above(threshold), Height, true);
    ReverseSorted(newer, Height);
    KeepPermutation(sorted, latest, Above(threshold));
    ReversePermutation(newer);
    forall i | 0 <= i < |newer| ensures newer[i].height > threshold {
      assert Above(threshold)(newer[i]);
    }
  }

  /** The merge of one poll: every fetched block taller than the current
      head goes in front, newest first; the held blocks follow untouched. */
  function Merge(all: seq<Block>, latest: seq<Block>): (r: seq<Block>)
    ensures |r| >= |all| && r[|r| - |all|..] == all
    ensures forall i :: 0 <= i < |r| - |all| ==> r[i].height > Threshold(all)
    ensures multiset(r[..|r| - |all|]) == multiset(Keep(latest, Above(Threshold(all))))
    ensures NonIncreasing(r[..|r| - |all|])
  {
    var front := Reverse(Newer(latest, Threshold(all)));
    NewerFacts(latest, Threshold(all));
    assert (front + all)[..|front|] == front;
    assert (front + all)[|front|..] == all;
    front + all
  }

  /** Some fetched block is taller than the head exactly when the merge
      inserts something. */
  lemma MergeGrowsIff(all: seq<Block>, latest: seq<Block>)
    ensures |Merge(all, latest)| > |all|
            <==> exists i :: 0 <= i < |latest| && latest[i].height > Threshold(all)
  {
    var p := Above(Threshold(all));
    var kept := Keep(latest, p);
    var r := Merge(all, latest);
    var front := r[..|r| - |all|];
    assert multiset(front) == multiset(kept);
    KeepMembers(latest, p);
    if exists i :: 0 <= i < |latest| && latest[i].height > Threshold(all) {
      var i :| 0 <= i < |latest| && latest[i].height > Threshold(all);
      assert latest[i] in kept by {
        assert p(latest[i]);
      }
      assert latest[i] in multiset(front);
    }
    if |r| > |all| {
      assert front[0] in kept by {
        assert front[0] in multiset(front);
      }
      assert p(front[0]) && front[0] in latest;
    }
  }

  /** A newest-first list stays newest-first after a merge. */
  lemma MergeNonIncreasing(all: seq<Block>, latest: seq<Block>)
    requires NonIncreasing(all)
    ensures NonIncreasing(Merge(all, latest))
  {
  }

  /** With distinct heights in the fetched batch, a strictly decreasing list
      stays strictly decreasing: the merge adds no duplicate height. */
  lemma MergeStrictlyDecreasing(all: seq<Block>, latest: seq<Block>)
    requires StrictlyDecreasing(all)
    requires DistinctKeys(latest, Height)
    ensures StrictlyDecreasing(Merge(all, latest))
  {
    var threshold := Threshold(all);
    var sorted := SortBy(latest, Height, true);
    var newer := Newer(latest, threshold);
    SortByDistinct(latest, Height, true);
    KeepDistinct(sorted, Above(threshold), Height);
    ReverseDistinct(newer, Height);
    assert NonIncreasing(all);
    MergeNonIncreasing(all, latest);
    var r := Merge(all, latest);
    var n := |r| - |all|;
    assert r[..n] == Reverse(newer);
    forall i, j | 0 <= i < j < |r| ensures r[i].height > r[j].height {
      assert !Precedes(Height, false, r[j], r[i]);
      if j < n {
        assert r[i] == Reverse(newer)[i] && r[j] == Reverse(newer)[j];
      } else if i >= n {
        assert r[i] == all[i - n] && r[j] == all[j - n];
      } else {
        assert r[j] == all[j - n];
        if j - n > 0 {
          assert all[0].height > all[j - n].height;
        }
      }
    }
  }

  /** The poll's merge as written: sort the batch ascending, then `unshift`
      each block taller than the head captured before the loop. */
  method MergeByUnshift(all: seq<Block>, latest: seq<Block>) returns (merged: seq<Block>, hasNewBlocks: bool)
    ensures merged == Merge(all, latest)
    ensures hasNewBlocks <==> exists i :: 0 <= i < |latest| && latest[i].height > Threshold(all)
  {
    var sorted := SortBy(latest, Height, true);
    var currentLatestHeight := if |all| == 0 then -1 else all[0].height;
    hasNewBlocks := false;
    merged := all;
    for i := 0 to |sorted|
      invariant merged == Reverse(Keep(sorted[..i], Above(currentLatestHeight))) + all
      invariant hasNewBlocks <==> |merged| > |all|
    {
      UnshiftStep(sorted, i, currentLatestHeight, all);
      if sorted[i].height > currentLatestHeight {
        merged := [sorted[i]] + merged;
        hasNewBlocks := true;
      }
    }
    assert sorted[..|sorted|] == sorted;
    MergeGrowsIff(all, latest);
  }

  /** One iteration of the unshift loop. */
  lemma UnshiftStep(sorted: seq<Block>, i: nat, threshold: int, all: seq<Block>)
    requires i < |sorted|
    ensures Reverse(Keep(sorted[..i + 1], Above(threshold))) + all
         == (if sorted[i].height > threshold then [sorted[i]] else [])
            + (Reverse(Keep(sorted[..i], Above(threshold))) + all)
  {
    var p, x := Above(threshold), sorted[i];
    var k := Keep(sorted[..i], p);
    assert Keep(sorted[..i + 1], p) == k + (if p(x) then [x] else []) by {
      assert sorted[..i + 1] == sorted[..i] + [x];
      KeepSnoc(sorted[..i], x, p);
    }
    if p(x) {
      calc {
        Reverse(Keep(sorted[..i + 1], p)) + all;
        Reverse(k + [x]) + all;
        { ReverseSnoc(k, x); }
        ([x] + Reverse(k)) + all;
        [x] + (Reverse(k) + all);
      }
    } else {
      assert k + [] == k;
    }
  }

  /** The batch is present and holds at least one block
      (`latestBlocks && latestBlocks.length > 0`). */
  predicate Nonempty(response: Fetch<Option<seq<Block>>>) {
    response.Ok? && response.value.Some? && |response.value.value| > 0
  }

  /** One poll tick, given the server's answer to `getBlocks(3)`. A rejected,
      absent or empty batch changes nothing. Otherwise the batch is merged,
      the filter and the strip are recomputed, and the animation flags are
      raised for new blocks and for a longer strip. */
  function Poll(st: Visualizer, response: Fetch<Option<seq<Block>>>): (r: Visualizer)
    ensures !Nonempty(response) ==> r == st
    ensures Nonempty(response) ==>
      var latest := response.value.value;
      && r.allBlocks == Merge(st.allBlocks, latest)
      && r.searchHash == st.searchHash && r.isLoading == st.isLoading
      && Consistent(r)
      && (r.shouldAnimate <==>
            (st.shouldAnimate
             || exists i :: 0 <= i < |latest| && latest[i].height > Threshold(st.allBlocks)))
      && (r.shouldAnimateTx <==> st.shouldAnimateTx || |r.recentTransactions| > |st.recentTransactions|)
  {
    if !Nonempty(response) then st
    else
      var latest := response.value.value;
      var all := Merge(st.allBlocks, latest);
      var hasNew := |all| > |st.allBlocks|;
      assert hasNew <==> exists i :: 0 <= i < |latest| && latest[i].height > Threshold(st.allBlocks) by {
        MergeGrowsIff(st.allBlocks, latest);
      }
      var filtered := FilterBlocks(all, st.searchHash);
      var recent := RecentTransactions(filtered);
      st.(allBlocks := all, filteredBlocks := filtered, recentTransactions := recent,
          shouldAnimate := st.shouldAnimate || hasNew,
          shouldAnimateTx := st.shouldAnimateTx || |recent| > |st.recentTransactions|)
  }

  /** The 600 ms timer after an animated poll clears both flags. */
  function Settle(st: Visualizer): (r: Visualizer)
    ensures !r.shouldAnimate && !r.shouldAnimateTx
    ensures r.allBlocks == st.allBlocks && r.filteredBlocks == st.filteredBlocks
    ensures r.recentTransactions == st.recentTransactions
    ensures r.searchHash == st.searchHash && r.isLoading == st.isLoading
  {
    st.(shouldAnimate := false, shouldAnimateTx := false)
  }

  // ---------------------------------------------------------------------
  // Loading one older block

  /** The height `loadNextBlock` asks for: one below the tail (an empty list
      counts as tail height 0), and nothing when that would be negative. */
  function OlderRequest(all: seq<Block>): (r: Option<int>)
    ensures |all| == 0 ==> r == None
    ensures |all| > 0 ==> (r.Some? <==> all[|all| - 1].height >= 1)
    ensures r.Some? ==> r.value >= 0 && r.value == all[|all| - 1].height - 1
  {
    var oldestHeight := if |all| == 0 then 0 else all[|all| - 1].height;
    var nextHeight := oldestHeight - 1;
    if nextHeight >= 0 then Some(nextHeight) else None
  }

  /** First half of `loadNextBlock`: the re-entrancy guard, then the flag
      is raised and the request (if any) is issued. */
  function BeginLoad(st: Visualizer): (r: (Visualizer, Option<int>))
    ensures st.isLoading ==> r == (st, None)
    ensures !st.isLoading ==> r.0 == st.(isLoading := true) && r.1 == OlderRequest(st.allBlocks)
  {
    if st.isLoading then (st, None) else (st.(isLoading := true), OlderRequest(st.allBlocks))
  }

  /** Second half of `loadNextBlock`: the server's answer to `request` is
      appended when it is a block, and the flag is lowered whatever happened. */
  function FinishLoad(st: Visualizer, request: Option<int>, response: Fetch<Option<Block>>): (r: Visualizer)
    ensures !r.isLoading
    ensures request.Some? && response.Ok? && response.value.Some? ==>
      && r.allBlocks == st.allBlocks + [response.value.value]
      && r.filteredBlocks == FilterBlocks(r.allBlocks, st.searchHash)
      && r.recentTransactions == RecentTransactions(r.filteredBlocks)
    ensures !(request.Some? && response.Ok? && response.value.Some?) ==> r == st.(isLoading := false)
    ensures r.searchHash == st.searchHash && r.shouldAnimate == st.shouldAnimate
    ensures r.shouldAnimateTx == st.shouldAnimateTx
  {
    if request.Some? && response.Ok? && response.value.Some? then
      var all := st.allBlocks + [response.value.value];
      var filtered := FilterBlocks(all, st.searchHash);
      st.(allBlocks := all, filteredBlocks := filtered,
          recentTransactions := RecentTransactions(filtered), isLoading := false)
    else st.(isLoading := false)
  }

  /** `onScroll` then `loadNextBlock`, run to completion. `atEnd` is the
      pixel test for the trailing edge and `response` the server's answer
      to the request `BeginLoad` issues. */
  function OnScroll(st: Visualizer, atEnd: bool, response: Fetch<Option<Block>>): (r: Visualizer)
    ensures st.isLoading || st.searchHash != "" || !atEnd ==> r == st
    ensures !st.isLoading ==> !r.isLoading
    ensures OlderRequest(st.allBlocks).None? ==> r == st
    ensures r.allBlocks == st.allBlocks || exists b :: response == Ok(Some(b)) && r.allBlocks == st.allBlocks + [b]
    ensures !st.isLoading && st.searchHash == "" && atEnd && OlderRequest(st.allBlocks).Some?
            && response.Ok? && response.value.Some? ==>
              && r.allBlocks == st.allBlocks + [response.value.value]
              && Consistent(r)
    ensures r.searchHash == st.searchHash && r.shouldAnimate == st.shouldAnimate
    ensures r.shouldAnimateTx == st.shouldAnimateTx
    ensures !(response.Ok? && response.value.Some?) ==> r == st
  {
    if st.isLoading || st.searchHash != "" || !atEnd then st
    else
      var (loading, request) := BeginLoad(st);
      FinishLoad(loading, request, response)
  }

  /** A load keeps the held list newest first when the returned block is
      lower than the tail, which a server honouring the request guarantees. */
  lemma OnScrollNonIncreasing(st: Visualizer, atEnd: bool, b: Block)
    requires NonIncreasing(st.allBlocks)
    requires |st.allBlocks| > 0 ==> b.height <= st.allBlocks[|st.allBlocks| - 1].height
    ensures NonIncreasing(OnScroll(st, atEnd, Ok(Some(b))).allBlocks)
  {
    var all := st.allBlocks + [b];
    forall i, j | 0 <= i < j < |all| ensures !Precedes(Height, false, all[j], all[i]) {
      if j == |all| - 1 && i < |all| - 2 {
        assert !Precedes(Height, false, st.allBlocks[|st.allBlocks| - 1], st.allBlocks[i]);
      }
    }
  }

  /** Every page operation keeps the filtered list and the strip derived
      from the held blocks and the search box. */
  lemma OperationsKeepConsistent(st: Visualizer, searchHash: string, latest: Fetch<Option<seq<Block>>>,
                                 atEnd: bool, older: Fetch<Option<Block>>)
    requires Consistent(st)
    ensures Consistent(Search(st, searchHash))
    ensures Consistent(Poll(st, latest))
    ensures Consistent(OnScroll(st, atEnd, older))
    ensures Consistent(Settle(st))
  {
  }

  // ---------------------------------------------------------------------
  // Opening a transaction

  predicate HasTx(b: Block, id: string) {
    exists m :: 0 <= m < |b.transactions| && b.transactions[m].transactionId == id
  }

  /** `onTransactionClick`: the first filtered block holding a transaction
      with that id (the navigation target), if there is one. */
  function FindContainingBlock(filtered: seq<Block>, id: string): (r: Option<Block>)
    ensures r.None? <==> forall k :: 0 <= k < |filtered| ==> !HasTx(filtered[k], id)
    ensures r.Some? ==>
      exists k :: (0 <= k < |filtered| && filtered[k] == r.value && HasTx(r.value, id)
                   && forall j :: 0 <= j < k ==> !HasTx(filtered[j], id))
  {
    if |filtered| == 0 then None
    else if HasTx(filtered[0], id) then Some(filtered[0])
    else
      var r := FindContainingBlock(filtered[1..], id);
      assert forall k :: 1 <= k < |filtered| ==> filtered[1..][k - 1] == filtered[k];
      if r.Some? then
        var k :| 0 <= k < |filtered[1..]| && filtered[1..][k] == r.value && HasTx(r.value, id)
          && forall j :: 0 <= j < k ==> !HasTx(filtered[1..][j], id);
        assert filtered[k + 1] == r.value;
        r
      else r
  }

  // ---------------------------------------------------------------------
  // Worked examples

  /** Of the batch [99, 100, 101] only 101 is above a head at 100. */
  lemma NewerExample()
    ensures Newer([Block(99, "b", []), Block(100, "c", []), Block(101, "d", [])], 100) == [Block(101, "d", [])]
  {
    var latest := [Block(99, "b", []), Block(100, "c", []), Block(101, "d", [])];
    assert SortedBy(latest, Height, true);
    SortBySorted(latest, Height, true);
    AboveExample();
  }

  lemma AboveExample()
    ensures Keep([Block(99, "b", []), Block(100, "c", []), Block(101, "d", [])], Above(100)) == [Block(101, "d", [])]
  {
  }

  /** Held [100, 99, 98]; the poll returns [99, 100, 101]: only 101 is new
      and goes in front. */
  lemma PollExample()
    ensures var all := [Block(100, "c", []), Block(99, "b", []), Block(98, "a", [])];
            var latest := [Block(99, "b", []), Block(100, "c", []), Block(101, "d", [])];
            Merge(all, latest) == [Block(101, "d", [])] + all
  {
    var all := [Block(100, "c", []), Block(99, "b", []), Block(98, "a", [])];
    var latest := [Block(99, "b", []), Block(100, "c", []), Block(101, "d", [])];
    var b101 := Block(101, "d", []);
    calc {
      Merge(all, latest);
      Reverse(Newer(latest, Threshold(all))) + all;
      { NewerExample(); }
      Reverse([b101]) + all;
      { assert [b101][1..] == []; }
      [b101] + all;
    }
  }

  /** Two fetched blocks of the same new height are both inserted: the
      merge does not remove duplicates within a batch, and the stable sort
      followed by `unshift` puts the later one in front. */
  lemma DuplicateHeightExample()
    ensures Merge([], [Block(5, "x", []), Block(5, "y", [])]) == [Block(5, "y", []), Block(5, "x", [])]
  {
  }
}
