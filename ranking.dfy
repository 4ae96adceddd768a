/**
 * Search by photo: hash the uploaded photo, hash every candidate's image
 * through the memo, score each candidate by Hamming distance, sort the scores
 * stably in place and keep the first twelve.
 */
module Ranking {
  import opened Wrappers
  import opened Seqs
  import opened AHash
  import opened Hamming
  import opened Designers
  import opened HashMemo

  /** At most this many designers with an image are compared. */
  const MaxCandidates: nat := 300
  /** Number of results shown. */
  const TopCount: nat := 12
  /** Score of a candidate whose image could not be hashed (`1e9`). */
  const FailedScore: nat := 1_000_000_000

  /** `d.img` is truthy. */
  predicate HasImage(d: Designer) {
    d.img.Some? && d.img.value != ""
  }

  /** `designers.filter(d => d.img).slice(0, 300)`. */
  function Candidates(designers: seq<Designer>): (c: seq<Designer>)
    ensures |c| == Min(MaxCandidates, |Filter(designers, HasImage)|)
    ensures c == Filter(designers, HasImage)[..|c|]
    ensures forall d :: d in c ==> HasImage(d) && d in designers
  {
    var withImage := Filter(designers, HasImage);
    withImage[..Min(MaxCandidates, |withImage|)]
  }

  /** A candidate with its score and its position `at` among the candidates. */
  datatype Scored = Scored(designer: Designer, score: nat, at: nat)

  /** The score of a candidate whose hash lookup gave `h`. */
  function ScoreOf(query: string, h: Result<string, LoadError>): (s: nat)
    ensures h.Err? ==> s == FailedScore
    ensures h.Ok? ==> s == Distance(query, h.value)
    ensures h.Ok? && |query| < FailedScore && |h.value| < FailedScore ==> s < FailedScore
  {
    match h
    case Ok(hash) => DistanceBounds(query, hash); Distance(query, hash)
    case Err(_) => FailedScore
  }

  /** The scored entry for candidate `i`, as `Promise.all` lists it: in candidate order. */
  function Entry(query: string, cands: seq<Designer>, hashes: seq<Result<string, LoadError>>, i: nat): Scored
    requires i < |cands| == |hashes|
  {
    Scored(cands[i], ScoreOf(query, hashes[i]), i)
  }

  /** `x` comes before `y` in a stable sort by ascending score. */
  predicate Precedes(x: Scored, y: Scored) {
    x.score < y.score || (x.score == y.score && x.at < y.at)
  }

  /** Ascending by score; equal scores in their input order. */
  predicate InStableOrder(s: seq<Scored>) {
    forall i, j :: 0 <= i < j < |s| ==> Precedes(s[i], s[j])
  }

  /** The first `i` entries of `s` are in stable order. */
  ghost predicate SortedBelow(s: seq<Scored>, i: int)
    requires 0 <= i <= |s|
  {
    forall k, m :: 0 <= k < m < i ==> Precedes(s[k], s[m])
  }

  /** Every entry before position `i` came earlier in the input than every entry from `i` on. */
  ghost predicate SplitByInput(s: seq<Scored>, i: int)
    requires 0 <= i <= |s|
  {
    forall k, m :: 0 <= k < i <= m < |s| ==> s[k].at < s[m].at
  }

  /**
   * Half-way through inserting the entry now at `j` into `s[..i + 1]`: the rest
   * of `s[..i + 1]` is in stable order, the moving entry precedes everything to
   * its right and came later in the input than everything else there.
   */
  ghost predicate Inserting(s: seq<Scored>, j: int, i: int)
    requires 0 <= j <= i < |s|
  {
    && (forall k, m :: 0 <= k < m <= i && k != j && m != j ==> Precedes(s[k], s[m]))
    && (forall m :: j < m <= i ==> Precedes(s[j], s[m]))
    && (forall k :: 0 <= k <= i && k != j ==> s[k].at < s[j].at)
  }

  /** `s` with positions `j - 1` and `j` exchanged. */
  function SwapDown(s: seq<Scored>, j: int): (r: seq<Scored>)
    requires 0 < j < |s|
    ensures |r| == |s| && multiset(r) == multiset(s)
  {
    s[j - 1 := s[j]][j := s[j - 1]]
  }

  /** Swapping the moving entry with a larger-scored left neighbour keeps the insertion state. */
  lemma SwapDownKeeps(s: seq<Scored>, j: int, i: int)
    requires 0 < j <= i < |s|
    requires Inserting(s, j, i) && SplitByInput(s, i + 1)
    requires s[j - 1].score > s[j].score
    ensures Inserting(SwapDown(s, j), j - 1, i) && SplitByInput(SwapDown(s, j), i + 1)
  {
    var r := SwapDown(s, j);
    assert forall k :: 0 <= k < |s| && k != j - 1 && k != j ==> r[k] == s[k];
    assert r[j - 1] == s[j] && r[j] == s[j - 1];
  }

  /** When the moving entry has stopped, `s[..i + 1]` is in stable order. */
  lemma InsertionDone(s: seq<Scored>, j: int, i: int)
    requires 0 <= j <= i < |s|
    requires Inserting(s, j, i)
    requires j == 0 || s[j - 1].score <= s[j].score
    ensures SortedBelow(s, i + 1)
  {
    if j > 0 {
      assert Precedes(s[j - 1], s[j]);
    }
  }

  /**
   * The state of inserting entry `i` of `s0`, which now sits at `j` of `s`:
   * only positions up to `i` have moved, and only by exchanges.
   */
  ghost predicate InsertState(s: seq<Scored>, s0: seq<Scored>, j: int, i: int) {
    && |s| == |s0| && 0 <= j <= i < |s|
    && Inserting(s, j, i) && SplitByInput(s, i + 1)
    && s[i + 1..] == s0[i + 1..]
    && multiset(s) == multiset(s0)
  }

  /** `a` at input order along the whole sequence. */
  ghost predicate InInputOrder(s: seq<Scored>) {
    forall k, m :: 0 <= k < m < |s| ==> s[k].at < s[m].at
  }

  /** Before inserting entry `i`: `s[..i]` is sorted and every entry from `i` on came later in the input. */
  ghost predicate ReadyToInsert(s: seq<Scored>, i: int) {
    && 0 <= i < |s| && SortedBelow(s, i) && SplitByInput(s, i)
    && forall k, m :: i <= k < m < |s| ==> s[k].at < s[m].at
  }

  /** After inserting entry `i` of `s0`: `s[..i + 1]` is sorted, and only positions up to `i` moved, by exchanges. */
  ghost predicate InsertedAt(s: seq<Scored>, s0: seq<Scored>, i: int) {
    && |s| == |s0| && 0 <= i < |s| && SortedBelow(s, i + 1) && SplitByInput(s, i + 1)
    && s[i + 1..] == s0[i + 1..] && multiset(s) == multiset(s0)
  }

  lemma InsertStart(s0: seq<Scored>, i: int)
    requires ReadyToInsert(s0, i)
    ensures InsertState(s0, s0, i, i)
  {
  }

  lemma InsertStep(s: seq<Scored>, s0: seq<Scored>, j: int, i: int)
    requires InsertState(s, s0, j, i)
    requires 0 < j && s[j - 1].score > s[j].score
    ensures InsertState(SwapDown(s, j), s0, j - 1, i)
  {
    SwapDownKeeps(s, j, i);
    var r := SwapDown(s, j);
    assert r[i + 1..] == s[i + 1..];
  }

  lemma InsertEnd(s: seq<Scored>, s0: seq<Scored>, j: int, i: int)
    requires InsertState(s, s0, j, i)
    requires j == 0 || s[j - 1].score <= s[j].score
    ensures InsertedAt(s, s0, i)
  {
    InsertionDone(s, j, i);
  }

  /** The first `i` entries of `s` are sorted, the rest are still those of the input `s0`. */
  ghost predicate SortedUpTo(s: seq<Scored>, s0: seq<Scored>, i: int) {
    && |s| == |s0| && 0 <= i <= |s| && SortedBelow(s, i) && SplitByInput(s, i)
    && s[i..] == s0[i..] && multiset(s) == multiset(s0)
  }

  lemma SortReady(s: seq<Scored>, s0: seq<Scored>, i: int)
    requires InInputOrder(s0) && SortedUpTo(s, s0, i) && i < |s|
    ensures ReadyToInsert(s, i)
  {
    forall k, m | i <= k < m < |s|
      ensures s[k].at < s[m].at
    {
      assert s[k] == s[i..][k - i] == s0[k];
      assert s[m] == s[i..][m - i] == s0[m];
    }
  }

  lemma SortStep(s: seq<Scored>, s0: seq<Scored>, t: seq<Scored>, i: int)
    requires SortedUpTo(s, s0, i) && InsertedAt(t, s, i)
    ensures SortedUpTo(t, s0, i + 1)
  {
    assert s[i + 1..] == s[i..][1..];
    assert s0[i + 1..] == s0[i..][1..];
  }

  lemma SortEnd(s: seq<Scored>, s0: seq<Scored>)
    requires SortedUpTo(s, s0, |s|)
    ensures InStableOrder(s) && multiset(s) == multiset(s0)
  {
  }

  /**
   * `scored.sort((a, b) => a.score - b.score)`: a stable sort (the language
   * requires `Array.prototype.sort` to be stable), here an insertion sort.
   * The entries arrive in input order, so `at` increases along the array.
   */
  method StableSortByScore(a: array<Scored>)
    requires forall i, j :: 0 <= i < j < a.Length ==> a[i].at < a[j].at
    modifies a
    ensures InStableOrder(a[..])
    ensures multiset(a[..]) == old(multiset(a[..]))
  {
    ghost var s0 := a[..];
    assert InInputOrder(s0);
    var i := 0;
    while i < a.Length
      invariant SortedUpTo(a[..], s0, i)
    {
      SortReady(a[..], s0, i);
      ghost var before := a[..];
      InsertAt(a, i);
      SortStep(before, s0, a[..], i);
      i := i + 1;
    }
    SortEnd(a[..], s0);
  }

  /** Moves `a[i]` left past every larger score: `a[..i]` was in stable order, `a[..i + 1]` is afterwards. */
  method InsertAt(a: array<Scored>, i: nat)
    requires ReadyToInsert(a[..], i)
    modifies a
    ensures InsertedAt(a[..], old(a[..]), i)
  {
    ghost var s0 := a[..];
    InsertStart(s0, i);
    var j := i;
    while j > 0 && a[j - 1].score > a[j].score
      invariant InsertState(a[..], s0, j, i)
    {
      ghost var before := a[..];
      InsertStep(before, s0, j, i);
      a[j - 1], a[j] := a[j], a[j - 1];
      assert a[..] == SwapDown(before, j);
      j := j - 1;
    }
    InsertEnd(a[..], s0, j, i);
  }

  /**
   * Ranking: `scored.sort(...)` then `scored.slice(0, 12)`. The result is the
   * first twelve entries in stable score order: ascending, ties in candidate
   * order, and every entry left out comes after every entry kept.
   */
  method Rank(query: string, cands: seq<Designer>, hashes: seq<Result<string, LoadError>>) returns (top: seq<Scored>)
    requires |hashes| == |cands|
    ensures |top| == Min(TopCount, |cands|)
    ensures InStableOrder(top)
    ensures forall k :: 0 <= k < |top| ==> top[k].at < |cands| && top[k] == Entry(query, cands, hashes, top[k].at)
    ensures forall i :: 0 <= i < |cands| && Entry(query, cands, hashes, i) !in top ==>
      forall k :: 0 <= k < |top| ==> Precedes(top[k], Entry(query, cands, hashes, i))
  {
    var n := |cands|;
    var a := new Scored[n](i requires 0 <= i < n => Entry(query, cands, hashes, i));
    ghost var input := a[..];
    assert forall k :: 0 <= k < n ==> input[k] == Entry(query, cands, hashes, k);
    StableSortByScore(a);
    var sorted := a[..];
    assert multiset(sorted) == multiset(input);
    top := sorted[..Min(TopCount, n)];
    forall k | 0 <= k < |top|
      ensures top[k].at < n && top[k] == Entry(query, cands, hashes, top[k].at)
    {
      assert top[k] in multiset(input);
    }
    forall i | 0 <= i < n && Entry(query, cands, hashes, i) !in top
      ensures forall k :: 0 <= k < |top| ==> Precedes(top[k], Entry(query, cands, hashes, i))
    {
      var e := Entry(query, cands, hashes, i);
      assert input[i] == e;
      assert e in multiset(sorted);
      var p :| 0 <= p < n && sorted[p] == e;
      assert p >= |top|;
    }
  }

  /**
   * A failed candidate sorts after every successful one, because a real score
   * is at most the longer hash length, far below `1e9` (`ScoreOf`).
   */
  lemma SuccessesBeforeFailures(query: string, cands: seq<Designer>, hashes: seq<Result<string, LoadError>>, top: seq<Scored>)
    requires |hashes| == |cands|
    requires InStableOrder(top)
    requires forall k :: 0 <= k < |top| ==> top[k].at < |cands| && top[k] == Entry(query, cands, hashes, top[k].at)
    requires |query| < FailedScore
    requires forall i :: 0 <= i < |hashes| && hashes[i].Ok? ==> |hashes[i].value| < FailedScore
    ensures forall k, m :: 0 <= k < m < |top| && hashes[top[k].at].Err? ==> hashes[top[m].at].Err?
  {
  }

  /**
   * A failed candidate is shown only when every candidate that was scored is
   * shown too: the failures fill the places that successes leave free.
   */
  lemma FailureShownOnlyAfterAllSuccesses(query: string, cands: seq<Designer>, hashes: seq<Result<string, LoadError>>, top: seq<Scored>)
    requires |hashes| == |cands|
    requires forall k :: 0 <= k < |top| ==> top[k].at < |cands| && top[k] == Entry(query, cands, hashes, top[k].at)
    requires forall i :: 0 <= i < |cands| && Entry(query, cands, hashes, i) !in top ==>
      forall k :: 0 <= k < |top| ==> Precedes(top[k], Entry(query, cands, hashes, i))
    requires |query| < FailedScore
    requires forall i :: 0 <= i < |hashes| && hashes[i].Ok? ==> |hashes[i].value| < FailedScore
    ensures (exists k :: 0 <= k < |top| && hashes[top[k].at].Err?) ==>
      forall i :: 0 <= i < |cands| && hashes[i].Ok? ==> Entry(query, cands, hashes, i) in top
  {
    if k :| 0 <= k < |top| && hashes[top[k].at].Err? {
      forall i | 0 <= i < |cands| && hashes[i].Ok?
        ensures Entry(query, cands, hashes, i) in top
      {
        DistanceBounds(query, hashes[i].value);
      }
    }
  }

  /** What loading a url yields when `loads` holds the images that load. */
  function Load(loads: map<string, Rgba>, url: string): Option<Rgba> {
    if url in loads then Some(loads[url]) else None
  }

  /** The hash lookup of every candidate, answered from `memo` or by loading the image. */
  function Lookups(memo: map<string, string>, cands: seq<Designer>, loads: map<string, Rgba>): (r: seq<Result<string, LoadError>>)
    requires forall i :: 0 <= i < |cands| ==> HasImage(cands[i])
    ensures |r| == |cands|
    ensures forall i :: 0 <= i < |cands| && HasImage(cands[i]) && cands[i].img.value in memo ==>
      r[i] == Ok(memo[cands[i].img.value])
    ensures forall i :: 0 <= i < |cands| && HasImage(cands[i]) && cands[i].img.value !in memo ==>
      (r[i].Ok? <==> cands[i].img.value in loads)
    ensures forall i :: 0 <= i < |cands| && HasImage(cands[i]) && cands[i].img.value !in memo && cands[i].img.value in loads ==>
      r[i] == Ok(AHashOf(loads[cands[i].img.value]))
  {
    seq(|cands|, i requires 0 <= i < |cands| && HasImage(cands[i]) => Resolve(memo, cands[i].img.value, Load(loads, cands[i].img.value)))
  }

  /** The image urls of `cands`. */
  function Urls(cands: seq<Designer>): set<string> {
    if cands == [] then {}
    else
      var d := cands[|cands| - 1];
      Urls(Init(cands)) + (if d.img.Some? then {d.img.value} else {})
  }

  /** `Urls(cands)` holds exactly the image urls of the designers in `cands`. */
  lemma {:induction false} UrlsAreImages(cands: seq<Designer>, url: string)
    ensures url in Urls(cands) <==> exists d :: d in cands && d.img == Some(url)
  {
    if cands != [] {
      var d := cands[|cands| - 1];
      assert forall e :: e in cands <==> e in Init(cands) || e == d;
      UrlsAreImages(Init(cands), url);
    }
  }

  /**
   * `hashes` is what the memo `memo` holds after looking up the candidates of
   * `cands` (those that load are described by `loads`): its earlier entries,
   * plus the hash of every candidate image that loads and was not stored yet.
   */
  ghost predicate MemoAfter(memo: map<string, string>, cands: seq<Designer>, loads: map<string, Rgba>, hashes: map<string, string>) {
    && hashes.Keys == memo.Keys + (Urls(cands) * loads.Keys)
    && (forall url :: url in memo ==> hashes[url] == memo[url])
    && (forall url :: url in hashes && url !in memo ==> hashes[url] == AHashOf(loads[url]))
  }

  /** One more lookup answers as `memo` would have: earlier lookups stored only hashes of the loaded images. */
  lemma LookupUnchanged(memo: map<string, string>, cands: seq<Designer>, loads: map<string, Rgba>, before: map<string, string>, url: string)
    requires MemoAfter(memo, cands, loads, before)
    ensures Resolve(before, url, Load(loads, url)) == Resolve(memo, url, Load(loads, url))
  {
    if url in before && url !in memo {
      assert url in loads;
    }
  }

  /** The urls of one more candidate. */
  lemma UrlsStep(cands: seq<Designer>, i: int)
    requires 0 <= i < |cands| && HasImage(cands[i])
    ensures Urls(cands[..i + 1]) == Urls(cands[..i]) + {cands[i].img.value}
  {
    assert Init(cands[..i + 1]) == cands[..i];
  }

  /** A new candidate url whose image loads: its hash joins the memo. */
  lemma MemoAfterGrow(memo: map<string, string>, c: seq<Designer>, c': seq<Designer>, loads: map<string, Rgba>,
                      before: map<string, string>, url: string)
    requires MemoAfter(memo, c, loads, before)
    requires Urls(c') == Urls(c) + {url}
    requires url !in before && url in loads
    ensures MemoAfter(memo, c', loads, before[url := AHashOf(loads[url])])
  {
  }

  /** A candidate url already stored, or whose image fails to load: the memo stays as it is. */
  lemma MemoAfterSame(memo: map<string, string>, c: seq<Designer>, c': seq<Designer>, loads: map<string, Rgba>,
                      before: map<string, string>, url: string)
    requires MemoAfter(memo, c, loads, before)
    requires Urls(c') == Urls(c) + {url}
    requires url in before || url !in loads
    ensures MemoAfter(memo, c', loads, before)
  {
  }

  /** One more lookup: the memo grows as `MemoAfter` says. */
  lemma MemoAfterStep(memo: map<string, string>, cands: seq<Designer>, loads: map<string, Rgba>, i: int,
                      before: map<string, string>, after: map<string, string>, h: Result<string, LoadError>)
    requires 0 <= i < |cands| && HasImage(cands[i])
    requires MemoAfter(memo, cands[..i], loads, before)
    requires h == Resolve(before, cands[i].img.value, Load(loads, cands[i].img.value))
    requires after == if cands[i].img.value !in before && h.Ok? then before[cands[i].img.value := h.value] else before
    ensures MemoAfter(memo, cands[..i + 1], loads, after)
    ensures h == Resolve(memo, cands[i].img.value, Load(loads, cands[i].img.value))
  {
    var url := cands[i].img.value;
    LookupUnchanged(memo, cands[..i], loads, before, url);
    UrlsStep(cands, i);
    if url !in before && h.Ok? {
      MemoAfterGrow(memo, cands[..i], cands[..i + 1], loads, before, url);
    } else {
      MemoAfterSame(memo, cands[..i], cands[..i + 1], loads, before, url);
    }
  }

  /**
   * After the first `i` lookups: each answered as `memo` would, and the memo
   * is `current`, grown as `MemoAfter` says.
   */
  ghost predicate LookedUp(memo: map<string, string>, cands: seq<Designer>, loads: map<string, Rgba>,
                           i: int, hashes: seq<Result<string, LoadError>>, current: map<string, string>) {
    && 0 <= i <= |cands| && |hashes| == i
    && (forall k :: 0 <= k < i ==>
          HasImage(cands[k]) && hashes[k] == Resolve(memo, cands[k].img.value, Load(loads, cands[k].img.value)))
    && MemoAfter(memo, cands[..i], loads, current)
  }

  lemma LookedUpStep(memo: map<string, string>, cands: seq<Designer>, loads: map<string, Rgba>, i: int,
                     hashes: seq<Result<string, LoadError>>, before: map<string, string>,
                     after: map<string, string>, h: Result<string, LoadError>)
    requires LookedUp(memo, cands, loads, i, hashes, before)
    requires i < |cands| && HasImage(cands[i])
    requires h == Resolve(before, cands[i].img.value, Load(loads, cands[i].img.value))
    requires after == if cands[i].img.value !in before && h.Ok? then before[cands[i].img.value := h.value] else before
    ensures LookedUp(memo, cands, loads, i + 1, hashes + [h], after)
  {
    MemoAfterStep(memo, cands, loads, i, before, after, h);
  }

  lemma LookedUpAll(memo: map<string, string>, cands: seq<Designer>, loads: map<string, Rgba>,
                    hashes: seq<Result<string, LoadError>>, current: map<string, string>)
    requires forall i :: 0 <= i < |cands| ==> HasImage(cands[i])
    requires LookedUp(memo, cands, loads, |cands|, hashes, current)
    ensures hashes == Lookups(memo, cands, loads)
    ensures MemoAfter(memo, cands, loads, current)
  {
    assert cands[..|cands|] == cands;
  }

  /**
   * `candidates.map(d => hashFromUrl(d.img))`, one request after the other:
   * each lookup answers as the memo stood before the first, and the memo gains
   * the hash of every candidate image that loads and was not yet stored, and
   * nothing else.
   */
  method HashAll(cache: HashCache, cands: seq<Designer>, loads: map<string, Rgba>)
      returns (hashes: seq<Result<string, LoadError>>)
    requires cache.Valid()
    requires forall i :: 0 <= i < |cands| ==> HasImage(cands[i])
    modifies cache
    ensures cache.Valid()
    ensures hashes == Lookups(old(cache.hashes), cands, loads)
    ensures MemoAfter(old(cache.hashes), cands, loads, cache.hashes)
  {
    ghost var memo := cache.hashes;
    hashes := [];
    assert cands[..0] == [];
    for i := 0 to |cands|
      invariant cache.Valid()
      invariant LookedUp(memo, cands, loads, i, hashes, cache.hashes)
    {
      var url := cands[i].img.value;
      ghost var before := cache.hashes;
      var h := cache.HashFromUrl(url, Load(loads, url));
      LookedUpStep(memo, cands, loads, i, hashes, before, cache.hashes, h);
      hashes := hashes + [h];
    }
    LookedUpAll(memo, cands, loads, hashes, cache.hashes);
  }

  /**
   * The photo-search handler, run sequentially: hash the photo, look every
   * candidate up through the memo, rank, and return the top designers.
   */
  method SearchByPhoto(cache: HashCache, photo: Rgba, designers: seq<Designer>, loads: map<string, Rgba>)
      returns (ranked: seq<Scored>, top: seq<Designer>)
    requires cache.Valid()
    modifies cache
    ensures cache.Valid()
    ensures var cands := Candidates(designers);
      var hashes := Lookups(old(cache.hashes), cands, loads);
      var query := AHashOf(photo);
      && |ranked| == Min(TopCount, |cands|)
      && InStableOrder(ranked)
      && (forall k :: 0 <= k < |ranked| ==> ranked[k].at < |cands| && ranked[k] == Entry(query, cands, hashes, ranked[k].at))
      && (forall i :: 0 <= i < |cands| && Entry(query, cands, hashes, i) !in ranked ==>
            forall k :: 0 <= k < |ranked| ==> Precedes(ranked[k], Entry(query, cands, hashes, i)))
    ensures |top| == |ranked| && forall k :: 0 <= k < |top| ==> top[k] == ranked[k].designer
    ensures MemoAfter(old(cache.hashes), Candidates(designers), loads, cache.hashes)
  {
    var query := ImageToAHash(photo);
    var cands := Candidates(designers);
    assert forall i :: 0 <= i < |cands| ==> cands[i] in cands;
    var hashes := HashAll(cache, cands, loads);
    ranked := Rank(query, cands, hashes);
    top := seq(|ranked|, k requires 0 <= k < |ranked| => ranked[k].designer);
  }
}
