/**
 The physical page allocator of src/mem/pmalloc.cpp.

 Free memory is a list of runs of pages: the first `Page` of a run is linked and holds the run's
 length.  Pages are numbered (physical address divided by PAGE_SIZE); a listed page together with
 its count is a `Run`.  The list is hz::list: push appends, pop takes the last entry.
 */
module PMalloc {

  const PAGE_SIZE: nat := 4096

  predicate Within(q: int, s: int, n: int) {
    s <= q < s + n
  }

  /** The n pages from page s on. */
  function Range(s: int, n: int): set<int> {
    set q {:trigger Within(q, s, n)} | s <= q < s + n && Within(q, s, n)
  }

  lemma RangeSplit(s: int, n: int, c: int)
    requires 0 <= n <= c
    ensures Range(s, c) == Range(s, n) + Range(s + n, c - n)
    ensures Range(s, n) !! Range(s + n, c - n)
  {
  }

  /** Taking c pages off a set and putting all but the first n back takes n off. */
  lemma TakePart(free: set<int>, s: int, n: int, c: int)
    requires 0 <= n <= c && Range(s, c) <= free
    ensures free - Range(s, c) + Range(s + n, c - n) == free - Range(s, n)
    ensures Range(s, n) <= free && Range(s + n, c - n) <= free
  {
    RangeSplit(s, n, c);
  }

  datatype Run = Run(start: nat, count: nat) {
    function Pages(): set<int> {
      Range(start, count)
    }
  }

  predicate Apart(r: Run, s: Run) {
    r.start + r.count <= s.start || s.start + s.count <= r.start
  }

  /** The runs are non-empty, pairwise disjoint and do not include page 0, whose address means failure. */
  ghost predicate RunsOk(list: seq<Run>) {
    && (forall i :: 0 <= i < |list| ==> list[i].start > 0 && list[i].count > 0)
    && (forall i, j {:trigger Apart(list[i], list[j])} :: 0 <= i < j < |list| ==> Apart(list[i], list[j]))
  }

  /** The free pages: those of the listed runs. */
  ghost function Pages(list: seq<Run>): set<int> {
    set i, q | 0 <= i < |list| && q in list[i].Pages() :: q
  }

  // ----- list surgery -----

  function Without(list: seq<Run>, k: nat): seq<Run>
    requires k < |list|
  {
    list[..k] + list[k + 1..]
  }

  lemma EntriesApart(list: seq<Run>, i: nat, j: nat)
    requires RunsOk(list) && i < |list| && j < |list| && i != j
    ensures Apart(list[i], list[j])
  {
    assert i < j ==> Apart(list[i], list[j]);
    assert j < i ==> Apart(list[j], list[i]);
  }

  lemma WithoutFacts(list: seq<Run>, k: nat)
    requires RunsOk(list) && k < |list|
    ensures RunsOk(Without(list, k))
    ensures list[k].Pages() <= Pages(list)
    ensures Pages(Without(list, k)) == Pages(list) - list[k].Pages()
    ensures forall i :: 0 <= i < |Without(list, k)| ==> Apart(Without(list, k)[i], list[k])
  {
    var rest := Without(list, k);
    forall i | 0 <= i < |rest|
      ensures Apart(rest[i], list[k]) && rest[i].Pages() <= Pages(list)
    {
      var i' := if i < k then i else i + 1;
      assert rest[i] == list[i'];
      EntriesApart(list, i', k);
    }
    forall i, j | 0 <= i < j < |rest|
      ensures Apart(rest[i], rest[j])
    {
      EntriesApart(list, if i < k then i else i + 1, if j < k then j else j + 1);
    }
    forall q | q in Pages(list) && q !in list[k].Pages()
      ensures q in Pages(rest)
    {
      var i :| 0 <= i < |list| && q in list[i].Pages();
      assert rest[if i < k then i else i - 1] == list[i];
    }
  }

  lemma AddFacts(list: seq<Run>, r: Run)
    requires RunsOk(list) && r.start > 0 && r.count > 0 && r.Pages() !! Pages(list)
    ensures RunsOk(list + [r]) && RunsOk([r] + list)
    ensures Pages(list + [r]) == Pages([r] + list) == Pages(list) + r.Pages()
  {
    forall i | 0 <= i < |list|
      ensures Apart(list[i], r)
    {
      var q := if list[i].start < r.start then r.start else list[i].start;
      assert q in list[i].Pages() ==> q in Pages(list);
    }
    forall q | q in Pages(list)
      ensures q in Pages(list + [r]) && q in Pages([r] + list)
    {
      var i :| 0 <= i < |list| && q in list[i].Pages();
      assert (list + [r])[i] == list[i] && ([r] + list)[i + 1] == list[i];
    }
    assert (list + [r])[|list|] == r && ([r] + list)[0] == r;
  }

  /** The list after the first n pages of run k are taken: the rest of the run becomes the last entry. */
  function Taken(list: seq<Run>, k: nat, n: nat): seq<Run>
    requires k < |list|
  {
    if list[k].count > n then Without(list, k) + [Run(list[k].start + n, list[k].count - n)] else Without(list, k)
  }

  /** Listing the rest of a run after its first n pages were taken. */
  lemma RestListed(rest: seq<Run>, free: set<int>, page: Run, n: nat)
    requires RunsOk(rest) && page.start > 0 && 0 < n < page.count && page.Pages() <= free
             && Pages(rest) == free - page.Pages()
    ensures var all := rest + [Run(page.start + n, page.count - n)];
            RunsOk(all) && Pages(all) == free - Range(page.start, n) && Range(page.start, n) <= free
  {
    var next := Run(page.start + n, page.count - n);
    TakePart(free, page.start, n, page.count);
    assert next.Pages() !! Pages(rest) by {
      RangeSplit(page.start, n, page.count);
    }
    AddFacts(rest, next);
    assert Pages(rest + [next]) == free - Range(page.start, page.count) + Range(page.start + n, page.count - n);
  }

  lemma TakenFacts(list: seq<Run>, k: nat, n: nat)
    requires RunsOk(list) && k < |list| && 0 < n <= list[k].count
    ensures RunsOk(Taken(list, k, n))
    ensures Range(list[k].start, n) <= Pages(list)
    ensures Pages(Taken(list, k, n)) == Pages(list) - Range(list[k].start, n)
  {
    WithoutFacts(list, k);
    if list[k].count > n {
      RestListed(Without(list, k), Pages(list), list[k], n);
    }
  }

  /** Cutting run k after its first n pages takes exactly the rest of it off the free pages. */
  lemma CutFacts(list: seq<Run>, k: nat, n: nat)
    requires RunsOk(list) && k < |list| && 0 < n <= list[k].count
    ensures var cut := list[k := Run(list[k].start, n)];
            RunsOk(cut) && Pages(cut) == Pages(list) - Range(list[k].start + n, list[k].count - n)
  {
    var cut := list[k := Run(list[k].start, n)];
    forall q | q in Pages(cut)
      ensures q in Pages(list) && q !in Range(list[k].start + n, list[k].count - n)
    {
      var i :| 0 <= i < |cut| && q in cut[i].Pages();
      assert q in list[i].Pages();
      if i != k {
        EntriesApart(list, i, k);
      }
    }
    forall i, j | 0 <= i < j < |cut|
      ensures Apart(cut[i], cut[j])
    {
      EntriesApart(list, i, j);
    }
    forall q | q in Pages(list) && q !in Range(list[k].start + n, list[k].count - n)
      ensures q in Pages(cut)
    {
      var i :| 0 <= i < |list| && q in list[i].Pages();
      assert q in cut[i].Pages();
    }
  }

  // ----- walking the list -----

  /** The part of the list from the entry of page s on; empty if s is not listed. */
  function From(list: seq<Run>, s: nat): seq<Run> {
    if list == [] then [] else if list[0].start == s then list else From(list[1..], s)
  }

  lemma {:induction false} FromListed(list: seq<Run>, s: nat)
    ensures From(list, s) != [] <==> exists i :: 0 <= i < |list| && list[i].start == s
    ensures |From(list, s)| <= |list| && From(list, s) == list[|list| - |From(list, s)|..]
    ensures From(list, s) != [] ==> From(list, s)[0].start == s
  {
    if list != [] {
      FromListed(list[1..], s);
      if i :| 0 <= i < |list| && list[i].start == s {
        assert i > 0 ==> list[1..][i - 1] == list[i];
      }
    }
  }

  lemma {:induction false} FromAt(list: seq<Run>, k: nat)
    requires RunsOk(list) && k < |list|
    ensures From(list, list[k].start) == list[k..]
  {
    if k > 0 {
      assert Apart(list[0], list[k]);
      FromAt(list[1..], k - 1);
    }
  }

  lemma NullNotListed(list: seq<Run>)
    requires RunsOk(list)
    ensures From(list, 0) == []
  {
    FromListed(list, 0);
  }

  /** The list without the runs that start in [start, start + n). */
  function Outside(list: seq<Run>, start: nat, n: nat): (rest: seq<Run>)
    ensures |rest| <= |list|
  {
    if list == [] then []
    else if start <= list[0].start < start + n then Outside(list[1..], start, n)
    else [list[0]] + Outside(list[1..], start, n)
  }

  lemma {:induction false} OutsideFacts(list: seq<Run>, start: nat, n: nat)
    ensures forall r :: r in Outside(list, start, n) <==> r in list && !(start <= r.start < start + n)
  {
    if list != [] {
      OutsideFacts(list[1..], start, n);
    }
  }

  lemma {:induction false} OutsideNone(list: seq<Run>, start: nat, n: nat)
    requires forall i :: 0 <= i < |list| ==> !(start <= list[i].start < start + n)
    ensures Outside(list, start, n) == list
  {
    if list != [] {
      assert forall i :: 0 <= i < |list[1..]| ==> list[1..][i] == list[i + 1];
      OutsideNone(list[1..], start, n);
    }
  }

  /** Dropping the runs of two stretches that make up one. */
  lemma {:induction false} OutsideTwice(list: seq<Run>, a: nat, n: nat, b: nat, m: nat, k: nat)
    requires (b == a + n && k == n + m) || (b == a && n <= m && k == m)
    ensures Outside(Outside(list, a, n), b, m) == Outside(list, a, k)
  {
    if list != [] {
      OutsideTwice(list[1..], a, n, b, m, k);
    }
  }

  /** Dropping the one run that starts there. */
  lemma {:induction false} OutsideOne(list: seq<Run>, k: nat)
    requires RunsOk(list) && k < |list|
    ensures Outside(list, list[k].start, list[k].count) == Without(list, k)
  {
    var r := list[k];
    if k == 0 {
      forall i | 0 <= i < |list[1..]|
        ensures !(r.start <= list[1..][i].start < r.start + r.count)
      {
        EntriesApart(list, 0, i + 1);
      }
      OutsideNone(list[1..], r.start, r.count);
    } else {
      EntriesApart(list, 0, k);
      OutsideOne(list[1..], k - 1);
      assert Without(list, k) == [list[0]] + Without(list[1..], k - 1);
    }
  }

  /** Unlinking another entry takes exactly that entry off the part still ahead. */
  lemma {:induction false} FromWithout(list: seq<Run>, k: nat, s: nat)
    requires RunsOk(list) && k < |list| && list[k].start != s
    ensures From(Without(list, k), s) == Outside(From(list, s), list[k].start, list[k].count)
  {
    if list[0].start == s {
      assert Without(list, k)[0] == list[0];
      OutsideOne(list, k);
    } else if k == 0 {
      assert Without(list, 0) == list[1..];
      FromListed(list[1..], s);
      var rest := From(list[1..], s);
      forall i | 0 <= i < |rest|
        ensures !(list[0].start <= rest[i].start < list[0].start + list[0].count)
      {
        EntriesApart(list, 0, |list| - |rest| + i);
      }
      OutsideNone(rest, list[0].start, list[0].count);
    } else {
      assert Without(list, k)[1..] == Without(list[1..], k - 1) && Without(list, k)[0] == list[0];
      FromWithout(list[1..], k - 1, s);
    }
  }

  // ----- contiguous ranges -----

  predicate PowerOfTwo(n: nat) {
    n == 1 || (n > 0 && n % 2 == 0 && PowerOfTwo(n / 2))
  }

  lemma MulAtLeast(d: int, b: int)
    requires b > 0
    ensures d >= 1 ==> d * b >= b
    ensures d <= -1 ==> d * b <= -b
  {
  }

  lemma DivMod(x: int, b: int, q: int, r: int)
    requires b > 0 && 0 <= r < b && x == q * b + r
    ensures x / b == q && x % b == r
  {
    var q', r' := x / b, x % b;
    assert x == b * q' + r' && 0 <= r' < b;
    MulAtLeast(q - q', b);
    assert (q - q') * b == q * b - b * q' == r' - r;
  }

  lemma {:induction false} LargerPowerIsMultiple(n: nat, p: nat)
    requires PowerOfTwo(n) && PowerOfTwo(p) && n >= p
    ensures n % p == 0
  {
    if p > 1 {
      LargerPowerIsMultiple(n / 2, p / 2);
      var m := (n / 2) / (p / 2);
      assert n / 2 == m * (p / 2);
      DivMod(n, p, m, 0);
    }
  }

  /** What the caller asks for: `count` pages inside [low, high), crossing no multiple of `boundary`
      unless that is 0. */
  datatype Request = Request(low: nat, high: nat, count: nat, boundary: nat) {
    /** A boundary is a power of two of at least the requested size. */
    ghost predicate Ok() {
      count > 0 && (boundary == 0 || (PowerOfTwo(boundary) && boundary >= count * PAGE_SIZE))
    }

    predicate Crosses(start: nat) {
      boundary != 0 && boundary - start * PAGE_SIZE % boundary < count * PAGE_SIZE
    }

    /** Pages from `start` to the next boundary. */
    function Align(start: nat): nat
      requires boundary != 0
    {
      ((start * PAGE_SIZE + boundary - 1) / boundary * boundary - start * PAGE_SIZE) / PAGE_SIZE
    }

    predicate InRange(start: nat) {
      low <= start * PAGE_SIZE && start * PAGE_SIZE + count * PAGE_SIZE <= high
    }

    /** The page at which an allocation from run r would start: r's first page, or the first page
        after the boundary it is too close to. */
    function Candidate(r: Run): nat {
      if Crosses(r.start) then r.start + Align(r.start) else r.start
    }

    /** Run r reaches its candidate and that is in range, so r is taken off the list. */
    predicate Tries(r: Run) {
      Candidate(r) in r.Pages() && InRange(Candidate(r))
    }

    /** No allocation can be made from run r, given the free pages. */
    ghost predicate Rejects(free: set<int>, r: Run) {
      !Tries(r) || !(Range(Candidate(r), count) <= free)
    }
  }

  /** Past the boundary the request fits before the next one. */
  lemma AlignFacts(req: Request, start: nat)
    requires req.Ok() && req.Crosses(start)
    ensures 0 < req.Align(start) && !req.Crosses(start + req.Align(start))
    ensures (start + req.Align(start)) * PAGE_SIZE % req.boundary == 0
  {
    var b, a := req.boundary, start * PAGE_SIZE;
    var q, r := a / b, a % b;
    LargerPowerIsMultiple(b, PAGE_SIZE);
    var m := b / PAGE_SIZE;
    assert a == q * b + r && r > 0;
    DivMod(a + b - 1, b, q + 1, r - 1) by {
      assert (q + 1) * b == q * b + b;
    }
    var up := (q + 1) * b;
    assert up == ((q + 1) * m) * PAGE_SIZE by {
      assert b == m * PAGE_SIZE;
    }
    assert req.Align(start) == (q + 1) * m - start;
    assert (start + req.Align(start)) * PAGE_SIZE == up;
    assert up - a == b - r by {
      assert (q + 1) * b == q * b + b;
    }
    DivMod(up, b, q + 1, 0);
  }

  /** A request that does not cross lies between two neighbouring multiples of the boundary. */
  lemma NoCrossing(req: Request, start: nat)
    requires req.Ok() && req.boundary != 0 && !req.Crosses(start)
    ensures start * PAGE_SIZE / req.boundary == (start * PAGE_SIZE + req.count * PAGE_SIZE - 1) / req.boundary
  {
    var b, a := req.boundary, start * PAGE_SIZE;
    DivMod(a + req.count * PAGE_SIZE - 1, b, a / b, a % b + req.count * PAGE_SIZE - 1);
  }

  /** The number of free pages in a row from page c on. */
  ghost function Stretch(free: set<int>, c: int): nat {
    if c in free then 1 + Stretch(free - {c}, c + 1) else 0
  }

  /**
   Whether a search over these runs comes to lose a successor: the first run rejects the request, but
   is tried, and the free stretch at its candidate reaches the next one; or that happens later, to
   what is left after the runs in the stretch were unlinked.
   */
  ghost predicate Loses(ahead: seq<Run>, free: set<int>, req: Request)
    decreases |ahead|
  {
    && |ahead| > 1 && req.Rejects(free, ahead[0])
    && if req.Tries(ahead[0]) then
         var c := req.Candidate(ahead[0]);
         var n := Stretch(free, c);
         c <= ahead[1].start < c + n || Loses(Outside(ahead[1..], c, n), free, req)
       else
         Loses(ahead[1..], free, req)
  }

  /** What the search still has to do from entry cur on, if that is not 0. */
  ghost predicate Pending(list0: seq<Run>, list: seq<Run>, cur: nat, free: set<int>, req: Request) {
    && (cur != 0 ==> From(list, cur) != [])
    && (forall r :: r in list0 && !req.Rejects(free, r) ==> r in From(list, cur))
    && (forall r :: r in From(list, cur) ==> r in list0)
    && (cur != 0 && Loses(From(list, cur), free, req)) == Loses(list0, free, req)
  }

  lemma PendingAtFirst(list: seq<Run>, req: Request)
    requires RunsOk(list)
    ensures Pending(list, list, if list == [] then 0 else list[0].start, Pages(list), req)
  {
    if list != [] {
      FromAt(list, 0);
    }
  }

  /** A run lying in a free stretch that is too short cannot satisfy the request either. */
  lemma ShortStretchRejects(free: set<int>, req: Request, start: nat, extent: nat, r: Run)
    requires r.Pages() <= free && start + extent !in free && extent < req.count && start <= r.start < start + extent
    ensures req.Rejects(free, r)
  {
    var c := req.Candidate(r);
    if c in r.Pages() {
      assert start + extent in r.Pages() ==> start + extent in free;
      assert start + extent in Range(c, req.count);
    }
  }

  /** Exactly the runs that start in [start, start + n) were unlinked from the part ahead of s. */
  ghost predicate AheadKept(list: seq<Run>, list': seq<Run>, s: nat, start: nat, n: nat) {
    s != start ==> From(list', s) == if start <= s < start + n then [] else Outside(From(list, s), start, n)
  }

  lemma StillAhead(list0: seq<Run>, list: seq<Run>, k: nat, list': seq<Run>, req: Request, r: Run, next: nat,
                   start: nat, extent: nat)
    requires k < |list| && r in list[k..] && r != list[k]
    requires r in list0 && !req.Rejects(Pages(list0), r)
    requires next == if k + 1 < |list| then list[k + 1].start else 0
    requires From(list, next) == list[k + 1..] && next != start
    requires AheadKept(list, list', next, start, extent) && (k + 1 < |list| ==> From(list', next) != [])
    requires extent > 0 ==> start + extent !in Pages(list0) && extent < req.count
    ensures r in From(list', next)
  {
    assert r in list[k + 1..];
    OutsideFacts(From(list, next), start, extent);
    var i :| 0 <= i < |list0| && list0[i] == r;
    assert r.Pages() <= Pages(list0);
    if start <= r.start < start + extent {
      ShortStretchRejects(Pages(list0), req, start, extent, r);
    }
  }

  /** The successor is still listed after a failed attempt on run k. */
  lemma PendingStep(list0: seq<Run>, list: seq<Run>, k: nat, list': seq<Run>, req: Request, start: nat, extent: nat,
                    free: set<int>)
    requires k + 1 < |list| && free == Pages(list0) && Pending(list0, list, list[k].start, free, req)
    requires From(list, list[k].start) == list[k..] && req.Rejects(free, list[k]) && list[k].start != 0
    requires extent > 0 ==> start + extent !in free && extent < req.count
    requires var next := list[k + 1].start;
             && next != start && next != 0 && From(list, next) == list[k + 1..] && From(list', next) != []
             && AheadKept(list, list', next, start, extent)
             && (Loses(list[k..], free, req) <==> Loses(From(list', next), free, req))
    ensures Pending(list0, list', list[k + 1].start, free, req)
    ensures |From(list', list[k + 1].start)| < |From(list, list[k].start)|
  {
    var next := list[k + 1].start;
    forall r | r in list0 && !req.Rejects(free, r)
      ensures r in From(list', next)
    {
      StillAhead(list0, list, k, list', req, r, next, start, extent);
    }
    OutsideFacts(From(list, next), start, extent);
  }

  /** There is no successor. */
  lemma PendingLast(list0: seq<Run>, list: seq<Run>, list': seq<Run>, req: Request, free: set<int>)
    requires list != [] && RunsOk(list) && RunsOk(list') && req.Rejects(free, list[|list| - 1])
    requires Pending(list0, list, list[|list| - 1].start, free, req)
    ensures Pending(list0, list', 0, free, req)
  {
    FromAt(list, |list| - 1);
    NullNotListed(list');
  }

  /** The free stretch at the candidate of run r is too short for the request but reaches run s. */
  ghost predicate MayLose(list: seq<Run>, req: Request, r: Run, s: Run) {
    var c := req.Candidate(r);
    && r in list && s in list && r != s
    && req.Tries(r) && req.Rejects(Pages(list), r)
    && c <= s.start && Range(c, s.start + 1 - c) <= Pages(list)
  }

  lemma LostFacts(list0: seq<Run>, list: seq<Run>, k: nat, req: Request, start: nat, extent: nat)
    requires RunsOk(list) && k + 1 < |list| && (forall r :: r in list[k..] ==> r in list0)
    requires req.Tries(list[k]) && req.Rejects(Pages(list0), list[k]) && start == req.Candidate(list[k])
    requires start <= list[k + 1].start < start + extent && Range(start, extent) <= Pages(list0)
    ensures exists r, s :: MayLose(list0, req, r, s)
  {
    var next := list[k + 1].start;
    assert list[k] in list[k..] && list[k + 1] in list[k..];
    assert Range(start, next + 1 - start) <= Range(start, extent);
    EntriesApart(list, k, k + 1);
    assert MayLose(list0, req, list[k], list[k + 1]);
  }

  lemma {:induction false} StretchIs(free: set<int>, c: int, n: nat)
    requires Range(c, n) <= free && c + n !in free
    ensures Stretch(free, c) == n
    decreases n
  {
    if n > 0 {
      assert c in Range(c, n);
      forall q | q in Range(c + 1, n - 1)
        ensures q in Range(c, n)
      {
      }
      StretchIs(free - {c}, c + 1, n - 1);
    }
  }

  /** One failed attempt, on run k. */
  lemma LossStep(list: seq<Run>, k: nat, list': seq<Run>, req: Request, start: nat, extent: nat, free: set<int>)
    requires k < |list| && req.Rejects(free, list[k]) && (extent > 0 <==> req.Tries(list[k]))
    requires extent > 0 ==> start == req.Candidate(list[k]) && Range(start, extent) <= free && start + extent !in free
    requires k + 1 < |list| ==>
               var next := list[k + 1].start;
               From(list, next) == list[k + 1..] && AheadKept(list, list', next, start, extent) && next != start
    ensures Loses(list[k..], free, req) <==>
            && k + 1 < |list|
            && var next := list[k + 1].start;
               start <= next < start + extent || Loses(From(list', next), free, req)
  {
    var ahead := list[k..];
    assert ahead[1..] == list[k + 1..];
    if extent > 0 {
      StretchIs(free, start, extent);
    } else {
      OutsideNone(list[k + 1..], start, 0);
    }
  }

  lemma TakenFits(list: seq<Run>, k: nat, req: Request)
    requires RunsOk(list) && k < |list| && req.Ok() && !req.Rejects(Pages(list), list[k])
    ensures var phys := req.Candidate(list[k]) * PAGE_SIZE;
            && phys > 0 && phys / PAGE_SIZE == req.Candidate(list[k])
            && (req.boundary != 0 ==> phys / req.boundary == (phys + req.count * PAGE_SIZE - 1) / req.boundary)
  {
    if req.Crosses(list[k].start) {
      AlignFacts(req, list[k].start);
    }
    if req.boundary != 0 {
      NoCrossing(req, req.Candidate(list[k]));
    }
  }

  lemma TwoPagesLose(req: Request)
    requires req == Request(0, 100 * PAGE_SIZE, 3, 0)
    ensures var list := [Run(8, 1), Run(9, 1)];
            8 in Pages(list) && 9 in Pages(list) && Loses(list, Pages(list), req)
  {
    var list := [Run(8, 1), Run(9, 1)];
    assert 8 in list[0].Pages() && 9 in list[1].Pages();
    assert 10 !in Pages(list) && 10 in Range(8, 3);
    StretchIs(Pages(list), 8, 2);
  }

  /** After a failed attempt the successor is unlinked exactly if it lies in the stretch put back. */
  lemma UnlinkedIff(list: seq<Run>, list': seq<Run>, s: nat, start: nat, extent: nat)
    requires RunsOk(list') && list' != [] && list'[0] == Run(start, extent)
    requires From(list, s) != [] && s != start && AheadKept(list, list', s, start, extent)
    ensures From(list', s) == [] <==> start <= s < start + extent
  {
    FromListed(list', s);
    if From(list', s) != [] {
      var i :| 0 <= i < |list'| && list'[i].start == s;
      EntriesApart(list', 0, i);
    }
  }

  lemma StartsThere(list: seq<Run>, k: nat, q: nat)
    requires RunsOk(list) && k < |list| && q in list[k].Pages() && q - 1 !in Pages(list)
    ensures list[k].start == q
  {
    assert q - 1 in list[k].Pages() ==> q - 1 in Pages(list);
  }

  lemma NothingUnlinked(list: seq<Run>, start: nat, n: nat, s: nat)
    requires RunsOk(list) && Range(start, n) !! Pages(list)
    ensures AheadKept(list, list, s, start, n)
  {
    forall i | 0 <= i < |list|
      ensures !(start <= list[i].start < start + n)
    {
      assert list[i].start in list[i].Pages();
      assert list[i].start in Pages(list);
    }
    FromListed(list, s);
    OutsideNone(From(list, s), start, n);
  }

  lemma PrependAhead(list: seq<Run>, r: Run, s: nat)
    requires RunsOk([r] + list)
    ensures r.start != s ==> From([r] + list, s) == From(list, s)
  {
    assert ([r] + list)[1..] == list;
  }

  lemma WithoutAhead(list0: seq<Run>, list: seq<Run>, k: nat, s: nat, start: nat, n: nat)
    requires RunsOk(list) && k < |list| && list[k].start == start + n
    requires AheadKept(list0, list, s, start, n)
    ensures AheadKept(list0, Without(list, k), s, start, n + list[k].count)
  {
    var r := list[k];
    WithoutFacts(list, k);
    if s == r.start {
      FromListed(Without(list, k), s);
    } else {
      FromWithout(list, k, s);
      if r.start <= s < r.start + r.count {
        FromListed(list, s);
        assert From(list, s) == [] by {
          if i :| 0 <= i < |list| && list[i].start == s {
            EntriesApart(list, i, k);
          }
        }
      } else {
        OutsideTwice(From(list0, s), start, n, r.start, r.count, n + r.count);
      }
    }
  }

  class PageAllocator {
    var list: seq<Run>

    ghost predicate Valid()
      reads this
    {
      RunsOk(list)
    }

    ghost function FreePages(): set<int>
      reads this
    {
      Pages(list)
    }

    constructor ()
      ensures Valid() && list == [] && FreePages() == {}
    {
      list := [];
    }

    /** Removes run k and puts back all but its first n pages. */
    method Take(k: nat, n: nat)
      requires Valid() && k < |list| && 0 < n <= list[k].count
      modifies this
      ensures Valid()
      ensures Range(old(list)[k].start, n) <= old(FreePages())
      ensures FreePages() == old(FreePages()) - Range(old(list)[k].start, n)
      ensures n == old(list)[k].count ==> list == Without(old(list), k)
    {
      TakenFacts(list, k, n);
      var page := list[k];
      list := Without(list, k);
      if page.count > n {
        list := list + [Run(page.start + n, page.count - n)];
      }
    }

    /** Returns a page's address, or 0 if no page is free. */
    method Pmalloc() returns (phys: nat)
      requires Valid()
      modifies this
      ensures Valid()
      ensures phys == 0 <==> old(FreePages()) == {}
      ensures phys == 0 ==> list == old(list)
      ensures phys != 0 ==> phys % PAGE_SIZE == 0 && phys / PAGE_SIZE in old(FreePages())
      ensures phys != 0 ==> FreePages() == old(FreePages()) - {phys / PAGE_SIZE}
    {
      if list == [] {
        return 0;
      }
      var page := list[|list| - 1].start;
      Take(|list| - 1, 1);
      assert page in Range(page, 1) && Range(page, 1) == {page};
      return page * PAGE_SIZE;
    }

    /** Takes the first page of the first run that starts in [low, high). */
    method PmallocInRange(low: nat, high: nat) returns (phys: nat)
      requires Valid()
      modifies this
      ensures Valid()
      ensures phys == 0 <==> forall i :: 0 <= i < |old(list)| ==> !(low <= old(list)[i].start * PAGE_SIZE < high)
      ensures phys == 0 ==> list == old(list)
      ensures phys != 0 ==> phys % PAGE_SIZE == 0 && low <= phys < high && phys / PAGE_SIZE in old(FreePages())
      ensures phys != 0 ==> FreePages() == old(FreePages()) - {phys / PAGE_SIZE}
    {
      for k := 0 to |list|
        invariant list == old(list)
        invariant forall i :: 0 <= i < k ==> !(low <= list[i].start * PAGE_SIZE < high)
      {
        var page := list[k].start;
        if low <= page * PAGE_SIZE < high {
          Take(k, 1);
          assert page in Range(page, 1) && Range(page, 1) == {page};
          return page * PAGE_SIZE;
        }
      }
      return 0;
    }

    method Pfree(phys: nat)
      requires Valid() && phys >= PAGE_SIZE && phys % PAGE_SIZE == 0 && phys / PAGE_SIZE !in FreePages()
      modifies this
      ensures Valid() && FreePages() == old(FreePages()) + {phys / PAGE_SIZE}
    {
      assert Range(phys / PAGE_SIZE, 1) == {phys / PAGE_SIZE};
      PfreeContiguous(phys, 1);
    }

    method PfreeContiguous(phys: nat, count: nat)
      requires Valid() && phys >= PAGE_SIZE && phys % PAGE_SIZE == 0 && count > 0
      requires Range(phys / PAGE_SIZE, count) !! FreePages()
      modifies this
      ensures Valid() && FreePages() == old(FreePages()) + Range(phys / PAGE_SIZE, count)
      ensures list == old(list) + [Run(phys / PAGE_SIZE, count)]
    {
      var r := Run(phys / PAGE_SIZE, count);
      AddFacts(list, r);
      list := list + [r];
    }

    /** Cuts run k at the boundary it is too close to; the part after the boundary becomes the first
        entry.  Returns the index of the run to use, or false if run k does not reach that far. */
    method CutAtBoundary(k: nat, req: Request) returns (usable: bool, k': nat)
      requires Valid() && k < |list| && req.Ok()
      modifies this
      ensures Valid() && FreePages() == old(FreePages())
      ensures usable == (req.Candidate(old(list)[k]) in old(list)[k].Pages())
      ensures usable ==> k' < |list| && list[k'].start == req.Candidate(old(list)[k])
      ensures forall s: nat :: From(old(list), s) == old(list)[k + 1..] != [] ==>
                From(list, s) == From(old(list), s) && (usable ==> list[k'].start != s)
    {
      var page := list[k];
      if !req.Crosses(page.start) {
        forall s: nat | From(list, s) == list[k + 1..] != []
          ensures page.start != s
        {
          FromListed(list, s);
          assert list[k + 1..][0] == list[k + 1] && Apart(page, list[k + 1]);
        }
        return true, k;
      }
      AlignFacts(req, page.start);
      var align := req.Align(page.start);
      if page.count <= align {
        return false, 0;
      }
      WithoutFacts(list, k);
      TakePart(FreePages(), page.start, align, page.count);
      CutFacts(list, k, align);
      list := list[k := Run(page.start, align)];
      PutBack(page.start + align, page.count - align);
      forall s: nat | From(old(list), s) == old(list)[k + 1..] != []
        ensures From(list, s) == From(old(list), s) && list[0].start != s
      {
        FromListed(old(list), s);
        assert old(list)[k + 1..][0] == list[k + 2] && list[k + 2..] == old(list)[k + 1..];
        FromAt(list, k + 2);
      }
      return true, 0;
    }

    /** The entry that holds page q, or |list|. */
    method FindRun(q: nat) returns (k: nat)
      ensures k <= |list| && (k < |list| ==> q in list[k].Pages())
      ensures k == |list| <==> q !in FreePages()
    {
      k := 0;
      while k < |list| && q !in list[k].Pages()
        invariant k <= |list| && forall i :: 0 <= i < k ==> q !in list[i].Pages()
      {
        k := k + 1;
      }
    }

    /** Takes up to `needed` pages from the run that starts at `expected`, all of it if it is not longer. */
    method TakeNext(k: nat, expected: nat, needed: nat) returns (n: nat)
      requires Valid() && k < |list| && list[k].start == expected && needed > 0
      modifies this
      ensures Valid() && 0 < n <= needed
      ensures Range(expected, n) <= old(FreePages()) && FreePages() == old(FreePages()) - Range(expected, n)
      ensures n < needed ==> n == old(list)[k].count && list == Without(old(list), k)
    {
      n := if list[k].count > needed then needed else list[k].count;
      Take(k, n);
    }

    /**
     Extends the unlisted run of `have` pages at `start` to `count` pages with listed runs that
     continue it.  If that fails, everything absorbed is put back as one run at the front, and
     `extent` is the length of the whole free stretch at `start`.
     */
    method Absorb(start: nat, have: nat, count: nat) returns (success: bool, extent: nat)
      requires Valid() && start > 0 && 0 < have <= count && Range(start, have) !! FreePages()
      modifies this
      ensures Valid()
      ensures success ==> Range(start + have, count - have) <= old(FreePages())
      ensures success ==> FreePages() == old(FreePages()) - Range(start, count)
      ensures !success ==>
                have <= extent < count && Range(start, extent) <= FreePages() && start + extent !in FreePages()
      ensures !success ==> FreePages() == old(FreePages()) + Range(start, have)
      ensures !success ==> list != [] && list[0] == Run(start, extent)
      ensures !success ==> forall s: nat :: AheadKept(old(list), list, s, start, extent)
    {
      var i := have;
      forall s: nat
        ensures AheadKept(list, list, s, start, have)
      {
        NothingUnlinked(list, start, have, s);
      }
      while i < count
        invariant Valid() && have <= i <= count
        invariant Range(start + have, i - have) <= old(FreePages())
        invariant FreePages() == old(FreePages()) - Range(start, i)
        invariant i < count ==> forall s: nat :: AheadKept(old(list), list, s, start, i)
        decreases count - i
      {
        var expected := start + i;
        var k := FindRun(expected);
        if k == |list| {
          ghost var before := list;
          PutBack(start, i);
          forall s: nat
            ensures AheadKept(old(list), list, s, start, i)
          {
            assert AheadKept(old(list), before, s, start, i);
            PrependAhead(before, Run(start, i), s);
          }
          return false, i;
        }
        // the page before `expected` was just absorbed, so the run starts at `expected`
        StartsThere(list, k, expected);
        ghost var before, had := list, i;
        var n := TakeNext(k, expected, count - i);
        RangeSplit(start, i, i + n);
        RangeSplit(start + have, i - have, i + n - have);
        i := i + n;
        if i < count {
          forall s: nat
            ensures AheadKept(old(list), list, s, start, i)
          {
            assert AheadKept(old(list), before, s, start, had);
            WithoutAhead(old(list), before, k, s, start, had);
          }
        }
      }
      return true, i;
    }

    method PutBack(start: nat, n: nat)
      requires Valid() && start > 0 && n > 0 && Range(start, n) !! FreePages()
      modifies this
      ensures Valid() && list == [Run(start, n)] + old(list)
      ensures FreePages() == old(FreePages()) + Range(start, n)
    {
      AddFacts(list, Run(start, n));
      list := [Run(start, n)] + list;
    }

    /**
     One candidate of the search: takes the request from run k, or leaves the free pages as they
     are.  A failed attempt that absorbed other runs put the whole stretch of `extent` pages at
     `start` back as one run, and unlinked run k's successor exactly if it lay in that stretch.
     */
    method Attempt(k: nat, req: Request) returns (taken: bool, start: nat, extent: nat)
      requires Valid() && k < |list| && req.Ok()
      modifies this
      ensures Valid() && taken == !req.Rejects(old(FreePages()), old(list)[k])
      ensures taken ==>
                start == req.Candidate(old(list)[k]) && FreePages() == old(FreePages()) - Range(start, req.count)
      ensures !taken ==> FreePages() == old(FreePages())
      ensures !taken && extent > 0 ==>
                Range(start, extent) <= FreePages() && start + extent !in FreePages() && extent < req.count
      ensures !taken ==>
                (extent > 0 <==> req.Tries(old(list)[k])) && (extent > 0 ==> start == req.Candidate(old(list)[k]))
      ensures !taken ==> forall s: nat :: From(old(list), s) == old(list)[k + 1..] != [] ==>
                && AheadKept(old(list), list, s, start, extent) && s != start
                && (From(list, s) == [] <==> start <= s < start + extent)
    {
      var usable, k' := CutAtBoundary(k, req);
      if !usable {
        NullNotListed(old(list));
        OutsideNone(old(list)[k + 1..], 0, 0);
        return false, 0, 0;
      }
      ghost var cut := list;
      var page := list[k'];
      if !req.InRange(page.start) {
        NullNotListed(old(list));
        OutsideNone(old(list)[k + 1..], 0, 0);
        return false, 0, 0;
      }
      start := page.start;
      if page.count > req.count {
        Take(k', req.count);
        return true, start, 0;
      }
      WithoutFacts(list, k');
      Take(k', page.count);
      ghost var rest := list;
      taken, extent := Absorb(start, page.count, req.count);
      RangeSplit(start, page.count, req.count);
      if !taken {
        forall s: nat | From(old(list), s) == old(list)[k + 1..] != []
          ensures AheadKept(old(list), list, s, start, extent)
          ensures From(list, s) == [] <==> start <= s < start + extent
        {
          FromWithout(cut, k', s);
          assert AheadKept(rest, list, s, start, extent);
          OutsideTwice(From(cut, s), start, page.count, start, extent, extent);
          UnlinkedIff(cut, list, s, start, extent);
        }
      }
    }

    method IndexOf(s: nat) returns (k: nat)
      requires Valid()
      ensures k <= |list| && (k == |list| <==> From(list, s) == [])
      ensures k < |list| ==> list[k].start == s && From(list, s) == list[k..]
    {
      k := 0;
      while k < |list| && list[k].start != s
        invariant k <= |list| && forall i :: 0 <= i < k ==> list[i].start != s
      {
        k := k + 1;
      }
      if k < |list| {
        FromAt(list, k);
      } else {
        FromListed(list, s);
      }
    }

    /**
     The search over the list.  Each step saves the successor of the run it tries; `lost` says that
     a failed attempt unlinked that successor, where the source goes on from an unlisted page.
     Otherwise the request fails exactly if every listed run rejects it.
     */
    method PmallocContiguous(req: Request) returns (phys: nat, lost: bool)
      requires Valid() && req.Ok()
      modifies this
      ensures Valid()
      ensures phys == 0 ==> FreePages() == old(FreePages())
      ensures phys != 0 ==> phys % PAGE_SIZE == 0 && req.low <= phys && phys + req.count * PAGE_SIZE <= req.high
      ensures phys != 0 && req.boundary != 0 ==>
                phys / req.boundary == (phys + req.count * PAGE_SIZE - 1) / req.boundary
      ensures phys != 0 ==> Range(phys / PAGE_SIZE, req.count) <= old(FreePages())
      ensures phys != 0 ==> FreePages() == old(FreePages()) - Range(phys / PAGE_SIZE, req.count)
      ensures lost <==> Loses(old(list), old(FreePages()), req)
      ensures lost ==> phys == 0
      ensures lost ==> exists r, s :: MayLose(old(list), req, r, s)
      ensures !lost ==> (phys == 0 <==> forall r :: r in old(list) ==> req.Rejects(old(FreePages()), r))
    {
      ghost var free := FreePages();
      var cur: nat := if list == [] then 0 else list[0].start;
      PendingAtFirst(list, req);
      while cur != 0
        invariant Valid() && FreePages() == free && Pending(old(list), list, cur, free, req)
        decreases if cur == 0 then 0 else |From(list, cur)|
      {
        var k := IndexOf(cur);
        var next: nat := if k + 1 < |list| then list[k + 1].start else 0;
        ghost var before := list;
        if next != 0 {
          FromAt(list, k + 1);
        }
        var taken, start, extent := Attempt(k, req);
        if taken {
          TakenFits(before, k, req);
          assert before[k] in before[k..];
          return start * PAGE_SIZE, false;
        }
        LossStep(before, k, list, req, start, extent, free);
        if next != 0 {
          var k' := IndexOf(next);
          if k' == |list| {
            LostFacts(old(list), before, k, req, start, extent);
            return 0, true;
          }
          PendingStep(old(list), before, k, list, req, start, extent, free);
        } else {
          PendingLast(old(list), before, list, req, free);
        }
        cur := next;
      }
      NullNotListed(list);
      return 0, false;
    }
  }

  /** A successor is lost: the attempt on page 8 absorbs page 9, its successor, and fails. */
  method SuccessorLost() returns (pm: PageAllocator, phys: nat, lost: bool)
    ensures fresh(pm) && pm.Valid() && 8 in pm.FreePages() && 9 in pm.FreePages() && phys == 0 && lost
  {
    pm := new PageAllocator();
    pm.PfreeContiguous(8 * PAGE_SIZE, 1);
    pm.PfreeContiguous(9 * PAGE_SIZE, 1);
    var req := Request(0, 100 * PAGE_SIZE, 3, 0);
    assert pm.list == [Run(8, 1), Run(9, 1)];
    TwoPagesLose(req);
    phys, lost := pm.PmallocContiguous(req);
  }
}
